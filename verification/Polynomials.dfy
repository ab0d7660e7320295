/**
 Polynomials over GF(2^8). A polynomial is the sequence of its coefficients from the highest power down,
 without leading zeros, so that the zero polynomial is the empty sequence and equality is sequence equality.
 Every polynomial is built from the zero polynomial by steps p -> x * p + c, and all operations recurse on
 that structure.
 */
module Polynomials {
  import opened Bits
  import opened GF256
  import opened Generator

  type Poly = p: seq<byte> | p == [] || p[0] != 0

  /** x * p + c */
  function Snoc(p: Poly, c: byte): (r: Poly)
  {
    if p == [] && c == 0 then [] else p + [c]
  }

  function Init(p: Poly): Poly
    requires p != []
  {
    p[..|p| - 1]
  }

  function Last(p: Poly): byte
    requires p != []
  {
    p[|p| - 1]
  }

  function Add(p: Poly, q: Poly): Poly
    decreases |p|
  {
    if p == [] then q
    else if q == [] then p
    else Snoc(Add(Init(p), Init(q)), XorByte(Last(p), Last(q)))
  }

  function Scale(c: byte, p: Poly): Poly
    decreases |p|
  {
    if p == [] then [] else Snoc(Scale(c, Init(p)), Mul(c, Last(p)))
  }

  function Shift(p: Poly): Poly {
    Snoc(p, 0)
  }

  function Times(p: Poly, q: Poly): Poly
    decreases |p|
  {
    if p == [] then [] else Add(Shift(Times(Init(p), q)), Scale(Last(p), q))
  }

  function Const(c: byte): Poly {
    Snoc([], c)
  }

  /** Value at `x` by Horner's rule; leading zeros are harmless. */
  function Eval(s: seq<byte>, x: byte): byte
    decreases |s|
  {
    if s == [] then 0 else XorByte(Mul(Eval(s[..|s| - 1], x), x), s[|s| - 1])
  }

  // ----- structure

  lemma SnocParts(p: Poly, c: byte)
    ensures Snoc(p, c) != [] ==> Init(Snoc(p, c)) == p && Last(Snoc(p, c)) == c
  {}

  lemma SnocOfParts(p: Poly)
    requires p != []
    ensures p == Snoc(Init(p), Last(p))
  {}

  // ----- addition

  lemma {:induction false} AddSnoc(p: Poly, a: byte, q: Poly, b: byte)
    ensures Add(Snoc(p, a), Snoc(q, b)) == Snoc(Add(p, q), XorByte(a, b))
  {
    hide Xor;
    SnocParts(p, a);
    SnocParts(q, b);
    XorZero(a);
    XorZero(b);
  }

  lemma SnocAsSum(p: Poly, c: byte)
    ensures Snoc(p, c) == Add(Shift(p), Const(c))
  {
    AddSnoc(p, 0, [], c);
    XorZero(c);
    AddZero(p);
  }

  lemma {:induction false} AddCommutes(p: Poly, q: Poly)
    ensures Add(p, q) == Add(q, p)
    decreases |p|
  {
    hide Xor;
    if p != [] && q != [] {
      AddCommutes(Init(p), Init(q));
      XorCommutes(Last(p), Last(q));
    }
  }

  lemma AddZero(p: Poly)
    ensures Add(p, []) == p && Add([], p) == p
  {}

  lemma {:induction false} AddSelf(p: Poly)
    ensures Add(p, p) == []
    decreases |p|
  {
    hide Xor;
    if p != [] {
      AddSelf(Init(p));
      XorSelf(Last(p));
    }
  }

  lemma {:induction false} AddAssociates(p: Poly, q: Poly, r: Poly)
    ensures Add(Add(p, q), r) == Add(p, Add(q, r))
    decreases |p|
  {
    hide Xor;
    if p != [] && q != [] && r != [] {
      var (p', a) := (Init(p), Last(p));
      var (q', b) := (Init(q), Last(q));
      var (r', c) := (Init(r), Last(r));
      AddAssociates(p', q', r');
      XorAssociates(a, b, c);
      AddSnoc(Add(p', q'), XorByte(a, b), r', c);
      AddSnoc(p', a, Add(q', r'), XorByte(b, c));
      SnocOfParts(p);
      SnocOfParts(r);
    }
  }

  /** Adding the same polynomial twice gives back the first one. */
  lemma AddCancels(p: Poly, q: Poly)
    ensures Add(Add(p, q), q) == p
    ensures Add(q, Add(q, p)) == p
  {
    AddAssociates(p, q, q);
    AddAssociates(q, q, p);
    AddSelf(q);
  }

  lemma AddInterchange(p: Poly, q: Poly, r: Poly, s: Poly)
    ensures Add(Add(p, q), Add(r, s)) == Add(Add(p, r), Add(q, s))
  {
    hide Add;
    AddAssociates(p, q, Add(r, s));
    AddAssociates(q, r, s);
    AddCommutes(q, r);
    AddAssociates(r, q, s);
    AddAssociates(p, r, Add(q, s));
  }

  lemma {:induction false} AddLength(p: Poly, q: Poly)
    ensures |Add(p, q)| <= |p| || |Add(p, q)| <= |q|
    ensures |p| < |q| ==> |Add(p, q)| == |q| && Add(p, q)[0] == q[0]
    ensures |q| < |p| ==> |Add(p, q)| == |p| && Add(p, q)[0] == p[0]
    ensures |p| == |q| > 0 && p[0] == q[0] ==> |Add(p, q)| < |p|
    decreases |p|
  {
    hide Xor;
    if p != [] && q != [] {
      AddLength(Init(p), Init(q));
      XorSelf(Last(p));
    }
  }

  // ----- multiplication by a constant

  lemma {:induction false} ScaleSnoc(c: byte, p: Poly, a: byte)
    ensures Scale(c, Snoc(p, a)) == Snoc(Scale(c, p), Mul(c, a))
  {
    hide Mul, Xor;
    SnocParts(p, a);
    MulZero(c);
  }

  lemma {:induction false} ScaleAdd(c: byte, p: Poly, q: Poly)
    ensures Scale(c, Add(p, q)) == Add(Scale(c, p), Scale(c, q))
    decreases |p|
  {
    hide Mul, Xor;
    if p != [] && q != [] {
      ScaleAdd(c, Init(p), Init(q));
      MulAddRight(c, Last(p), Last(q));
      ScaleSnoc(c, Add(Init(p), Init(q)), XorByte(Last(p), Last(q)));
      AddSnoc(Scale(c, Init(p)), Mul(c, Last(p)), Scale(c, Init(q)), Mul(c, Last(q)));
    }
  }

  lemma {:induction false} ScaleScale(a: byte, b: byte, p: Poly)
    ensures Scale(a, Scale(b, p)) == Scale(Mul(a, b), p)
    decreases |p|
  {
    hide Mul, Xor;
    if p != [] {
      ScaleScale(a, b, Init(p));
      MulAssociates(a, b, Last(p));
      ScaleSnoc(a, Scale(b, Init(p)), Mul(b, Last(p)));
    }
  }

  lemma {:induction false} ScaleOne(p: Poly)
    ensures Scale(1, p) == p && Scale(0, p) == []
    decreases |p|
  {
    hide Mul, Xor;
    if p != [] {
      ScaleOne(Init(p));
      MulOne(Last(p));
      MulZero(Last(p));
    }
  }

  lemma ScaleShift(c: byte, p: Poly)
    ensures Scale(c, Shift(p)) == Shift(Scale(c, p))
  {
    ScaleSnoc(c, p, 0);
    MulZero(c);
  }

  lemma ShiftAdd(p: Poly, q: Poly)
    ensures Shift(Add(p, q)) == Add(Shift(p), Shift(q))
  {
    AddSnoc(p, 0, q, 0);
    XorZero(0);
  }

  // ----- multiplication

  lemma {:induction false} TimesSnoc(p: Poly, a: byte, q: Poly)
    ensures Times(Snoc(p, a), q) == Add(Shift(Times(p, q)), Scale(a, q))
  {
    hide Mul, Xor, Add;
    SnocParts(p, a);
    if p == [] && a == 0 {
      ScaleOne(q);
      assert Add([], []) == [] by { AddSelf([]); }
    }
  }

  lemma TimesShiftLeft(p: Poly, q: Poly)
    ensures Times(Shift(p), q) == Shift(Times(p, q))
  {

    TimesSnoc(p, 0, q);
    ScaleOne(q);
  }

  lemma TimesConstLeft(c: byte, q: Poly)
    ensures Times(Const(c), q) == Scale(c, q)
  {
    hide Mul, Xor;
    TimesSnoc([], c, q);
  }

  lemma {:induction false} TimesZero(p: Poly)
    ensures Times(p, []) == [] && Times([], p) == []
    decreases |p|
  {
    if p != [] {
      TimesZero(Init(p));
    }
  }

  lemma {:induction false} TimesShiftRight(p: Poly, q: Poly)
    ensures Times(p, Shift(q)) == Shift(Times(p, q))
    decreases |p|
  {
    hide Mul, Xor;
    if p != [] {
      TimesShiftRight(Init(p), q);
      ScaleShift(Last(p), q);
      ShiftAdd(Shift(Times(Init(p), q)), Scale(Last(p), q));
    }
  }

  lemma {:induction false} TimesAddRight(p: Poly, q: Poly, r: Poly)
    ensures Times(p, Add(q, r)) == Add(Times(p, q), Times(p, r))
    decreases |p|
  {
    hide Mul, Xor, Add, Scale, Shift;
    if p != [] {
      var (p', c) := (Init(p), Last(p));
      TimesAddRight(p', q, r);
      ShiftAdd(Times(p', q), Times(p', r));
      ScaleAdd(c, q, r);
      AddInterchange(Shift(Times(p', q)), Shift(Times(p', r)), Scale(c, q), Scale(c, r));
    } else {
      AddSelf([]);
    }
  }

  lemma {:induction false} TimesScaleRight(p: Poly, c: byte, q: Poly)
    ensures Times(p, Scale(c, q)) == Scale(c, Times(p, q))
    decreases |p|
  {
    hide Mul, Xor, Add, Shift;
    if p != [] {
      var (p', a) := (Init(p), Last(p));
      TimesScaleRight(p', c, q);
      ScaleShift(c, Times(p', q));
      ScaleScale(a, c, q);
      ScaleScale(c, a, q);
      MulCommutes(a, c);
      ScaleAdd(c, Shift(Times(p', q)), Scale(a, q));
    }
  }

  lemma {:induction false} TimesOne(p: Poly)
    ensures Times(p, [1]) == p && Times([1], p) == p
    decreases |p|
  {
    TimesConstLeft(1, p);
    ScaleOne(p);
    if p != [] {
      TimesOne(Init(p));
      MulOne(Last(p));
      XorZero(Last(p));
      SnocOfParts(p);
      AddSnoc(Init(p), 0, [], Last(p));
    }
  }

  lemma ScaleToConst(c: byte)
    ensures Scale(c, [1]) == Const(c)
  {
    hide Mul;
    MulOne(c);
    assert Init([1]) == [];
  }

  lemma {:induction false} TimesCommutes(p: Poly, q: Poly)
    ensures Times(p, q) == Times(q, p)
    decreases |p|
  {
    hide Mul, Xor, Add, Scale;
    TimesZero(q);
    if p != [] {
      var (p', c) := (Init(p), Last(p));
      TimesCommutes(p', q);
      SnocOfParts(p);
      SnocAsSum(p', c);
      TimesAddRight(q, Shift(p'), Const(c));
      TimesShiftRight(q, p');
      ScaleToConst(c);
      TimesScaleRight(q, c, [1]);
      TimesOne(q);
    }
  }

  lemma {:induction false} TimesAssociates(p: Poly, q: Poly, r: Poly)
    ensures Times(Times(p, q), r) == Times(p, Times(q, r))
    decreases |p|
  {
    hide Mul, Xor, Add, Scale, Shift;
    TimesZero(r);
    if p != [] {
      var (p', c) := (Init(p), Last(p));
      TimesAssociates(p', q, r);
      TimesCommutes(Times(p, q), r);
      TimesAddRight(r, Shift(Times(p', q)), Scale(c, q));
      TimesCommutes(r, Shift(Times(p', q)));
      TimesShiftLeft(Times(p', q), r);
      TimesScaleRight(r, c, q);
      TimesCommutes(r, q);
    }
  }

  lemma TimesConstRight(p: Poly, c: byte)
    ensures Times(p, Const(c)) == Scale(c, p)
  {
    TimesCommutes(p, Const(c));
    TimesConstLeft(c, p);
  }

  lemma TimesAddLeft(p: Poly, q: Poly, r: Poly)
    ensures Times(Add(p, q), r) == Add(Times(p, r), Times(q, r))
  {
    hide Times, Add;
    TimesCommutes(Add(p, q), r);
    TimesCommutes(p, r);
    TimesCommutes(q, r);
    TimesAddRight(r, p, q);
  }

  // ----- degrees

  lemma {:induction false} ScaleLength(c: byte, p: Poly)
    requires c != 0
    ensures |Scale(c, p)| == |p|
    ensures p != [] ==> Scale(c, p)[0] == Mul(c, p[0])
    decreases |p|
  {
    hide Mul, Xor;
    if p != [] {
      ScaleLength(c, Init(p));
      MulIsZero(c, p[0]);
    }
  }

  /** Degrees of nonzero factors add up and their leading coefficients multiply. */
  lemma {:induction false} TimesLength(p: Poly, q: Poly)
    requires p != [] && q != []
    ensures |Times(p, q)| == |p| + |q| - 1
    ensures Times(p, q)[0] == Mul(p[0], q[0])
    decreases |p|
  {
    hide Mul, Xor, Add, Scale;
    if |p| == 1 {
      TimesConstLeft(p[0], q);
      ScaleLength(p[0], q);
    } else {
      TimesLength(Init(p), q);
      if Last(p) == 0 {
        ScaleOne(q);
      } else {
        ScaleLength(Last(p), q);
      }
      AddLength(Shift(Times(Init(p), q)), Scale(Last(p), q));
    }
  }

  lemma TimesIsZero(p: Poly, q: Poly)
    ensures Times(p, q) == [] <==> p == [] || q == []
  {
    TimesZero(p);
    TimesZero(q);
    if p != [] && q != [] {
      TimesLength(p, q);
    }
  }

  // ----- evaluation

  lemma EvalSnoc(p: Poly, c: byte, x: byte)
    ensures Eval(Snoc(p, c), x) == XorByte(Mul(Eval(p, x), x), c)
  {
    hide Mul, Xor;
    MulZero(x);
    XorZero(0);
    if Snoc(p, c) != [] {
      SnocParts(p, c);
    }
  }

  lemma EvalConst(c: byte, x: byte)
    ensures Eval(Const(c), x) == c
  {
    hide Mul, Xor;
    EvalSnoc([], c, x);
    MulZero(x);
    XorZero(c);
  }

  lemma {:induction false} EvalAdd(p: Poly, q: Poly, x: byte)
    ensures Eval(Add(p, q), x) == XorByte(Eval(p, x), Eval(q, x))
    decreases |p|
  {
    hide Mul, Xor;
    XorZero(Eval(p, x));
    XorZero(Eval(q, x));
    if p != [] && q != [] {
      var (p', a) := (Init(p), Last(p));
      var (q', b) := (Init(q), Last(q));
      EvalAdd(p', q', x);
      EvalSnoc(Add(p', q'), XorByte(a, b), x);
      MulAddLeft(Eval(p', x), Eval(q', x), x);
      XorInterchange(Mul(Eval(p', x), x), Mul(Eval(q', x), x), a, b);
    }
  }

  lemma {:induction false} EvalScale(c: byte, p: Poly, x: byte)
    ensures Eval(Scale(c, p), x) == Mul(c, Eval(p, x))
    decreases |p|
  {
    hide Mul, Xor;
    MulZero(c);
    if p != [] {
      var (p', a) := (Init(p), Last(p));
      EvalScale(c, p', x);
      EvalSnoc(Scale(c, p'), Mul(c, a), x);
      MulAssociates(c, Eval(p', x), x);
      MulAddRight(c, Mul(Eval(p', x), x), a);
    }
  }

  lemma {:induction false} EvalTimes(p: Poly, q: Poly, x: byte)
    ensures Eval(Times(p, q), x) == Mul(Eval(p, x), Eval(q, x))
    decreases |p|
  {
    hide Mul, Xor, Add, Scale;
    MulZero(Eval(q, x));
    if p != [] {
      var (p', a) := (Init(p), Last(p));
      var (u, v) := (Eval(p', x), Eval(q, x));
      EvalTimes(p', q, x);
      EvalAdd(Shift(Times(p', q)), Scale(a, q), x);
      EvalSnoc(Times(p', q), 0, x);
      XorZero(Mul(Mul(u, v), x));
      EvalScale(a, q, x);
      MulAssociates(u, v, x);
      MulCommutes(v, x);
      MulAssociates(u, x, v);
      MulAddLeft(Mul(u, x), a, v);
    }
  }

  // ----- roots

  /** Synthetic division by x + r. */
  function DivideByRoot(p: Poly, r: byte): Poly
    decreases |p|
  {
    if p == [] then [] else Snoc(DivideByRoot(Init(p), r), Eval(Init(p), r))
  }

  lemma {:induction false} DivideByRootLength(p: Poly, r: byte)
    requires p != []
    ensures |DivideByRoot(p, r)| == |p| - 1
    ensures |p| > 1 ==> DivideByRoot(p, r)[0] == p[0]
    decreases |p|
  {
    hide Mul, Xor;
    if |p| > 1 {
      DivideByRootLength(Init(p), r);
      if |p| == 2 {
        assert Init(p) == Const(p[0]);
        EvalConst(p[0], r);
      }
    }
  }

  lemma {:induction false} DivideByRootValue(p: Poly, r: byte, x: byte)
    ensures Eval(p, x) == XorByte(Mul(XorByte(x, r), Eval(DivideByRoot(p, r), x)), Eval(p, r))
    decreases |p|
  {
    hide Mul, Xor;
    if p == [] {
      MulZero(XorByte(x, r));
      XorZero(0);
    } else {
      var (p', a, d) := (Init(p), Last(p), XorByte(x, r));
      DivideByRootValue(p', r, x);
      var (q, e) := (Eval(DivideByRoot(p', r), x), Eval(p', r));
      EvalSnoc(DivideByRoot(p', r), e, x);
      // p(x) = (d q + e) x + a  and  p(x) - p(r) = d (q x + e)
      MulAddLeft(Mul(d, q), e, x);
      MulAssociates(d, q, x);
      MulAddRight(d, Mul(q, x), e);
      MulAddLeft(x, r, e);
      MulCommutes(x, e);
      MulCommutes(r, e);
      var (u, v, w) := (Mul(d, Mul(q, x)), Mul(e, x), Mul(e, r));
      XorAssociates(u, v, a);
      XorAssociates(v, w, XorByte(w, a));
      XorCancels(a, w);
      XorAssociates(u, XorByte(v, w), XorByte(w, a));
    }
  }

  /** A nonzero polynomial has no more roots than its degree. */
  lemma {:induction false} RootCount(p: Poly, roots: seq<byte>)
    requires p != []
    requires forall i, j :: 0 <= i < j < |roots| ==> roots[i] != roots[j]
    requires forall i :: 0 <= i < |roots| ==> Eval(p, roots[i]) == 0
    ensures |roots| < |p|
    decreases |p|
  {
    hide Mul, Xor, Eval;
    if roots != [] {
      var r := roots[0];
      DivideByRootLength(p, r);
      if |p| == 1 {
        assert p == Const(p[0]);
        EvalConst(p[0], r);
      } else {
        var (q, rest) := (DivideByRoot(p, r), roots[1..]);
        forall i | 0 <= i < |rest|
          ensures Eval(q, rest[i]) == 0
        {
          DivideByRootValue(p, r, rest[i]);
          XorZero(Mul(XorByte(rest[i], r), Eval(q, rest[i])));
          XorIsZero(rest[i], r);
          MulIsZero(XorByte(rest[i], r), Eval(q, rest[i]));
        }
        RootCount(q, rest);
      }
    }
  }

  // ----- coefficients, and polynomials from sequences that may have leading zeros

  function Coefficient(s: seq<byte>, i: nat): byte {
    if i < |s| then s[|s| - 1 - i] else 0
  }

  function Normalize(s: seq<byte>): Poly
    decreases |s|
  {
    if s == [] || s[0] != 0 then s else Normalize(s[1..])
  }

  lemma {:induction false} NormalizeCoefficient(s: seq<byte>, i: nat)
    ensures Coefficient(Normalize(s), i) == Coefficient(s, i)
    ensures |Normalize(s)| <= |s|
    decreases |s|
  {
    if s != [] && s[0] == 0 {
      NormalizeCoefficient(s[1..], i);
    }
  }

  lemma {:induction false} NormalizeValue(s: seq<byte>, x: byte)
    ensures Eval(Normalize(s), x) == Eval(s, x)
    decreases |s|
  {
    hide Mul, Xor;
    if s != [] && s[0] == 0 {
      NormalizeValue(s[1..], x);
      LeadingZeroValue(s, x);
    }
  }

  lemma {:induction false} LeadingZeroValue(s: seq<byte>, x: byte)
    requires s != [] && s[0] == 0
    ensures Eval(s, x) == Eval(s[1..], x)
    decreases |s|
  {
    hide Mul, Xor;
    var t := s[..|s| - 1];
    if t == [] {
      assert Eval(t, x) == 0;
      MulZero(x);
      XorZero(0);
    } else {
      LeadingZeroValue(t, x);
      assert s[1..][..|s| - 2] == t[1..];
    }
  }

  /** Polynomials with the same coefficients are equal. */
  lemma SameCoefficients(p: Poly, q: Poly)
    requires forall i: nat :: Coefficient(p, i) == Coefficient(q, i)
    ensures p == q
  {
    var top := if |p| < |q| then |q| - 1 else if |q| < |p| then |p| - 1 else 0;
    assert Coefficient(p, top) == Coefficient(q, top);
    assert |p| == |q|;
    forall j | 0 <= j < |p|
      ensures p[j] == q[j]
    {
      assert Coefficient(p, |p| - 1 - j) == Coefficient(q, |p| - 1 - j);
    }
  }

  lemma SnocCoefficient(p: Poly, c: byte, i: nat)
    ensures Coefficient(Snoc(p, c), i) == if i == 0 then c else Coefficient(p, i - 1)
  {}

  lemma {:induction false} AddCoefficient(p: Poly, q: Poly, i: nat)
    ensures Coefficient(Add(p, q), i) == XorByte(Coefficient(p, i), Coefficient(q, i))
    decreases |p|
  {
    hide Xor;
    XorZero(Coefficient(p, i));
    XorZero(Coefficient(q, i));
    if p != [] && q != [] {
      SnocCoefficient(Add(Init(p), Init(q)), XorByte(Last(p), Last(q)), i);
      if i > 0 {
        AddCoefficient(Init(p), Init(q), i - 1);
      }
    }
  }

  lemma {:induction false} ScaleCoefficient(c: byte, p: Poly, i: nat)
    ensures Coefficient(Scale(c, p), i) == Mul(c, Coefficient(p, i))
    decreases |p|
  {
    hide Mul, Xor;
    MulZero(c);
    if p != [] {
      SnocCoefficient(Scale(c, Init(p)), Mul(c, Last(p)), i);
      if i > 0 {
        ScaleCoefficient(c, Init(p), i - 1);
      }
    }
  }
}
