/**
 The extended Euclidean algorithm as the decoder runs it, stopped half way, and what its result has to do
 with the key equation.
 */
module Euclid {
  import opened Bits
  import opened Options
  import opened GF256
  import opened Generator
  import opened Polynomials
  import opened KeyEquation

  /** The degree as the decoder computes it: the zero polynomial has degree 0. */
  function Degree(p: Poly): nat {
    if p == [] then 0 else |p| - 1
  }

  // ----- division with remainder

  /** Long division of `r` by `b`; `q` is the quotient so far. */
  ghost function DivideFrom(r: Poly, b: Poly, q: Poly): (res: (Poly, Poly))
    requires b != []
    ensures |res.1| < |b|
    decreases |r|
  {
    hide Mul, Times, Add, Inverse, Monomial;
    if |r| < |b| then (q, r)
    else
      var (d, s) := (|r| - |b|, Mul(r[0], Inverse(b[0])));
      DivideStepShrinks(r, b);
      DivideFrom(Add(r, Times(b, Monomial(d, s))), b, Add(q, Monomial(d, s)))
  }

  /** Subtracting the right multiple of `b` cancels the leading term of `r`. */
  lemma DivideStepShrinks(r: Poly, b: Poly)
    requires b != [] && |r| >= |b|
    ensures var s := Mul(r[0], Inverse(b[0]));
            s != 0 && |Add(r, Times(b, Monomial(|r| - |b|, s)))| < |r|
  {
    hide Mul, Times, Add, Inverse;
    var i := Inverse(b[0]);
    var s := Mul(r[0], i);
    MulIsZero(r[0], i);
    var m := Monomial(|r| - |b|, s);
    MonomialLength(|r| - |b|, s);
    TimesLength(b, m);
    MulCommutes(r[0], i);
    MulAssociates(b[0], i, r[0]);
    MulOne(r[0]);
    AddLength(r, Times(b, m));
  }

  /** Quotient times divisor plus remainder is the dividend. */
  lemma {:induction false} DivideValue(r: Poly, b: Poly, q: Poly)
    requires b != []
    ensures var (q', r') := DivideFrom(r, b, q); Add(Times(q', b), r') == Add(Times(q, b), r)
    decreases |r|
  {
    hide Mul, Times, Add, Inverse, Monomial;
    if |r| >= |b| {
      var m := Monomial(|r| - |b|, Mul(r[0], Inverse(b[0])));
      DivideStepShrinks(r, b);
      DivideValue(Add(r, Times(b, m)), b, Add(q, m));
      TimesAddLeft(q, m, b);
      TimesCommutes(m, b);
      var bm := Times(b, m);
      AddCommutes(r, bm);
      AddAssociates(Times(q, b), bm, Add(bm, r));
      AddCancels(r, bm);
    }
  }

  lemma {:induction false} DivideLength(r: Poly, b: Poly, q: Poly)
    requires b != []
    requires |r| >= |b| && (q == [] || |q| > |r| - |b| + 1)
    ensures |DivideFrom(r, b, q).0| == if q == [] then |r| - |b| + 1 else |q|
    decreases |r|
  {
    hide Mul, Times, Add, Inverse, Monomial;
    DivideStepShrinks(r, b);
    var (d, s) := (|r| - |b|, Mul(r[0], Inverse(b[0])));
    var m := Monomial(d, s);
    var r', q' := Add(r, Times(b, m)), Add(q, m);
    MonomialLength(d, s);
    AddLength(q, m);
    AddZero(m);
    if |r'| >= |b| {
      DivideLength(r', b, q');
    }
  }

  // ----- the algorithm

  /** The loop: `r` and `t` are the current remainder and its multiplier of the second input. */
  ghost function Loop(rLast: Poly, r: Poly, tLast: Poly, t: Poly, twoS: nat): Option<(Poly, Poly)>
    decreases |r|
  {
    if 2 * Degree(r) < twoS then Some((t, r))
    else if r == [] then None
    else
      var (q, rem) := DivideFrom(rLast, r, []);
      if Degree(rem) >= Degree(r) then None
      else Loop(r, rem, t, Add(Times(q, t), tLast), twoS)
  }

  ghost function Run(a: Poly, b: Poly, twoS: nat): Option<(Poly, Poly)> {
    var (r0, r1) := if Degree(a) < Degree(b) then (b, a) else (a, b);
    match Loop(r0, r1, [], [1], twoS)
    case None => None
    case Some((t, r)) =>
      if Eval(t, 0) == 0 then None
      else Some((Scale(Inverse(Eval(t, 0)), t), Scale(Inverse(Eval(t, 0)), r)))
  }

  // ----- every remainder is a multiple of the second input modulo x^twoS

  /** r == t * s modulo x^twoS */
  ghost predicate Congruent(t: Poly, s: Poly, r: Poly, twoS: nat) {
    exists k: Poly :: Add(Times(t, s), Times(k, Monomial(twoS, 1))) == r
  }

  lemma CongruentStep(q: Poly, t: Poly, r: Poly, tLast: Poly, rLast: Poly, rem: Poly, s: Poly, twoS: nat)
    requires Congruent(t, s, r, twoS) && Congruent(tLast, s, rLast, twoS)
    requires Add(Times(q, r), rem) == rLast
    ensures Congruent(Add(Times(q, t), tLast), s, rem, twoS)
  {
    hide Times, Add, Monomial;
    var m := Monomial(twoS, 1);
    var k: Poly :| Add(Times(t, s), Times(k, m)) == r;
    var kLast: Poly :| Add(Times(tLast, s), Times(kLast, m)) == rLast;
    var k' := Add(Times(q, k), kLast);
    TimesAddLeft(Times(q, t), tLast, s);
    TimesAddLeft(Times(q, k), kLast, m);
    TimesAssociates(q, t, s);
    TimesAssociates(q, k, m);
    TimesAddRight(q, Times(t, s), Times(k, m));
    AddInterchange(Times(q, Times(t, s)), Times(tLast, s), Times(q, Times(k, m)), Times(kLast, m));
    AddCancels(rem, Times(q, r));
  }

  lemma {:induction false} LoopCongruent(rLast: Poly, r: Poly, tLast: Poly, t: Poly, s: Poly, twoS: nat)
    requires Congruent(t, s, r, twoS) && Congruent(tLast, s, rLast, twoS)
    ensures var res := Loop(rLast, r, tLast, t, twoS);
            res.Some? ==> Congruent(res.value.0, s, res.value.1, twoS) && 2 * Degree(res.value.1) < twoS
    decreases |r|
  {
    hide Times, Add, Congruent;
    if 2 * Degree(r) >= twoS && r != [] {
      var (q, rem) := DivideFrom(rLast, r, []);
      DivideValue(rLast, r, []);
      TimesZero(r);
      AddZero(rLast);
      CongruentStep(q, t, r, tLast, rLast, rem, s, twoS);
      LoopCongruent(r, rem, t, Add(Times(q, t), tLast), s, twoS);
    }
  }

  /** Scaling both sides keeps the congruence. */
  lemma CongruentScale(c: byte, t: Poly, s: Poly, r: Poly, twoS: nat)
    requires Congruent(t, s, r, twoS)
    ensures Congruent(Scale(c, t), s, Scale(c, r), twoS)
  {
    hide Times, Add, Scale, Monomial;
    var m := Monomial(twoS, 1);
    var k: Poly :| Add(Times(t, s), Times(k, m)) == r;
    ScaleAdd(c, Times(t, s), Times(k, m));
    TimesScaleLeft(c, t, s);
    TimesScaleLeft(c, k, m);
    assert Add(Times(Scale(c, t), s), Times(Scale(c, k), m)) == Scale(c, r);
  }

  /**
   What any result of the algorithm satisfies, for every syndrome polynomial: the key equation, the bound on
   the evaluator's degree, and a locator with constant term 1.
   */
  lemma RunSolvesKeyEquation(s: Poly, twoS: nat)
    requires |s| <= twoS
    ensures var res := Run(Monomial(twoS, 1), s, twoS);
            res.Some? ==>
              && Congruent(res.value.0, s, res.value.1, twoS)
              && 2 * Degree(res.value.1) < twoS
              && Eval(res.value.0, 0) == 1
  {
    hide Mul, Times, Add, Scale, Congruent, Loop, Inverse, Eval;
    var m := Monomial(twoS, 1);
    MonomialLength(twoS, 1);
    FirstRowsCongruent(s, twoS);
    LoopCongruent(m, s, [], [1], s, twoS);
    var res := Loop(m, s, [], [1], twoS);
    if res.Some? && Eval(res.value.0, 0) != 0 {
      var (t, r) := res.value;
      var c := Inverse(Eval(t, 0));
      CongruentScale(c, t, s, r, twoS);
      EvalScale(c, t, 0);
      MulCommutes(c, Eval(t, 0));
      ScaleLength(c, r);
    }
  }

  lemma FirstRowsCongruent(s: Poly, twoS: nat)
    ensures Congruent([], s, Monomial(twoS, 1), twoS) && Congruent([1], s, s, twoS)
  {
    hide Times, Add, Monomial;
    var m := Monomial(twoS, 1);
    TimesOne(m);
    TimesOne(s);
    TimesZero(s);
    TimesZero(m);
    AddZero(m);
    AddZero(s);
    assert Add(Times([], s), Times([1], m)) == m;
    assert Add(Times([1], s), Times([], m)) == s;
  }

  // ----- the result is the true locator and evaluator, up to a common factor

  /** Shape of two consecutive rows: degrees fall in the remainders, grow in the multipliers, and add up. */
  predicate Shape(rLast: Poly, r: Poly, tLast: Poly, t: Poly, twoS: nat) {
    && |r| < |rLast| && |tLast| < |t|
    && |t| + |rLast| == twoS + 2
    && 2 * (|rLast| - 1) >= twoS
  }

  /** `p` is the combination u * a + v * b. */
  predicate Combines(p: Poly, u: Poly, a: Poly, v: Poly, b: Poly) {
    p == Add(Times(u, a), Times(v, b))
  }

  lemma ShapeStep(rLast: Poly, r: Poly, tLast: Poly, t: Poly, q: Poly, rem: Poly, twoS: nat)
    requires Shape(rLast, r, tLast, t, twoS) && 2 * Degree(r) >= twoS >= 1
    requires |rem| < |r| && |q| == |rLast| - |r| + 1
    ensures Shape(r, rem, t, Add(Times(q, t), tLast), twoS)
  {
    hide Times, Add;
    TimesLength(q, t);
    AddLength(Times(q, t), tLast);
  }

  lemma CombinesStep(p: Poly, u: Poly, aLast: Poly, v: Poly, a: Poly, q: Poly, aNext: Poly)
    requires Combines(p, u, aLast, v, a)
    requires Add(Times(q, a), aNext) == aLast
    ensures Combines(p, Add(Times(u, q), v), a, u, aNext)
  {
    hide Times, Add;
    TimesAddRight(u, Times(q, a), aNext);
    TimesAssociates(u, q, a);
    TimesAddLeft(Times(u, q), v, a);
    var x, y, z := Times(Times(u, q), a), Times(u, aNext), Times(v, a);
    AddAssociates(x, y, z);
    AddCommutes(y, z);
    AddAssociates(x, z, y);
  }

  /**
   A solution of low degree uses only the last row: if both the locator `l` and the evaluator `w` combine the
   last two rows with the same coefficients, the coefficient of the older row is zero.
   */
  lemma OnlyLastRow(rLast: Poly, r: Poly, tLast: Poly, t: Poly, twoS: nat, l: Poly, w: Poly, u: Poly, v: Poly)
    requires Shape(rLast, r, tLast, t, twoS) && 2 * Degree(r) < twoS
    requires Combines(l, u, tLast, v, t) && Combines(w, u, rLast, v, r)
    requires 2 * (|l| - 1) <= twoS && |w| < |l|
    ensures u == []
  {
    hide Times, Add, Mul;
    if u != [] {
      TimesLength(u, rLast);
      TimesZero(v);
      TimesZero(r);
      AddLength(Times(u, rLast), Times(v, r));
      if v != [] && r != [] {
        TimesLength(v, r);
        TimesLength(v, t);
        TimesZero(u);
        if tLast != [] {
          TimesLength(u, tLast);
        }
        AddLength(Times(u, tLast), Times(v, t));
      }
    }
  }

  /** Whatever the loop returns, its multiplier has at most half of twoS as its degree. */
  lemma {:induction false} LoopLength(rLast: Poly, r: Poly, tLast: Poly, t: Poly, twoS: nat)
    requires twoS >= 1 && Shape(rLast, r, tLast, t, twoS)
    ensures var res := Loop(rLast, r, tLast, t, twoS); res.Some? ==> 2 * (|res.value.0| - 1) <= twoS
    decreases |r|
  {
    hide Times, Add, Mul;
    if 2 * Degree(r) >= twoS && r != [] {
      var (q, rem) := DivideFrom(rLast, r, []);
      DivideLength(rLast, r, []);
      ShapeStep(rLast, r, tLast, t, q, rem, twoS);
      LoopLength(r, rem, t, Add(Times(q, t), tLast), twoS);
    }
  }

  lemma RunLength(s: Poly, twoS: nat)
    requires s != [] && |s| <= twoS
    ensures var res := Run(Monomial(twoS, 1), s, twoS); res.Some? ==> 2 * (|res.value.0| - 1) <= twoS
  {
    hide Loop, Scale, Inverse, Eval, Monomial;
    var m := Monomial(twoS, 1);
    MonomialLength(twoS, 1);
    LoopLength(m, s, [], [1], twoS);
    var res := Loop(m, s, [], [1], twoS);
    if res.Some? && Eval(res.value.0, 0) != 0 {
      ScaleLength(Inverse(Eval(res.value.0, 0)), res.value.0);
    }
  }

  /** The loop never gives up, and what it returns divides every low-degree solution by the same factor. */
  lemma {:induction false} LoopDividesSolution(rLast: Poly, r: Poly, tLast: Poly, t: Poly, twoS: nat,
                                               l: Poly, w: Poly, u: Poly, v: Poly)
      returns (factor: Poly)
    requires twoS >= 1 && Shape(rLast, r, tLast, t, twoS)
    requires Combines(l, u, tLast, v, t) && Combines(w, u, rLast, v, r)
    requires 2 * (|l| - 1) <= twoS && |w| < |l|
    ensures var res := Loop(rLast, r, tLast, t, twoS);
            res.Some? && res.value.0 != [] && l == Times(factor, res.value.0) && w == Times(factor, res.value.1)
    decreases |r|
  {
    hide Times, Add, Mul, Combines;
    if 2 * Degree(r) < twoS {
      OnlyLastRow(rLast, r, tLast, t, twoS, l, w, u, v);
      CombinesOnlySecond(l, tLast, v, t);
      CombinesOnlySecond(w, rLast, v, r);
      factor := v;
    } else {
      var (q, rem) := DivideFrom(rLast, r, []);
      DivideLength(rLast, r, []);
      DivideValue(rLast, r, []);
      TimesZero(r);
      AddZero(rLast);
      var tNext := Add(Times(q, t), tLast);
      ShapeStep(rLast, r, tLast, t, q, rem, twoS);
      CombinesStep(w, u, rLast, v, r, q, rem);
      AddCancels(tLast, Times(q, t));
      CombinesStep(l, u, tLast, v, t, q, tNext);
      factor := LoopDividesSolution(r, rem, t, tNext, twoS, l, w, Add(Times(u, q), v), u);
    }
  }

  lemma CombinesOnlySecond(p: Poly, a: Poly, v: Poly, b: Poly)
    requires Combines(p, [], a, v, b)
    ensures p == Times(v, b)
  {
    TimesZero(a);
    AddZero(Times(v, b));
  }

  /** A solution without common roots is found exactly: the factor is a constant. */
  lemma FactorIsConstant(factor: Poly, t: Poly, r: Poly, l: Poly, w: Poly, roots: seq<byte>)
    requires t != [] && l == Times(factor, t) && w == Times(factor, r)
    requires |l| == |roots| + 1
    requires forall i, j :: 0 <= i < j < |roots| ==> roots[i] != roots[j]
    requires forall i :: 0 <= i < |roots| ==> Eval(l, roots[i]) == 0 && Eval(w, roots[i]) != 0
    ensures |factor| == 1
  {
    hide Times, Eval, Mul;
    TimesIsZero(factor, t);
    TimesLength(factor, t);
    forall i | 0 <= i < |roots|
      ensures Eval(t, roots[i]) == 0
    {
      EvalTimes(factor, t, roots[i]);
      EvalTimes(factor, r, roots[i]);
      MulIsZero(Eval(factor, roots[i]), Eval(t, roots[i]));
      MulIsZero(Eval(factor, roots[i]), Eval(r, roots[i]));
    }
    RootCount(t, roots);
  }

  /**
   The algorithm recovers locator and evaluator exactly: whenever (l, w) solves the key equation for `s`,
   with l(0) = 1, at most twoS / 2 distinct roots all of which are needed, and no root shared with w.
   */
  lemma RunRecovers(s: Poly, twoS: nat, l: Poly, w: Poly, k: Poly, roots: seq<byte>)
    requires s != [] && 1 <= |s| <= twoS
    requires w == Add(Times(l, s), Times(k, Monomial(twoS, 1)))
    requires Eval(l, 0) == 1 && |l| == |roots| + 1 && |w| <= |roots| && 2 * |roots| <= twoS
    requires forall i, j :: 0 <= i < j < |roots| ==> roots[i] != roots[j]
    requires forall i :: 0 <= i < |roots| ==> Eval(l, roots[i]) == 0 && Eval(w, roots[i]) != 0
    ensures Run(Monomial(twoS, 1), s, twoS) == Some((l, w))
  {
    hide Mul, Times, Add, Scale, Loop, Inverse, Eval, Monomial;
    var m := Monomial(twoS, 1);
    MonomialLength(twoS, 1);
    assert Combines(l, k, [], l, [1]) by {
      TimesZero(k);
      TimesOne(l);
      AddZero(l);
    }
    AddCommutes(Times(l, s), Times(k, m));
    var factor := LoopDividesSolution(m, s, [], [1], twoS, l, w, k, l);
    var (t, r) := Loop(m, s, [], [1], twoS).value;
    FactorIsConstant(factor, t, r, l, w, roots);
    var c := factor[0];
    assert factor == Const(c);
    TimesConstLeft(c, t);
    TimesConstLeft(c, r);
    EvalScale(c, t, 0);
    MulCommutes(c, Eval(t, 0));
    InverseUnique(Eval(t, 0), c);
  }
}
