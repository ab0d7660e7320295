/**
 The key equation of Reed-Solomon decoding. A list of errors determines an error locator, an error evaluator
 and the polynomial of its power sums, and these satisfy  evaluator = locator * sums + cofactor * x^r.
 */
module KeyEquation {
  import opened Bits
  import opened GF256
  import opened Polynomials

  /** An error: its locator is the power of 2 that belongs to its position, its magnitude what was added there. */
  datatype Error = Error(locator: byte, magnitude: byte)

  function Pow(x: byte, k: nat): byte {
    if k == 0 then 1 else Mul(x, Pow(x, k - 1))
  }

  lemma {:induction false} PowOfExp(a: nat, k: nat)
    ensures Pow(Exp(a), k) == Exp(a * k)
    decreases k
  {
    hide Mul;
    if k == 0 {
      assert a * k == 0;
    } else {
      PowOfExp(a, k - 1);
      ExpAdd(a, a * (k - 1));
      assert a * k == a + a * (k - 1);
    }
  }

  // ----- the polynomials of an error list

  /** x^k * c */
  function Monomial(k: nat, c: byte): Poly {
    if k == 0 then Const(c) else Shift(Monomial(k - 1, c))
  }

  /** 1 + a * x */
  function OnePlus(a: byte): Poly {
    Snoc(Const(a), 1)
  }

  function Locator(es: seq<Error>): Poly {
    if es == [] then [1] else Times(OnePlus(es[|es| - 1].locator), Locator(es[..|es| - 1]))
  }

  function Evaluator(es: seq<Error>): Poly {
    if es == [] then []
    else
      var (e, rest) := (es[|es| - 1], es[..|es| - 1]);
      Add(Times(OnePlus(e.locator), Evaluator(rest)), Scale(e.magnitude, Locator(rest)))
  }

  /** Sum of a^j * x^j for j < r. */
  function Geometric(a: byte, r: nat): Poly {
    if r == 0 then [] else Snoc(Scale(a, Geometric(a, r - 1)), 1)
  }

  /** The polynomial whose coefficient at j < r is the sum of magnitude * locator^j over the errors. */
  function PowerSums(es: seq<Error>, r: nat): Poly {
    if es == [] then []
    else
      var (e, rest) := (es[|es| - 1], es[..|es| - 1]);
      Add(PowerSums(rest, r), Scale(e.magnitude, Geometric(e.locator, r)))
  }

  function Cofactor(es: seq<Error>, r: nat): Poly {
    if es == [] then []
    else
      var (e, rest) := (es[|es| - 1], es[..|es| - 1]);
      Add(Times(OnePlus(e.locator), Cofactor(rest, r)), Scale(Mul(e.magnitude, Pow(e.locator, r)), Locator(rest)))
  }

  // ----- monomials

  lemma {:induction false} TimesMonomial(p: Poly, k: nat, c: byte)
    ensures Times(p, Monomial(k, c)) == Scale(c, Times(p, Monomial(k, 1)))
    decreases k
  {
    hide Mul, Times, Scale, Add;
    if k == 0 {
      TimesConstRight(p, c);
      TimesOne(p);
      assert Const(1) == [1];
    } else {
      TimesMonomial(p, k - 1, c);
      TimesShiftRight(p, Monomial(k - 1, c));
      TimesShiftRight(p, Monomial(k - 1, 1));
      ScaleShift(c, Times(p, Monomial(k - 1, 1)));
    }
  }

  lemma {:induction false} MonomialLength(k: nat, c: byte)
    requires c != 0
    ensures |Monomial(k, c)| == k + 1 && Monomial(k, c)[0] == c
  {
    if k > 0 {
      MonomialLength(k - 1, c);
    }
  }

  lemma {:induction false} ScaleMonomial(a: byte, k: nat, c: byte)
    ensures Scale(a, Monomial(k, c)) == Monomial(k, Mul(a, c))
  {
    hide Mul;
    if k == 0 {
      ScaleSnoc(a, [], c);
    } else {
      ScaleMonomial(a, k - 1, c);
      ScaleShift(a, Monomial(k - 1, c));
    }
  }

  /** (1 + a x) times the geometric sum telescopes to 1 + a^r x^r. */
  lemma {:induction false} Telescope(a: byte, r: nat)
    ensures Times(OnePlus(a), Geometric(a, r)) == Add(Monomial(r, Pow(a, r)), [1])
    decreases r
  {
    hide Mul, Times, Scale, Add, Snoc;
    var f, g := OnePlus(a), Geometric(a, r);
    if r == 0 {
      TimesZero(f);
      AddSelf([1]);
      assert Const(1) == [1] by { ConstOne(); }
    } else {
      var h, m := Geometric(a, r - 1), Monomial(r - 1, Pow(a, r - 1));
      Telescope(a, r - 1);
      ConstOne();
      SnocAsSum(Scale(a, h), 1);
      TimesAddRight(f, Shift(Scale(a, h)), [1]);
      TimesShiftRight(f, Scale(a, h));
      TimesScaleRight(f, a, h);
      TimesOne(f);
      ScaleAdd(a, m, [1]);
      ScaleToConst(a);
      ShiftAdd(Scale(a, m), Const(a));
      SnocAsSum(Const(a), 1);
      ScaleMonomial(a, r - 1, Pow(a, r - 1));
      var n := Monomial(r, Pow(a, r));
      AddAssociates(n, Shift(Const(a)), f);
      AddCancels([1], Shift(Const(a)));
    }
  }

  lemma ConstOne()
    ensures Const(1) == [1]
  {}

  /** The key equation. */
  lemma {:induction false} KeyEquationHolds(es: seq<Error>, r: nat)
    ensures Evaluator(es) == Add(Times(Locator(es), PowerSums(es, r)), Times(Cofactor(es, r), Monomial(r, 1)))
    decreases |es|
  {
    hide Mul, Times, Scale, Add, Snoc, OnePlus, Monomial, Geometric, Pow;
    var m := Monomial(r, 1);
    if es == [] {
      TimesZero([1]);
      TimesZero(m);
      AddZero([]);
    } else {
      var (e, rest) := (es[|es| - 1], es[..|es| - 1]);
      KeyEquationHolds(rest, r);
      var (a, y, f) := (e.locator, e.magnitude, OnePlus(e.locator));
      var (l, s, u) := (Locator(rest), PowerSums(rest, r), Cofactor(rest, r));
      var c := Mul(y, Pow(a, r));
      var fl, g := Times(f, l), Geometric(a, r);
      LocatorTimesStep(a, y, l, s, r);
      // the two multiples of x^r
      TimesAddLeft(Times(f, u), Scale(c, l), m);
      TimesAssociates(f, u, m);
      TimesAddRight(f, Times(l, s), Times(u, m));
      var p, q, w := Times(f, Times(l, s)), Times(f, Times(u, m)), Times(Scale(c, l), m);
      CancelMiddle(p, w, Scale(y, l), q);
    }
  }

  /** Multiplying locator and power sums after one more error. */
  lemma LocatorTimesStep(a: byte, y: byte, l: Poly, s: Poly, r: nat)
    ensures Times(Times(OnePlus(a), l), Add(s, Scale(y, Geometric(a, r)))) ==
      Add(Times(OnePlus(a), Times(l, s)), Add(Times(Scale(Mul(y, Pow(a, r)), l), Monomial(r, 1)), Scale(y, l)))
  {
    hide Mul, Times, Scale, Add, Snoc, OnePlus, Monomial, Geometric, Pow;
    var f, g, c := OnePlus(a), Geometric(a, r), Pow(a, r);
    var fl := Times(f, l);
    TimesAddRight(fl, s, Scale(y, g));
    TimesAssociates(f, l, s);
    TimesScaleRight(fl, y, g);
    TimesCommutes(f, l);
    TimesAssociates(l, f, g);
    Telescope(a, r);
    TimesAddRight(l, Monomial(r, c), [1]);
    TimesOne(l);
    ScaleAdd(y, Times(l, Monomial(r, c)), l);
    TimesMonomial(l, r, c);
    ScaleScale(y, c, Times(l, Monomial(r, 1)));
    TimesScaleLeft(Mul(y, c), l, Monomial(r, 1));
  }

  lemma TimesScaleLeft(c: byte, p: Poly, q: Poly)
    ensures Times(Scale(c, p), q) == Scale(c, Times(p, q))
  {
    hide Times, Scale;
    TimesCommutes(Scale(c, p), q);
    TimesScaleRight(q, c, p);
    TimesCommutes(p, q);
  }

  lemma CancelMiddle(p: Poly, w: Poly, s: Poly, q: Poly)
    ensures Add(Add(p, Add(w, s)), Add(q, w)) == Add(Add(p, q), s)
  {
    hide Add;
    AddCommutes(w, s);
    AddCommutes(q, w);
    AddAssociates(p, s, w);
    AddAssociates(Add(p, s), w, Add(w, q));
    AddCancels(q, w);
    AddAssociates(p, s, q);
    AddCommutes(s, q);
    AddAssociates(p, q, s);
  }
}
