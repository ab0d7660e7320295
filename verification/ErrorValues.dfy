/** Values of the error locator and the error evaluator: where they vanish, and Forney's formula. */
module ErrorValues {
  import opened Bits
  import opened GF256
  import opened Generator
  import opened Polynomials
  import opened KeyEquation

  /** Distinct nonzero locators. */
  predicate Located(es: seq<Error>) {
    && (forall i :: 0 <= i < |es| ==> es[i].locator != 0)
    && (forall i, j :: 0 <= i < j < |es| ==> es[i].locator != es[j].locator)
  }

  /** Distinct nonzero locators, and every error changes something. */
  predicate Proper(es: seq<Error>) {
    Located(es) && forall i :: 0 <= i < |es| ==> es[i].magnitude != 0
  }

  function Locators(es: seq<Error>): (xs: seq<byte>)
    ensures |xs| == |es|
    ensures forall i :: 0 <= i < |es| ==> xs[i] == es[i].locator
  {
    seq(|es|, i requires 0 <= i < |es| => es[i].locator)
  }

  /** Product of 1 + x * z over the locators except number `skip`. */
  function Product(xs: seq<byte>, z: byte, skip: int): byte {
    if xs == [] then 1
    else
      var (j, rest) := (|xs| - 1, xs[..|xs| - 1]);
      if j == skip then Product(rest, z, skip)
      else Mul(Product(rest, z, skip), XorByte(1, Mul(xs[j], z)))
  }

  lemma LocatorsPrefix(es: seq<Error>)
    requires es != []
    ensures Locators(es[..|es| - 1]) == Locators(es)[..|es| - 1]
  {}

  lemma OnePlusValue(a: byte, z: byte)
    ensures Eval(OnePlus(a), z) == XorByte(1, Mul(a, z))
  {
    hide Mul, Xor;
    EvalSnoc(Const(a), 1, z);
    EvalConst(a, z);
    XorCommutes(1, Mul(a, z));
  }

  lemma OnePlusVanishes(a: byte, z: byte)
    requires a != 0
    ensures XorByte(1, Mul(a, z)) == 0 <==> z == Inverse(a)
  {
    hide Mul, Xor, Inverse;
    XorIsZero(1, Mul(a, z));
    if Mul(a, z) == 1 {
      InverseUnique(a, z);
    }
  }

  lemma {:induction false} LocatorLength(es: seq<Error>)
    requires Located(es)
    ensures |Locator(es)| == |es| + 1
    decreases |es|
  {
    hide Mul;
    if es != [] {
      LocatorLength(es[..|es| - 1]);
      TimesLength(OnePlus(es[|es| - 1].locator), Locator(es[..|es| - 1]));
    }
  }

  lemma {:induction false} EvaluatorLength(es: seq<Error>)
    requires Located(es)
    ensures |Evaluator(es)| <= |es|
    decreases |es|
  {
    hide Mul;
    if es != [] {
      var (e, rest) := (es[|es| - 1], es[..|es| - 1]);
      EvaluatorLength(rest);
      LocatorLength(rest);
      ScaleOne(Locator(rest));
      if e.magnitude != 0 {
        ScaleLength(e.magnitude, Locator(rest));
      }
      TimesZero(OnePlus(e.locator));
      if Evaluator(rest) != [] {
        TimesLength(OnePlus(e.locator), Evaluator(rest));
      }
      AddLength(Times(OnePlus(e.locator), Evaluator(rest)), Scale(e.magnitude, Locator(rest)));
    }
  }

  lemma {:induction false} LocatorValue(es: seq<Error>, z: byte)
    ensures Eval(Locator(es), z) == Product(Locators(es), z, -1)
    decreases |es|
  {
    hide Mul, Xor, Times, OnePlus;
    if es == [] {
      EvalConst(1, z);
      ConstOne();
    } else {
      var (a, rest) := (es[|es| - 1].locator, es[..|es| - 1]);
      LocatorValue(rest, z);
      LocatorsPrefix(es);
      EvalTimes(OnePlus(a), Locator(rest), z);
      OnePlusValue(a, z);
      MulCommutes(XorByte(1, Mul(a, z)), Product(Locators(rest), z, -1));
    }
  }

  lemma {:induction false} ProductVanishes(xs: seq<byte>, z: byte, skip: int)
    requires forall i :: 0 <= i < |xs| ==> xs[i] != 0
    ensures Product(xs, z, skip) == 0 <==> exists j :: 0 <= j < |xs| && j != skip && z == Inverse(xs[j])
    decreases |xs|
  {
    hide Mul, Xor, Inverse;
    if xs != [] {
      var (j, rest) := (|xs| - 1, xs[..|xs| - 1]);
      ProductVanishes(rest, z, skip);
      assert forall k :: 0 <= k < |rest| ==> rest[k] == xs[k];
      if j != skip {
        OnePlusVanishes(xs[j], z);
        MulIsZero(Product(rest, z, skip), XorByte(1, Mul(xs[j], z)));
      }
    }
  }

  lemma {:induction false} ProductSkipsNothing(xs: seq<byte>, z: byte, skip: int)
    requires skip >= |xs|
    ensures Product(xs, z, skip) == Product(xs, z, -1)
    decreases |xs|
  {
    if xs != [] {
      ProductSkipsNothing(xs[..|xs| - 1], z, skip);
    }
  }

  /** Forney's formula: at the inverse of a locator the evaluator is the magnitude times the other factors. */
  lemma {:induction false} Forney(es: seq<Error>, i: nat)
    requires Located(es) && i < |es|
    ensures var z := Inverse(es[i].locator);
            Eval(Evaluator(es), z) == Mul(es[i].magnitude, Product(Locators(es), z, i))
    decreases |es|
  {
    hide Mul, Xor, Inverse, Times, Scale, Add, OnePlus, Locator;
    var z := Inverse(es[i].locator);
    var (e, rest) := (es[|es| - 1], es[..|es| - 1]);
    var xs := Locators(rest);
    LocatorsPrefix(es);
    var (f, w, l) := (OnePlus(e.locator), Evaluator(rest), Locator(rest));
    EvalAdd(Times(f, w), Scale(e.magnitude, l), z);
    EvalTimes(f, w, z);
    EvalScale(e.magnitude, l, z);
    OnePlusValue(e.locator, z);
    OnePlusVanishes(e.locator, z);
    LocatorValue(rest, z);
    ProductVanishes(xs, z, -1);
    var v := Eval(w, z);
    MulZero(v);
    MulZero(e.magnitude);
    if i == |es| - 1 {
      XorZero(Mul(e.magnitude, Product(xs, z, -1)));
      ProductSkipsNothing(xs, z, i);
    } else {
      Forney(rest, i);
      assert rest[i] == es[i];
      assert xs[i] == es[i].locator;
      assert Product(xs, z, -1) == 0;
      var d := XorByte(1, Mul(e.locator, z));
      XorZero(Mul(d, v));
      MulCommutes(d, v);
      MulAssociates(es[i].magnitude, Product(xs, z, i), d);
    }
  }
}
