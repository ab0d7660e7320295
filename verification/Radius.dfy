/**
 What a block that the decoder returns is worth. The decoder returns the codeword within its radius, and no other
 codeword; but it also returns blocks that are no codewords, and the degree of the evaluator tells which.
 */
module Radius {
  import opened Bits
  import opened Options
  import opened GF256
  import opened Generator
  import opened Polynomials
  import opened KeyEquation
  import opened ErrorValues
  import opened Euclid
  import opened Decoding
  import opened Repair

  // ----- polynomials given by their values

  /** Two polynomials with fewer coefficients than points at which they agree are the same. */
  lemma SameValues(p: Poly, q: Poly, points: seq<byte>)
    requires |p| <= |points| && |q| <= |points|
    requires forall i, j :: 0 <= i < j < |points| ==> points[i] != points[j]
    requires forall i :: 0 <= i < |points| ==> Eval(p, points[i]) == Eval(q, points[i])
    ensures p == q
  {
    hide Add, Eval, Xor;
    var d := Add(p, q);
    AddLength(p, q);
    if d == [] {
      AddCancels(p, q);
      AddZero(q);
    } else {
      forall i | 0 <= i < |points|
        ensures Eval(d, points[i]) == 0
      {
        EvalAdd(p, q, points[i]);
        XorIsZero(Eval(p, points[i]), Eval(q, points[i]));
      }
      RootCount(d, points);
    }
  }

  /** The points that belong to the locators. */
  ghost function Points(xs: seq<byte>): (r: seq<byte>)
    requires Separate(xs)
    ensures |r| == |xs|
    ensures forall i :: 0 <= i < |r| ==> r[i] == Inverse(xs[i]) && r[i] != 0
    ensures forall i, j :: 0 <= i < j < |r| ==> r[i] != r[j]
  {
    hide Inverse;
    var r := seq(|xs|, i requires 0 <= i < |xs| => Inverse(xs[i]));
    assert forall i, j :: 0 <= i < j < |r| ==> r[i] != r[j] by {
      forall i, j | 0 <= i < j < |r|
        ensures r[i] != r[j]
      {
        if r[i] == r[j] {
          InverseInjective(xs[i], xs[j]);
        }
      }
    }
    r
  }

  /** The locator is the only polynomial of its degree with its roots and the value 1 at 0. */
  lemma LocatorIs(l: Poly, es: seq<Error>)
    requires Located(es) && |l| == |es| + 1 && Eval(l, 0) == 1
    requires forall i :: 0 <= i < |es| ==> Eval(l, Inverse(es[i].locator)) == 0
    ensures l == Locator(es)
  {
    hide Locator, Eval, Inverse, Product;
    var xs := Locators(es);
    var points := [0] + Points(xs);
    LocatorLength(es);
    LocatorAtZero(es);
    forall i | 0 <= i < |points|
      ensures Eval(l, points[i]) == Eval(Locator(es), points[i])
    {
      if i > 0 {
        LocatorValue(es, points[i]);
        ProductVanishes(xs, points[i], -1);
        assert points[i] == Inverse(xs[i - 1]);
      }
    }
    SameValues(l, Locator(es), points);
  }

  /** The evaluator is the only polynomial with at most as many coefficients as errors that Forney's formula fits. */
  lemma EvaluatorIs(w: Poly, es: seq<Error>)
    requires Located(es) && |w| <= |es|
    requires forall i :: 0 <= i < |es| ==>
      var z := Inverse(es[i].locator); Eval(w, z) == Mul(es[i].magnitude, Product(Locators(es), z, i))
    ensures w == Evaluator(es)
  {
    hide Evaluator, Eval, Inverse, Product, Mul;
    EvaluatorLength(es);
    var points := Points(Locators(es));
    forall i | 0 <= i < |points|
      ensures Eval(w, points[i]) == Eval(Evaluator(es), points[i])
    {
      Forney(es, i);
    }
    SameValues(w, Evaluator(es), points);
  }

  // ----- congruences modulo x^r

  lemma ShiftInjective(p: Poly, q: Poly)
    requires Shift(p) == Shift(q)
    ensures p == q
  {
    SnocParts(p, 0);
    SnocParts(q, 0);
  }

  /** A polynomial that vanishes at 0 is x times another one. */
  lemma RootAtZero(p: Poly)
    requires Eval(p, 0) == 0
    ensures p == [] || p == Shift(Init(p))
  {
    hide Mul, Xor;
    if p != [] {
      MulZero(Eval(Init(p), 0));
      XorZero(Last(p));
    }
  }

  lemma MonomialStep(r: nat)
    requires r >= 1
    ensures Monomial(r, 1) == Shift(Monomial(r - 1, 1))
  {}

  /** A polynomial with nonzero constant term can be cancelled modulo x^r. */
  lemma {:induction false} CancelUnit(l: Poly, d: Poly, k: Poly, r: nat)
    requires Eval(l, 0) != 0 && |d| <= r && Times(l, d) == Times(k, Monomial(r, 1))
    ensures d == []
    decreases r
  {
    hide Times, Eval, Mul, Shift, Monomial;
    if r > 0 {
      var m := Monomial(r - 1, 1);
      MonomialStep(r);
      TimesShiftRight(k, m);
      ShiftVanishes(Times(k, m));
      EvalTimes(l, d, 0);
      MulIsZero(Eval(l, 0), Eval(d, 0));
      RootAtZero(d);
      if d != [] {
        TimesShiftRight(l, Init(d));
        ShiftInjective(Times(l, Init(d)), Times(k, m));
        CancelUnit(l, Init(d), k, r - 1);
        NoShift();
      }
    }
  }

  lemma NoShift()
    ensures Shift([]) == []
  {}

  lemma ShiftVanishes(p: Poly)
    ensures Eval(Shift(p), 0) == 0
  {
    hide Mul, Eval;
    EvalSnoc(p, 0, 0);
    MulZero(Eval(p, 0));
    XorZero(0);
  }

  /** The second factor of a congruence is determined modulo x^r. */
  lemma SameFactor(l: Poly, s: Poly, s': Poly, w: Poly, r: nat)
    requires Eval(l, 0) != 0 && |s| <= r && |s'| <= r
    requires Congruent(l, s, w, r) && Congruent(l, s', w, r)
    ensures s == s'
  {
    hide Times, Add, Eval, Monomial;
    var m := Monomial(r, 1);
    var k: Poly :| Add(Times(l, s), Times(k, m)) == w;
    var k': Poly :| Add(Times(l, s'), Times(k', m)) == w;
    var d := Add(s, s');
    TimesAddRight(l, s, s');
    TimesAddLeft(k, k', m);
    AddInterchange(Times(l, s), Times(k, m), Times(l, s'), Times(k', m));
    AddSelf(w);
    AddLength(s, s');
    AddZero(Times(Add(k, k'), m));
    AddCancels(Times(l, d), Times(Add(k, k'), m));
    CancelUnit(l, d, Add(k, k'), r);
    AddCancels(s, s');
    AddZero(s');
  }

  /** So is the result. */
  lemma SameResult(l: Poly, s: Poly, w: Poly, w': Poly, r: nat)
    requires |w| <= r && |w'| <= r && Congruent(l, s, w, r) && Congruent(l, s, w', r)
    ensures w == w'
  {
    hide Times, Add, Monomial;
    var m, p := Monomial(r, 1), Times(l, s);
    var k: Poly :| Add(p, Times(k, m)) == w;
    var k': Poly :| Add(p, Times(k', m)) == w';
    AddInterchange(p, Times(k, m), p, Times(k', m));
    AddSelf(p);
    TimesAddLeft(k, k', m);
    var d := Add(w, w');
    AddZero(Times(Add(k, k'), m));
    AddLength(w, w');
    MonomialLength(r, 1);
    if d != [] {
      TimesZero(m);
      TimesLength(Add(k, k'), m);
    }
    AddCancels(w, w');
    AddZero(w');
  }

  // ----- the errors that the decoder corrects

  ghost function Corrections(xs: seq<byte>, ms: seq<byte>): (es: seq<Error>)
    requires |xs| == |ms|
    ensures |es| == |xs|
    ensures forall i :: 0 <= i < |es| ==> es[i] == Error(xs[i], ms[i])
  {
    seq(|xs|, i requires 0 <= i < |xs| => Error(xs[i], ms[i]))
  }

  /** A locator of degree 1 is read off, any other one searched for; the locations belong to its roots. */
  lemma LocationsAreRoots(l: Poly)
    requires Eval(l, 0) == 1 && ErrorLocations(l).Some?
    ensures var xs := ErrorLocations(l).value;
            && Separate(xs) && |l| == |xs| + 1
            && forall i :: 0 <= i < |xs| ==> Eval(l, Inverse(xs[i])) == 0
  {
    hide Mul, Inverse, Eval, Chien, Separate, Xor;
    LocationsSeparate(l);
    NonzeroLocations(l);
    EmptyValue(0);
    if |l| == 2 {
      ReadOff(l);
    } else {
      var xs := ErrorLocations(l).value;
      forall i | 0 <= i < |xs|
        ensures Eval(l, Inverse(xs[i])) == 0
      {
        assert xs[i] == Chien(l, 255)[i];
        ChienMember(l, 255, xs[i]);
        var j: byte :| 1 <= j <= 255 && Eval(l, j) == 0 && xs[i] == Inverse(j);
        InverseOfInverse(j);
      }
    }
  }

  lemma EmptyValue(x: byte)
    ensures Eval([], x) == 0
  {}

  lemma NonzeroLocations(l: Poly)
    ensures ErrorLocations(l).Some? ==> forall x :: x in ErrorLocations(l).value ==> x != 0
  {
    hide ErrorLocations, Inverse;
    LocationsSeparate(l);
  }

  lemma ReadOff(l: Poly)
    requires |l| == 2 && Eval(l, 0) == 1
    ensures Eval(l, Inverse(l[0])) == 0
  {
    hide Mul, Inverse, Eval, Xor, OnePlus;
    TwoCoefficients(l);
    OnePlusValue(l[0], Inverse(l[0]));
    XorIsZero(1, 1);
  }

  lemma TwoCoefficients(l: Poly)
    requires |l| == 2 && Eval(l, 0) == 1
    ensures l == OnePlus(l[0])
  {
    hide Mul, Xor;
    var v := Eval(l[..1], 0);
    MulZero(v);
    XorZero(l[1]);
  }

  /** What the correction adds to the values of the block. */
  lemma {:induction false} CorrectedSyndrome(bytes: seq<byte>, xs: seq<byte>, ms: seq<byte>, k: nat, s: nat)
    requires k <= |xs| == |ms| && forall i :: 0 <= i < |xs| ==> xs[i] != 0
    requires Corrected(bytes, xs, ms, k).Some?
    ensures Syndrome(Corrected(bytes, xs, ms, k).value, s) ==
      XorByte(Syndrome(bytes, s), PowerSum(Corrections(xs, ms)[..k], s))
    decreases k
  {
    hide Mul, Xor, Exp, Log, Eval, Pow, PowerSum;
    var es := Corrections(xs, ms);
    if k == 0 {
      NoPowerSum(es[..0], s);
      XorZero(Syndrome(bytes, s));
    } else {
      CorrectedSyndrome(bytes, xs, ms, k - 1, s);
      var b := Corrected(bytes, xs, ms, k - 1).value;
      var p := |b| - 1 - Log(xs[k - 1]);
      ChangeOne(b, p, ms[k - 1], s);
      PowerSumStep(es[..k], s);
      assert es[..k][..k - 1] == es[..k - 1];
      XorAssociates(Syndrome(bytes, s), PowerSum(es[..k - 1], s), Mul(ms[k - 1], Pow(xs[k - 1], s)));
    }
  }

  lemma ChangeOne(b: seq<byte>, p: nat, m: byte, s: nat)
    requires p < |b|
    ensures Syndrome(b[p := XorByte(b[p], m)], s) == XorByte(Syndrome(b, s), Mul(m, Pow(Exp(|b| - 1 - p), s)))
  {
    hide Mul, Xor, Exp, Eval, Pow;
    var c := b[p := XorByte(b[p], m)];
    var (x, y) := (Exp(s), Pow(Exp(s), |b| - 1 - p));
    ClearOne(b, p, x);
    ClearOne(c, p, x);
    assert c[p := 0] == b[p := 0];
    MulAddLeft(b[p], m, y);
    XorAssociates(Eval(b[p := 0], x), Mul(b[p], y), Mul(m, y));
    PowExchange(s, |b| - 1 - p);
  }

  /** Only the positions of the locations change. */
  lemma {:induction false} CorrectedNearby(bytes: seq<byte>, xs: seq<byte>, ms: seq<byte>, k: nat)
    requires k <= |xs| == |ms| && forall i :: 0 <= i < |xs| ==> xs[i] != 0
    requires Corrected(bytes, xs, ms, k).Some?
    ensures |Differences(Corrected(bytes, xs, ms, k).value, bytes)| <= k
    decreases k
  {
    hide Xor, Log;
    if k == 0 {
      assert Differences(bytes, bytes) == {};
    } else {
      CorrectedNearby(bytes, xs, ms, k - 1);
      var b := Corrected(bytes, xs, ms, k - 1).value;
      var p := |b| - 1 - Log(xs[k - 1]);
      OneMore(Differences(Corrected(bytes, xs, ms, k).value, bytes), Differences(b, bytes), p);
    }
  }

  lemma OneMore(a: set<int>, d: set<int>, p: int)
    requires a <= d + {p}
    ensures |a| <= |d| + 1
  {
    var b := d + {p};
    assert |b - a| == |b| - |a|;
    assert |b| <= |d| + 1;
  }

  /** A block is corrected to a codeword exactly if the errors that are corrected have its syndromes. */
  lemma CodewordIfSyndromesMatch(bytes: seq<byte>, b: seq<byte>, es: seq<Error>, twoS: nat)
    requires forall s :: 0 <= s < twoS ==> Syndrome(b, s) == XorByte(Syndrome(bytes, s), PowerSum(es, s))
    ensures IsCodeword(b, twoS) <==> Normalize(Syndromes(bytes, twoS)) == PowerSums(es, twoS)
  {
    hide Syndrome, PowerSum, PowerSums, Normalize, Xor;
    var raw := Syndromes(bytes, twoS);
    forall s | 0 <= s < twoS
      ensures Syndrome(b, s) == 0 <==> Syndrome(bytes, s) == PowerSum(es, s)
      ensures Coefficient(Normalize(raw), s) == Syndrome(bytes, s)
      ensures Coefficient(PowerSums(es, twoS), s) == PowerSum(es, s)
    {
      XorIsZero(Syndrome(bytes, s), PowerSum(es, s));
      NormalizeCoefficient(raw, s);
      PowerSumsCoefficient(es, twoS, s);
    }
    if IsCodeword(b, twoS) {
      SyndromesArePowerSums(bytes, es, twoS);
    }
  }

  /** The corrections have the syndromes of the block exactly if the evaluator is shorter than the locator. */
  lemma MatchIffShort(s: Poly, es: seq<Error>, sigma: Poly, omega: Poly, twoS: nat)
    requires |s| <= twoS && Congruent(sigma, s, omega, twoS) && |omega| <= twoS && |es| <= twoS
    requires Located(es) && sigma == Locator(es) && |sigma| == |es| + 1 && Eval(sigma, 0) == 1
    requires forall i :: 0 <= i < |es| ==>
      var z := Inverse(es[i].locator); Eval(omega, z) == Mul(es[i].magnitude, Product(Locators(es), z, i))
    ensures s == PowerSums(es, twoS) <==> |omega| < |sigma|
  {
    hide Times, Add, Eval, Inverse, Product, Mul, Monomial, Locator, Evaluator, PowerSums, Congruent;
    var sums := PowerSums(es, twoS);
    PowerSumsLength(es, twoS);
    EvaluatorLength(es);
    TrueEvaluator(es, twoS);
    if s == sums {
      SameResult(sigma, s, omega, Evaluator(es), twoS);
    }
    if |omega| < |sigma| {
      EvaluatorIs(omega, es);
      SameFactor(sigma, s, sums, omega, twoS);
    }
  }

  lemma TrueEvaluator(es: seq<Error>, r: nat)
    ensures Congruent(Locator(es), PowerSums(es, r), Evaluator(es), r)
  {
    hide Times, Add, Monomial, Locator, Evaluator, PowerSums, Cofactor;
    KeyEquationHolds(es, r);
  }

  lemma PowerSumsLength(es: seq<Error>, r: nat)
    ensures |PowerSums(es, r)| <= r
  {
    hide PowerSums, PowerSum;
    var p := PowerSums(es, r);
    if p != [] {
      PowerSumsCoefficient(es, r, |p| - 1);
    }
  }

  /** Forney's formula, read backwards: the magnitudes fit the evaluator they are computed from. */
  lemma MagnitudesFit(omega: Poly, xs: seq<byte>, i: nat)
    requires Separate(xs) && i < |xs|
    ensures var z := Inverse(xs[i]);
            Eval(omega, z) == Mul(Magnitudes(omega, xs)[i], Product(xs, z, i))
  {
    hide Mul, Inverse, Eval, Product;
    var z := Inverse(xs[i]);
    SeparateDenominators(xs, i);
    var (d, v) := (Product(xs, z, i), Eval(omega, z));
    MulAssociates(v, Inverse(d), d);
    MulCommutes(Inverse(d), d);
    MulOne(v);
  }

  // ----- the theorems

  /**
   A block that is no codeword is decoded to a codeword exactly if the evaluator that the Euclidean algorithm
   found is shorter than the locator, whatever the length of the block; and at most twoS / 2 bytes are changed.
   */
  lemma DecodedIsCodeword(bytes: seq<byte>, twoS: nat)
    requires !IsCodeword(bytes, twoS) && Decode(bytes, twoS).Some?
    ensures var b := Decode(bytes, twoS).value;
            var run := Run(Monomial(twoS, 1), Normalize(Syndromes(bytes, twoS)), twoS);
            && run.Some? && (IsCodeword(b, twoS) <==> |run.value.1| < |run.value.0|)
            && 2 * |Differences(b, bytes)| <= twoS
  {
    hide *;
    var s := Normalize(Syndromes(bytes, twoS));
    DecodeParts(bytes, twoS);
    LoudBlock(bytes, twoS);
    RunSolvesKeyEquation(s, twoS);
    RunLength(s, twoS);
    var (sigma, omega) := Run(Monomial(twoS, 1), s, twoS).value;
    LocationsAreRoots(sigma);
    var xs := ErrorLocations(sigma).value;
    var ms := Magnitudes(omega, xs);
    var es := Corrections(xs, ms);
    var b := Decode(bytes, twoS).value;
    CorrectionsLocated(xs, ms);
    forall i | 0 <= i < |es|
      ensures var z := Inverse(es[i].locator); Eval(omega, z) == Mul(es[i].magnitude, Product(Locators(es), z, i))
    {
      MagnitudesFit(omega, xs, i);
    }
    LocatorIs(sigma, es);
    DegreeLength(omega);
    MatchIffShort(s, es, sigma, omega, twoS);
    forall k | 0 <= k < twoS
      ensures Syndrome(b, k) == XorByte(Syndrome(bytes, k), PowerSum(es, k))
    {
      CorrectedSyndrome(bytes, xs, ms, |xs|, k);
      assert es[..|xs|] == es;
    }
    CodewordIfSyndromesMatch(bytes, b, es, twoS);
    CorrectedNearby(bytes, xs, ms, |xs|);
  }

  lemma DegreeLength(p: Poly)
    ensures |p| <= Degree(p) + 1
  {}

  lemma CorrectionsLocated(xs: seq<byte>, ms: seq<byte>)
    requires Separate(xs) && |xs| == |ms|
    ensures Located(Corrections(xs, ms)) && Locators(Corrections(xs, ms)) == xs
    ensures forall i :: 0 <= i < |xs| ==> xs[i] != 0 && Corrections(xs, ms)[i].locator != 0
  {}

  lemma DecodeParts(bytes: seq<byte>, twoS: nat)
    requires !IsCodeword(bytes, twoS) && Decode(bytes, twoS).Some?
    ensures var run := Run(Monomial(twoS, 1), Normalize(Syndromes(bytes, twoS)), twoS);
            && run.Some? && ErrorLocations(run.value.0).Some? && Separate(ErrorLocations(run.value.0).value)
            && var xs := ErrorLocations(run.value.0).value;
            && Decode(bytes, twoS) == Corrected(bytes, xs, Magnitudes(run.value.1, xs), |xs|)
  {
    hide IsCodeword, Run, Monomial, Normalize, Syndromes, ErrorLocations, Corrected, Magnitudes;
    var run := Run(Monomial(twoS, 1), Normalize(Syndromes(bytes, twoS)), twoS);
    LocationsSeparate(run.value.0);
  }

  /** The decoder is a bounded-distance decoder: the codewords that it returns are exactly those within its radius. */
  lemma DecodesExactly(sent: seq<byte>, received: seq<byte>, twoS: nat)
    requires |sent| == |received| <= 255 && IsCodeword(sent, twoS)
    ensures Decode(received, twoS) == Some(sent) <==> 2 * |Differences(sent, received)| <= twoS
  {
    hide IsCodeword, Run, Normalize, Syndromes, Monomial, Decode;
    if 2 * |Differences(sent, received)| <= twoS {
      DecodeRepairs(sent, received, twoS);
    }
    if Decode(received, twoS) == Some(sent) {
      if IsCodeword(received, twoS) {
        CodewordStays(received, twoS);
        assert Differences(sent, received) == {};
      } else {
        DecodedIsCodeword(received, twoS);
      }
    }
  }

  lemma CodewordStays(bytes: seq<byte>, twoS: nat)
    requires IsCodeword(bytes, twoS)
    ensures Decode(bytes, twoS) == Some(bytes)
  {}

  /**
   Not every result is a codeword: if some syndrome is not zero, but all those of the upper half are, the locator
   is 1 and the block comes back as it is.
   */
  lemma ReturnedAsItIs(bytes: seq<byte>, twoS: nat)
    requires !IsCodeword(bytes, twoS)
    requires forall s :: 0 <= s < twoS <= 2 * s ==> Syndrome(bytes, s) == 0
    ensures Decode(bytes, twoS) == Some(bytes)
  {
    hide *;
    var s := Normalize(Syndromes(bytes, twoS));
    LoudBlock(bytes, twoS);
    LowDegree(bytes, twoS);
    StopsAtOnce(s, twoS);
    NothingToCorrect(bytes, twoS, s);
  }

  lemma LowDegree(bytes: seq<byte>, twoS: nat)
    requires forall s :: 0 <= s < twoS <= 2 * s ==> Syndrome(bytes, s) == 0
    ensures var s := Normalize(Syndromes(bytes, twoS)); s != [] ==> 2 * Degree(s) < twoS
  {
    hide Syndrome, Normalize;
    var raw := Syndromes(bytes, twoS);
    var s := Normalize(raw);
    if s != [] {
      NormalizeCoefficient(raw, |s| - 1);
      assert Coefficient(raw, |s| - 1) == Syndrome(bytes, |s| - 1);
    }
  }

  lemma StopsAtOnce(s: Poly, twoS: nat)
    requires s != [] && |s| <= twoS && 2 * Degree(s) < twoS
    ensures Run(Monomial(twoS, 1), s, twoS) == Some(([1], s))
  {
    hide Mul, Scale, Inverse, Monomial, Eval;
    MonomialLength(twoS, 1);
    EvalConst(1, 0);
    assert Const(1) == [1];
    MulOne(1);
    InverseUnique(1, 1);
    ScaleOne([1]);
    ScaleOne(s);
  }

  lemma NothingToCorrect(bytes: seq<byte>, twoS: nat, s: Poly)
    requires !IsCodeword(bytes, twoS)
    requires Run(Monomial(twoS, 1), Normalize(Syndromes(bytes, twoS)), twoS) == Some(([1], s))
    ensures Decode(bytes, twoS) == Some(bytes)
  {
    hide Run, Monomial, Normalize, Syndromes, Syndrome, Chien, Mul;
    assert ErrorLocations([1]) == Some([]) by {
      assert Chien([1], 255)[..0] == [];
    }
  }

  /** Such blocks exist. */
  lemma NoCodewordReturned()
    ensures !IsCodeword([1, 2], 2) && Decode([1, 2], 2) == Some([1, 2])
  {
    hide *;
    SmallSyndromes();
    NoCodeword([1, 2]);
    ReturnedAsItIs([1, 2], 2);
  }

  lemma NoCodeword(bytes: seq<byte>)
    requires Syndrome(bytes, 0) != 0
    ensures !IsCodeword(bytes, 2)
  {
    hide Syndrome;
  }

  lemma SmallSyndromes()
    ensures Syndrome([1, 2], 0) == 3 && Syndrome([1, 2], 1) == 0
  {
    hide Mul, Eval;
    TwoBytes(1);
    TwoBytes(2);
    MulOne(1);
    MulOne(2);
    MulCommutes(1, 2);
    XorSelf(2);
  }

  lemma TwoBytes(x: byte)
    ensures Eval([1, 2], x) == XorByte(Mul(1, x), 2)
  {
    hide Mul, Xor;
    assert [1, 2][..1] == [1] == Const(1);
    EvalConst(1, x);
  }
}
