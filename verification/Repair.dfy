/**
 The decoder repairs damage: whenever at most half as many bytes are wrong as there are check bytes,
 decoding returns the block that was sent.
 */
module Repair {
  import opened Bits
  import opened Options
  import opened GF256
  import opened Generator
  import opened Polynomials
  import opened KeyEquation
  import opened ErrorValues
  import opened Euclid
  import opened Decoding

  /** The positions at which two blocks differ. */
  ghost function Differences(a: seq<byte>, b: seq<byte>): set<int>
    requires |a| == |b|
  {
    set i | 0 <= i < |a| && a[i] != b[i]
  }

  /** What was added to each byte of `sent`. */
  function Damage(sent: seq<byte>, received: seq<byte>): (e: seq<byte>)
    requires |sent| == |received|
    ensures |e| == |sent|
  {
    seq(|sent|, i requires 0 <= i < |sent| => XorByte(sent[i], received[i]))
  }

  // ----- values of unnormalized sequences

  lemma {:induction false} DamageValue(a: seq<byte>, b: seq<byte>, x: byte)
    requires |a| == |b|
    ensures XorByte(Eval(a, x), Eval(Damage(a, b), x)) == Eval(b, x)
    decreases |a|
  {
    hide Mul, Xor;
    XorZero(0);
    if a != [] {
      var n := |a| - 1;
      var a', b' := a[..n], b[..n];
      DamageValue(a', b', x);
      assert Damage(a', b') == Damage(a, b)[..n];
      var (u, v) := (Eval(a', x), Eval(Damage(a', b'), x));
      MulAddLeft(u, v, x);
      XorInterchange(Mul(u, x), a[n], Mul(v, x), XorByte(a[n], b[n]));
      XorCancels(b[n], a[n]);
    }
  }

  /** Clearing one byte of a block subtracts its contribution from the value. */
  lemma {:induction false} ClearOne(e: seq<byte>, p: nat, x: byte)
    requires p < |e|
    ensures Eval(e, x) == XorByte(Eval(e[p := 0], x), Mul(e[p], Pow(x, |e| - 1 - p)))
    decreases |e|
  {
    hide Mul, Xor;
    var n := |e| - 1;
    var c := e[p := 0];
    if p == n {
      assert c[..n] == e[..n];
      MulOne(e[p]);
      XorZero(Mul(Eval(e[..n], x), x));
    } else {
      ClearOne(e[..n], p, x);
      assert c[..n] == e[..n][p := 0];
      var (u, v) := (Eval(c[..n], x), Mul(e[p], Pow(x, n - 1 - p)));
      MulAddLeft(u, v, x);
      MulAssociates(e[p], Pow(x, n - 1 - p), x);
      MulCommutes(Pow(x, n - 1 - p), x);
      XorAssociates(Mul(u, x), Mul(v, x), e[n]);
      XorCommutes(Mul(v, x), e[n]);
      XorAssociates(Mul(u, x), e[n], Mul(v, x));
    }
  }

  lemma {:induction false} ZeroBlock(e: seq<byte>, x: byte)
    requires forall i :: 0 <= i < |e| ==> e[i] == 0
    ensures Eval(e, x) == 0
    decreases |e|
  {
    if e != [] {
      ZeroBlock(e[..|e| - 1], x);
      MulZero(x);
      XorZero(0);
    }
  }

  // ----- the error list of a damaged block

  predicate Positions(ps: seq<nat>, n: nat) {
    && (forall k :: 0 <= k < |ps| ==> ps[k] < n)
    && (forall j, k :: 0 <= j < k < |ps| ==> ps[j] != ps[k])
  }

  function ErrorsAt(e: seq<byte>, ps: seq<nat>): (es: seq<Error>)
    requires forall k :: 0 <= k < |ps| ==> ps[k] < |e|
    ensures |es| == |ps|
    ensures forall k :: 0 <= k < |ps| ==> es[k] == Error(Exp(|e| - 1 - ps[k]), e[ps[k]])
  {
    seq(|ps|, k requires 0 <= k < |ps| => Error(Exp(|e| - 1 - ps[k]), e[ps[k]]))
  }

  /** Sum of magnitude * locator^s. */
  function PowerSum(es: seq<Error>, s: nat): byte {
    if es == [] then 0
    else XorByte(PowerSum(es[..|es| - 1], s), Mul(es[|es| - 1].magnitude, Pow(es[|es| - 1].locator, s)))
  }

  lemma {:induction false} ErrorsValue(e: seq<byte>, ps: seq<nat>, s: nat)
    requires Positions(ps, |e|)
    requires forall p :: 0 <= p < |e| && e[p] != 0 ==> p in ps
    ensures Syndrome(e, s) == PowerSum(ErrorsAt(e, ps), s)
    decreases |ps|
  {
    hide Mul, Xor, Exp, Eval, Pow, ErrorsAt, PowerSum;
    if ps == [] {
      ZeroBlock(e, Exp(s));
      NoPowerSum(ErrorsAt(e, ps), s);
    } else {
      var n := |ps| - 1;
      var p, rest := ps[n], ps[..n];
      var c := e[p := 0];
      RestCovers(e, ps);
      ErrorsValue(c, rest, s);
      RestErrors(e, ps);
      PowerSumStep(ErrorsAt(e, ps), s);
      ClearOne(e, p, Exp(s));
      PowExchange(s, |e| - 1 - p);
    }
  }

  lemma NoPowerSum(es: seq<Error>, s: nat)
    requires es == []
    ensures PowerSum(es, s) == 0
  {}

  lemma PowerSumStep(es: seq<Error>, s: nat)
    requires es != []
    ensures var n := |es| - 1;
            PowerSum(es, s) == XorByte(PowerSum(es[..n], s), Mul(es[n].magnitude, Pow(es[n].locator, s)))
  {
    hide Mul, Xor, Pow;
  }

  /** Clearing the last position leaves the other errors as they are. */
  lemma RestErrors(e: seq<byte>, ps: seq<nat>)
    requires ps != [] && Positions(ps, |e|)
    ensures var n := |ps| - 1;
            ErrorsAt(e[ps[n] := 0], ps[..n]) == ErrorsAt(e, ps)[..n]
  {
    hide Exp;
  }

  lemma RestCovers(e: seq<byte>, ps: seq<nat>)
    requires ps != [] && Positions(ps, |e|)
    requires forall p :: 0 <= p < |e| && e[p] != 0 ==> p in ps
    ensures var n := |ps| - 1;
            var c := e[ps[n] := 0];
            forall p :: 0 <= p < |c| && c[p] != 0 ==> p in ps[..n]
  {
    var n := |ps| - 1;
    var c := e[ps[n] := 0];
    forall q | 0 <= q < |c| && c[q] != 0
      ensures q in ps[..n]
    {
      var k :| 0 <= k < |ps| && ps[k] == q;
      assert ps[..n][k] == q;
    }
  }

  lemma PowExchange(a: nat, b: nat)
    ensures Pow(Exp(a), b) == Pow(Exp(b), a)
  {
    PowOfExp(a, b);
    PowOfExp(b, a);
    assert a * b == b * a;
  }

  // ----- the syndromes are the power sums

  lemma {:induction false} GeometricCoefficient(a: byte, r: nat, i: nat)
    ensures Coefficient(Geometric(a, r), i) == if i < r then Pow(a, i) else 0
    decreases r
  {
    hide Mul;
    if r > 0 {
      SnocCoefficient(Scale(a, Geometric(a, r - 1)), 1, i);
      if i > 0 {
        GeometricCoefficient(a, r - 1, i - 1);
        ScaleCoefficient(a, Geometric(a, r - 1), i - 1);
        MulZero(a);
      }
    }
  }

  lemma {:induction false} PowerSumsCoefficient(es: seq<Error>, r: nat, i: nat)
    ensures Coefficient(PowerSums(es, r), i) == if i < r then PowerSum(es, i) else 0
    decreases |es|
  {
    hide Mul, Xor, Pow, Add, Scale, Geometric;
    if es != [] {
      var (e, rest) := (es[|es| - 1], es[..|es| - 1]);
      PowerSumsCoefficient(rest, r, i);
      AddCoefficient(PowerSums(rest, r), Scale(e.magnitude, Geometric(e.locator, r)), i);
      ScaleCoefficient(e.magnitude, Geometric(e.locator, r), i);
      GeometricCoefficient(e.locator, r, i);
      MulZero(e.magnitude);
      XorZero(0);
    }
  }

  lemma SyndromesArePowerSums(bytes: seq<byte>, es: seq<Error>, twoS: nat)
    requires forall s :: 0 <= s < twoS ==> Syndrome(bytes, s) == PowerSum(es, s)
    ensures Normalize(Syndromes(bytes, twoS)) == PowerSums(es, twoS)
  {
    hide Mul, Xor, PowerSum, PowerSums, Normalize;
    var raw := Syndromes(bytes, twoS);
    forall i: nat
      ensures Coefficient(Normalize(raw), i) == Coefficient(PowerSums(es, twoS), i)
    {
      NormalizeCoefficient(raw, i);
      PowerSumsCoefficient(es, twoS, i);
    }
    SameCoefficients(Normalize(raw), PowerSums(es, twoS));
  }

  // ----- the errors in the order in which the root search meets them

  /** Positions of the nonzero bytes of `e` whose locator is the inverse of one of 1, ..., i, in that order. */
  ghost function ErrorPositions(e: seq<byte>, i: nat): (ps: seq<nat>)
    requires i < 256
    ensures forall k :: 0 <= k < |ps| ==> ps[k] < |e|
  {
    if i == 0 then []
    else
      var p := |e| - 1 - Log(Inverse(i));
      ErrorPositions(e, i - 1) + if p >= 0 && e[p] != 0 then [p] else []
  }

  lemma {:induction false} ErrorPositionsMember(e: seq<byte>, i: nat, p: nat)
    requires i < 256 && p < |e|
    ensures p in ErrorPositions(e, i) <==>
      e[p] != 0 && exists j: byte :: 1 <= j <= i && p == |e| - 1 - Log(Inverse(j))
    decreases i
  {
    hide Inverse, Log, ErrorPositions;
    if i == 0 {
      NoErrorPositions(e);
    }
    if i > 0 {
      ErrorPositionsMember(e, i - 1, p);
      ErrorPositionsStep(e, i);
    }
  }

  lemma NoErrorPositions(e: seq<byte>)
    ensures ErrorPositions(e, 0) == []
  {}

  lemma ErrorPositionsStep(e: seq<byte>, i: nat)
    requires 0 < i < 256
    ensures var q := |e| - 1 - Log(Inverse(i));
            ErrorPositions(e, i) == ErrorPositions(e, i - 1) + if q >= 0 && e[q] != 0 then [q] else []
  {
    hide Inverse, Log;
  }

  lemma LogInverseInjective(a: byte, b: byte)
    requires a != 0 && b != 0 && Log(Inverse(a)) == Log(Inverse(b))
    ensures a == b
  {
    hide Inverse, Log, Exp;
    assert Inverse(a) == Exp(Log(Inverse(a)));
    assert Inverse(b) == Exp(Log(Inverse(b)));
    InverseInjective(a, b);
  }

  lemma {:induction false} ErrorPositionsDistinct(e: seq<byte>, i: nat)
    requires i < 256
    ensures Positions(ErrorPositions(e, i), |e|)
    decreases i
  {
    hide Inverse, Log;
    if i > 0 {
      ErrorPositionsDistinct(e, i - 1);
      var ps, p := ErrorPositions(e, i - 1), |e| - 1 - Log(Inverse(i));
      if 0 <= p && p in ps {
        ErrorPositionsMember(e, i - 1, p);
        var j: byte :| 1 <= j <= i - 1 && p == |e| - 1 - Log(Inverse(j));
        LogInverseInjective(i, j);
      }
    }
  }

  lemma InverseOfInverse(a: byte)
    requires a != 0
    ensures Inverse(Inverse(a)) == a
  {
    hide Mul, Inverse;
    MulCommutes(a, Inverse(a));
    InverseUnique(Inverse(a), a);
  }

  lemma LogOfExp(k: nat)
    requires k < 255
    ensures Exp(k) != 0 && Log(Exp(k)) == k
  {
    hide Exp, Log;
    ExpNonzero(k);
    ExpInjective(k, Log(Exp(k)));
  }

  lemma ErrorPositionsCover(e: seq<byte>, p: nat)
    requires |e| <= 255 && p < |e| && e[p] != 0
    ensures p in ErrorPositions(e, 255)
  {
    hide Inverse, Log, Exp, ErrorPositions;
    var k := |e| - 1 - p;
    LogOfExp(k);
    var j := Inverse(Exp(k));
    InverseOfInverse(Exp(k));
    ErrorPositionsMember(e, 255, p);
    assert 1 <= j <= 255 && p == |e| - 1 - Log(Inverse(j));
  }

  /** The complete error list of `e`. */
  ghost function ErrorList(e: seq<byte>): seq<Error> {
    ErrorsAt(e, ErrorPositions(e, 255))
  }

  lemma ErrorListProper(e: seq<byte>)
    requires |e| <= 255
    ensures Proper(ErrorList(e))
  {
    hide Inverse, Log, Exp, ErrorPositions;
    var ps := ErrorPositions(e, 255);
    ErrorPositionsDistinct(e, 255);
    var es := ErrorList(e);
    forall i | 0 <= i < |es|
      ensures es[i].locator != 0 && es[i].magnitude != 0
    {
      ExpNonzero(|e| - 1 - ps[i]);
      ErrorPositionsMember(e, 255, ps[i]);
    }
    forall i, j | 0 <= i < j < |es|
      ensures es[i].locator != es[j].locator
    {
      if es[i].locator == es[j].locator {
        ExpInjective(|e| - 1 - ps[i], |e| - 1 - ps[j]);
      }
    }
  }

  /** The locator of a damaged block vanishes at i exactly if the position that belongs to 1/i is damaged. */
  lemma LocatorVanishes(e: seq<byte>, i: nat)
    requires |e| <= 255 && 1 <= i < 256
    ensures Eval(Locator(ErrorList(e)), i) == 0 <==>
      var p := |e| - 1 - Log(Inverse(i)); p >= 0 && e[p] != 0
  {
    hide Mul, Inverse, Log, Exp, ErrorPositions, Eval, Locator, Product;
    var es, ps := ErrorList(e), ErrorPositions(e, 255);
    var p := |e| - 1 - Log(Inverse(i));
    ErrorListProper(e);
    LocatorValue(es, i);
    ProductVanishes(Locators(es), i, -1);
    if p >= 0 && e[p] != 0 {
      ErrorPositionsCover(e, p);
      var k :| 0 <= k < |ps| && ps[k] == p;
      assert Locators(es)[k] == Inverse(i);
      InverseOfInverse(i);
    }
    if Eval(Locator(es), i) == 0 {
      var k :| 0 <= k < |Locators(es)| && i == Inverse(Locators(es)[k]);
      InverseOfInverse(Locators(es)[k]);
      LogOfExp(|e| - 1 - ps[k]);
      ErrorPositionsMember(e, 255, ps[k]);
    }
  }

  lemma {:induction false} ChienFindsErrors(e: seq<byte>, i: nat)
    requires |e| <= 255 && i < 256
    ensures Chien(Locator(ErrorList(e)), i) == Locators(ErrorsAt(e, ErrorPositions(e, i)))
    decreases i
  {
    hide Mul, Inverse, Log, Exp, Eval, Locator;
    if i > 0 {
      ChienFindsErrors(e, i - 1);
      LocatorVanishes(e, i);
      var p := |e| - 1 - Log(Inverse(i));
      if p >= 0 && e[p] != 0 {
        assert Exp(|e| - 1 - p) == Inverse(i);
      }
    }
  }

  lemma ChienIsComplete(e: seq<byte>)
    requires |e| <= 255
    ensures ErrorLocations(Locator(ErrorList(e))) == Some(Locators(ErrorList(e)))
  {
    hide Mul, Exp, Inverse, Log, Chien, Locator, Locators, ErrorPositions, ErrorLocations;
    var es := ErrorList(e);
    ErrorListProper(e);
    LocatorLength(es);
    ChienFindsErrors(e, 255);
    LocationsFromChien(es);
  }

  lemma LocationsFromChien(es: seq<Error>)
    requires Proper(es) && |Locator(es)| == |es| + 1
    requires Chien(Locator(es), 255) == Locators(es)
    ensures ErrorLocations(Locator(es)) == Some(Locators(es))
  {
    hide Mul, Chien, Times, Locator, OnePlus;
    if |es| == 1 {
      SingleLocator(es);
      assert Locators(es) == [es[0].locator];
    } else {
      assert Locators(es)[..|es|] == Locators(es);
    }
  }

  lemma SingleLocator(es: seq<Error>)
    requires Proper(es) && |es| == 1
    ensures Locator(es) == [es[0].locator, 1]
  {
    hide Mul, Times;
    TimesOne(OnePlus(es[0].locator));
    assert es[..0] == [];
  }

  lemma MagnitudesAreErrors(e: seq<byte>)
    requires |e| <= 255
    ensures var es := ErrorList(e);
            && Separate(Locators(es))
            && |Magnitudes(Evaluator(es), Locators(es))| == |es|
            && forall k :: 0 <= k < |es| ==> Magnitudes(Evaluator(es), Locators(es))[k] == es[k].magnitude
  {
    hide Mul, Inverse, Eval, Product, Evaluator, ErrorList;
    var es := ErrorList(e);
    var xs := Locators(es);
    ErrorListProper(e);
    forall k | 0 <= k < |es|
      ensures Magnitudes(Evaluator(es), xs)[k] == es[k].magnitude
    {
      Forney(es, k);
      SeparateDenominators(xs, k);
      var d := Product(xs, Inverse(xs[k]), k);
      MulAssociates(es[k].magnitude, d, Inverse(d));
      MulOne(es[k].magnitude);
    }
  }

  /** The block after the first k corrections: the sent byte at the first k error positions. */
  function PartlyRepaired(sent: seq<byte>, received: seq<byte>, ps: seq<nat>, k: nat): (r: seq<byte>)
    requires |sent| == |received| && k <= |ps|
    ensures |r| == |sent|
  {
    seq(|sent|, i requires 0 <= i < |sent| => if i in ps[..k] then sent[i] else received[i])
  }

  lemma {:induction false} CorrectionsRepair(sent: seq<byte>, received: seq<byte>, ps: seq<nat>,
                                             xs: seq<byte>, ms: seq<byte>, k: nat)
    requires |sent| == |received| <= 255 && Positions(ps, |sent|)
    requires k <= |ps| == |xs| == |ms|
    requires forall j :: 0 <= j < |ps| ==> xs[j] == Exp(|sent| - 1 - ps[j]) && xs[j] != 0
    requires forall j :: 0 <= j < |ps| ==> ms[j] == XorByte(sent[ps[j]], received[ps[j]])
    ensures Corrected(received, xs, ms, k) == Some(PartlyRepaired(sent, received, ps, k))
    decreases k
  {
    hide Exp, Log, Xor;
    if k == 0 {
      assert PartlyRepaired(sent, received, ps, 0) == received;
    } else {
      CorrectionsRepair(sent, received, ps, xs, ms, k - 1);
      var p := ps[k - 1];
      var b := PartlyRepaired(sent, received, ps, k - 1);
      LogOfExp(|sent| - 1 - p);
      XorCommutes(sent[p], received[p]);
      XorCancels(sent[p], received[p]);
      assert ps[..k] == ps[..k - 1] + [p];
      assert b[p := sent[p]] == PartlyRepaired(sent, received, ps, k);
    }
  }

  // ----- counting

  lemma {:induction false} DistinctPositions(ps: seq<nat>, n: nat, s: set<int>)
    requires Positions(ps, n) && forall p :: p in ps ==> p in s
    ensures |ps| <= |s|
    decreases |ps|
  {
    if ps != [] {
      var m := |ps| - 1;
      var p, rest := ps[m], ps[..m];
      forall q | q in rest
        ensures q in s - {p}
      {
        var k :| 0 <= k < |rest| && rest[k] == q;
        assert ps[k] == q;
      }
      DistinctPositions(rest, n, s - {p});
    }
  }

  lemma FewErrors(sent: seq<byte>, received: seq<byte>)
    requires |sent| == |received|
    ensures |ErrorList(Damage(sent, received))| <= |Differences(sent, received)|
  {
    hide Inverse, Log, ErrorPositions, Xor;
    var e := Damage(sent, received);
    var ps := ErrorPositions(e, 255);
    ErrorPositionsDistinct(e, 255);
    forall p | p in ps
      ensures p in Differences(sent, received)
    {
      ErrorPositionsMember(e, 255, p);
      XorIsZero(sent[p], received[p]);
    }
    DistinctPositions(ps, |sent|, Differences(sent, received));
  }

  lemma SyndromesOfDamage(sent: seq<byte>, received: seq<byte>, twoS: nat)
    requires |sent| == |received| <= 255 && IsCodeword(sent, twoS)
    ensures forall s :: 0 <= s < twoS ==>
      Syndrome(received, s) == PowerSum(ErrorList(Damage(sent, received)), s)
  {
    hide Mul, Exp, Eval, Inverse, Log, PowerSum, ErrorPositions, Xor;
    var e := Damage(sent, received);
    var ps := ErrorPositions(e, 255);
    ErrorPositionsDistinct(e, 255);
    forall p | 0 <= p < |e| && e[p] != 0
      ensures p in ps
    {
      ErrorPositionsCover(e, p);
    }
    forall s | 0 <= s < twoS
      ensures Syndrome(received, s) == PowerSum(ErrorList(e), s)
    {
      ErrorsValue(e, ps, s);
      DamageValue(sent, received, Exp(s));
      assert Syndrome(sent, s) == 0;
      XorZero(Syndrome(e, s));
    }
  }

  /** Few errors never cancel out: if no syndrome shows, there was no error. */
  lemma NoSilentErrors(es: seq<Error>, twoS: nat)
    requires Proper(es) && 2 * |es| <= twoS && PowerSums(es, twoS) == []
    ensures es == []
  {
    hide Mul, Times, Add, Inverse, Eval, Monomial;
    if es != [] {
      var m, w, k := Monomial(twoS, 1), Evaluator(es), Cofactor(es, twoS);
      KeyEquationHolds(es, twoS);
      TimesZero(Locator(es));
      AddZero(Times(k, m));
      EvaluatorLength(es);
      MonomialLength(twoS, 1);
      TimesZero(m);
      if k != [] {
        TimesLength(k, m);
      }
      assert w == [];
      EvaluatorNotZero(es, 0);
      EvalConst(0, Inverse(es[0].locator));
    }
  }

  lemma EvaluatorNotZero(es: seq<Error>, i: nat)
    requires Proper(es) && i < |es|
    ensures Eval(Evaluator(es), Inverse(es[i].locator)) != 0
  {
    hide Mul, Inverse, Eval, Product, Evaluator;
    Forney(es, i);
    SeparateDenominators(Locators(es), i);
    MulIsZero(es[i].magnitude, Product(Locators(es), Inverse(es[i].locator), i));
  }

  lemma LocatorRoot(es: seq<Error>, i: nat)
    requires Proper(es) && i < |es|
    ensures Eval(Locator(es), Inverse(es[i].locator)) == 0
  {
    hide Mul, Inverse, Eval, Product, Locator;
    LocatorValue(es, Inverse(es[i].locator));
    ProductVanishes(Locators(es), Inverse(es[i].locator), -1);
    assert Locators(es)[i] == es[i].locator;
  }

  lemma {:induction false} LocatorAtZero(es: seq<Error>)
    ensures Eval(Locator(es), 0) == 1
    decreases |es|
  {
    hide Mul, Xor, Times;
    if es == [] {
      EvalConst(1, 0);
    } else {
      var (a, rest) := (es[|es| - 1].locator, es[..|es| - 1]);
      LocatorAtZero(rest);
      EvalTimes(OnePlus(a), Locator(rest), 0);
      OnePlusValue(a, 0);
      MulZero(a);
      XorZero(1);
      MulOne(1);
    }
  }

  /** The Euclidean algorithm finds locator and evaluator of any list of at most twoS / 2 errors. */
  lemma EuclidFindsErrors(es: seq<Error>, twoS: nat)
    requires Proper(es) && 2 * |es| <= twoS && PowerSums(es, twoS) != []
    requires |PowerSums(es, twoS)| <= twoS
    ensures Run(Monomial(twoS, 1), PowerSums(es, twoS), twoS) == Some((Locator(es), Evaluator(es)))
  {
    hide Mul, Times, Add, Inverse, Eval, Monomial, Run, Locator, Evaluator, Cofactor, PowerSums;
    KeyEquationHolds(es, twoS);
    LocatorAtZero(es);
    LocatorLength(es);
    EvaluatorLength(es);
    var roots := seq(|es|, i requires 0 <= i < |es| => Inverse(es[i].locator));
    forall i | 0 <= i < |roots|
      ensures Eval(Locator(es), roots[i]) == 0 && Eval(Evaluator(es), roots[i]) != 0
    {
      LocatorRoot(es, i);
      EvaluatorNotZero(es, i);
    }
    forall i, j | 0 <= i < j < |roots|
      ensures roots[i] != roots[j]
    {
      if roots[i] == roots[j] {
        InverseInjective(es[i].locator, es[j].locator);
      }
    }
    RunRecovers(PowerSums(es, twoS), twoS, Locator(es), Evaluator(es), Cofactor(es, twoS), roots);
  }

  lemma SilentSyndromes(received: seq<byte>, es: seq<Error>, twoS: nat)
    requires Proper(es) && 2 * |es| <= twoS
    requires IsCodeword(received, twoS)
    requires Normalize(Syndromes(received, twoS)) == PowerSums(es, twoS)
    ensures es == []
  {
    hide PowerSums, Syndrome;
    ZerosNormalize(Syndromes(received, twoS));
    NoSilentErrors(es, twoS);
  }

  lemma {:induction false} ZerosNormalize(s: seq<byte>)
    ensures Normalize(s) == [] <==> forall i :: 0 <= i < |s| ==> s[i] == 0
    decreases |s|
  {
    if s != [] && s[0] == 0 {
      ZerosNormalize(s[1..]);
      assert forall i :: 1 <= i < |s| ==> s[i] == s[1..][i - 1];
    }
  }

  /** A block that is no codeword has a syndrome polynomial that is not zero. */
  lemma LoudBlock(bytes: seq<byte>, twoS: nat)
    requires !IsCodeword(bytes, twoS)
    ensures var s := Normalize(Syndromes(bytes, twoS)); s != [] && |s| <= twoS
  {
    hide Syndrome, Normalize;
    var raw := Syndromes(bytes, twoS);
    ZerosNormalize(raw);
    NormalizeCoefficient(raw, 0);
    var s :| 0 <= s < twoS && Syndrome(bytes, s) != 0;
    assert raw[twoS - 1 - s] != 0;
  }

  lemma NoErrorsNoDamage(sent: seq<byte>, received: seq<byte>)
    requires |sent| == |received| <= 255
    requires ErrorList(Damage(sent, received)) == []
    ensures sent == received
  {
    hide Xor, ErrorPositions, Exp;
    var e := Damage(sent, received);
    forall i | 0 <= i < |sent|
      ensures sent[i] == received[i]
    {
      XorIsZero(sent[i], received[i]);
      if e[i] != 0 {
        ErrorPositionsCover(e, i);
      }
    }
  }

  lemma AllCorrected(sent: seq<byte>, received: seq<byte>)
    requires |sent| == |received| <= 255
    requires var es := ErrorList(Damage(sent, received));
             && Separate(Locators(es))
             && |Magnitudes(Evaluator(es), Locators(es))| == |es|
             && forall k :: 0 <= k < |es| ==> Magnitudes(Evaluator(es), Locators(es))[k] == es[k].magnitude
    ensures var es := ErrorList(Damage(sent, received));
            Corrected(received, Locators(es), Magnitudes(Evaluator(es), Locators(es)), |es|) == Some(sent)
  {
    hide Xor, ErrorPositions, Exp, Log, Magnitudes, Evaluator, Corrected;
    var e := Damage(sent, received);
    var es, ps := ErrorList(e), ErrorPositions(e, 255);
    var xs := Locators(es);
    ErrorPositionsDistinct(e, 255);
    CorrectionsRepair(sent, received, ps, xs, Magnitudes(Evaluator(es), xs), |es|);
    var fixed := PartlyRepaired(sent, received, ps, |ps|);
    forall i | 0 <= i < |sent|
      ensures fixed[i] == sent[i]
    {
      XorIsZero(sent[i], received[i]);
      assert ps[..|ps|] == ps;
      if e[i] != 0 {
        ErrorPositionsCover(e, i);
      }
    }
    assert fixed == sent;
  }

  /**
   The decoder returns the block that was sent whenever at most floor(twoS / 2) of its bytes were changed,
   wherever they are and whatever they became.
   */
  lemma DecodeRepairs(sent: seq<byte>, received: seq<byte>, twoS: nat)
    requires |sent| == |received| <= 255
    requires IsCodeword(sent, twoS)
    requires 2 * |Differences(sent, received)| <= twoS
    ensures Decode(received, twoS) == Some(sent)
  {
    hide Mul, Exp, Log, Inverse, Eval, Run, PowerSums, PowerSum, ErrorPositions, Locator, Evaluator;
    hide Normalize, Syndrome, Magnitudes, Corrected, Xor, Monomial, Damage, ErrorList, ErrorLocations, Locators;
    var e := Damage(sent, received);
    var es := ErrorList(e);
    FewErrors(sent, received);
    ErrorListProper(e);
    SyndromesOfDamage(sent, received, twoS);
    SyndromesArePowerSums(received, es, twoS);
    NormalizeCoefficient(Syndromes(received, twoS), 0);
    if IsCodeword(received, twoS) {
      SilentSyndromes(received, es, twoS);
      NoErrorsNoDamage(sent, received);
    } else {
      LoudBlock(received, twoS);
      EuclidFindsErrors(es, twoS);
      ChienIsComplete(e);
      MagnitudesAreErrors(e);
      AllCorrected(sent, received);
    }
  }
}
