/** The Reed-Solomon decoder itself, proved to compute what module Decoding says. */
module JsReedSolomon {
  import opened Bits
  import opened Options
  import opened GF256
  import opened Generator
  import opened Polynomials
  import opened KeyEquation
  import opened ErrorValues
  import opened JsField
  import opened JsPoly
  import opened Decoding
  import opened Euclid

  /** Long division of rLastLast by rLast: the inner loop of the Euclidean algorithm. */
  method Divide(field: GenericGF, rLastLast: GenericGFPoly, rLast: GenericGFPoly)
      returns (q: GenericGFPoly, r: GenericGFPoly)
    requires field.Valid() && rLastLast.field == rLast.field == field
    requires rLastLast.WellFormed() && rLast.WellFormed() && !rLast.IsZero()
    ensures q.WellFormed() && r.WellFormed() && q.field == r.field == field
    ensures (q.Model(), r.Model()) == DivideFrom(rLastLast.Model(), rLast.Model(), [])
  {
    hide Mul, Times, Add, Inverse, Monomial;
    r := rLastLast;
    q := GenericGFPoly(field, [0]);
    var denominatorLeadingTerm := rLast.GetCoefficient(rLast.Degree());
    var dltInverse := field.InverseOf(denominatorLeadingTerm);
    while r.Degree() >= rLast.Degree() && !r.IsZero()
      invariant q.WellFormed() && r.WellFormed() && q.field == r.field == field
      invariant DivideFrom(r.Model(), rLast.Model(), q.Model()) == DivideFrom(rLastLast.Model(), rLast.Model(), [])
      decreases |r.Model()|
    {
      var degreeDiff := r.Degree() - rLast.Degree();
      var scale := field.Multiply(r.GetCoefficient(r.Degree()), dltInverse);
      DivideStepShrinks(r.Model(), rLast.Model());
      var monomial := BuildMonomial(field, degreeDiff, scale);
      q := q.AddOrSubtract(monomial);
      var multiple := rLast.MultiplyByMonomial(degreeDiff, scale);
      r := r.AddOrSubtract(multiple);
    }
  }

  method RunEuclideanAlgorithm(field: GenericGF, a: GenericGFPoly, b: GenericGFPoly, R: nat)
      returns (result: Option<(GenericGFPoly, GenericGFPoly)>)
    requires field.Valid() && a.WellFormed() && b.WellFormed() && a.field == b.field == field
    ensures result.Some? ==>
      && result.value.0.WellFormed() && result.value.1.WellFormed()
      && result.value.0.field == result.value.1.field == field
    ensures Run(a.Model(), b.Model(), R) ==
      if result.None? then None else Some((result.value.0.Model(), result.value.1.Model()))
  {
    var rLast, r := a, b;
    if a.Degree() < b.Degree() {
      rLast, r := b, a;
    }
    hide Mul, Times, Add, Inverse, Scale, DivideFrom;
    var tLast, t := GenericGFPoly(field, [0]), GenericGFPoly(field, [1]);
    ghost var expected := Loop(rLast.Model(), r.Model(), [], [1], R);
    while 2 * r.Degree() >= R
      invariant rLast.WellFormed() && r.WellFormed() && tLast.WellFormed() && t.WellFormed()
      invariant rLast.field == r.field == tLast.field == t.field == field
      invariant Loop(rLast.Model(), r.Model(), tLast.Model(), t.Model(), R) == expected
      decreases |r.Model()|
    {
      if r.IsZero() {
        return None;
      }
      var q, remainder := Divide(field, rLast, r);
      var product := q.MultiplyPoly(t);
      var next := product.AddOrSubtract(tLast);
      rLast, r, tLast, t := r, remainder, t, next;
      if r.Degree() >= rLast.Degree() {
        return None;
      }
    }
    var sigmaTildeAtZero := t.GetCoefficient(0);
    ConstantTerm(t);
    if sigmaTildeAtZero == 0 {
      return None;
    }
    var inverse := field.InverseOf(sigmaTildeAtZero);
    var sigma := t.Multiply(inverse);
    var omega := r.Multiply(inverse);
    result := Some((sigma, omega));
  }

  lemma ConstantTerm(p: GenericGFPoly)
    requires p.WellFormed()
    ensures p.GetCoefficient(0) == Eval(p.Model(), 0)
  {
    EvalAtZero(p.coefficients);
    p.ZeroBelowModel(0);
  }

  method FindErrorLocations(field: GenericGF, errorLocator: GenericGFPoly) returns (result: Option<seq<byte>>)
    requires field.Valid() && errorLocator.WellFormed() && errorLocator.field == field
    ensures result == ErrorLocations(errorLocator.Model())
  {
    hide Eval, Inverse, Chien;
    var numErrors := errorLocator.Degree();
    if numErrors == 1 {
      return Some([errorLocator.GetCoefficient(1)]);
    }
    var found := SearchLocations(field, errorLocator, numErrors);
    if |found| != numErrors {
      return None;
    }
    result := Some(found);
  }

  /** Tries the field elements in order until enough zeros are found. */
  method SearchLocations(field: GenericGF, errorLocator: GenericGFPoly, numErrors: nat) returns (found: seq<byte>)
    requires field.Valid() && errorLocator.WellFormed() && errorLocator.field == field
    ensures var all := Chien(errorLocator.Model(), 255);
            if |all| >= numErrors then found == all[..numErrors] else found == all
  {
    hide Eval, Inverse;
    ghost var l := errorLocator.Model();
    found := [];
    var i := 1;
    while i < field.size && |found| < numErrors
      invariant 1 <= i <= 256
      invariant found == Chien(l, i - 1) && |found| <= numErrors
    {
      var value := errorLocator.EvaluateAt(i);
      if value == 0 {
        var inverse := field.InverseOf(i);
        found := found + [inverse];
      }
      i := i + 1;
    }
    ChienPrefix(l, i - 1, 255);
  }

  lemma {:induction false} ChienPrefix(l: Poly, i: nat, j: nat)
    requires i <= j < 256
    ensures |Chien(l, i)| <= |Chien(l, j)| && Chien(l, j)[..|Chien(l, i)|] == Chien(l, i)
    decreases j
  {
    hide Eval, Inverse;
    if i < j {
      ChienPrefix(l, i, j - 1);
    }
  }

  method FindErrorMagnitudes(field: GenericGF, errorEvaluator: GenericGFPoly, errorLocations: seq<byte>)
      returns (result: seq<byte>)
    requires field.Valid() && errorEvaluator.WellFormed() && errorEvaluator.field == field
    requires Separate(errorLocations)
    ensures field.generatorBase == 0 ==> result == Magnitudes(errorEvaluator.Model(), errorLocations)
  {
    hide Mul, Xor, Eval, Inverse, Product;
    result := [];
    for i := 0 to |errorLocations|
      invariant |result| == i
      invariant field.generatorBase == 0 ==>
        forall k :: 0 <= k < i ==> result[k] == Magnitudes(errorEvaluator.Model(), errorLocations)[k]
    {
      SeparateDenominators(errorLocations, i);
      var xiInverse := field.InverseOf(errorLocations[i]);
      var denominator := Denominator(field, errorLocations, i, xiInverse);
      var value := errorEvaluator.EvaluateAt(xiInverse);
      var scale := field.InverseOf(denominator);
      var magnitude := field.Multiply(value, scale);
      if field.generatorBase != 0 {
        magnitude := field.Multiply(magnitude, xiInverse);
      }
      result := result + [magnitude];
    }
  }

  /** The inner loop of Forney's formula. */
  method Denominator(field: GenericGF, xs: seq<byte>, i: nat, z: byte) returns (denominator: byte)
    requires field.Valid() && i < |xs|
    ensures denominator == Product(xs, z, i)
  {
    hide Mul, Xor;
    denominator := 1;
    for j := 0 to |xs|
      invariant denominator == Product(xs[..j], z, i)
    {
      assert xs[..j + 1][..j] == xs[..j];
      if i != j {
        var product := field.Multiply(xs[j], z);
        denominator := field.Multiply(denominator, XorByte(1, product));
      }
    }
    assert xs[..|xs|] == xs;
  }

  /** Syndrome number s is stored at twoS - 1 - s. */
  method ComputeSyndromes(field: GenericGF, poly: GenericGFPoly, twoS: nat, ghost bytes: seq<byte>)
      returns (coefficients: seq<byte>, error: bool)
    requires field.Valid() && poly.WellFormed() && poly.field == field
    requires field.generatorBase == 0 && twoS <= 256
    requires poly.Model() == Normalize(bytes)
    ensures coefficients == Syndromes(bytes, twoS)
    ensures error <==> !IsCodeword(bytes, twoS)
    ensures error ==> twoS >= 1
  {
    hide Eval, Exp, Normalize;
    var buffer := new byte[twoS];
    error := false;
    for s := 0 to twoS
      invariant forall k :: twoS - s <= k < twoS ==> buffer[k] == Syndrome(bytes, twoS - 1 - k)
      invariant error <==> exists k :: 0 <= k < s && Syndrome(bytes, k) != 0
    {
      var x := field.ExpOf(s + field.generatorBase);
      var evaluation := poly.EvaluateAt(x);
      NormalizeValue(bytes, x);
      buffer[twoS - 1 - s] := evaluation;
      if evaluation != 0 {
        error := true;
      }
    }
    coefficients := buffer[..];
  }

  /** Corrects a block in place; a failure leaves nothing to use. */
  method DecodeBlock(bytes: seq<byte>, twoS: nat) returns (result: Option<seq<byte>>)
    requires |bytes| >= 1 && twoS <= 256
    ensures result == Decode(bytes, twoS)
  {
    hide Mul, Exp, Eval, Inverse, Monomial, Normalize, Run, ErrorLocations, Magnitudes, Log, Syndromes, IsCodeword, Xor;
    var outputBytes := new byte[|bytes|](i requires 0 <= i < |bytes| => bytes[i]);
    assert outputBytes[..] == bytes;
    var field := new GenericGF(0);
    var poly := GenericGFPoly.Create(field, outputBytes[..]);
    var syndromeCoefficients, error := ComputeSyndromes(field, poly, twoS, bytes);
    if !error {
      return Some(outputBytes[..]);
    }
    var syndrome := GenericGFPoly.Create(field, syndromeCoefficients);
    var monomial := BuildMonomial(field, twoS, 1);
    var sigmaOmega := RunEuclideanAlgorithm(field, monomial, syndrome, twoS);
    if sigmaOmega.None? {
      return None;
    }
    var (sigma, omega) := sigmaOmega.value;
    var errorLocations := FindErrorLocations(field, sigma);
    if errorLocations.None? {
      return None;
    }
    LocationsSeparate(sigma.Model());
    var errorMagnitudes := FindErrorMagnitudes(field, omega, errorLocations.value);
    var fixed := ApplyCorrections(field, outputBytes, errorLocations.value, errorMagnitudes);
    if !fixed {
      return None;
    }
    result := Some(outputBytes[..]);
  }

  /** The last loop of the decoder. */
  method ApplyCorrections(field: GenericGF, outputBytes: array<byte>, locations: seq<byte>, magnitudes: seq<byte>)
      returns (fixed: bool)
    requires field.Valid() && outputBytes != field.expTable
    requires |locations| == |magnitudes| && forall i :: 0 <= i < |locations| ==> locations[i] != 0
    modifies outputBytes
    ensures Corrected(old(outputBytes[..]), locations, magnitudes, |locations|) ==
      if fixed then Some(outputBytes[..]) else None
  {
    hide Xor, Log;
    ghost var bytes := outputBytes[..];
    for i := 0 to |locations|
      invariant field.Valid()
      invariant Corrected(bytes, locations, magnitudes, i) == Some(outputBytes[..])
    {
      var log := field.LogOf(locations[i]);
      var position := outputBytes.Length - 1 - log;
      if position < 0 {
        CorrectedStaysNone(bytes, locations, magnitudes, i + 1, |locations|);
        return false;
      }
      outputBytes[position] := XorByte(outputBytes[position], magnitudes[i]);
    }
    fixed := true;
  }

  lemma {:induction false} CorrectedStaysNone(bytes: seq<byte>, locations: seq<byte>, magnitudes: seq<byte>, i: nat,
                                              j: nat)
    requires i <= j <= |locations| == |magnitudes|
    requires forall k :: 0 <= k < |locations| ==> locations[k] != 0
    requires Corrected(bytes, locations, magnitudes, i) == None
    ensures Corrected(bytes, locations, magnitudes, j) == None
    decreases j
  {
    if i < j {
      CorrectedStaysNone(bytes, locations, magnitudes, i, j - 1);
    }
  }
}
