/** The decoder's polynomials. Coefficients run from the highest power down; the zero polynomial is [0]. */
module JsPoly {
  import opened Bits
  import opened GF256
  import opened Polynomials
  import opened KeyEquation
  import opened JsField
  import Euclid

  datatype GenericGFPoly = GenericGFPoly(field: GenericGF, coefficients: seq<byte>) {

    /** No leading zero, except in the constant 0. */
    predicate WellFormed() {
      |coefficients| >= 1 && (|coefficients| > 1 ==> coefficients[0] != 0)
    }

    /** The polynomial that is meant. */
    ghost function Model(): Poly
      requires WellFormed()
    {
      if coefficients == [0] then [] else coefficients
    }

    /** The constructor: strips leading zeros. */
    static method Create(field: GenericGF, coefficients: seq<byte>) returns (p: GenericGFPoly)
      requires |coefficients| >= 1
      ensures p.WellFormed() && p.field == field && p.Model() == Normalize(coefficients)
    {
      if |coefficients| > 1 && coefficients[0] == 0 {
        var firstNonZero := 1;
        while firstNonZero < |coefficients| && coefficients[firstNonZero] == 0
          invariant 1 <= firstNonZero <= |coefficients|
          invariant Normalize(coefficients) == Normalize(coefficients[firstNonZero..])
        {
          assert coefficients[firstNonZero..][1..] == coefficients[firstNonZero + 1..];
          firstNonZero := firstNonZero + 1;
        }
        if firstNonZero == |coefficients| {
          return GenericGFPoly(field, [0]);
        }
        p := GenericGFPoly(field, coefficients[firstNonZero..]);
      } else {
        p := GenericGFPoly(field, coefficients);
      }
    }

    function Degree(): nat
      requires WellFormed()
      ensures Degree() == Euclid.Degree(Model())
    {
      |coefficients| - 1
    }

    predicate IsZero()
      requires WellFormed()
      ensures IsZero() <==> Model() == []
    {
      coefficients[0] == 0
    }

    function GetCoefficient(degree: nat): byte
      requires WellFormed() && degree <= Degree()
      ensures GetCoefficient(degree) == Coefficient(Model(), degree)
    {
      coefficients[|coefficients| - 1 - degree]
    }

    /** A polynomial other than zero is its list of coefficients. */
    lemma ModelOfNonzero()
      requires WellFormed()
      ensures Model() != [] ==> Model() == coefficients && |coefficients| >= 1
    {}

    /** The constant 0. */
    static lemma ModelOfZero(field: GenericGF)
      ensures GenericGFPoly(field, [0]).WellFormed() && GenericGFPoly(field, [0]).Model() == []
    {}

    method AddOrSubtract(other: GenericGFPoly) returns (r: GenericGFPoly)
      requires WellFormed() && other.WellFormed() && other.field == field
      ensures r.WellFormed() && r.field == field && r.Model() == Add(Model(), other.Model())
    {
      hide *;
      AddZero(Model());
      AddZero(other.Model());
      if IsZero() {
        return other;
      }
      if other.IsZero() {
        return this;
      }
      ModelOfNonzero();
      other.ModelOfNonzero();
      var smaller, larger := coefficients, other.coefficients;
      if |smaller| > |larger| {
        smaller, larger := larger, smaller;
        AddCommutes(Model(), other.Model());
      }
      var sumDiff := AddAligned(smaller, larger);
      AlignedSum(smaller, larger, sumDiff);
      r := Create(field, sumDiff);
    }

    /** Copies the leading coefficients of the longer list and adds the others. */
    static method AddAligned(smaller: seq<byte>, larger: seq<byte>) returns (sum: seq<byte>)
      requires |smaller| <= |larger|
      ensures |sum| == |larger|
      ensures forall k :: 0 <= k < |larger| - |smaller| ==> sum[k] == larger[k]
      ensures forall k :: |larger| - |smaller| <= k < |larger| ==>
        sum[k] == XorByte(smaller[k - (|larger| - |smaller|)], larger[k])
    {
      hide *;
      var sumDiff := new byte[|larger|];
      var lengthDiff := |larger| - |smaller|;
      for i := 0 to lengthDiff
        invariant forall k :: 0 <= k < i ==> sumDiff[k] == larger[k]
      {
        sumDiff[i] := larger[i];
      }
      for i := lengthDiff to |larger|
        invariant forall k :: 0 <= k < lengthDiff ==> sumDiff[k] == larger[k]
        invariant forall k :: lengthDiff <= k < i ==> sumDiff[k] == XorByte(smaller[k - lengthDiff], larger[k])
      {
        sumDiff[i] := XorByte(smaller[i - lengthDiff], larger[i]);
      }
      sum := sumDiff[..];
    }

    method Multiply(scalar: byte) returns (r: GenericGFPoly)
      requires WellFormed() && field.Valid()
      ensures r.WellFormed() && r.field == field && r.Model() == Scale(scalar, Model())
    {
      hide *;
      ScaleOne(Model());
      if scalar == 0 {
        ModelOfZero(field);
        return GenericGFPoly(field, [0]);
      }
      if scalar == 1 {
        return this;
      }
      var size := |coefficients|;
      var product := new byte[size];
      for i := 0 to size
        invariant forall k :: 0 <= k < i ==> product[k] == Mul(coefficients[k], scalar)
      {
        product[i] := field.Multiply(coefficients[i], scalar);
      }
      ShiftedScale(this, scalar, 0, product[..]);
      NotEmpty(this);
      r := Create(field, product[..]);
    }

    static lemma NotEmpty(p: GenericGFPoly)
      requires p.WellFormed()
      ensures |p.coefficients| >= 1
    {}

    method MultiplyByMonomial(degree: nat, coefficient: byte) returns (r: GenericGFPoly)
      requires WellFormed() && field.Valid()
      ensures r.WellFormed() && r.field == field && r.Model() == Times(Model(), Monomial(degree, coefficient))
    {
      if coefficient == 0 {
        TimesMonomial(Model(), degree, 0);
        ScaleOne(Times(Model(), Monomial(degree, 1)));
        return GenericGFPoly(field, [0]);
      }
      hide Mul, Scale;
      var size := |coefficients|;
      var product := new byte[size + degree](_ => 0);
      for i := 0 to size
        invariant forall k :: 0 <= k < i ==> product[k] == Mul(coefficients[k], coefficient)
        invariant forall k :: size <= k < size + degree ==> product[k] == 0
      {
        product[i] := field.Multiply(coefficients[i], coefficient);
      }
      ShiftedScale(this, coefficient, degree, product[..]);
      r := Create(field, product[..]);
    }

    method MultiplyPoly(other: GenericGFPoly) returns (r: GenericGFPoly)
      requires WellFormed() && other.WellFormed() && other.field == field && field.Valid()
      ensures r.WellFormed() && r.field == field && r.Model() == Times(Model(), other.Model())
    {
      hide Mul, Times, Xor, Model, WellFormed, Scale, Add;
      TimesZero(Model());
      TimesZero(other.Model());
      if IsZero() || other.IsZero() {
        ModelOfZero(field);
        return GenericGFPoly(field, [0]);
      }
      ModelOfNonzero();
      other.ModelOfNonzero();
      var a: Poly, b: Poly := coefficients, other.coefficients;
      var product := new byte[|a| + |b| - 1](_ => 0);
      for i := 0 to |a|
        invariant forall k :: 0 <= k < product.Length ==> product[k] == PartialProduct(a, b, i, k)
      {
        AddRow(field, a, b, i, product);
      }
      WholeProduct(a, b, product[..]);
      r := Create(field, product[..]);
    }

    method EvaluateAt(a: byte) returns (result: byte)
      requires WellFormed() && field.Valid()
      ensures result == Eval(Model(), a)
    {
      hide Mul, Xor;
      ZeroBelowModel(a);
      if a == 0 {
        EvalAtZero(coefficients);
        return GetCoefficient(0);
      }
      var size := |coefficients|;
      if a == 1 {
        result := 0;
        for i := 0 to size
          invariant result == Eval(coefficients[..i], 1)
        {
          EvalPrefix(coefficients, i, 1);
          MulOne(result);
          result := XorByte(result, coefficients[i]);
        }
        assert coefficients[..size] == coefficients;
        return;
      }
      result := coefficients[0];
      EvalFirst(coefficients, a);
      for i := 1 to size
        invariant result == Eval(coefficients[..i], a)
      {
        EvalPrefix(coefficients, i, a);
        var scaled := field.Multiply(a, result);
        MulCommutes(a, result);
        result := XorByte(scaled, coefficients[i]);
      }
      assert coefficients[..size] == coefficients;
    }

    /** The constant 0 evaluates like the zero polynomial. */
    lemma ZeroBelowModel(a: byte)
      requires WellFormed()
      ensures Eval(coefficients, a) == Eval(Model(), a)
    {
      if coefficients == [0] {
        LeadingZeroValue([0], a);
      }
    }
  }

  method BuildMonomial(field: GenericGF, degree: nat, coefficient: byte) returns (r: GenericGFPoly)
    ensures r.WellFormed() && r.field == field && r.Model() == Monomial(degree, coefficient)
  {
    if coefficient == 0 {
      ZeroMonomial(degree);
      return GenericGFPoly(field, [0]);
    }
    var coefficients := new byte[degree + 1](_ => 0);
    coefficients[0] := coefficient;
    MonomialDigits(degree, coefficient);
    assert coefficients[..] == Monomial(degree, coefficient);
    r := GenericGFPoly.Create(field, coefficients[..]);
  }

  lemma {:induction false} ZeroMonomial(k: nat)
    ensures Monomial(k, 0) == []
  {
    if k > 0 {
      ZeroMonomial(k - 1);
    }
  }

  lemma {:induction false} MonomialDigits(k: nat, c: byte)
    requires c != 0
    ensures |Monomial(k, c)| == k + 1 && Monomial(k, c)[0] == c
    ensures forall i :: 1 <= i <= k ==> Monomial(k, c)[i] == 0
  {
    if k > 0 {
      MonomialDigits(k - 1, c);
    }
  }

  // ----- what the coefficient loops compute

  lemma AlignedSum(p: Poly, q: Poly, s: seq<byte>)
    requires |p| <= |q| == |s|
    requires forall k :: 0 <= k < |q| - |p| ==> s[k] == q[k]
    requires forall k :: |q| - |p| <= k < |q| ==> s[k] == XorByte(p[k - (|q| - |p|)], q[k])
    ensures Normalize(s) == Add(p, q)
  {
    hide Xor, Add, Normalize;
    forall i: nat
      ensures Coefficient(Normalize(s), i) == Coefficient(Add(p, q), i)
    {
      NormalizeCoefficient(s, i);
      AddCoefficient(p, q, i);
      AlignedCoefficient(p, q, s, i);
    }
    SameCoefficients(Normalize(s), Add(p, q));
  }

  lemma AlignedCoefficient(p: Poly, q: Poly, s: seq<byte>, i: nat)
    requires |p| <= |q| == |s|
    requires forall k :: 0 <= k < |q| - |p| ==> s[k] == q[k]
    requires forall k :: |q| - |p| <= k < |q| ==> s[k] == XorByte(p[k - (|q| - |p|)], q[k])
    ensures Coefficient(s, i) == XorByte(Coefficient(p, i), Coefficient(q, i))
  {
    hide Xor;
    XorZero(Coefficient(q, i));
    if i < |q| {
      var k := |q| - 1 - i;
      assert s[k] == if k < |q| - |p| then q[k] else XorByte(p[k - (|q| - |p|)], q[k]);
    }
  }

  lemma {:induction false} TimesMonomialCoefficient(p: Poly, k: nat, i: nat)
    ensures Coefficient(Times(p, Monomial(k, 1)), i) == if i < k then 0 else Coefficient(p, i - k)
    decreases k
  {
    hide Times;
    if k == 0 {
      ConstOne();
      TimesOne(p);
    } else {
      TimesShiftRight(p, Monomial(k - 1, 1));
      SnocCoefficient(Times(p, Monomial(k - 1, 1)), 0, i);
      if i > 0 {
        TimesMonomialCoefficient(p, k - 1, i - 1);
      }
    }
  }

  lemma ShiftedScale(p: GenericGFPoly, c: byte, degree: nat, s: seq<byte>)
    requires p.WellFormed() && |s| == |p.coefficients| + degree
    requires forall k :: 0 <= k < |p.coefficients| ==> s[k] == Mul(p.coefficients[k], c)
    requires forall k :: |p.coefficients| <= k < |s| ==> s[k] == 0
    ensures Normalize(s) == Times(p.Model(), Monomial(degree, c))
    ensures degree == 0 ==> Normalize(s) == Scale(c, p.Model())
  {
    hide Mul, Times, Scale;
    var m := p.Model();
    TimesMonomial(m, degree, c);
    var shifted := Times(m, Monomial(degree, 1));
    forall i: nat
      ensures Coefficient(Normalize(s), i) == Coefficient(Scale(c, shifted), i)
    {
      NormalizeCoefficient(s, i);
      ScaleCoefficient(c, shifted, i);
      TimesMonomialCoefficient(m, degree, i);
      MulCommutes(c, Coefficient(shifted, i));
      MulZero(c);
    }
    SameCoefficients(Normalize(s), Scale(c, shifted));
    ConstOne();
    TimesOne(m);
  }

  /** Slot k of the product buffer after the first i rows. */
  function PartialProduct(a: Poly, b: Poly, i: nat, k: nat): byte
    requires i <= |a|
  {
    if i + |b| - 2 - k >= 0 then Coefficient(Times(a[..i], b), i + |b| - 2 - k) else 0
  }

  /** The inner loop of the product: adds row number i. */
  method AddRow(field: GenericGF, a: Poly, b: Poly, i: nat, product: array<byte>)
    requires field.Valid() && product != field.expTable
    requires i < |a| && b != [] && product.Length == |a| + |b| - 1
    requires forall k :: 0 <= k < product.Length ==> product[k] == PartialProduct(a, b, i, k)
    modifies product
    ensures forall k :: 0 <= k < product.Length ==> product[k] == PartialProduct(a, b, i + 1, k)
  {
    hide Mul, Times, Xor, PartialProduct;
    var aCoeff := a[i];
    RowOutside(a, b, i);
    for j := 0 to |b|
      invariant forall k :: i <= k < i + j ==> product[k] == PartialProduct(a, b, i + 1, k)
      invariant forall k :: 0 <= k < product.Length && !(i <= k < i + j) ==> product[k] == PartialProduct(a, b, i, k)
      invariant field.Valid()
    {
      RowInside(a, b, i, j);
      var term := field.Multiply(aCoeff, b[j]);
      product[i + j] := XorByte(product[i + j], term);
    }
  }

  lemma RowCoefficient(a: Poly, b: Poly, i: nat, m: nat)
    requires i < |a|
    ensures Coefficient(Times(a[..i + 1], b), m) ==
      XorByte(if m == 0 then 0 else Coefficient(Times(a[..i], b), m - 1), Mul(a[i], Coefficient(b, m)))
  {
    hide Mul, Times, Xor, Scale, Add;
    assert a[..i + 1] == Snoc(a[..i], a[i]);
    TimesSnoc(a[..i], a[i], b);
    AddCoefficient(Shift(Times(a[..i], b)), Scale(a[i], b), m);
    SnocCoefficient(Times(a[..i], b), 0, m);
    ScaleCoefficient(a[i], b, m);
  }

  lemma RowInside(a: Poly, b: Poly, i: nat, j: nat)
    requires i < |a| && j < |b|
    ensures PartialProduct(a, b, i + 1, i + j) == XorByte(PartialProduct(a, b, i, i + j), Mul(a[i], b[j]))
  {
    hide Mul, Times, Xor;
    RowCoefficient(a, b, i, |b| - 1 - j);
  }

  lemma RowOutside(a: Poly, b: Poly, i: nat)
    requires i < |a| && b != []
    ensures forall k: nat :: !(i <= k < i + |b|) ==> PartialProduct(a, b, i + 1, k) == PartialProduct(a, b, i, k)
  {
    hide Mul, Times, Xor;
    forall k: nat | !(i <= k < i + |b|)
      ensures PartialProduct(a, b, i + 1, k) == PartialProduct(a, b, i, k)
    {
      if k < i {
        var m := i + |b| - 1 - k;
        RowCoefficient(a, b, i, m);
        MulZero(a[i]);
        XorZero(Coefficient(Times(a[..i], b), m - 1));
      }
    }
  }

  lemma WholeProduct(a: Poly, b: Poly, s: seq<byte>)
    requires a != [] && b != [] && |s| == |a| + |b| - 1
    requires forall k :: 0 <= k < |s| ==> s[k] == PartialProduct(a, b, |a|, k)
    ensures Normalize(s) == Times(a, b)
  {
    hide Mul, Times;
    assert a[..|a|] == a;
    TimesLength(a, b);
    assert s == Times(a, b);
  }

  lemma EvalPrefix(s: seq<byte>, i: nat, x: byte)
    requires i < |s|
    ensures Eval(s[..i + 1], x) == XorByte(Mul(Eval(s[..i], x), x), s[i])
  {
    assert s[..i + 1][..i] == s[..i];
  }

  lemma EvalFirst(s: seq<byte>, x: byte)
    requires s != []
    ensures Eval(s[..1], x) == s[0]
  {
    EvalPrefix(s, 0, x);
    MulZero(x);
    XorZero(s[0]);
  }

  lemma EvalAtZero(s: seq<byte>)
    requires s != []
    ensures Eval(s, 0) == s[|s| - 1]
  {
    MulZero(Eval(s[..|s| - 1], 0));
    XorZero(s[|s| - 1]);
  }
}
