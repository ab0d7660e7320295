/** The Reed-Solomon encoder: field multiplication, generator polynomial, and remainder by shift register. */
module RsEncoder {
  import opened Bits
  import opened Options
  import opened GF256
  import opened Polynomials
  import opened KeyEquation
  import opened Decoding

  /** Russian peasant multiplication, reducing the accumulator at every shift. */
  method ReedSolomonMultiply(x: byte, y: byte) returns (z: byte)
    ensures z == Mul(x, y)
  {
    hide Mul, Xor, Xtime, Shr, XorByte;
    z := 0;
    var i := 7;
    ShiftedOut(x, y);
    while i >= 0
      invariant -1 <= i <= 7
      invariant z == Mul(x, Shr(y, i + 1))
    {
      MultiplyStep(x, y, i, z);
      z := Xor(2 * z, z / 128 * PRIMITIVE) % 256;
      z := XorByte(z, Shr(y, i) % 2 * x);
      i := i - 1;
    }
  }

  lemma ShiftedOut(x: byte, y: byte)
    ensures Mul(x, Shr(y, 8)) == 0 && Shr(y, 0) == y
  {
    assert Pow2(8) == 256;
    ShrSmall(y, 8);
  }

  lemma MultiplyStep(x: byte, y: byte, i: nat, z: byte)
    requires z == Mul(x, Shr(y, i + 1))
    ensures 0 <= Shr(y, i) % 2 * x < 256
    ensures XorByte(Xor(2 * z, z / 128 * PRIMITIVE) % 256, Shr(y, i) % 2 * x) == Mul(x, Shr(y, i))
  {
    hide Mul, Xor, Xtime, Shr;
    ShiftAndReduce(z);
    ShrStep(y, i);
    MulStep(x, Shr(y, i));
  }

  lemma ShiftAndReduce(z: byte)
    ensures Xor(2 * z, z / 128 * PRIMITIVE) % 256 == Xtime(z)
  {
    hide Xor;
    XorZero(2 * z);
    if z >= 128 {
      assert z / 128 * PRIMITIVE == PRIMITIVE;
    } else {
      assert z / 128 * PRIMITIVE == 0;
    }
  }

  // ----- the generator polynomial

  /** The product of x + 2^i for i < degree. */
  function GeneratorPoly(degree: nat): Poly {
    if degree == 0 then [1] else Times([1, Exp(degree - 1)], GeneratorPoly(degree - 1))
  }

  lemma {:induction false} GeneratorLeading(degree: nat)
    ensures |GeneratorPoly(degree)| == degree + 1 && GeneratorPoly(degree)[0] == 1
  {
    hide Mul, Exp;
    if degree > 0 {
      GeneratorLeading(degree - 1);
      TimesLength([1, Exp(degree - 1)], GeneratorPoly(degree - 1));
      MulOne(1);
    }
  }

  /** It vanishes at 2^s for every s below its degree. */
  lemma {:induction false} GeneratorRoots(degree: nat, s: nat)
    requires s < degree
    ensures Eval(GeneratorPoly(degree), Exp(s)) == 0
  {
    hide Mul, Exp, Times, Xor;
    var r, g := Exp(degree - 1), GeneratorPoly(degree - 1);
    EvalTimes([1, r], g, Exp(s));
    MulZero(Eval([1, r], Exp(s)));
    MulZero(Eval(g, Exp(s)));
    if s < degree - 1 {
      GeneratorRoots(degree - 1, s);
    } else {
      LinearValue(r, r);
      XorSelf(r);
    }
  }

  lemma LinearValue(r: byte, x: byte)
    ensures Eval([1, r], x) == XorByte(x, r)
  {
    hide Mul, Xor;
    assert [1, r] == Snoc(Const(1), r);
    EvalSnoc(Const(1), r, x);
    EvalConst(1, x);
    MulOne(x);
  }

  lemma TimesLinearCoefficient(r: byte, p: Poly, k: nat)
    ensures Coefficient(Times([1, r], p), k) ==
      XorByte(if k == 0 then 0 else Coefficient(p, k - 1), Mul(Coefficient(p, k), r))
  {
    hide Mul, Xor, Times, Scale, Add;
    assert [1, r] == Snoc([1], r);
    TimesSnoc([1], r, p);
    TimesOne(p);
    AddCoefficient(Shift(p), Scale(r, p), k);
    SnocCoefficient(p, 0, k);
    ScaleCoefficient(r, p, k);
    MulCommutes(r, Coefficient(p, k));
  }

  /** The coefficients of the generator polynomial below its leading 1, highest first. */
  function Divisor(degree: nat): (r: seq<byte>)
    ensures |r| == degree
  {
    GeneratorLeading(degree);
    GeneratorPoly(degree)[1..]
  }

  method ReedSolomonComputeDivisor(degree: nat, result: array<byte>)
    requires 1 <= degree <= result.Length
    modifies result
    ensures result[..degree] == Divisor(degree)
    ensures forall j :: degree <= j < result.Length ==> result[j] == old(result[j])
  {
    forall j | 0 <= j < degree {
      result[j] := 0;
    }
    result[degree - 1] := 1;
    var root := 1;
    hide Mul, Xor, LowCoefficient, Divisor;
    LowStart(degree);
    for i := 0 to degree
      invariant root == Exp(i)
      invariant forall j :: 0 <= j < degree ==> result[j] == LowCoefficient(i, degree, j)
      invariant forall j :: degree <= j < result.Length ==> result[j] == old(result[j])
    {
      MultiplyByRoot(degree, i, root, result);
      ExpStep(i);
      root := ReedSolomonMultiply(root, 2);
    }
    LowIsDivisor(degree, result[..degree]);
  }

  /** The inner loop: multiplies the current product by x + root in place. */
  method MultiplyByRoot(degree: nat, ghost i: nat, root: byte, result: array<byte>)
    requires 1 <= degree <= result.Length && root == Exp(i)
    requires forall j :: 0 <= j < degree ==> result[j] == LowCoefficient(i, degree, j)
    modifies result
    ensures forall j :: 0 <= j < degree ==> result[j] == LowCoefficient(i + 1, degree, j)
    ensures forall j :: degree <= j < result.Length ==> result[j] == old(result[j])
  {
    hide Mul, Exp, Xor, LowCoefficient;
    for j := 0 to degree
      invariant forall k :: 0 <= k < j ==> result[k] == LowCoefficient(i + 1, degree, k)
      invariant forall k :: j <= k < result.Length ==> result[k] == old(result[k])
    {
      LowStep(i, degree, j);
      var product := ReedSolomonMultiply(result[j], root);
      result[j] := if j + 1 < degree then XorByte(product, result[j + 1]) else product;
    }
  }

  /** Byte j of the buffer after i factors: the coefficient of x^(degree - 1 - j). */
  function LowCoefficient(i: nat, degree: nat, j: nat): byte
    requires j < degree
  {
    Coefficient(GeneratorPoly(i), degree - 1 - j)
  }

  lemma LowStart(degree: nat)
    requires degree >= 1
    ensures forall j :: 0 <= j < degree ==> LowCoefficient(0, degree, j) == if j == degree - 1 then 1 else 0
  {}

  lemma LowStep(i: nat, degree: nat, j: nat)
    requires j < degree
    ensures var product := Mul(LowCoefficient(i, degree, j), Exp(i));
            LowCoefficient(i + 1, degree, j) ==
              if j + 1 < degree then XorByte(product, LowCoefficient(i, degree, j + 1)) else product
  {
    hide Mul, Exp, Xor, Times, Coefficient;
    var g, k := GeneratorPoly(i), degree - 1 - j;
    var product := Mul(Coefficient(g, k), Exp(i));
    TimesLinearCoefficient(Exp(i), g, k);
    assert GeneratorPoly(i + 1) == Times([1, Exp(i)], g);
    XorZero(product);
    if j + 1 < degree {
      XorCommutes(product, Coefficient(g, k - 1));
    }
  }

  lemma LowIsDivisor(degree: nat, r: seq<byte>)
    requires |r| == degree >= 1
    requires forall j :: 0 <= j < degree ==> r[j] == LowCoefficient(degree, degree, j)
    ensures r == Divisor(degree)
  {
    hide GeneratorPoly;
    GeneratorLeading(degree);
  }

  lemma ExpStep(i: nat)
    ensures Mul(Exp(i), 2) == Exp(i + 1)
  {
    assert Xtime(1) == 2;
    MulCommutes(Exp(i), 2);
    MulXtimeLeft(1, Exp(i));
    MulOne(Exp(i));
  }

  // ----- the remainder

  function Zeros(n: nat): (r: seq<byte>)
    ensures |r| == n && forall i :: 0 <= i < n ==> r[i] == 0
  {
    seq(n, _ => 0)
  }

  /** One step of the shift register: shift in a zero and add the right multiple of the divisor. */
  function ShiftRegister(register: seq<byte>, divisor: seq<byte>, b: byte): (r: seq<byte>)
    requires |register| == |divisor| >= 1
    ensures |r| == |register|
  {
    var factor := XorByte(b, register[0]);
    seq(|register|, j requires 0 <= j < |register| =>
      XorByte(if j + 1 < |register| then register[j + 1] else 0, Mul(divisor[j], factor)))
  }

  function Remainder(data: seq<byte>, divisor: seq<byte>): (r: seq<byte>)
    requires |divisor| >= 1
    ensures |r| == |divisor|
    decreases |data|
  {
    if data == [] then Zeros(|divisor|)
    else ShiftRegister(Remainder(data[..|data| - 1], divisor), divisor, data[|data| - 1])
  }

  /**
   `data[dataAt..dataAt + dataLen]` is divided; the remainder is stored in `result[resultAt..resultAt + degree]`,
   which may lie in the same array.
   */
  method ReedSolomonComputeRemainder(data: array<byte>, dataAt: nat, dataLen: nat, generator: array<byte>, degree: nat,
                                     result: array<byte>, resultAt: nat)
    requires 1 <= degree <= generator.Length && generator != result
    requires dataAt + dataLen <= data.Length && resultAt + degree <= result.Length
    requires data != result || dataAt + dataLen <= resultAt
    modifies result
    ensures result[resultAt..resultAt + degree] ==
      Remainder(old(data[dataAt..dataAt + dataLen]), old(generator[..degree]))
    ensures forall k :: 0 <= k < result.Length && !(resultAt <= k < resultAt + degree) ==> result[k] == old(result[k])
  {
    ghost var dat, gen := data[dataAt..dataAt + dataLen], generator[..degree];
    forall k | resultAt <= k < resultAt + degree {
      result[k] := 0;
    }
    assert result[resultAt..resultAt + degree] == Zeros(degree);
    for i := 0 to dataLen
      invariant result[resultAt..resultAt + degree] == Remainder(dat[..i], gen)
      invariant forall k :: 0 <= k < result.Length && !(resultAt <= k < resultAt + degree) ==>
        result[k] == old(result[k])
    {
      hide Mul, Xor, ShiftRegister, Remainder;
      RemainderStep(dat, gen, i);
      assert generator[..degree] == gen && data[dataAt + i] == dat[i];
      ShiftIn(data[dataAt + i], generator, degree, result, resultAt);
    }
    assert dat[..dataLen] == dat;
  }

  /** The body of the division loop: one byte enters the shift register. */
  method ShiftIn(b: byte, generator: array<byte>, degree: nat, result: array<byte>, resultAt: nat)
    requires 1 <= degree <= generator.Length && generator != result
    requires resultAt + degree <= result.Length
    modifies result
    ensures result[resultAt..resultAt + degree] ==
      ShiftRegister(old(result[resultAt..resultAt + degree]), old(generator[..degree]), b)
    ensures forall k :: 0 <= k < result.Length && !(resultAt <= k < resultAt + degree) ==> result[k] == old(result[k])
  {
    hide Mul, XorByte, ShiftRegister;
    ghost var register, gen := result[resultAt..resultAt + degree], generator[..degree];
    ghost var next := ShiftRegister(register, gen, b);
    ShiftRegisterBytes(register, gen, b);
    var factor := XorByte(b, result[resultAt]);
    forall k | resultAt <= k < resultAt + degree - 1 {
      result[k] := result[k + 1];
    }
    result[resultAt + degree - 1] := 0;
    AddProducts(factor, generator, degree, result, resultAt);
    assert result[resultAt..resultAt + degree] == next;
  }

  /** Adds the multiple of the generator to the register. */
  method AddProducts(factor: byte, generator: array<byte>, degree: nat, result: array<byte>, resultAt: nat)
    requires degree <= generator.Length && generator != result && resultAt + degree <= result.Length
    modifies result
    ensures forall k :: resultAt <= k < resultAt + degree ==>
      result[k] == XorByte(old(result[k]), Mul(generator[k - resultAt], factor))
    ensures forall k :: 0 <= k < result.Length && !(resultAt <= k < resultAt + degree) ==> result[k] == old(result[k])
  {
    hide Mul, XorByte;
    for j := 0 to degree
      invariant forall k :: resultAt <= k < resultAt + j ==>
        result[k] == XorByte(old(result[k]), Mul(generator[k - resultAt], factor))
      invariant forall k :: 0 <= k < result.Length && !(resultAt <= k < resultAt + j) ==> result[k] == old(result[k])
    {
      var product := ReedSolomonMultiply(generator[j], factor);
      result[resultAt + j] := XorByte(result[resultAt + j], product);
    }
  }

  lemma ShiftRegisterBytes(register: seq<byte>, divisor: seq<byte>, b: byte)
    requires |register| == |divisor| >= 1
    ensures forall j :: 0 <= j < |register| ==>
      ShiftRegister(register, divisor, b)[j] ==
        XorByte(if j + 1 < |register| then register[j + 1] else 0, Mul(divisor[j], XorByte(b, register[0])))
  {}

  lemma RemainderStep(data: seq<byte>, divisor: seq<byte>, i: nat)
    requires i < |data| && |divisor| >= 1
    ensures Remainder(data[..i + 1], divisor) == ShiftRegister(Remainder(data[..i], divisor), divisor, data[i])
  {
    assert data[..i + 1][..i] == data[..i];
  }

  // ----- the remainder really is one, and appending it gives a codeword

  lemma {:induction false} MonomialCoefficient(k: nat, c: byte, i: nat)
    ensures Coefficient(Monomial(k, c), i) == if i == k then c else 0
    decreases k
  {
    if k == 0 {
      SnocCoefficient([], c, i);
    } else {
      SnocCoefficient(Monomial(k - 1, c), 0, i);
      if i > 0 {
        MonomialCoefficient(k - 1, c, i - 1);
      }
    }
  }

  lemma {:induction false} NormalizeSnoc(s: seq<byte>, b: byte)
    ensures Normalize(s + [b]) == Snoc(Normalize(s), b)
    decreases |s|
  {
    if s != [] && s[0] == 0 {
      NormalizeSnoc(s[1..], b);
      assert (s + [b])[1..] == s[1..] + [b];
    }
  }

  /** One step of the shift register computes x * register + b * x^degree modulo the generator. */
  lemma ShiftRegisterPoly(register: seq<byte>, degree: nat, b: byte)
    requires |register| == degree >= 1
    ensures var f := XorByte(b, register[0]);
            Normalize(ShiftRegister(register, Divisor(degree), b)) ==
              Add(Add(Shift(Normalize(register)), Scale(f, GeneratorPoly(degree))), Monomial(degree, b))
  {
    hide Mul, Xor, Shift, Add, Scale, Monomial, GeneratorPoly, Normalize, ShiftRegister;
    var f := XorByte(b, register[0]);
    var g, n := GeneratorPoly(degree), Normalize(register);
    var left := Normalize(ShiftRegister(register, Divisor(degree), b));
    var right := Add(Add(Shift(n), Scale(f, g)), Monomial(degree, b));
    forall i: nat
      ensures Coefficient(left, i) == Coefficient(right, i)
    {
      AddCoefficient(Add(Shift(n), Scale(f, g)), Monomial(degree, b), i);
      AddCoefficient(Shift(n), Scale(f, g), i);
      ShiftCoefficient(n, i);
      ScaleCoefficient(f, g, i);
      MonomialCoefficient(degree, b, i);
      NormalizeCoefficient(ShiftRegister(register, Divisor(degree), b), i);
      if i > 0 {
        NormalizeCoefficient(register, i - 1);
      }
      ShiftRegisterCoefficient(register, degree, b, i);
    }
    SameCoefficients(left, right);
  }

  lemma ShiftCoefficient(p: Poly, i: nat)
    ensures Coefficient(Shift(p), i) == if i == 0 then 0 else Coefficient(p, i - 1)
  {
    SnocCoefficient(p, 0, i);
  }

  lemma ShiftRegisterCoefficient(register: seq<byte>, degree: nat, b: byte, i: nat)
    requires |register| == degree >= 1
    ensures var f := XorByte(b, register[0]);
            var shifted := if i == 0 then 0 else Coefficient(register, i - 1);
            Coefficient(ShiftRegister(register, Divisor(degree), b), i) ==
              XorByte(XorByte(shifted, Mul(f, Coefficient(GeneratorPoly(degree), i))), if i == degree then b else 0)
  {
    hide Mul, Xor, GeneratorPoly;
    GeneratorLeading(degree);
    var f, g := XorByte(b, register[0]), GeneratorPoly(degree);
    MulCommutes(f, Coefficient(g, i));
    MulZero(f);
    MulOne(f);
    XorZero(0);
    if i < degree {
      var shifted := if i == 0 then 0 else Coefficient(register, i - 1);
      XorZero(XorByte(shifted, Mul(f, Coefficient(g, i))));
      assert Divisor(degree)[degree - 1 - i] == Coefficient(g, i);
    } else if i == degree {
      XorCommutes(register[0], f);
      XorCancels(b, register[0]);
      XorSelf(b);
    }
  }

  ghost function Quotient(data: seq<byte>, degree: nat): Poly
    requires degree >= 1
    decreases |data|
  {
    if data == [] then []
    else
      var (rest, b) := (data[..|data| - 1], data[|data| - 1]);
      Snoc(Quotient(rest, degree), XorByte(b, Remainder(rest, Divisor(degree))[0]))
  }

  /** Division: data * x^degree == quotient * generator + remainder, and the remainder is shorter than the generator. */
  lemma {:induction false} RemainderDivides(data: seq<byte>, degree: nat)
    requires degree >= 1
    ensures var rem := Normalize(Remainder(data, Divisor(degree)));
            && Times(Normalize(data), Monomial(degree, 1)) ==
               Add(Times(Quotient(data, degree), GeneratorPoly(degree)), rem)
            && |rem| < |GeneratorPoly(degree)|
    decreases |data|
  {
    hide Mul, Xor, Times, Add, Scale, Monomial, GeneratorPoly, ShiftRegister, Shift, Snoc, Normalize, Divisor;
    GeneratorLeading(degree);
    NormalizeCoefficient(Remainder(data, Divisor(degree)), 0);
    if data == [] {
      EmptyDivision(degree);
    } else {
      var (rest, b) := (data[..|data| - 1], data[|data| - 1]);
      RemainderDivides(rest, degree);
      assert data == rest + [b];
      NormalizeSnoc(rest, b);
      var register := Remainder(rest, Divisor(degree));
      ShiftRegisterPoly(register, degree, b);
      DivisionStep(Normalize(rest), Quotient(rest, degree), Normalize(register), degree, b, XorByte(b, register[0]));
    }
  }

  lemma EmptyDivision(degree: nat)
    ensures Normalize(Zeros(degree)) == []
    ensures Times(Normalize([]), Monomial(degree, 1)) == Add(Times([], GeneratorPoly(degree)), [])
  {
    hide Monomial, GeneratorPoly;
    ZerosVanish(degree);
    TimesZero(Monomial(degree, 1));
    TimesZero(GeneratorPoly(degree));
  }

  lemma {:induction false} ZerosVanish(n: nat)
    ensures Normalize(Zeros(n)) == []
  {
    if n > 0 {
      ZerosVanish(n - 1);
      assert Zeros(n)[1..] == Zeros(n - 1);
    }
  }

  lemma DivisionStep(d: Poly, q: Poly, rem: Poly, degree: nat, b: byte, f: byte)
    requires Times(d, Monomial(degree, 1)) == Add(Times(q, GeneratorPoly(degree)), rem)
    ensures var g := GeneratorPoly(degree);
            Times(Snoc(d, b), Monomial(degree, 1)) ==
              Add(Times(Snoc(q, f), g), Add(Add(Shift(rem), Scale(f, g)), Monomial(degree, b)))
  {
    hide Mul, Xor, Times, Add, Scale, Monomial, GeneratorPoly, Shift, Snoc;
    var g, m := GeneratorPoly(degree), Monomial(degree, 1);
    TimesSnoc(d, b, m);
    TimesSnoc(q, f, g);
    ScaleMonomial(b, degree, 1);
    MulOne(b);
    ShiftAdd(Times(q, g), rem);
    var (u, v, w, z) := (Shift(Times(q, g)), Scale(f, g), Shift(rem), Monomial(degree, b));
    AddAssociates(Add(u, v), Add(w, v), z);
    AddInterchange(u, v, w, v);
    AddSelf(v);
    AddZero(Add(u, w));
  }

  lemma {:induction false} ConcatValue(s: seq<byte>, t: seq<byte>, x: byte)
    ensures Eval(s + t, x) == XorByte(Mul(Eval(s, x), Pow(x, |t|)), Eval(t, x))
    decreases |t|
  {
    hide Mul, Xor;
    var v := Eval(s, x);
    if t == [] {
      assert s + t == s;
      MulOne(v);
      XorZero(v);
    } else {
      var (t', b) := (t[..|t| - 1], t[|t| - 1]);
      assert (s + t)[..|s + t| - 1] == s + t';
      ConcatValue(s, t', x);
      var p := Pow(x, |t'|);
      MulAddLeft(Mul(v, p), Eval(t', x), x);
      MulAssociates(v, p, x);
      MulCommutes(p, x);
      XorAssociates(Mul(v, Mul(x, p)), Mul(Eval(t', x), x), b);
    }
  }

  lemma {:induction false} MonomialValue(k: nat, x: byte)
    ensures Eval(Monomial(k, 1), x) == Pow(x, k)
    decreases k
  {
    hide Mul, Xor;
    if k == 0 {
      EvalConst(1, x);
    } else {
      MonomialValue(k - 1, x);
      EvalSnoc(Monomial(k - 1, 1), 0, x);
      MulCommutes(x, Pow(x, k - 1));
      XorZero(Mul(x, Pow(x, k - 1)));
    }
  }

  /** Data of any length followed by its remainder is a codeword: the decoder sees no error in it. */
  lemma EncodedIsCodeword(data: seq<byte>, degree: nat)
    requires degree >= 1
    ensures IsCodeword(data + Remainder(data, Divisor(degree)), degree)
    ensures Decode(data + Remainder(data, Divisor(degree)), degree) == Some(data + Remainder(data, Divisor(degree)))
  {
    hide Mul, Xor, Times, Add, Monomial, GeneratorPoly, Divisor, Normalize, Eval, Exp;
    var rem, q := Remainder(data, Divisor(degree)), Quotient(data, degree);
    var g, m := GeneratorPoly(degree), Monomial(degree, 1);
    RemainderDivides(data, degree);
    forall s | 0 <= s < degree
      ensures Syndrome(data + rem, s) == 0
    {
      var x := Exp(s);
      ConcatValue(data, rem, x);
      NormalizeValue(data, x);
      NormalizeValue(rem, x);
      EvalTimes(Normalize(data), m, x);
      MonomialValue(degree, x);
      EvalAdd(Times(q, g), Normalize(rem), x);
      EvalTimes(q, g, x);
      GeneratorRoots(degree, s);
      MulZero(Eval(q, x));
      XorZero(Eval(rem, x));
      XorSelf(Eval(rem, x));
    }
  }
}
