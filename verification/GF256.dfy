/** The field GF(2^8) modulo x^8 + x^4 + x^3 + x^2 + 1. */
module GF256 {
  import opened Bits

  const PRIMITIVE: nat := 0x11D

  /** Reduction of a nine-digit number by the primitive polynomial. */
  function Reduce(w: nat): (r: byte)
    requires w < 512
  {
    assert Pow2(8) == 256 && Pow2(9) == 512;
    XorTop(w, PRIMITIVE, 8);
    if w < 256 then w else Xor(w, PRIMITIVE)
  }

  /** Multiplication by x. */
  function Xtime(z: byte): byte {
    Reduce(2 * z)
  }

  /** Horner's rule over the binary digits of `y`, most significant digit first. */
  function Mul(x: byte, y: byte): byte
    decreases y
  {
    if y == 0 then 0
    else XorByte(Xtime(Mul(x, y / 2)), if y % 2 == 1 then x else 0)
  }

  /** The powers of the generator 2. */
  function Exp(n: nat): byte
  {
    if n == 0 then 1 else Xtime(Exp(n - 1))
  }

  /** The eighth power of x is x^4 + x^3 + x^2 + 1. */
  lemma EighthPower()
    ensures Exp(0) == 1 && Exp(1) == 2 && Exp(7) == 128 && Exp(8) == 29
  {
    assert Exp(7) == 2 * Exp(6) && Exp(6) == 2 * Exp(5) && Exp(5) == 2 * Exp(4) && Exp(4) == 2 * Exp(3);
    assert Xor(256, 0x11D) == 29;
  }

  lemma ReduceLinear(u: nat, v: nat)
    requires u < 512 && v < 512
    ensures Xor(u, v) < 512
    ensures Reduce(Xor(u, v)) == XorByte(Reduce(u), Reduce(v))
  {
    assert Pow2(8) == 256 && Pow2(9) == 512;
    XorTop(u, v, 8);
    var p := PRIMITIVE;
    if u >= 256 && v >= 256 {
      XorInterchange(u, p, v, p);
      XorSelf(p);
      XorZero(Xor(u, v));
    } else if u >= 256 {
      XorAssociates(u, v, p);
      XorCommutes(v, p);
      XorAssociates(u, p, v);
    } else if v >= 256 {
      XorAssociates(u, v, p);
    }
  }

  lemma XtimeLinear(a: byte, b: byte)
    ensures Xtime(XorByte(a, b)) == XorByte(Xtime(a), Xtime(b))
  {
    XorStep(2 * a, 2 * b);
    ReduceLinear(2 * a, 2 * b);
  }

  lemma XtimeZero(a: byte)
    ensures Xtime(a) == 0 <==> a == 0
  {
    if a >= 128 {
      XorIsZero(2 * a, PRIMITIVE);
    }
  }

  lemma MulStep(x: byte, y: byte)
    ensures Mul(x, y) == XorByte(Xtime(Mul(x, y / 2)), if y % 2 == 1 then x else 0)
  {
    XorZero(0);
    XtimeZero(0);
  }

  lemma {:induction false} MulAddRight(x: byte, a: byte, b: byte)
    ensures Mul(x, XorByte(a, b)) == XorByte(Mul(x, a), Mul(x, b))
    decreases a + b
  {
    if a + b > 0 {
      var c := XorByte(a, b);
      XorStep(a, b);
      MulAddRight(x, a / 2, b / 2);
      MulStep(x, a);
      MulStep(x, b);
      MulStep(x, c);
      var xa, xb := if a % 2 == 1 then x else 0, if b % 2 == 1 then x else 0;
      var ma, mb := Mul(x, a / 2), Mul(x, b / 2);
      XtimeLinear(ma, mb);
      XorInterchange(Xtime(ma), xa, Xtime(mb), xb);
      XorZero(x);
      XorSelf(x);
    } else {
      XorZero(0);
    }
  }

  lemma {:induction false} MulAddLeft(a: byte, b: byte, y: byte)
    ensures Mul(XorByte(a, b), y) == XorByte(Mul(a, y), Mul(b, y))
    decreases y
  {
    if y > 0 {
      MulAddLeft(a, b, y / 2);
      var ma, mb := Mul(a, y / 2), Mul(b, y / 2);
      XtimeLinear(ma, mb);
      XorInterchange(Xtime(ma), if y % 2 == 1 then a else 0, Xtime(mb), if y % 2 == 1 then b else 0);
      XorZero(0);
    } else {
      XorZero(0);
    }
  }

  lemma {:induction false} MulXtimeLeft(a: byte, y: byte)
    ensures Mul(Xtime(a), y) == Xtime(Mul(a, y))
    decreases y
  {
    XtimeZero(0);
    if y > 0 {
      MulXtimeLeft(a, y / 2);
      XtimeLinear(Xtime(Mul(a, y / 2)), if y % 2 == 1 then a else 0);
    }
  }

  lemma {:induction false} MulZero(y: byte)
    ensures Mul(0, y) == 0 && Mul(y, 0) == 0
    decreases y
  {
    if y > 0 {
      MulZero(y / 2);
      XtimeZero(0);
      XorZero(0);
    }
  }

  lemma {:induction false} MulOne(y: byte)
    ensures Mul(1, y) == y && Mul(y, 1) == y
    decreases y
  {
    MulStep(y, 1);
    XtimeZero(0);
    XorZero(y);
    if y > 0 {
      MulOne(y / 2);
      XorEven(y / 2);
    }
  }

  /** Setting the last digit of an even number. */
  lemma XorEven(h: nat)
    ensures Xor(2 * h, 1) == 2 * h + 1 && Xor(2 * h, 0) == 2 * h
  {
    XorStep(2 * h, 1);
    XorZero(h);
    XorZero(2 * h);
  }

  lemma {:induction false} MulCommutes(x: byte, y: byte)
    ensures Mul(x, y) == Mul(y, x)
    decreases y
  {
    MulZero(x);
    if y > 0 {
      var h: byte, b: byte := y / 2, y % 2;
      MulCommutes(x, h);
      MulXtimeLeft(h, x);
      XorEven(h);
      assert y == XorByte(Xtime(h), b);
      MulAddLeft(Xtime(h), b, x);
      MulOne(x);
    }
  }

  lemma {:induction false} MulAssociates(x: byte, y: byte, z: byte)
    ensures Mul(Mul(x, y), z) == Mul(x, Mul(y, z))
    decreases z
  {
    if z > 0 {
      var w := Mul(y, z / 2);
      MulAssociates(x, y, z / 2);
      MulCommutes(x, Xtime(w));
      MulXtimeLeft(w, x);
      MulCommutes(w, x);
      MulAddRight(x, Xtime(w), if z % 2 == 1 then y else 0);
      MulZero(x);
    } else {
      MulZero(x);
      MulZero(y);
      MulZero(Mul(x, y));
    }
  }

  lemma {:induction false} ExpAdd(m: nat, n: nat)
    ensures Exp(m + n) == Mul(Exp(m), Exp(n))
    decreases m
  {
    if m == 0 {
      MulOne(Exp(n));
    } else {
      ExpAdd(m - 1, n);
      MulXtimeLeft(Exp(m - 1), Exp(n));
    }
  }
}
