/** The element 2 generates the multiplicative group of GF(2^8): its first 255 powers are all the nonzero bytes. */
module Generator {
  import opened Bits
  import opened GF256

  // ----- the few concrete exclusive ors the argument needs, one digit at a time

  lemma XorDigit(a: nat, b: nat, h: nat)
    requires Xor(a / 2, b / 2) == h
    ensures Xor(a, b) == 2 * h + if a % 2 == b % 2 then 0 else 1
  {
    XorStep(a, b);
  }

  lemma OverflowDigits()
    ensures Xor(256, 285) == 29
    ensures Xor(464, 285) == 205
    ensures Xor(410, 285) == 135
    ensures Xor(270, 285) == 19
  {
    hide Xor;
    XorSelf(8);
    XorDigit(16, 17, 0);
    XorDigit(32, 35, 1);
    XorDigit(64, 71, 3);
    XorDigit(128, 142, 7);
    XorDigit(256, 285, 14);
    XorSelf(1);
    XorDigit(3, 2, 0);
    XorDigit(7, 4, 1);
    XorDigit(14, 8, 3);
    XorDigit(29, 17, 6);
    XorDigit(58, 35, 12);
    XorDigit(116, 71, 25);
    XorDigit(232, 142, 51);
    XorDigit(464, 285, 102);
    XorSelf(1);
    XorDigit(3, 2, 0);
    XorDigit(6, 4, 1);
    XorDigit(12, 8, 2);
    XorDigit(25, 17, 4);
    XorDigit(51, 35, 8);
    XorDigit(102, 71, 16);
    XorDigit(205, 142, 33);
    XorDigit(410, 285, 67);
    XorSelf(8);
    XorDigit(16, 17, 0);
    XorDigit(33, 35, 1);
    XorDigit(67, 71, 2);
    XorDigit(135, 142, 4);
    XorDigit(270, 285, 9);
  }

  lemma Digits152()
    ensures Xor(128, 16) == 144
    ensures Xor(144, 8) == 152
    ensures Xor(19, 29) == 14
    ensures Xor(14, 64) == 78
  {
    hide Xor;
    XorSelf(0);
    XorDigit(1, 0, 0);
    XorDigit(2, 0, 1);
    XorDigit(4, 0, 2);
    XorDigit(8, 1, 4);
    XorDigit(16, 2, 9);
    XorDigit(32, 4, 18);
    XorDigit(64, 8, 36);
    XorDigit(128, 16, 72);
    XorSelf(0);
    XorDigit(1, 0, 0);
    XorDigit(2, 0, 1);
    XorDigit(4, 0, 2);
    XorDigit(9, 0, 4);
    XorDigit(18, 1, 9);
    XorDigit(36, 2, 19);
    XorDigit(72, 4, 38);
    XorDigit(144, 8, 76);
    XorSelf(1);
    XorDigit(2, 3, 0);
    XorDigit(4, 7, 1);
    XorDigit(9, 14, 3);
    XorDigit(19, 29, 7);
    XorSelf(0);
    XorDigit(0, 1, 0);
    XorDigit(0, 2, 1);
    XorDigit(0, 4, 2);
    XorDigit(1, 8, 4);
    XorDigit(3, 16, 9);
    XorDigit(7, 32, 19);
    XorDigit(14, 64, 39);
  }

  lemma Digits78()
    ensures Xor(64, 8) == 72
    ensures Xor(72, 4) == 76
    ensures Xor(76, 2) == 78
  {
    hide Xor;
    XorSelf(0);
    XorDigit(1, 0, 0);
    XorDigit(2, 0, 1);
    XorDigit(4, 0, 2);
    XorDigit(8, 1, 4);
    XorDigit(16, 2, 9);
    XorDigit(32, 4, 18);
    XorDigit(64, 8, 36);
    XorSelf(0);
    XorDigit(1, 0, 0);
    XorDigit(2, 0, 1);
    XorDigit(4, 0, 2);
    XorDigit(9, 0, 4);
    XorDigit(18, 1, 9);
    XorDigit(36, 2, 19);
    XorDigit(72, 4, 38);
    XorSelf(0);
    XorDigit(1, 0, 0);
    XorDigit(2, 0, 1);
    XorDigit(4, 0, 2);
    XorDigit(9, 0, 4);
    XorDigit(19, 0, 9);
    XorDigit(38, 1, 19);
    XorDigit(76, 2, 39);
  }

  lemma SquareDigits78()
    ensures Xor(205, 64) == 141
    ensures Xor(141, 16) == 157
    ensures Xor(157, 4) == 153
  {
    hide Xor;
    XorSelf(0);
    XorDigit(1, 0, 0);
    XorDigit(3, 1, 1);
    XorDigit(6, 2, 2);
    XorDigit(12, 4, 4);
    XorDigit(25, 8, 8);
    XorDigit(51, 16, 17);
    XorDigit(102, 32, 35);
    XorDigit(205, 64, 70);
    XorSelf(0);
    XorDigit(1, 0, 0);
    XorDigit(2, 0, 1);
    XorDigit(4, 0, 2);
    XorDigit(8, 1, 4);
    XorDigit(17, 2, 9);
    XorDigit(35, 4, 19);
    XorDigit(70, 8, 39);
    XorDigit(141, 16, 78);
    XorSelf(0);
    XorDigit(1, 0, 0);
    XorDigit(2, 0, 1);
    XorDigit(4, 0, 2);
    XorDigit(9, 0, 4);
    XorDigit(19, 0, 9);
    XorDigit(39, 1, 19);
    XorDigit(78, 2, 38);
    XorDigit(157, 4, 76);
  }

  // ----- powers of 2

  lemma FirstPowers()
    ensures Exp(1) == 2 && Exp(2) == 4 && Exp(3) == 8 && Exp(4) == 16 && Exp(5) == 32 && Exp(6) == 64 && Exp(7) == 128
    ensures Exp(8) == 29 && Exp(12) == 205 && Exp(14) == 19 && Exp(15) == 38 && Exp(17) == 152
  {
    OverflowDigits();
    assert Exp(0) == 1;
    assert Exp(1) == 2;
    assert Exp(2) == 4;
    assert Exp(3) == 8;
    assert Exp(4) == 16;
    assert Exp(5) == 32;
    assert Exp(6) == 64;
    assert Exp(7) == 128;
    assert Exp(8) == 29;
    assert Exp(9) == 58;
    assert Exp(10) == 116;
    assert Exp(11) == 232;
    assert Exp(12) == 205;
    assert Exp(13) == 135;
    assert Exp(14) == 19;
    assert Exp(15) == 38;
    assert Exp(16) == 76;
    assert Exp(17) == 152;
  }

  function Square(a: byte): byte { Mul(a, a) }

  /** Squaring is linear in characteristic 2. */
  lemma SquareAdds(a: byte, b: byte)
    ensures Square(XorByte(a, b)) == XorByte(Square(a), Square(b))
  {
    var c := XorByte(a, b);
    MulAddRight(c, a, b);
    MulAddLeft(a, b, a);
    MulAddLeft(a, b, b);
    MulCommutes(a, b);
    XorInterchange(Mul(a, a), Mul(b, a), Mul(a, b), Mul(b, b));
    XorCommutes(Mul(a, b), Mul(b, b));
    XorAssociates(Mul(a, a), Mul(a, b), Xor(Mul(a, b), Mul(b, b)));
    XorCancels(Mul(b, b), Mul(a, b));
    XorCommutes(Mul(b, b), Mul(a, b));
    XorCancels(Mul(a, b), Mul(b, b));
  }

  lemma SquareOfExp(n: nat)
    ensures Exp(2 * n) == Square(Exp(n))
  {
    hide Mul, Exp;
    ExpAdd(n, n);
    assert n + n == 2 * n;
  }

  lemma Squares()
    ensures Square(152) == 78 && Square(78) == 153
  {
    hide Mul, Exp, Square;
    FirstPowers();
    Digits152();
    Digits78();
    SquareDigits78();
    SquareOfExp(1);
    SquareOfExp(2);
    SquareOfExp(3);
    SquareOfExp(4);
    SquareOfExp(6);
    SquareOfExp(7);
    SquareAdds(128, 16);
    SquareAdds(144, 8);
    SquareAdds(64, 8);
    SquareAdds(72, 4);
    SquareAdds(76, 2);
  }

  /** 152 = 2^17 lies in the subfield of 16 elements: its fourth power is 152 + 1. */
  lemma PowersOf152()
    ensures Exp(34) == 78 && Exp(68) == 153 && Exp(136) == 79 && Exp(272) == 152
  {
    FirstPowers();
    Squares();
    hide Mul, Exp, Xor;
    SquareOfExp(17);
    SquareOfExp(34);
    assert Square(1) == 1 by { MulOne(1); }
    XorEven(76);
    XorCancels(152, 1);
    XorEven(39);
    SquareAdds(152, 1);
    SquareOfExp(68);
    SquareAdds(78, 1);
    SquareOfExp(136);
  }

  lemma XtimeInjective(a: byte, b: byte)
    requires Xtime(a) == Xtime(b)
    ensures a == b
  {
    XtimeLinear(a, b);
    XorSelf(Xtime(a));
    XtimeZero(XorByte(a, b));
    XorIsZero(a, b);
  }

  lemma {:induction false} ExpRepeats(m: nat, k: nat)
    requires Exp(m + k) == Exp(m)
    ensures Exp(k) == 1
    decreases m
  {
    if m > 0 {
      XtimeInjective(Exp(m - 1 + k), Exp(m - 1));
      ExpRepeats(m - 1, k);
    }
  }

  lemma Exp255()
    ensures Exp(255) == 1
  {
    FirstPowers();
    PowersOf152();
    ExpRepeats(17, 255);
  }

  lemma NoShortPeriod()
    ensures Exp(85) != 1 && Exp(51) != 1 && Exp(15) != 1
  {
    FirstPowers();
    PowersOf152();
    ExpAdd(51, 17);
    MulOne(152);
    ExpAdd(68, 17);
    XorEven(76);
    MulAddLeft(152, 1, 152);
    assert Exp(34) == Mul(152, 152) by { SquareOfExp(17); }
    XorCancels(78, 152);
    XorCommutes(1, 152);
  }

  // ----- the order of 2 is 255

  lemma {:induction false} PeriodMultiple(d: nat, k: nat)
    requires Exp(d) == 1
    ensures Exp(k * d) == 1
    decreases k
  {
    if k > 0 {
      PeriodMultiple(d, k - 1);
      assert k * d == (k - 1) * d + d;
      ExpAdd((k - 1) * d, d);
      MulOne(1);
    }
  }

  lemma DivisorsOf255(d: nat)
    requires 0 < d < 255 && 255 % d == 0
    ensures d in {1, 3, 5, 15, 17, 51, 85}
  {
    var q := 255 / d;
    assert q * d == 255;
    if d > 15 {
      assert q <= 15;
    }
  }

  lemma {:induction false} NoPeriod(d: nat)
    requires 0 < d < 255
    ensures Exp(d) != 1
    decreases d
  {
    if Exp(d) == 1 {
      var q, r := 255 / d, 255 % d;
      assert 255 == q * d + r;
      PeriodMultiple(d, q);
      ExpAdd(q * d, r);
      MulOne(Exp(r));
      Exp255();
      if r > 0 {
        NoPeriod(r);
      } else {
        DivisorsOf255(d);
        if 85 % d == 0 {
          PeriodMultiple(d, 85 / d);
        } else if 51 % d == 0 {
          PeriodMultiple(d, 51 / d);
        } else {
          PeriodMultiple(d, 15 / d);
        }
        NoShortPeriod();
      }
    }
  }

  lemma ExpInjective(i: nat, j: nat)
    requires i < 255 && j < 255 && Exp(i) == Exp(j)
    ensures i == j
  {
    var low, high := if i < j then i else j, if i < j then j else i;
    ExpRepeats(low, high - low);
    if low < high {
      NoPeriod(high - low);
    }
  }

  lemma {:induction false} ExpNonzero(n: nat)
    ensures Exp(n) != 0
  {
    if n > 0 {
      ExpNonzero(n - 1);
      XtimeZero(Exp(n - 1));
    }
  }

  // ----- discrete logarithms

  /** The first `n` powers of 2. */
  ghost function Powers(n: nat): set<int> {
    set i | 0 <= i < n :: Exp(i) as int
  }

  lemma {:induction false} PowersSize(n: nat)
    requires n <= 255
    ensures |Powers(n)| == n
  {
    if n > 0 {
      PowersSize(n - 1);
      var e: int := Exp(n - 1);
      assert Powers(n) == Powers(n - 1) + {e};
      if e in Powers(n - 1) {
        var i :| 0 <= i < n - 1 && Exp(i) as int == e;
        ExpInjective(i, n - 1);
      }
    }
  }

  ghost function Range(m: nat): set<int> {
    if m <= 1 then {} else Range(m - 1) + {m - 1}
  }

  lemma {:induction false} RangeSize(m: nat)
    requires m >= 1
    ensures |Range(m)| == m - 1
    ensures forall i :: i in Range(m) <==> 1 <= i < m
  {
    if m > 1 {
      RangeSize(m - 1);
    }
  }

  lemma SubsetOfSameSize(a: set<int>, b: set<int>)
    requires a <= b && |a| == |b|
    ensures a == b
  {
    assert |b - a| == |b| - |a|;
    assert b == a + (b - a);
  }

  lemma LogExists(a: byte)
    requires a != 0
    ensures exists i :: 0 <= i < 255 && Exp(i) == a
  {
    PowersSize(255);
    RangeSize(256);
    forall e | e in Powers(255)
      ensures e in Range(256)
    {
      var i :| 0 <= i < 255 && Exp(i) as int == e;
      ExpNonzero(i);
    }
    SubsetOfSameSize(Powers(255), Range(256));
    assert a as int in Powers(255);
  }

  /** The discrete logarithm of a nonzero byte. */
  ghost function Log(a: byte): (i: nat)
    requires a != 0
    ensures i < 255 && Exp(i) == a
  {
    LogExists(a);
    var i :| 0 <= i < 255 && Exp(i) == a;
    i
  }

  // ----- consequences: no zero divisors, inverses

  lemma MulIsZero(a: byte, b: byte)
    ensures Mul(a, b) == 0 <==> a == 0 || b == 0
  {
    hide Mul, Exp;
    MulZero(a);
    MulZero(b);
    if a != 0 && b != 0 {
      ExpAdd(Log(a), Log(b));
      ExpNonzero(Log(a) + Log(b));
    }
  }

  /** Multiplicative inverse, by counting down from the order of the group. */
  ghost function Inverse(a: byte): (r: byte)
    requires a != 0
    ensures Mul(a, r) == 1 && r != 0
  {
    hide Mul, Exp, Log;
    ExpAdd(Log(a), 255 - Log(a));
    Exp255();
    ExpNonzero(255 - Log(a));
    Exp(255 - Log(a))
  }

  lemma InverseUnique(a: byte, b: byte)
    requires Mul(a, b) == 1
    ensures a != 0 && b == Inverse(a)
  {
    hide Mul, Inverse;
    MulZero(b);
    var i := Inverse(a);
    MulCommutes(a, b);
    MulAssociates(b, a, i);
    MulOne(i);
    MulOne(b);
  }

  lemma MulCancels(a: byte, b: byte, c: byte)
    requires a != 0 && Mul(a, b) == Mul(a, c)
    ensures b == c
  {
    hide Mul, Inverse;
    var i := Inverse(a);
    MulCommutes(a, i);
    MulAssociates(i, a, b);
    MulAssociates(i, a, c);
    MulOne(b);
    MulOne(c);
  }

  lemma {:induction false} ExpPeriodic(n: nat)
    ensures Exp(n) == Exp(n % 255)
    decreases n
  {
    hide Mul, Exp;
    if n >= 255 {
      var m := n - 255;
      ExpPeriodic(m);
      assert n % 255 == m % 255;
      ExpAdd(m, 255);
      Exp255();
      MulOne(Exp(m));
    }
  }
}
