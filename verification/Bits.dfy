/** Bitwise operations on natural numbers, defined one binary digit at a time. */
module Bits {

  type byte = n: int | 0 <= n < 256

  function Pow2(k: nat): (r: nat)
    ensures r > 0
  {
    if k == 0 then 1 else 2 * Pow2(k - 1)
  }

  /** Digit `k` of `n`, the least significant digit being number 0. */
  function Bit(n: nat, k: nat): bool
    decreases k
  {
    if k == 0 then n % 2 == 1 else Bit(n / 2, k - 1)
  }

  /** Logical shift right. */
  function Shr(n: nat, k: nat): (r: nat)
    ensures r <= n
    decreases k
  {
    if k == 0 then n else Shr(n / 2, k - 1)
  }

  lemma {:induction false} ShrStep(n: nat, k: nat)
    ensures Shr(n, k + 1) == Shr(n, k) / 2
    decreases k
  {
    if k > 0 {
      ShrStep(n / 2, k - 1);
    }
  }

  lemma {:induction false} ShrBit(n: nat, k: nat)
    ensures Bit(n, k) <==> Shr(n, k) % 2 == 1
    decreases k
  {
    if k > 0 {
      ShrBit(n / 2, k - 1);
    }
  }

  lemma {:induction false} ShrSmall(n: nat, k: nat)
    requires n < Pow2(k)
    ensures Shr(n, k) == 0
    decreases k
  {
    if k > 0 {
      ShrSmall(n / 2, k - 1);
    }
  }

  function Xor(a: nat, b: nat): nat
    decreases a + b
  {
    if a == 0 && b == 0 then 0
    else 2 * Xor(a / 2, b / 2) + if a % 2 == b % 2 then 0 else 1
  }

  lemma {:induction false} XorStep(a: nat, b: nat)
    ensures Xor(a, b) / 2 == Xor(a / 2, b / 2)
    ensures Xor(a, b) % 2 == if a % 2 == b % 2 then 0 else 1
    ensures Xor(a, b) == 2 * Xor(a / 2, b / 2) + if a % 2 == b % 2 then 0 else 1
  {}

  lemma {:induction false} XorZero(a: nat)
    ensures Xor(a, 0) == a && Xor(0, a) == a
    decreases a
  {
    if a > 0 {
      XorZero(a / 2);
    }
  }

  lemma {:induction false} XorSelf(a: nat)
    ensures Xor(a, a) == 0
    decreases a
  {
    if a > 0 {
      XorSelf(a / 2);
    }
  }

  lemma {:induction false} XorCommutes(a: nat, b: nat)
    ensures Xor(a, b) == Xor(b, a)
    decreases a + b
  {
    if a + b > 0 {
      XorCommutes(a / 2, b / 2);
    }
  }

  /** A number is determined by its half and its last digit. */
  lemma HalfAndParity(a: nat, b: nat)
    requires a / 2 == b / 2 && a % 2 == b % 2
    ensures a == b
  {}

  lemma {:induction false} XorAssociates(a: nat, b: nat, c: nat)
    ensures Xor(Xor(a, b), c) == Xor(a, Xor(b, c))
    decreases a + b + c
  {
    if a + b + c > 0 {
      XorStep(a, b);
      XorStep(b, c);
      var ab, bc := Xor(a, b), Xor(b, c);
      XorStep(ab, c);
      XorStep(a, bc);
      XorAssociates(a / 2, b / 2, c / 2);
      HalfAndParity(Xor(ab, c), Xor(a, bc));
    } else {
      assert a == b == c == 0;
    }
  }

  /** Xoring the same number twice gives back the first one. */
  lemma XorCancels(a: nat, b: nat)
    ensures Xor(Xor(a, b), b) == a
    ensures Xor(b, Xor(b, a)) == a
  {
    XorAssociates(a, b, b);
    XorAssociates(b, b, a);
    XorSelf(b);
    XorZero(a);
  }

  lemma XorInterchange(a: nat, b: nat, c: nat, d: nat)
    ensures Xor(Xor(a, b), Xor(c, d)) == Xor(Xor(a, c), Xor(b, d))
  {
    XorAssociates(a, b, Xor(c, d));
    XorAssociates(b, c, d);
    XorCommutes(b, c);
    XorAssociates(c, b, d);
    XorAssociates(a, c, Xor(b, d));
  }

  lemma XorIsZero(a: nat, b: nat)
    ensures Xor(a, b) == 0 <==> a == b
  {
    XorSelf(a);
    XorCancels(a, b);
    XorZero(b);
  }

  lemma {:induction false} XorBounded(a: nat, b: nat, k: nat)
    requires a < Pow2(k) && b < Pow2(k)
    ensures Xor(a, b) < Pow2(k)
    decreases k
  {
    if k > 0 {
      XorBounded(a / 2, b / 2, k - 1);
      XorStep(a, b);
    } else {
      XorZero(0);
    }
  }

  /** The digit above the lowest `k` is the exclusive or of the two digits. */
  lemma {:induction false} XorTop(a: nat, b: nat, k: nat)
    requires a < Pow2(k + 1) && b < Pow2(k + 1)
    ensures Xor(a, b) >= Pow2(k) <==> (a >= Pow2(k) <==> b < Pow2(k))
    ensures Xor(a, b) < Pow2(k + 1)
    decreases k
  {
    XorBounded(a, b, k + 1);
    XorStep(a, b);
    if k > 0 {
      XorTop(a / 2, b / 2, k - 1);
    } else {
      XorZero(a / 2);
    }
  }

  /** Exclusive or of two bytes. */
  function XorByte(a: byte, b: byte): (r: byte)
    ensures r == Xor(a, b)
  {
    assert Pow2(8) == 256;
    XorBounded(a, b, 8);
    Xor(a, b)
  }

  // ----- or, and, single digits

  function Or(a: nat, b: nat): nat
    decreases a + b
  {
    if a == 0 && b == 0 then 0
    else 2 * Or(a / 2, b / 2) + if a % 2 == 1 || b % 2 == 1 then 1 else 0
  }

  function And(a: nat, b: nat): nat
    decreases a
  {
    if a == 0 then 0
    else 2 * And(a / 2, b / 2) + if a % 2 == 1 && b % 2 == 1 then 1 else 0
  }

  lemma {:induction false} BitOfZero(k: nat)
    ensures !Bit(0, k)
    decreases k
  {
    if k > 0 {
      BitOfZero(k - 1);
    }
  }

  lemma {:induction false} BitOfXor(a: nat, b: nat, k: nat)
    ensures Bit(Xor(a, b), k) <==> (Bit(a, k) <==> !Bit(b, k))
    decreases k
  {
    XorStep(a, b);
    if k > 0 {
      BitOfXor(a / 2, b / 2, k - 1);
    }
  }

  lemma {:induction false} BitOfOr(a: nat, b: nat, k: nat)
    ensures Bit(Or(a, b), k) <==> Bit(a, k) || Bit(b, k)
    decreases k
  {
    assert Or(a, b) / 2 == Or(a / 2, b / 2);
    if k > 0 {
      BitOfOr(a / 2, b / 2, k - 1);
    }
  }

  lemma {:induction false} BitOfAnd(a: nat, b: nat, k: nat)
    ensures Bit(And(a, b), k) <==> Bit(a, k) && Bit(b, k)
    decreases k
  {
    assert And(a, b) / 2 == And(a / 2, b / 2);
    if k > 0 {
      BitOfAnd(a / 2, b / 2, k - 1);
    }
  }

  lemma {:induction false} BitOfPow2(i: nat, k: nat)
    ensures Bit(Pow2(i), k) <==> i == k
    decreases k
  {
    if i == 0 {
      if k > 0 {
        BitOfZero(k - 1);
      }
    } else if k > 0 {
      BitOfPow2(i - 1, k - 1);
    }
  }

  lemma {:induction false} OrBounded(a: nat, b: nat, k: nat)
    requires a < Pow2(k) && b < Pow2(k)
    ensures Or(a, b) < Pow2(k)
    decreases k
  {
    if k > 0 {
      OrBounded(a / 2, b / 2, k - 1);
    }
  }

  lemma {:induction false} AndBounded(a: nat, b: nat)
    ensures And(a, b) <= a
    decreases a
  {
    if a > 0 {
      AndBounded(a / 2, b / 2);
    }
  }

  lemma {:induction false} Pow2Monotone(i: nat, k: nat)
    requires i < k
    ensures 2 * Pow2(i) <= Pow2(k)
    decreases k
  {
    if i < k - 1 {
      Pow2Monotone(i, k - 1);
    }
  }

  /** All eight digits of 255 are set. */
  lemma BitOf255(k: nat)
    requires k < 8
    ensures Bit(255, k)
  {
    assert Pow2(8) == 256;
    BitOfOnes(8, k);
  }

  lemma {:induction false} BitOfOnes(n: nat, k: nat)
    requires k < n
    ensures Bit(Pow2(n) - 1, k)
    decreases k
  {
    assert (Pow2(n) - 1) / 2 == Pow2(n - 1) - 1;
    if k > 0 {
      BitOfOnes(n - 1, k - 1);
    }
  }

  /** Digit i of the byte is set or cleared, the other digits stay. */
  function SetBit(b: byte, i: nat, on: bool): (r: byte)
    requires i < 8
    ensures forall k: nat :: k < 8 ==> (Bit(r, k) <==> if k == i then on else Bit(b, k))
  {
    assert Pow2(8) == 256;
    Pow2Monotone(i, 8);
    assert forall k: nat :: k < 8 ==> (Bit(Pow2(i), k) <==> i == k) by {
      forall k: nat | k < 8 ensures Bit(Pow2(i), k) <==> i == k { BitOfPow2(i, k); }
    }
    if on then
      OrBounded(b, Pow2(i), 8);
      assert forall k: nat :: k < 8 ==> (Bit(Or(b, Pow2(i)), k) <==> Bit(b, k) || Bit(Pow2(i), k)) by {
        forall k: nat | k < 8
          ensures Bit(Or(b, Pow2(i)), k) <==> Bit(b, k) || Bit(Pow2(i), k)
        {
          BitOfOr(b, Pow2(i), k);
        }
      }
      Or(b, Pow2(i))
    else
      AndBounded(b, Xor(Pow2(i), 255));
      assert forall k: nat :: k < 8 ==> (Bit(And(b, Xor(Pow2(i), 255)), k) <==> Bit(b, k) && k != i) by {
        forall k: nat | k < 8 ensures Bit(And(b, Xor(Pow2(i), 255)), k) <==> Bit(b, k) && k != i {
          BitOfAnd(b, Xor(Pow2(i), 255), k);
          BitOfXor(Pow2(i), 255, k);
          BitOfPow2(i, k);
          BitOf255(k);
        }
      }
      And(b, Xor(Pow2(i), 255))
  }

  /** Shifting a row of ones right. */
  lemma {:induction false} ShrOnes(n: nat, k: nat)
    requires k <= n
    ensures Shr(Pow2(n) - 1, k) == Pow2(n - k) - 1
    decreases k
  {
    if k > 0 {
      assert (Pow2(n) - 1) / 2 == Pow2(n - 1) - 1;
      ShrOnes(n - 1, k - 1);
    }
  }

  /** Masking before a right shift is masking after it. */
  lemma {:induction false} ShrOfAnd(a: nat, m: nat, k: nat)
    ensures Shr(And(a, m * Pow2(k)), k) == And(Shr(a, k), m)
    decreases k
  {
    if k == 0 {
      assert m * Pow2(0) == m;
    } else {
      assert m * Pow2(k) == 2 * (m * Pow2(k - 1));
      AndEven(a, m * Pow2(k - 1));
      ShrOfAnd(a / 2, m, k - 1);
    }
  }

  lemma AndStep(a: nat, b: nat)
    ensures And(a, b) == 2 * And(a / 2, b / 2) + if a % 2 == 1 && b % 2 == 1 then 1 else 0
  {}

  lemma OrStep(a: nat, b: nat)
    ensures Or(a, b) == 2 * Or(a / 2, b / 2) + if a % 2 == 1 || b % 2 == 1 then 1 else 0
  {}

  lemma AndEven(a: nat, m: nat)
    ensures And(a, 2 * m) == 2 * And(a / 2, m)
  {
    hide And;
    AndStep(a, 2 * m);
  }

  /** Or of a shifted number and one that fits below it. */
  lemma {:induction false} OrDisjoint(a: nat, b: nat, k: nat)
    requires b < Pow2(k)
    ensures Or(a * Pow2(k), b) == a * Pow2(k) + b
    decreases k
  {
    if k == 0 {
      assert a * Pow2(0) == a;
      OrZero(a);
    } else {
      var h := a * Pow2(k - 1);
      assert a * Pow2(k) == 2 * h;
      OrDisjoint(a, b / 2, k - 1);
      OrEven(h, b);
    }
  }

  lemma OrEven(h: nat, b: nat)
    ensures Or(2 * h, b) == 2 * Or(h, b / 2) + b % 2
  {}

  lemma {:induction false} OrZero(a: nat)
    ensures Or(a, 0) == a
    decreases a
  {
    if a > 0 {
      OrZero(a / 2);
    }
  }

  lemma {:induction false} Pow2Add(a: nat, b: nat)
    ensures Pow2(a + b) == Pow2(a) * Pow2(b)
    decreases a
  {
    if a > 0 {
      Pow2Add(a - 1, b);
    }
  }

  lemma ShrZero(n: nat)
    ensures Shr(n, 0) == n
  {}

  lemma {:induction false} AndZero(n: nat)
    ensures And(n, 0) == 0
    decreases n
  {
    if n > 0 {
      AndZero(n / 2);
    }
  }

  /** Masking with ones keeps the low digits. */
  lemma {:induction false} AndOnes(n: nat, k: nat)
    ensures And(n, Pow2(k) - 1) == n % Pow2(k)
    decreases k
  {
    hide And;
    if k == 0 {
      AndZero(n);
    } else {
      AndOnes(n / 2, k - 1);
      AndOnesStep(n, Pow2(k - 1));
    }
  }

  lemma AndOnesStep(n: nat, h: nat)
    requires h > 0 && And(n / 2, h - 1) == n / 2 % h
    ensures And(n, 2 * h - 1) == n % (2 * h)
  {
    hide And;
    AndStep(n, 2 * h - 1);
    HalfRemainder(n, h);
  }

  lemma HalfRemainder(n: nat, h: nat)
    requires h > 0
    ensures n % (2 * h) == 2 * (n / 2 % h) + n % 2
  {
    var m := n / 2;
    var q, r := m / h, m % h;
    assert m == h * q + r;
    assert (2 * h) * q == 2 * (h * q);
    RemainderIs(n, 2 * h, q, 2 * r + n % 2);
  }

  lemma Multiples(d: nat, e: int)
    ensures e >= 1 ==> d * e >= d
    ensures e <= -1 ==> d * e + d <= 0
  {}

  lemma RemainderIs(n: nat, d: nat, q: nat, r: nat)
    requires n == d * q + r && r < d
    ensures n % d == r
  {
    var q', r' := n / d, n % d;
    assert n == d * q' + r';
    assert d * (q' - q) == d * q' - d * q;
    Multiples(d, q' - q);
  }

  function Min(a: int, b: int): int {
    if a < b then a else b
  }

  lemma MulMonotone(n: nat, a: int, b: int)
    requires a <= b
    ensures n * a <= n * b && a * n <= b * n
  {}

  lemma QuotientIs(n: nat, d: nat, q: nat, r: nat)
    requires n == d * q + r && r < d
    ensures n / d == q
  {
    var q' := n / d;
    RemainderIs(n, d, q, r);
    assert d * q' == d * q;
    if q' < q {
      MulMonotone(d, q' + 1, q);
    } else if q < q' {
      MulMonotone(d, q + 1, q');
    }
  }

  // ----- sets

  lemma Member<T>(a: set<T>) returns (x: T)
    requires a != {}
    ensures x in a
  {
    x :| x in a;
  }
}
