/** Numbers as lists of binary digits, the lowest first, and division of polynomials over two elements. */
module BinaryDigits {
  import opened Bits
  import opened Distances

  type bit = n: int | 0 <= n < 2

  function Num(w: seq<bit>): nat {
    if w == [] then 0 else w[0] + 2 * Num(w[1..])
  }

  /** The exclusive or of two digits. */
  function Sum(x: bit, y: bit): bit {
    if x == y then 0 else 1
  }

  function XorDigits(v: seq<bit>, w: seq<bit>): (r: seq<bit>)
    requires |v| == |w|
    ensures |r| == |v|
  {
    seq<bit>(|v|, k requires 0 <= k < |v| => Sum(v[k], w[k]))
  }

  lemma XorNext(x: bit, a: nat, y: bit, b: nat)
    ensures Xor(x + 2 * a, y + 2 * b) == Sum(x, y) + 2 * Xor(a, b)
  {
    hide Xor;
    XorStep(x + 2 * a, y + 2 * b);
  }

  lemma NumTail(w: seq<bit>, k: nat)
    requires k < |w|
    ensures Num(w[k..]) == w[k] + 2 * Num(w[k + 1..])
  {
    assert w[k..][1..] == w[k + 1..];
  }

  lemma NumOfNone(w: seq<bit>)
    requires w == []
    ensures Num(w) == 0
  {}

  lemma NumFirst(w: seq<bit>)
    requires w != []
    ensures Num(w) == w[0] + 2 * Num(w[1..])
  {}

  lemma {:induction false} XorNum(v: seq<bit>, w: seq<bit>)
    requires |v| == |w|
    ensures Xor(Num(v), Num(w)) == Num(XorDigits(v, w))
    decreases |v|
  {
    hide Xor, Num, Sum;
    if v == [] {
      NumOfNone(v);
      NumOfNone(w);
      NumOfNone(XorDigits(v, w));
      XorZero(0);
    } else {
      NumFirst(v);
      NumFirst(w);
      NumFirst(XorDigits(v, w));
      assert XorDigits(v, w)[1..] == XorDigits(v[1..], w[1..]);
      XorNext(v[0], Num(v[1..]), w[0], Num(w[1..]));
      XorNum(v[1..], w[1..]);
    }
  }

  lemma {:induction false} NumBound(w: seq<bit>)
    ensures Num(w) < Pow2(|w|)
  {
    if w != [] {
      NumBound(w[1..]);
    }
  }

  lemma {:induction false} NumConcat(v: seq<bit>, w: seq<bit>)
    ensures Num(v + w) == Num(v) + Pow2(|v|) * Num(w)
  {
    hide Num;
    if v == [] {
      assert v + w == w;
      NumOfNone(v);
    } else {
      NumFirst(v);
      NumFirst(v + w);
      assert (v + w)[1..] == v[1..] + w;
      NumConcat(v[1..], w);
      assert 2 * (Pow2(|v| - 1) * Num(w)) == Pow2(|v|) * Num(w);
    }
  }

  function FiveAt(w: seq<bit>, k: nat): nat
    requires k + 5 <= |w|
  {
    var a: nat, b: nat, c: nat, d: nat, e: nat := w[k], w[k + 1], w[k + 2], w[k + 3], w[k + 4];
    a + 2 * b + 4 * c + 8 * d + 16 * e
  }

  lemma NumFive(w: seq<bit>, k: nat)
    requires k + 5 <= |w|
    ensures Num(w[k..]) == FiveAt(w, k) + 32 * Num(w[k + 5..])
  {
    hide Num;
    NumTail(w, k);
    NumTail(w, k + 1);
    NumTail(w, k + 2);
    NumTail(w, k + 3);
    NumTail(w, k + 4);
  }

  function ThreeAt(w: seq<bit>, k: nat): nat
    requires k + 3 <= |w|
  {
    var a: nat, b: nat, c: nat := w[k], w[k + 1], w[k + 2];
    a + 2 * b + 4 * c
  }

  lemma NumThree(w: seq<bit>, k: nat)
    requires k + 3 <= |w|
    ensures Num(w[k..]) == ThreeAt(w, k) + 8 * Num(w[k + 3..])
  {
    hide Num;
    NumTail(w, k);
    NumTail(w, k + 1);
    NumTail(w, k + 2);
  }

  lemma NumOne(b: bit)
    ensures Num([b]) == b
  {}

  lemma DoubleNum(w: seq<bit>)
    ensures Num([0] + w) == 2 * Num(w)
  {
    assert ([0] + w)[1..] == w;
  }

  lemma {:induction false} NumZeros(n: nat)
    ensures Num(seq<bit>(n, _ => 0)) == 0
  {
    if n > 0 {
      assert seq<bit>(n, _ => 0)[1..] == seq<bit>(n - 1, _ => 0);
      NumZeros(n - 1);
    }
  }

  // ----- sums of digits

  lemma SumMixes(a: bit, b: bit, x: bit, y: bit)
    ensures Sum(Sum(a, b), Sum(x, y)) == Sum(Sum(a, x), Sum(b, y))
  {}

  lemma NoSum()
    ensures forall x: bit :: Sum(x, 0) == x && Sum(0, x) == x
  {}

  lemma MaskCancels(v: seq<bit>, w: seq<bit>, m: seq<bit>)
    requires |v| == |w| == |m|
    ensures XorDigits(XorDigits(v, m), XorDigits(w, m)) == XorDigits(v, w)
  {
    forall k | 0 <= k < |v|
      ensures Sum(Sum(v[k], m[k]), Sum(w[k], m[k])) == Sum(v[k], w[k])
    {
      SumMixes(v[k], m[k], w[k], m[k]);
    }
  }

  // ----- number of ones

  function Ones(w: seq<bit>): nat {
    if w == [] then 0 else w[0] + Ones(w[1..])
  }

  lemma {:induction false} WeightNum(w: seq<bit>)
    ensures Weight(Num(w)) == Ones(w)
  {
    hide Weight, Num;
    if w == [] {
      NumOfNone(w);
      WeightOfZero();
    } else {
      NumFirst(w);
      WeightStep(w[0] + 2 * Num(w[1..]));
      WeightNum(w[1..]);
    }
  }

  lemma OnesTail(w: seq<bit>, k: nat)
    requires k < |w|
    ensures Ones(w[k..]) == w[k] + Ones(w[k + 1..])
  {
    assert w[k..][1..] == w[k + 1..];
  }

  lemma NoOnes(w: seq<bit>)
    requires w == []
    ensures Ones(w) == 0
  {}

  function OnesAt(w: seq<bit>, k: nat): nat
    requires k + 3 <= |w|
  {
    var a: nat, b: nat, c: nat := w[k], w[k + 1], w[k + 2];
    a + b + c
  }

  lemma OnesThree(w: seq<bit>, k: nat)
    requires k + 3 <= |w|
    ensures Ones(w[k..]) == OnesAt(w, k) + Ones(w[k + 3..])
  {
    hide Ones;
    OnesTail(w, k);
    OnesTail(w, k + 1);
    OnesTail(w, k + 2);
  }

  // ----- one step of the division

  /** Shift, and subtract the generator if the highest digit was set. */
  function Shifted(rem: nat, half: nat, generator: nat): nat
    requires half > 0
  {
    Xor(rem * 2, rem / half * generator)
  }

  function Divided(data: nat, n: nat, half: nat, generator: nat): nat
    requires half > 0
  {
    if n == 0 then data else Shifted(Divided(data, n - 1, half, generator), half, generator)
  }

  /** The same on digits; `low` are the generator's digits below the highest. */
  function ShiftedDigits(w: seq<bit>, low: seq<bit>): (r: seq<bit>)
    requires |w| == |low| > 0
    ensures |r| == |w|
  {
    seq<bit>(|w|, k requires 0 <= k < |w| => Sum(if k > 0 then w[k - 1] else 0, if w[|w| - 1] == 1 then low[k] else 0))
  }

  lemma TopDigit(w: seq<bit>)
    requires |w| > 0
    ensures Num(w) / Pow2(|w| - 1) == w[|w| - 1]
  {
    hide Num, Pow2;
    var n := |w| - 1;
    assert w == w[..n] + [w[n]];
    NumConcat(w[..n], [w[n]]);
    NumBound(w[..n]);
    NumOne(w[n]);
    Quotient(Num(w), Pow2(n), w[n], Num(w[..n]));
  }

  lemma Quotient(n: nat, d: nat, q: bit, r: nat)
    requires n == r + d * q && r < d
    ensures n / d == q
  {
    if q == 1 {
      RemainderIs(n, d, 1, r);
    } else {
      RemainderIs(n, d, 0, r);
    }
  }

  /** The generator's digits, or zeros. */
  function Subtrahend(t: bit, low: seq<bit>): (r: seq<bit>)
    ensures |r| == |low| + 1
  {
    if t == 1 then low + [1] else seq<bit>(|low| + 1, _ => 0)
  }

  lemma SubtrahendNum(t: bit, low: seq<bit>, generator: nat)
    requires generator == Num(low) + Pow2(|low|)
    ensures Num(Subtrahend(t, low)) == t * generator
  {
    hide Num, Pow2;
    if t == 1 {
      NumConcat(low, [1]);
      NumOne(1);
    } else {
      NumZeros(|low| + 1);
    }
  }

  lemma ShiftedIsDifference(w: seq<bit>, low: seq<bit>)
    requires |w| == |low| > 0
    ensures XorDigits([0] + w, Subtrahend(w[|w| - 1], low)) == ShiftedDigits(w, low) + [0]
  {
    hide Num;
  }

  lemma ShiftedNum(w: seq<bit>, low: seq<bit>, half: nat, generator: nat)
    requires |w| == |low| > 0 && half == Pow2(|w| - 1) && generator == Num(low) + Pow2(|w|)
    ensures Shifted(Num(w), half, generator) == Num(ShiftedDigits(w, low))
  {
    hide Num, Xor, Pow2, XorDigits, ShiftedDigits, Subtrahend;
    var t := w[|w| - 1];
    TopDigit(w);
    DoubleNum(w);
    SubtrahendNum(t, low, generator);
    XorNum([0] + w, Subtrahend(t, low));
    ShiftedIsDifference(w, low);
    NumConcat(ShiftedDigits(w, low), [0]);
    NumOne(0);
  }

  lemma NotDivided(data: nat, half: nat, generator: nat)
    requires half > 0
    ensures Divided(data, 0, half, generator) == data
  {}

  lemma DividedNext(data: nat, n: nat, half: nat, generator: nat)
    requires half > 0
    ensures Divided(data, n + 1, half, generator) ==
            Xor(Divided(data, n, half, generator) * 2, Divided(data, n, half, generator) / half * generator)
  {}
}
