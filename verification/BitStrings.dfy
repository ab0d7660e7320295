/** Numbers as bit strings, the encoder's bit buffer and the decoder's bit stream. */
module BitStrings {
  import opened Bits
  import opened Placement

  /** The number written in binary, most significant digit first. */
  function Value(bits: seq<bool>): (r: nat)
    decreases |bits|
  {
    if bits == [] then 0
    else 2 * Value(bits[..|bits| - 1]) + if bits[|bits| - 1] then 1 else 0
  }

  lemma {:induction false} ValueBound(bits: seq<bool>)
    ensures Value(bits) < Pow2(|bits|)
    decreases |bits|
  {
    if bits != [] {
      ValueBound(bits[..|bits| - 1]);
    }
  }

  lemma {:induction false} ValueOfBitsMsb(n: nat, k: nat)
    requires n < Pow2(k)
    ensures Value(BitsMsb(n, k)) == n
    decreases k
  {
    if k > 0 {
      ValueOfBitsMsb(n / 2, k - 1);
      assert BitsMsb(n, k)[..k - 1] == BitsMsb(n / 2, k - 1);
    }
  }

  lemma {:induction false} ValueConcat(a: seq<bool>, b: seq<bool>)
    ensures Value(a + b) == Value(a) * Pow2(|b|) + Value(b)
    decreases |b|
  {
    if b == [] {
      assert a + b == a;
    } else {
      var b' := b[..|b| - 1];
      assert (a + b)[..|a + b| - 1] == a + b';
      ValueConcat(a, b');
      Doubled(Value(a), Pow2(|b'|));
    }
  }

  lemma Doubled(x: nat, y: nat)
    ensures x * (2 * y) == 2 * (x * y)
  {}

  // ----- encoder

  /** `buffer` with `bits` in place of what follows the first `bitLen` bits. */
  function Overwritten(all: seq<bool>, bitLen: nat, bits: seq<bool>): (r: seq<bool>)
    requires bitLen + |bits| <= |all|
    ensures |r| == |all|
  {
    all[..bitLen] + bits + all[bitLen + |bits|..]
  }

  /** Appends the low `numBits` bits of `val`; the buffer must still be zero there. */
  method AppendBitsToBuffer(val: nat, numBits: nat, buffer: array<byte>, bitLen: nat) returns (newLen: nat)
    requires numBits <= 16 && val < Pow2(numBits)
    requires bitLen + numBits <= 8 * buffer.Length
    requires forall k :: bitLen <= k < bitLen + numBits ==> !BytesToBits(buffer[..])[k]
    modifies buffer
    ensures newLen == bitLen + numBits
    ensures BytesToBits(buffer[..]) == Overwritten(old(BytesToBits(buffer[..])), bitLen, BitsMsb(val, numBits))
  {
    hide BytesToBits, BitsMsb, Pow2, Shr, Overwritten, Bit;
    ghost var all, bits := BytesToBits(buffer[..]), BitsMsb(val, numBits);
    OverwriteNone(all, bitLen, bits);
    newLen := bitLen;
    var i: int := numBits - 1;
    while i >= 0
      invariant -1 <= i < numBits && newLen == bitLen + (numBits - 1 - i)
      invariant BytesToBits(buffer[..]) == Overwritten(all, bitLen, bits[..numBits - 1 - i])
    {
      BitsMsbAt(val, numBits, numBits - 1 - i);
      ShrBit(val, i);
      OverwriteNext(all, bitLen, bits, numBits - 1 - i);
      OrInto(buffer, newLen, Shr(val, i) % 2);
      i, newLen := i - 1, newLen + 1;
    }
    assert bits[..numBits] == bits;
  }

  /** The loop body: or-s one digit into its place. */
  method OrInto(buffer: array<byte>, k: nat, digit: nat)
    requires k < 8 * buffer.Length && digit < 2 && !BytesToBits(buffer[..])[k]
    modifies buffer
    ensures BytesToBits(buffer[..]) == old(BytesToBits(buffer[..]))[k := digit == 1]
  {
    hide BytesToBits, Pow2, Or;
    ghost var before := buffer[..];
    OrDigit(before, k, digit == 1);
    buffer[k / 8] := Or(buffer[k / 8], digit * Pow2(7 - k % 8));
    assert buffer[..] == before[k / 8 := Or(before[k / 8], digit * Pow2(7 - k % 8))];
  }

  lemma OverwriteNone(all: seq<bool>, bitLen: nat, bits: seq<bool>)
    requires bitLen + |bits| <= |all|
    ensures Overwritten(all, bitLen, bits[..0]) == all
  {}

  lemma OverwriteNext(all: seq<bool>, bitLen: nat, bits: seq<bool>, k: nat)
    requires bitLen + |bits| <= |all| && k < |bits|
    requires forall j :: bitLen <= j < bitLen + |bits| ==> !all[j]
    ensures !Overwritten(all, bitLen, bits[..k])[bitLen + k]
    ensures Overwritten(all, bitLen, bits[..k])[bitLen + k := bits[k]] == Overwritten(all, bitLen, bits[..k + 1])
  {}

  /** Or-ing a digit into a clear place of the buffer writes that bit. */
  lemma OrDigit(bytes: seq<byte>, k: nat, digit: bool)
    requires k < 8 * |bytes| && !BytesToBits(bytes)[k]
    ensures var v := (if digit then 1 else 0) * Pow2(7 - k % 8);
            && Or(bytes[k / 8], v) < 256
            && BytesToBits(bytes[k / 8 := Or(bytes[k / 8], v)]) == BytesToBits(bytes)[k := digit]
  {
    hide BytesToBits, Pow2, Bit, Or;
    var p := 7 - k % 8;
    var v := (if digit then 1 else 0) * Pow2(p);
    var b := bytes[k / 8];
    DigitByte(b, p, digit);
    var updated := bytes[k / 8 := Or(b, v)];
    BytesToBitsAt(bytes, k);
    forall j | 0 <= j < 8 * |bytes|
      ensures BytesToBits(updated)[j] == BytesToBits(bytes)[k := digit][j]
    {
      BytesToBitsAt(bytes, j);
      BytesToBitsAt(updated, j);
      if j / 8 == k / 8 && j % 8 == k % 8 {
        HalfAndRest(j, k);
      }
    }
    assert BytesToBits(updated) == BytesToBits(bytes)[k := digit];
  }

  lemma HalfAndRest(j: nat, k: nat)
    requires j / 8 == k / 8 && j % 8 == k % 8
    ensures j == k
  {}

  lemma DigitByte(b: byte, p: nat, digit: bool)
    requires p < 8
    ensures var v := (if digit then 1 else 0) * Pow2(p);
            && Or(b, v) < 256
            && forall k: nat :: k < 8 ==> (Bit(Or(b, v), k) <==> Bit(b, k) || (digit && k == p))
  {
    hide Or, Bit, Pow2;
    var v := (if digit then 1 else 0) * Pow2(p);
    Pow2Of8();
    Pow2Monotone(p, 8);
    OrBounded(b, v, 8);
    forall k: nat | k < 8
      ensures Bit(Or(b, v), k) <==> Bit(b, k) || (digit && k == p)
    {
      BitOfOr(b, v, k);
      BitOfPow2(p, k);
      BitOfZero(k);
    }
  }

  lemma Pow2Of8()
    ensures Pow2(8) == 256
  {}
}
