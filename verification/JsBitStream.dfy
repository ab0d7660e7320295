/** The decoder's bit stream: reading by partial byte, whole bytes, partial byte. */
module JsBitStream {
  import opened Bits
  import opened Options
  import opened Placement
  import opened BitStrings

  /** The result of a bitwise operator: the low 32 bits as a signed number. */
  function ToInt32(n: nat): int {
    var m := n % 0x1_0000_0000;
    if m >= 0x8000_0000 then m - 0x1_0000_0000 else m
  }

  /** Shifts a nonnegative number left and fills in the new low bits. */
  function ShiftIn(result: nat, t: nat, low: nat): int {
    ToInt32(Or(result * Pow2(t), low))
  }

  /** The `t` bits of a byte that end `k` bits above its lowest: masked, then shifted down. */
  function Field(b: byte, t: nat, k: nat): nat
    requires t <= 8
  {
    var mask := Shr(0xFF, 8 - t) * Pow2(k);
    Shr(And(b, mask), k)
  }

  class BitStream {
    const bytes: seq<byte>
    var byteOffset: nat
    var bitOffset: nat

    ghost predicate Valid()
      reads this
    {
      && bitOffset < 8
      && (byteOffset < |bytes| || (byteOffset == |bytes| && bitOffset == 0))
    }

    /** Number of bits read so far. */
    ghost function Position(): nat
      reads this
    {
      8 * byteOffset + bitOffset
    }

    constructor (bytes: seq<byte>)
      ensures Valid() && Position() == 0 && this.bytes == bytes
    {
      this.bytes := bytes;
      byteOffset, bitOffset := 0, 0;
    }

    function Available(): (r: nat)
      requires Valid()
      reads this
      ensures r == 8 * |bytes| - Position()
    {
      8 * (|bytes| - byteOffset) - bitOffset
    }

    /** Reads the next `numBits` bits as a number, or fails without moving. */
    method ReadBits(numBits: nat) returns (r: Option<int>)
      requires Valid()
      modifies this
      ensures Valid()
      ensures r.Some? <==> 1 <= numBits <= 32 && numBits <= old(Available())
      ensures r.None? ==> Position() == old(Position())
      ensures r.Some? ==>
        && Position() == old(Position()) + numBits
        && r.value == ToInt32(Value(BytesToBits(bytes)[old(Position())..Position()]))
    {
      hide BytesToBits, Value, Field, ShiftIn, And, ToInt32;
      if numBits < 1 || numBits > 32 || numBits > Available() {
        return None;
      }
      ghost var p := Position();
      var left := numBits;
      var result: int := 0;
      NothingYet(BytesToBits(bytes), p);
      if bitOffset > 0 {
        var bitsLeft := 8 - bitOffset;
        var toRead := if left < bitsLeft then left else bitsLeft;
        var bitsToNotRead := bitsLeft - toRead;
        FirstField(bytes, byteOffset, toRead, bitsToNotRead, p, p + toRead);
        result := Field(bytes[byteOffset], toRead, bitsToNotRead);
        left := left - toRead;
        bitOffset := bitOffset + toRead;
        if bitOffset == 8 {
          bitOffset := 0;
          byteOffset := byteOffset + 1;
        }
      }
      if left > 0 {
        result := ReadRest(left, result, p);
      }
      r := Some(result);
    }

    /** Whole bytes, then what is left of the field. */
    method ReadRest(left0: nat, result0: int, ghost p: nat) returns (result: int)
      requires Valid() && bitOffset == 0 && p <= Position() && 0 < left0 <= Available()
      requires Position() + left0 <= p + 32
      requires result0 == ToInt32(Value(BytesToBits(bytes)[p..Position()]))
      modifies this
      ensures Valid() && Position() == old(Position()) + left0
      ensures result == ToInt32(Value(BytesToBits(bytes)[p..Position()]))
    {
      hide BytesToBits, Value, Field, ShiftIn, And, ToInt32;
      result := result0;
      var left: int := left0;
      ghost var end := Position() + left0;
      while left >= 8
        invariant 0 <= left && bitOffset == 0 && byteOffset <= |bytes| && p <= Position()
        invariant Position() == end - left && left <= 8 * (|bytes| - byteOffset)
        invariant result == ToInt32(Value(BytesToBits(bytes)[p..Position()]))
      {
        NextField(bytes, p, byteOffset, 8, Position(), Position() + 8, result);
        result := ShiftIn(result, 8, And(bytes[byteOffset], 0xFF));
        byteOffset := byteOffset + 1;
        left := left - 8;
      }
      if left > 0 {
        var bitsToNotRead := 8 - left;
        NextField(bytes, p, byteOffset, left, Position(), Position() + left, result);
        result := ShiftIn(result, left, Field(bytes[byteOffset], left, bitsToNotRead));
        bitOffset := bitOffset + left;
      }
    }
  }

  lemma NothingYet(bits: seq<bool>, p: nat)
    requires p <= |bits|
    ensures ToInt32(Value(bits[p..p])) == 0
  {}

  // ----- fields of a byte

  lemma {:induction false} BitsMsbHigh(n: nat, k: nat, low: nat)
    requires low <= k
    ensures BitsMsb(n, k)[..k - low] == BitsMsb(Shr(n, low), k - low)
    decreases low
  {
    if low == 0 {
      assert BitsMsb(n, k)[..k] == BitsMsb(n, k);
    } else {
      BitsMsbHigh(n / 2, k - 1, low - 1);
      assert BitsMsb(n, k)[..k - low] == BitsMsb(n / 2, k - 1)[..k - low];
    }
  }

  lemma {:induction false} BitsMsbLow(n: nat, k: nat, t: nat)
    requires t <= k
    ensures BitsMsb(n, k)[k - t..] == BitsMsb(n, t)
    decreases t
  {
    if t > 0 {
      BitsMsbLow(n / 2, k - 1, t - 1);
      assert BitsMsb(n, k)[k - t..] == BitsMsb(n / 2, k - 1)[k - t..] + [n % 2 == 1];
    }
  }

  lemma {:induction false} LowDigits(x: nat, t: nat)
    ensures Value(BitsMsb(x, t)) == x % Pow2(t)
    decreases t
  {
    if t > 0 {
      LowDigits(x / 2, t - 1);
      var bits := BitsMsb(x, t);
      assert bits[..t - 1] == BitsMsb(x / 2, t - 1);
      HalfRemainder(x, Pow2(t - 1));
    }
  }

  /** Masking and shifting extracts t bits of a byte, k bits above its end. */
  lemma FieldValue(b: byte, t: nat, k: nat)
    requires t + k <= 8
    ensures Field(b, t, k) == Value(BitsMsb(b, 8)[8 - k - t..8 - k])
  {
    hide BitsMsb, Value, Pow2, Shr, And;
    Pow2Of8();
    ShrOnes(8, 8 - t);
    ShrOfAnd(b, Pow2(t) - 1, k);
    AndOnes(Shr(b, k), t);
    LowDigits(Shr(b, k), t);
    BitsMsbHigh(b, 8, k);
    BitsMsbLow(Shr(b, k), 8 - k, t);
    assert BitsMsb(b, 8)[8 - k - t..8 - k] == BitsMsb(b, 8)[..8 - k][8 - k - t..];
  }

  lemma {:induction false} ByteBits(bytes: seq<byte>, o: nat)
    requires o < |bytes|
    ensures BytesToBits(bytes)[8 * o..8 * o + 8] == BitsMsb(bytes[o], 8)
    decreases |bytes|
  {
    hide BitsMsb;
    if o < |bytes| - 1 {
      var rest := bytes[..|bytes| - 1];
      ByteBits(rest, o);
      assert BytesToBits(bytes)[8 * o..8 * o + 8] == BytesToBits(rest)[8 * o..8 * o + 8];
    }
  }

  /** A field of byte o as a part of the whole bit string. */
  lemma FieldOfBits(bytes: seq<byte>, o: nat, t: nat, k: nat, q: nat, end: nat)
    requires o < |bytes| && t + k <= 8 && q == 8 * o + 8 - k - t && end == q + t
    ensures Field(bytes[o], t, k) == Value(BytesToBits(bytes)[q..end])
  {
    hide BitsMsb, BytesToBits, Value, Field;
    FieldValue(bytes[o], t, k);
    ByteBits(bytes, o);
    SliceOfSlice(BytesToBits(bytes), 8 * o, 8 * o + 8, 8 - k - t, 8 - k, q, end);
  }

  lemma SmallIsItself(n: nat)
    requires n < Pow2(31)
    ensures ToInt32(n) == n
  {
    assert Pow2(7) == 0x80;
    assert Pow2(15) == 0x8000;
    Pow2Add(15, 16);
    assert Pow2(16) == 2 * Pow2(15);
  }

  lemma FewBits(bits: seq<bool>)
    requires |bits| <= 31
    ensures ToInt32(Value(bits)) == Value(bits)
  {
    hide Value, Pow2, ToInt32;
    ValueBound(bits);
    if |bits| < 31 {
      Pow2Monotone(|bits|, 31);
    }
    SmallIsItself(Value(bits));
  }

  /** The bits of the byte that was already begun. */
  lemma FirstField(bytes: seq<byte>, o: nat, t: nat, k: nat, q: nat, end: nat)
    requires o < |bytes| && 1 <= t && t + k < 8 && q == 8 * o + 8 - k - t && end == q + t
    ensures Field(bytes[o], t, k) == ToInt32(Value(BytesToBits(bytes)[q..end]))
  {
    hide BytesToBits, Value, ToInt32, Field;
    FieldOfBits(bytes, o, t, k, q, end);
    FewBits(BytesToBits(bytes)[q..end]);
  }

  /** The next t bits, from the start of byte o, after fewer than 32 bits from p on. */
  lemma NextField(bytes: seq<byte>, p: nat, o: nat, t: nat, q: nat, end: nat, result: int)
    requires p <= q == 8 * o && o < |bytes| && 1 <= t <= 8 && end == q + t <= p + 32
    requires result == ToInt32(Value(BytesToBits(bytes)[p..q]))
    ensures 0 <= result
    ensures ShiftIn(result, t, Field(bytes[o], t, 8 - t)) == ToInt32(Value(BytesToBits(bytes)[p..end]))
    ensures t == 8 ==> Field(bytes[o], 8, 0) == And(bytes[o], 0xFF)
  {
    hide *;
    var bits := BytesToBits(bytes);
    FieldOfBits(bytes, o, t, 8 - t, q, end);
    FieldJoins(bits, p, q, end, t, Field(bytes[o], t, 8 - t), result);
    WholeByteField(bytes[o]);
  }

  lemma FieldJoins(bits: seq<bool>, p: nat, q: nat, end: nat, t: nat, field: nat, result: int)
    requires p <= q <= end <= |bits| && end == q + t && q < p + 32
    requires result == ToInt32(Value(bits[p..q])) && field == Value(bits[q..end])
    ensures 0 <= result && ShiftIn(result, t, field) == ToInt32(Value(bits[p..end]))
  {
    hide *;
    FewBits(bits[p..q]);
    ShiftInValue(bits[p..q], bits[q..end], t);
    SlicesJoin(bits, p, q, end);
  }

  lemma SliceOfSlice(bits: seq<bool>, a: nat, b: nat, i: nat, j: nat, q: nat, end: nat)
    requires a <= b <= |bits| && i <= j <= b - a && q == a + i && end == a + j
    ensures bits[a..b][i..j] == bits[q..end]
  {
    forall k | 0 <= k < j - i
      ensures bits[a..b][i..j][k] == bits[q..end][k]
    {
      assert bits[a..b][i + k] == bits[q + k];
    }
  }

  lemma SlicesJoin(bits: seq<bool>, p: nat, q: nat, end: nat)
    requires p <= q <= end <= |bits|
    ensures bits[p..q] + bits[q..end] == bits[p..end]
  {}

  lemma ShiftInValue(done: seq<bool>, field: seq<bool>, t: nat)
    requires |field| == t
    ensures ShiftIn(Value(done), t, Value(field)) == ToInt32(Value(done + field))
  {
    hide Value, Pow2, ToInt32, Or;
    ValueBound(field);
    OrDisjoint(Value(done), Value(field), |field|);
    ValueConcat(done, field);
  }

  lemma WholeByteField(b: byte)
    ensures Field(b, 8, 0) == And(b, 0xFF)
  {}
}
