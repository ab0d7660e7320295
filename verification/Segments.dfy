/** The encoder's segments: text packed into mode-specific bit strings. */
module Segments {
  import opened Bits
  import opened Placement
  import opened BitStrings
  import opened JsDecodeData

  /** A piece of text together with the mode it is encoded in. */
  datatype Chunk = NumericChunk(text: seq<byte>) | AlphanumericChunk(text: seq<byte>) | ByteChunk(text: seq<byte>) {

    /** Every character can be encoded in the mode. */
    predicate Valid() {
      match this
      case NumericChunk(text) => AllDigits(text)
      case AlphanumericChunk(text) => AllAlphanumeric(text)
      case ByteChunk(_) => true
    }

    /** The mode indicator. */
    function Mode(): nat {
      match this
      case NumericChunk(_) => 1
      case AlphanumericChunk(_) => 2
      case ByteChunk(_) => 4
    }

    function Payload(): seq<bool>
      requires Valid()
    {
      match this
      case NumericChunk(text) => NumericBits(text)
      case AlphanumericChunk(text) => AlphanumericBits(text)
      case ByteChunk(text) => BytesToBits(text)
    }
  }

  predicate AllDigits(text: seq<byte>) {
    forall i :: 0 <= i < |text| ==> 48 <= text[i] <= 57
  }

  /** The encoder's list of the 45 characters 0-9, A-Z, space and $%*+-./: by their codes; the value is the index. */
  const ALPHANUMERIC_CHARSET: seq<byte> :=
    [0x30, 0x31, 0x32, 0x33, 0x34, 0x35, 0x36, 0x37, 0x38, 0x39]
    + [0x41, 0x42, 0x43, 0x44, 0x45, 0x46, 0x47, 0x48, 0x49, 0x4A, 0x4B, 0x4C, 0x4D]
    + [0x4E, 0x4F, 0x50, 0x51, 0x52, 0x53, 0x54, 0x55, 0x56, 0x57, 0x58, 0x59, 0x5A]
    + [0x20, 0x24, 0x25, 0x2A, 0x2B, 0x2D, 0x2E, 0x2F, 0x3A]

  /** Index of a character in the alphanumeric character set, or -1. */
  function CharacterIndex(c: byte, from: nat): (r: int)
    requires from <= 45
    ensures r == -1 || (from <= r < 45 && ALPHANUMERIC_CHARSET[r] == c)
    decreases 45 - from
  {
    if from == 45 then -1
    else if ALPHANUMERIC_CHARSET[from] == c then from
    else CharacterIndex(c, from + 1)
  }

  predicate IsCharacter(c: byte) {
    CharacterIndex(c, 0) >= 0
  }

  predicate AllAlphanumeric(text: seq<byte>) {
    forall i :: 0 <= i < |text| ==> IsCharacter(text[i])
  }

  /** The number written in decimal. */
  function Decimal(digits: seq<byte>): nat
    requires AllDigits(digits)
    decreases |digits|
  {
    if digits == [] then 0 else Decimal(digits[..|digits| - 1]) * 10 + (digits[|digits| - 1] - 48)
  }

  function NumericBits(digits: seq<byte>): seq<bool>
    requires AllDigits(digits)
    decreases |digits|
  {
    if digits == [] then []
    else if |digits| < 3 then BitsMsb(Decimal(digits), |digits| * 3 + 1)
    else BitsMsb(Decimal(digits[..3]), 10) + NumericBits(digits[3..])
  }

  function AlphanumericBits(text: seq<byte>): seq<bool>
    requires AllAlphanumeric(text)
    decreases |text|
  {
    if text == [] then []
    else if |text| == 1 then BitsMsb(CharacterIndex(text[0], 0), 6)
    else
      BitsMsb(CharacterIndex(text[0], 0) * 45 + CharacterIndex(text[1], 0), 11) + AlphanumericBits(text[2..])
  }

  lemma {:induction false} NumericBitsLength(digits: seq<byte>)
    requires AllDigits(digits)
    ensures |NumericBits(digits)| == (10 * |digits| + 2) / 3
    decreases |digits|
  {
    hide BitsMsb, Decimal;
    if |digits| >= 3 {
      NumericBitsLength(digits[3..]);
    }
  }

  lemma {:induction false} AlphanumericBitsLength(text: seq<byte>)
    requires AllAlphanumeric(text)
    ensures |AlphanumericBits(text)| == (11 * |text| + 1) / 2
    decreases |text|
  {
    hide BitsMsb, CharacterIndex, IsCharacter, ALPHANUMERIC_CHARSET;
    if |text| >= 2 {
      AlphanumericBitsLength(text[2..]);
    }
  }

  /** Number of payload bits, or -1 if it exceeds 16 bits. */
  function CalcSegmentBitLength(mode: nat, numChars: nat): int {
    if numChars > 32767 then -1
    else
      var result :=
        if mode == 1 then (numChars * 10 + 2) / 3
        else if mode == 2 then (numChars * 11 + 1) / 2
        else numChars * 8;
      if result > 32767 then -1 else result
  }

  lemma BitLengthExact(c: Chunk)
    requires c.Valid()
    ensures CalcSegmentBitLength(c.Mode(), |c.text|) == if |c.Payload()| > 32767 then -1 else |c.Payload()|
  {
    hide NumericBits, AlphanumericBits, BytesToBits, AllDigits, AllAlphanumeric;
    match c {
      case NumericChunk(text) => NumericBitsLength(text);
      case AlphanumericChunk(text) => AlphanumericBitsLength(text);
      case ByteChunk(text) =>
    }
  }

  // ----- making segments

  datatype Segment = Segment(mode: nat, numChars: nat, data: seq<byte>, bitLength: nat)

  ghost predicate Represents(s: Segment, c: Chunk) {
    && c.Valid()
    && s.mode == c.Mode() && s.numChars == |c.text|
    && s.bitLength == |c.Payload()| <= 8 * |s.data|
    && BytesToBits(s.data)[..s.bitLength] == c.Payload()
  }

  /** The first bitLen bits of a buffer, and zeros behind them. */
  ghost predicate Filled(buffer: seq<byte>, bits: seq<bool>) {
    && |bits| <= 8 * |buffer|
    && BytesToBits(buffer)[..|bits|] == bits
    && forall k :: |bits| <= k < 8 * |buffer| ==> !BytesToBits(buffer)[k]
  }

  /** Appending to a filled buffer. */
  method Append(val: nat, numBits: nat, buffer: array<byte>, bitLen: nat, ghost bits: seq<bool>) returns (newLen: nat)
    requires numBits <= 16 && val < Pow2(numBits)
    requires bitLen == |bits| && bitLen + numBits <= 8 * buffer.Length
    requires Filled(buffer[..], bits)
    modifies buffer
    ensures newLen == bitLen + numBits
    ensures Filled(buffer[..], bits + BitsMsb(val, numBits))
  {
    hide BytesToBits, BitsMsb, Pow2;
    newLen := AppendBitsToBuffer(val, numBits, buffer, bitLen);
  }

  lemma {:induction false} ZerosFilled(buffer: seq<byte>)
    requires forall k :: 0 <= k < |buffer| ==> buffer[k] == 0
    ensures Filled(buffer, [])
  {
    hide BytesToBits;
    forall k | 0 <= k < 8 * |buffer|
      ensures !BytesToBits(buffer)[k]
    {
      BytesToBitsAt(buffer, k);
      BitOfZero(7 - k % 8);
    }
    assert BytesToBits(buffer)[..0] == [];
  }

  method MakeBytes(data: seq<byte>) returns (s: Segment)
    requires CalcSegmentBitLength(4, |data|) != -1
    ensures Represents(s, ByteChunk(data))
  {
    hide BytesToBits;
    s := Segment(4, |data|, data, CalcSegmentBitLength(4, |data|));
    assert BytesToBits(data)[..8 * |data|] == BytesToBits(data);
  }

  /** Three digits at a time in ten bits, two left over in seven, one in four. */
  method MakeNumeric(digits: seq<byte>, buf: array<byte>) returns (s: Segment)
    requires AllDigits(digits) && CalcSegmentBitLength(1, |digits|) != -1
    requires CalcSegmentBitLength(1, |digits|) <= 8 * buf.Length
    modifies buf
    ensures Represents(s, NumericChunk(digits)) && s.data == buf[..]
  {
    hide BytesToBits, BitsMsb, NumericBits, Decimal, Filled, AllDigits, Pow2;
    ghost var all := NumericBits(digits);
    NumericBitsLength(digits);
    forall k | 0 <= k < buf.Length {
      buf[k] := 0;
    }
    ZerosFilled(buf[..]);
    var bitLength: nat, accumData: nat, accumCount: nat := 0, 0, 0;
    ghost var bits: seq<bool> := [];
    DigitsStart(digits);
    for i := 0 to |digits|
      invariant 0 <= accumCount < 3 && accumCount <= i
      invariant Pending(digits, i, accumCount, accumData, bits)
      invariant bitLength == |bits| <= |all| && Filled(buf[..], bits)
    {
      DigitsNext(digits, i, accumCount, accumData, bits);
      accumData := accumData * 10 + (digits[i] - 48);
      accumCount := accumCount + 1;
      if accumCount == 3 {
        bitLength := Append(accumData, 10, buf, bitLength, bits);
        bits := bits + BitsMsb(accumData, 10);
        accumData := 0;
        accumCount := 0;
      }
    }
    DigitsEnd(digits, accumCount, accumData, bits);
    if accumCount > 0 {
      bitLength := Append(accumData, accumCount * 3 + 1, buf, bitLength, bits);
      bits := bits + BitsMsb(accumData, accumCount * 3 + 1);
    }
    s := Segment(1, |digits|, buf[..], bitLength);
    FilledRepresents(s, NumericChunk(digits), bits);
  }

  /** After i digits the last `count` of them are pending in `accum`, the others are in `bits`. */
  ghost predicate Pending(digits: seq<byte>, i: nat, count: nat, accum: nat, bits: seq<bool>) {
    && AllDigits(digits) && count <= i <= |digits|
    && bits + NumericBits(digits[i - count..]) == NumericBits(digits)
    && accum == Decimal(digits[i - count..i])
  }

  lemma DigitsStart(digits: seq<byte>)
    requires AllDigits(digits)
    ensures Pending(digits, 0, 0, 0, [])
  {
    assert digits[0..] == digits;
    assert [] + NumericBits(digits) == NumericBits(digits);
  }

  lemma DecimalBound(digits: seq<byte>)
    requires AllDigits(digits) && |digits| <= 3
    ensures |digits| == 1 ==> Decimal(digits) < 10
    ensures |digits| == 2 ==> Decimal(digits) < 100
    ensures |digits| == 3 ==> Decimal(digits) < 1000
  {
    if |digits| >= 2 {
      DecimalBound(digits[..|digits| - 1]);
    }
  }

  lemma SmallPowers()
    ensures Pow2(4) == 16 && Pow2(6) == 64 && Pow2(7) == 128 && Pow2(10) == 1024 && Pow2(11) == 2048
  {}

  lemma DigitsNext(digits: seq<byte>, i: nat, count: nat, accum: nat, bits: seq<bool>)
    requires Pending(digits, i, count, accum, bits) && i < |digits| && count < 3
    ensures digits[i] >= 48
    ensures var accum' := accum * 10 + (digits[i] - 48);
            if count < 2 then Pending(digits, i + 1, count + 1, accum', bits)
            else
              && accum' < Pow2(10)
              && Pending(digits, i + 1, 0, 0, bits + BitsMsb(accum', 10))
              && |bits + BitsMsb(accum', 10)| <= |NumericBits(digits)|
  {
    hide BitsMsb, Pow2, NumericBits, Decimal;
    OneMoreDigit(digits, i - count, i);
    if count == 2 {
      var (pending, rest) := (digits[i - 2..i + 1], digits[i + 1..]);
      DecimalBound(pending);
      SmallPowers();
      ThreeDigits(digits[i - 2..], pending, rest);
      ConcatAssociates(bits, BitsMsb(Decimal(pending), 10), NumericBits(rest));
      NothingPending(digits, i + 1);
    }
  }

  lemma OneMoreDigit(digits: seq<byte>, from: nat, i: nat)
    requires AllDigits(digits) && from <= i < |digits|
    ensures Decimal(digits[from..i + 1]) == Decimal(digits[from..i]) * 10 + (digits[i] - 48)
    ensures i == from + 2 ==> digits[from..i + 1] == digits[from..][..3] && digits[i + 1..] == digits[from..][3..]
  {
    assert digits[from..i + 1][..i - from] == digits[from..i];
  }

  lemma NothingPending(digits: seq<byte>, i: nat)
    requires AllDigits(digits) && i <= |digits|
    ensures digits[i..i] == [] && Decimal(digits[i..i]) == 0
  {}

  lemma ConcatAssociates(a: seq<bool>, b: seq<bool>, c: seq<bool>)
    ensures a + (b + c) == a + b + c
  {}

  lemma ThreeDigits(digits: seq<byte>, first: seq<byte>, rest: seq<byte>)
    requires |digits| >= 3 && AllDigits(digits) && first == digits[..3] && rest == digits[3..]
    ensures NumericBits(digits) == BitsMsb(Decimal(first), 10) + NumericBits(rest)
  {
    hide BitsMsb, Decimal;
  }

  lemma DigitsEnd(digits: seq<byte>, count: nat, accum: nat, bits: seq<bool>)
    requires Pending(digits, |digits|, count, accum, bits) && count < 3
    ensures count > 0 ==> accum < Pow2(count * 3 + 1) && bits + BitsMsb(accum, count * 3 + 1) == NumericBits(digits)
    ensures count == 0 ==> bits == NumericBits(digits)
  {
    hide BitsMsb, Pow2;
    var pending := digits[|digits| - count..];
    assert pending == digits[|digits| - count..|digits|];
    DecimalBound(pending);
    SmallPowers();
    assert bits + [] == bits;
  }

  lemma FilledRepresents(s: Segment, c: Chunk, bits: seq<bool>)
    requires Filled(s.data, bits) && c.Valid() && bits == c.Payload()
    requires s.mode == c.Mode() && s.numChars == |c.text| && s.bitLength == |bits|
    ensures Represents(s, c)
  {}

  /** Two characters at a time in eleven bits, a last one in six. */
  method MakeAlphanumeric(text: seq<byte>, buf: array<byte>) returns (s: Segment)
    requires AllAlphanumeric(text) && CalcSegmentBitLength(2, |text|) != -1
    requires CalcSegmentBitLength(2, |text|) <= 8 * buf.Length
    modifies buf
    ensures Represents(s, AlphanumericChunk(text)) && s.data == buf[..]
  {
    hide BytesToBits, BitsMsb, AlphanumericBits, Filled, AllAlphanumeric, CharacterIndex, Pow2, ALPHANUMERIC_CHARSET;
    AlphanumericBitsLength(text);
    forall k | 0 <= k < buf.Length {
      buf[k] := 0;
    }
    ZerosFilled(buf[..]);
    var bitLength: nat, accumData: nat, accumCount: nat := 0, 0, 0;
    ghost var bits: seq<bool> := [];
    CharactersStart(text);
    for i := 0 to |text|
      invariant 0 <= accumCount < 2 && accumCount <= i
      invariant PendingCharacter(text, i, accumCount, accumData, bits)
      invariant bitLength == |bits| <= |AlphanumericBits(text)| && Filled(buf[..], bits)
    {
      CharactersNext(text, i, accumCount, accumData, bits);
      accumData := accumData * 45 + CharacterIndex(text[i], 0);
      accumCount := accumCount + 1;
      if accumCount == 2 {
        bitLength := Append(accumData, 11, buf, bitLength, bits);
        bits := bits + BitsMsb(accumData, 11);
        accumData := 0;
        accumCount := 0;
      }
    }
    CharactersEnd(text, accumCount, accumData, bits);
    if accumCount > 0 {
      bitLength := Append(accumData, 6, buf, bitLength, bits);
      bits := bits + BitsMsb(accumData, 6);
    }
    s := Segment(2, |text|, buf[..], bitLength);
    FilledRepresents(s, AlphanumericChunk(text), bits);
  }

  /** After i characters the last one may be pending in `accum`; the others are in `bits`. */
  ghost predicate PendingCharacter(text: seq<byte>, i: nat, count: nat, accum: nat, bits: seq<bool>) {
    && AllAlphanumeric(text) && count <= i <= |text| && count < 2
    && bits + AlphanumericBits(text[i - count..]) == AlphanumericBits(text)
    && accum == if count == 0 then 0 else CharacterIndex(text[i - 1], 0)
  }

  lemma CharactersStart(text: seq<byte>)
    requires AllAlphanumeric(text)
    ensures PendingCharacter(text, 0, 0, 0, [])
  {
    assert text[0..] == text;
    assert [] + AlphanumericBits(text) == AlphanumericBits(text);
  }

  lemma CharactersNext(text: seq<byte>, i: nat, count: nat, accum: nat, bits: seq<bool>)
    requires PendingCharacter(text, i, count, accum, bits) && i < |text|
    ensures 0 <= CharacterIndex(text[i], 0) < 45
    ensures var accum' := accum * 45 + CharacterIndex(text[i], 0);
            if count == 0 then PendingCharacter(text, i + 1, 1, accum', bits)
            else
              && accum' < Pow2(11)
              && PendingCharacter(text, i + 1, 0, 0, bits + BitsMsb(accum', 11))
              && |bits + BitsMsb(accum', 11)| <= |AlphanumericBits(text)|
  {
    hide BitsMsb, CharacterIndex, AlphanumericBits, Pow2, ALPHANUMERIC_CHARSET;
    assert IsCharacter(text[i]);
    if count == 1 {
      assert IsCharacter(text[i - 1]);
      SmallPowers();
      var v := accum * 45 + CharacterIndex(text[i], 0);
      TwoCharacters(text[i - 1..], text[i + 1..]);
      assert bits + (BitsMsb(v, 11) + AlphanumericBits(text[i + 1..])) ==
        bits + BitsMsb(v, 11) + AlphanumericBits(text[i + 1..]);
    }
  }

  lemma TwoCharacters(text: seq<byte>, rest: seq<byte>)
    requires |text| >= 2 && AllAlphanumeric(text) && rest == text[2..]
    ensures IsCharacter(text[0]) && IsCharacter(text[1]) && AllAlphanumeric(rest)
    ensures AlphanumericBits(text) ==
      BitsMsb(CharacterIndex(text[0], 0) * 45 + CharacterIndex(text[1], 0), 11) + AlphanumericBits(rest)
  {
    hide BitsMsb, CharacterIndex, IsCharacter, ALPHANUMERIC_CHARSET;
  }

  lemma CharactersEnd(text: seq<byte>, count: nat, accum: nat, bits: seq<bool>)
    requires PendingCharacter(text, |text|, count, accum, bits)
    ensures count == 1 ==> accum < Pow2(6) && bits + BitsMsb(accum, 6) == AlphanumericBits(text)
    ensures count == 0 ==> bits == AlphanumericBits(text)
  {
    hide BitsMsb, CharacterIndex, Pow2, ALPHANUMERIC_CHARSET;
    SmallPowers();
    assert bits + [] == bits;
  }
}
