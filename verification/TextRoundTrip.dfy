/** Reading the padded bit string of a list of chunks gives back their text. */
module TextRoundTrip {
  import opened Bits
  import opened Options
  import opened Placement
  import opened BitStrings
  import opened JsDecodeData
  import opened Segments
  import opened DataCodewords

  /** `x` stands in `bits` from position p on. */
  predicate HasAt(bits: seq<bool>, p: nat, x: seq<bool>) {
    p + |x| <= |bits| && bits[p..p + |x|] == x
  }

  lemma HasAtSplit(bits: seq<bool>, p: nat, x: seq<bool>, y: seq<bool>)
    requires HasAt(bits, p, x + y)
    ensures HasAt(bits, p, x) && HasAt(bits, p + |x|, y)
  {
    var whole := bits[p..p + |x + y|];
    assert whole[..|x|] == x && whole[|x|..] == y;
    assert bits[p..p + |x|] == whole[..|x|];
    assert bits[p + |x|..p + |x| + |y|] == whole[|x|..];
  }

  lemma ReadNumber(bits: seq<bool>, p: nat, v: nat, n: nat)
    requires 1 <= n <= 21 && v < Pow2(n) && HasAt(bits, p, BitsMsb(v, n))
    ensures ReadAt(bits, p, n) == Some(v)
  {
    hide BitsMsb, Value, Pow2;
    ValueOfBitsMsb(v, n);
  }

  /** A number written in a number of bits. */
  datatype BitField = BitField(value: nat, width: nat)

  /** The bits of a list of appended numbers. */
  function FieldBits(fields: seq<BitField>): seq<bool> {
    if fields == [] then []
    else
      var n := |fields| - 1;
      FieldBits(fields[..n]) + BitsMsb(fields[n].value, fields[n].width)
  }

  /** Numbers appended one after the other read back one after the other, at the same widths. */
  lemma {:induction false} FieldsReadBack(bits: seq<bool>, p: nat, fields: seq<BitField>, i: nat)
    requires forall k :: 0 <= k < |fields| ==> 1 <= fields[k].width <= 16 && fields[k].value < Pow2(fields[k].width)
    requires HasAt(bits, p, FieldBits(fields)) && i < |fields|
    ensures ReadAt(bits, p + |FieldBits(fields[..i])|, fields[i].width) == Some(fields[i].value)
    ensures |FieldBits(fields[..i + 1])| == |FieldBits(fields[..i])| + fields[i].width
    decreases |fields|
  {
    hide HasAt, BitsMsb, Pow2, ReadAt;
    var n := |fields| - 1;
    HasAtSplit(bits, p, FieldBits(fields[..n]), BitsMsb(fields[n].value, fields[n].width));
    if i == n {
      assert fields[..n + 1] == fields;
      ReadNumber(bits, p + |FieldBits(fields[..n])|, fields[n].value, fields[n].width);
    } else {
      assert fields[..n][..i] == fields[..i] && fields[..n][..i + 1] == fields[..i + 1];
      FieldsReadBack(bits, p, fields[..n], i);
    }
  }

  // ----- payloads

  function DigitValue(c: byte): int {
    c - 48
  }

  lemma DecimalDigits(digits: seq<byte>)
    requires AllDigits(digits) && 1 <= |digits| <= 3
    ensures Decimal(digits) < Pow2(|digits| * 3 + 1)
    ensures JsDecodeData.NumericChunk(Decimal(digits), |digits|) == Some(digits)
  {
    hide Pow2, Decimal, JsDecodeData.NumericChunk;
    SmallPowers();
    DecimalBound(digits);
    DecimalValue(digits);
    SameDigits(digits);
    if |digits| == 1 {
      ChunkOfOne(DigitValue(digits[0]));
    } else if |digits| == 2 {
      ChunkOfTwo(DigitValue(digits[0]), DigitValue(digits[1]));
    } else {
      ChunkOfThree(DigitValue(digits[0]), DigitValue(digits[1]), DigitValue(digits[2]));
    }
  }

  lemma DecimalValue(digits: seq<byte>)
    requires AllDigits(digits) && 1 <= |digits| <= 3
    ensures |digits| == 1 ==> Decimal(digits) == DigitValue(digits[0])
    ensures |digits| == 2 ==> Decimal(digits) == DigitValue(digits[0]) * 10 + DigitValue(digits[1])
    ensures |digits| == 3 ==>
      Decimal(digits) == (DigitValue(digits[0]) * 10 + DigitValue(digits[1])) * 10 + DigitValue(digits[2])
    decreases |digits|
  {
    if |digits| > 1 {
      DecimalValue(digits[..|digits| - 1]);
    }
  }

  lemma SameDigits(digits: seq<byte>)
    ensures |digits| == 1 ==> digits == [digits[0]]
    ensures |digits| == 2 ==> digits == [digits[0], digits[1]]
    ensures |digits| == 3 ==> digits == [digits[0], digits[1], digits[2]]
  {}

  lemma ChunkOfOne(a: nat)
    requires a < 10
    ensures JsDecodeData.NumericChunk(a, 1) == Some([48 + a])
  {}

  lemma ChunkOfTwo(a: nat, b: nat)
    requires a < 10 && b < 10
    ensures JsDecodeData.NumericChunk(a * 10 + b, 2) == Some([48 + a, 48 + b])
  {
    var n := a * 10 + b;
    assert n / 10 == a && n % 10 == b;
  }

  lemma ChunkOfThree(a: nat, b: nat, c: nat)
    requires a < 10 && b < 10 && c < 10
    ensures JsDecodeData.NumericChunk((a * 10 + b) * 10 + c, 3) == Some([48 + a, 48 + b, 48 + c])
  {
    var n := (a * 10 + b) * 10 + c;
    assert n / 100 == a && n / 10 % 10 == b && n % 10 == c;
  }

  lemma {:induction false} NumericReadsBack(bits: seq<bool>, p: nat, digits: seq<byte>)
    requires AllDigits(digits) && HasAt(bits, p, NumericBits(digits))
    ensures NumericFrom(bits, p, |digits|) == Some((digits, p + |NumericBits(digits)|))
    decreases |digits|
  {
    hide BitsMsb, Pow2, Decimal, ReadAt, HasAt, JsDecodeData.NumericChunk;
    if digits != [] {
      var n := if |digits| >= 3 then 3 else |digits|;
      var first, rest := digits[..n], digits[n..];
      assert digits == first + rest;
      NumericGroup(digits, n);
      HasAtSplit(bits, p, BitsMsb(Decimal(first), n * 3 + 1), NumericBits(rest));
      DecimalDigits(first);
      ReadNumber(bits, p, Decimal(first), n * 3 + 1);
      NumericReadsBack(bits, p + (n * 3 + 1), rest);
    }
  }

  lemma NumericGroup(digits: seq<byte>, n: nat)
    requires digits != [] && AllDigits(digits) && n == if |digits| >= 3 then 3 else |digits|
    ensures NumericBits(digits) == BitsMsb(Decimal(digits[..n]), n * 3 + 1) + NumericBits(digits[n..])
  {
    hide BitsMsb, Decimal;
    if |digits| < 3 {
      assert digits[..n] == digits && digits[n..] == [];
    }
  }

  lemma {:induction false} AlphanumericReadsBack(bits: seq<bool>, p: nat, text: seq<byte>)
    requires AllAlphanumeric(text) && HasAt(bits, p, AlphanumericBits(text))
    ensures AlphanumericFrom(bits, p, |text|) == Some((text, p + |AlphanumericBits(text)|))
    decreases |text|
  {
    hide BitsMsb, Pow2, CharacterIndex, IsCharacter, ReadAt, HasAt, AlphanumericBits, AlphanumericFrom;
    NoCharacters();
    NoMoreCharacters(bits, p);
    if text == [] {
    } else if |text| == 1 {
      OneReadsBack(bits, p, text);
    } else {
      var rest := text[2..];
      TwoCharacters(text, rest);
      CharacterCode(text[0]);
      CharacterCode(text[1]);
      var a, b := CharacterIndex(text[0], 0), CharacterIndex(text[1], 0);
      HasAtSplit(bits, p, BitsMsb(a * 45 + b, 11), AlphanumericBits(rest));
      PairReadsBack(bits, p, a, b, |text|);
      AlphanumericReadsBack(bits, p + 11, rest);
      assert [text[0], text[1]] + rest == text;
    }
  }

  lemma NoMoreCharacters(bits: seq<bool>, p: nat)
    ensures AlphanumericFrom(bits, p, 0) == Some(([], p))
  {}

  lemma OneReadsBack(bits: seq<bool>, p: nat, text: seq<byte>)
    requires |text| == 1 && AllAlphanumeric(text) && HasAt(bits, p, AlphanumericBits(text))
    ensures AlphanumericFrom(bits, p, 1) == Some((text, p + |AlphanumericBits(text)|))
  {
    hide BitsMsb, Pow2, CharacterIndex, IsCharacter, ReadAt, HasAt, AlphanumericBits;
    assert IsCharacter(text[0]);
    SmallPowers();
    CharacterCode(text[0]);
    OneCharacter(text);
    ReadNumber(bits, p, CharacterIndex(text[0], 0), 6);
    assert text == [text[0]];
  }

  /** A pair is read as one number of 11 bits. */
  lemma PairReadsBack(bits: seq<bool>, p: nat, a: nat, b: nat, length: nat)
    requires length >= 2 && a < 45 && b < 45 && HasAt(bits, p, BitsMsb(a * 45 + b, 11))
    ensures AlphanumericFrom(bits, p, length)
         == Prefixed([CHARACTER_CODES[a], CHARACTER_CODES[b]], AlphanumericFrom(bits, p + 11, length - 2))
  {
    hide BitsMsb, Pow2, ReadAt, HasAt, Prefixed;
    SmallPowers();
    ReadNumber(bits, p, a * 45 + b, 11);
    PairParts(a, b);
  }

  lemma NoCharacters()
    ensures AlphanumericBits([]) == []
  {}

  lemma OneCharacter(text: seq<byte>)
    requires |text| == 1 && AllAlphanumeric(text)
    ensures CharacterIndex(text[0], 0) >= 0 && AlphanumericBits(text) == BitsMsb(CharacterIndex(text[0], 0), 6)
  {
    hide BitsMsb, CharacterIndex;
  }

  /** Both sides list the same characters in the same order. */
  lemma CharsetsAgree(k: nat)
    requires k < 45
    ensures |ALPHANUMERIC_CHARSET| == |CHARACTER_CODES| == 45
    ensures ALPHANUMERIC_CHARSET[k] == CHARACTER_CODES[k]
  {}

  lemma CharacterCode(c: byte)
    requires IsCharacter(c)
    ensures 0 <= CharacterIndex(c, 0) < 45 && CHARACTER_CODES[CharacterIndex(c, 0)] == c
  {
    hide CHARACTER_CODES, ALPHANUMERIC_CHARSET;
    CharsetsAgree(CharacterIndex(c, 0));
  }

  lemma PairParts(a: nat, b: nat)
    requires a < 45 && b < 45
    ensures (a * 45 + b) / 45 == a && (a * 45 + b) % 45 == b
  {}

  lemma {:induction false} BytesReadBack(bits: seq<bool>, p: nat, bytes: seq<byte>)
    requires HasAt(bits, p, BytesToBits(bytes))
    ensures BytesFrom(bits, p, |bytes|) == Some((bytes, p + 8 * |bytes|))
    decreases |bytes|
  {
    hide BitsMsb, Pow2, ReadAt, HasAt, BytesToBits;
    if bytes != [] {
      var first, rest := bytes[0], bytes[1..];
      FirstByte(bytes);
      HasAtSplit(bits, p, BitsMsb(first, 8), BytesToBits(rest));
      Pow2Of8();
      ReadNumber(bits, p, first, 8);
      BytesReadBack(bits, p + 8, rest);
      assert [first] + rest == bytes;
    }
  }

  lemma {:induction false} FirstByte(bytes: seq<byte>)
    requires bytes != []
    ensures BytesToBits(bytes) == BitsMsb(bytes[0], 8) + BytesToBits(bytes[1..])
    decreases |bytes|
  {
    hide BitsMsb;
    if |bytes| == 1 {
      assert BytesToBits(bytes[..0]) == [] && BytesToBits(bytes[1..]) == [];
    } else {
      var n := |bytes| - 1;
      FirstByte(bytes[..n]);
      assert bytes[..n][1..] == bytes[1..][..n - 1];
    }
  }

  // ----- segments

  lemma CountBitsAgree(c: Chunk, version: nat)
    requires 1 <= version <= 40
    ensures CountBits(c.Mode(), SizeClass(version)) == NumCharCountBits(c.Mode(), version)
    ensures c.Mode() in {1, 2, 4} && c.Mode() < Pow2(4)
  {
    SmallPowers();
  }

  lemma SegmentReadsBack(bits: seq<bool>, p: nat, c: Chunk, version: nat)
    requires 1 <= version <= 40 && c.Valid() && |c.text| < Pow2(NumCharCountBits(c.Mode(), version))
    requires HasAt(bits, p, SegmentBits(c, version))
    ensures ReadAt(bits, p, 4) == Some(c.Mode()) && c.Mode() != 0
    ensures SegmentFrom(bits, p + 4, c.Mode(), SizeClass(version)) == Some((c.text, p + |SegmentBits(c, version)|))
  {
    hide BitsMsb, Pow2, ReadAt, HasAt, NumericBits, AlphanumericBits, BytesToBits, NumCharCountBits, CountBits;
    hide NumericFrom, AlphanumericFrom, BytesFrom;
    var n := NumCharCountBits(c.Mode(), version);
    var mode, count, payload := BitsMsb(c.Mode(), 4), BitsMsb(|c.text|, n), c.Payload();
    CountBitsAgree(c, version);
    HasAtSplit(bits, p, mode + count, payload);
    HasAtSplit(bits, p, mode, count);
    ReadNumber(bits, p, c.Mode(), 4);
    ReadNumber(bits, p + 4, |c.text|, n);
    match c {
      case NumericChunk(text) => NumericReadsBack(bits, p + 4 + n, text);
      case AlphanumericChunk(text) => AlphanumericReadsBack(bits, p + 4 + n, text);
      case ByteChunk(text) => BytesReadBack(bits, p + 4 + n, text);
    }
  }

  /** The text of all chunks. */
  function AllText(chunks: seq<Chunk>): seq<byte> {
    if chunks == [] then [] else chunks[0].text + AllText(chunks[1..])
  }

  lemma {:induction false} FirstSegment(chunks: seq<Chunk>, version: nat)
    requires 1 <= version <= 40 && chunks != [] && AllValid(chunks)
    ensures AllValid(chunks[1..]) && chunks[0].Valid()
    ensures AllBits(chunks, version) == SegmentBits(chunks[0], version) + AllBits(chunks[1..], version)
    decreases |chunks|
  {
    hide SegmentBits, Chunk.Valid;
    var n := |chunks| - 1;
    if n == 0 {
      assert AllBits(chunks[..0], version) == [] && AllBits(chunks[1..], version) == [];
    } else {
      FirstSegment(chunks[..n], version);
      assert chunks[..n][1..] == chunks[1..][..n - 1];
    }
  }

  /** Every count fits its field. */
  predicate CountsFit(chunks: seq<Chunk>, version: nat)
    requires 1 <= version <= 40
  {
    forall i :: 0 <= i < |chunks| ==> |chunks[i].text| < Pow2(NumCharCountBits(chunks[i].Mode(), version))
  }

  /** Zeros, as many as fit but at most four, or nothing at all, end the data. */
  predicate EndsAt(bits: seq<bool>, p: nat) {
    p <= |bits| && HasAt(bits, p, BitsMsb(0, Terminator(p, |bits|)))
  }

  lemma EndOfData(bits: seq<bool>, p: nat, size: nat)
    requires size < 3 && EndsAt(bits, p)
    ensures DecodeFrom(bits, p, size) == Some([])
  {
    hide BitsMsb, Pow2, Value;
    var t := Terminator(p, |bits|);
    if t == 4 {
      ReadNumber(bits, p, 0, 4);
    } else if t > 0 {
      ValueOfBitsMsb(0, t);
      assert bits[p..p + t] == bits[p..];
    }
  }

  lemma {:induction false} SegmentsReadBack(bits: seq<bool>, p: nat, chunks: seq<Chunk>, version: nat)
    requires 1 <= version <= 40 && AllValid(chunks) && CountsFit(chunks, version)
    requires HasAt(bits, p, AllBits(chunks, version)) && EndsAt(bits, p + |AllBits(chunks, version)|)
    ensures DecodeFrom(bits, p, SizeClass(version)) == Some(AllText(chunks))
    decreases |chunks|
  {
    hide HasAt, EndsAt, AllBits, SegmentBits, ReadAt, SegmentFrom, Pow2, NumCharCountBits, Chunk.Valid, AllValid;
    if chunks == [] {
      NoSegments(version);
      EndOfData(bits, p, SizeClass(version));
    } else {
      var c, rest := chunks[0], chunks[1..];
      FirstSegment(chunks, version);
      HasAtSplit(bits, p, SegmentBits(c, version), AllBits(rest, version));
      SegmentReadsBack(bits, p, c, version);
      SegmentsReadBack(bits, p + |SegmentBits(c, version)|, rest, version);
    }
  }

  lemma NoSegments(version: nat)
    requires 1 <= version <= 40
    ensures AllValid([]) && AllBits([], version) == []
  {}

  /** Decoding the padded bit string of any list of chunks that fits gives exactly their text. */
  lemma PaddedReadsBack(chunks: seq<Chunk>, version: nat, capacity: nat)
    requires 1 <= version <= 40 && AllValid(chunks) && CountsFit(chunks, version)
    requires |AllBits(chunks, version)| <= capacity && capacity % 8 == 0
    ensures DecodeFrom(Padded(AllBits(chunks, version), capacity), 0, SizeClass(version)) == Some(AllText(chunks))
  {
    hide AllBits, BitsMsb, PadBits, DecodeFrom, AllText, AllValid, CountsFit;
    var all := AllBits(chunks, version);
    var bits := Padded(all, capacity);
    var t := Terminator(|all|, capacity);
    assert bits[0..|all|] == all;
    assert bits[|all|..|all| + t] == BitsMsb(0, t);
    SegmentsReadBack(bits, 0, chunks, version);
  }
}
