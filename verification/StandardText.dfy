/** The values that stand for text in a symbol, written out: character values, widths, groups, padding. */
module StandardText {
  import opened Bits
  import opened Options
  import opened Placement
  import opened JsDecodeData
  import opened Segments
  import opened DataCodewords
  import opened TextRoundTrip

  // ----- character values

  lemma ListedDigit(k: nat)
    requires k < 10
    ensures ALPHANUMERIC_CHARSET[k] == 48 + k
  {
    assert k == 0 || k == 1 || k == 2 || k == 3 || k == 4 || k == 5 || k == 6 || k == 7 || k == 8 || k == 9;
  }

  lemma ListedLetter(k: nat)
    requires 10 <= k < 36
    ensures ALPHANUMERIC_CHARSET[k] == 55 + k
  {
    assert k == 10 || k == 11 || k == 12 || k == 13 || k == 14 || k == 15 || k == 16 || k == 17 || k == 18 ||
           k == 19 || k == 20 || k == 21 || k == 22 || k == 23 || k == 24 || k == 25 || k == 26 || k == 27 ||
           k == 28 || k == 29 || k == 30 || k == 31 || k == 32 || k == 33 || k == 34 || k == 35;
  }

  lemma ListedSign(k: nat)
    requires 36 <= k < 45
    ensures ALPHANUMERIC_CHARSET[k] == [32, 36, 37, 42, 43, 45, 46, 47, 58][k - 36]
  {
    assert k == 36 || k == 37 || k == 38 || k == 39 || k == 40 || k == 41 || k == 42 || k == 43 || k == 44;
  }

  lemma Listed(k: nat)
    requires k < 45
    ensures |ALPHANUMERIC_CHARSET| == 45
    ensures var c := ALPHANUMERIC_CHARSET[k];
            && (k < 10 ==> c == 48 + k)
            && (10 <= k < 36 ==> c == 55 + k)
            && (k >= 36 ==> c == [32, 36, 37, 42, 43, 45, 46, 47, 58][k - 36])
  {
    hide ALPHANUMERIC_CHARSET;
    ListLength();
    if k < 10 {
      ListedDigit(k);
    } else if k < 36 {
      ListedLetter(k);
    } else {
      ListedSign(k);
    }
  }

  lemma ListLength()
    ensures |ALPHANUMERIC_CHARSET| == 45
  {}

  lemma ListedOnce(j: nat, k: nat)
    requires j < k < 45
    ensures |ALPHANUMERIC_CHARSET| == 45 && ALPHANUMERIC_CHARSET[j] != ALPHANUMERIC_CHARSET[k]
  {
    hide ALPHANUMERIC_CHARSET;
    Listed(j);
    Listed(k);
  }

  lemma {:induction false} IndexIs(c: byte, from: nat, k: nat)
    requires from <= k < 45 && |ALPHANUMERIC_CHARSET| == 45 && ALPHANUMERIC_CHARSET[k] == c
    ensures CharacterIndex(c, from) == k
    decreases k - from
  {
    hide ALPHANUMERIC_CHARSET;
    if from < k {
      ListedOnce(from, k);
      IndexIs(c, from + 1, k);
    }
  }

  /** A digit has its own value, capital letters follow from 10 on, then nine signs; no other byte has a value. */
  lemma CharacterValues(c: byte)
    ensures CharacterIndex(c, 0) ==
      if 48 <= c <= 57 then c - 48
      else if 65 <= c <= 90 then c - 55
      else if c == 32 then 36
      else if c == 36 then 37
      else if c == 37 then 38
      else if c == 42 then 39
      else if c == 43 then 40
      else if c == 45 then 41
      else if c == 46 then 42
      else if c == 47 then 43
      else if c == 58 then 44
      else -1
  {
    hide ALPHANUMERIC_CHARSET, CharacterIndex;
    var k := ValueOf(c);
    if k >= 0 {
      Listed(k);
      IndexIs(c, 0, k);
    } else if CharacterIndex(c, 0) >= 0 {
      Listed(CharacterIndex(c, 0));
    }
  }

  function ValueOf(c: byte): (k: int)
    ensures -1 <= k < 45
  {
    if 48 <= c <= 57 then c - 48
    else if 65 <= c <= 90 then c - 55
    else if c == 32 then 36
    else if c == 36 then 37
    else if c == 37 then 38
    else if c == 42 then 39
    else if c == 43 then 40
    else if c == 45 then 41
    else if c == 46 then 42
    else if c == 47 then 43
    else if c == 58 then 44
    else -1
  }

  // ----- headers

  /** Indicators: 0001 for digits, 0010 for characters, 0100 for bytes. */
  lemma Indicators(c: Chunk)
    ensures BitsMsb(c.Mode(), 4) ==
      match c
      case NumericChunk(_) => [false, false, false, true]
      case AlphanumericChunk(_) => [false, false, true, false]
      case ByteChunk(_) => [false, true, false, false]
  {
    FourBits(c.Mode());
  }

  lemma FourBits(n: nat)
    requires n < 16
    ensures BitsMsb(n, 4) == [n / 8 == 1, n / 4 % 2 == 1, n / 2 % 2 == 1, n % 2 == 1]
  {
    assert n / 2 / 2 / 2 == n / 8 && n / 2 / 2 == n / 4;
    assert BitsMsb(n / 8, 1) == BitsMsb(n / 8 / 2, 0) + [n / 8 % 2 == 1];
    assert BitsMsb(n / 4, 2) == BitsMsb(n / 8, 1) + [n / 4 % 2 == 1];
    assert BitsMsb(n / 2, 3) == BitsMsb(n / 4, 2) + [n / 2 % 2 == 1];
  }

  /** Widths of the count fields, on both sides: digits, characters, bytes, kanji. */
  lemma CountWidths(version: nat)
    requires 1 <= version <= 40
    ensures var widths :=
              if version <= 9 then [10, 9, 8, 8] else if version <= 26 then [12, 11, 16, 10] else [14, 13, 16, 12];
            && NumCharCountBits(1, version) == CountBits(1, SizeClass(version)) == widths[0]
            && NumCharCountBits(2, version) == CountBits(2, SizeClass(version)) == widths[1]
            && NumCharCountBits(4, version) == CountBits(4, SizeClass(version)) == widths[2]
            && NumCharCountBits(8, version) == CountBits(8, SizeClass(version)) == widths[3]
  {}

  // ----- groups

  /** Three digits make a number of ten bits, two left over one of seven, one left over one of four. */
  lemma DigitGroups(a: nat, b: nat, c: nat, rest: seq<byte>)
    requires a < 10 && b < 10 && c < 10 && AllDigits(rest)
    ensures NumericBits([48 + a]) == BitsMsb(a, 4)
    ensures NumericBits([48 + a, 48 + b]) == BitsMsb(10 * a + b, 7)
    ensures NumericBits([48 + a, 48 + b, 48 + c] + rest) == BitsMsb(100 * a + 10 * b + c, 10) + NumericBits(rest)
  {
    hide BitsMsb, Decimal, NumericBits;
    DecimalValue([48 + a]);
    DecimalValue([48 + a, 48 + b]);
    DecimalValue([48 + a, 48 + b, 48 + c]);
    FewDigits([48 + a]);
    FewDigits([48 + a, 48 + b]);
    ThreeDigits([48 + a, 48 + b, 48 + c] + rest, [48 + a, 48 + b, 48 + c], rest);
  }

  lemma FewDigits(digits: seq<byte>)
    requires AllDigits(digits) && 1 <= |digits| < 3
    ensures NumericBits(digits) == BitsMsb(Decimal(digits), |digits| * 3 + 1)
  {
    hide BitsMsb, Decimal;
  }

  /** Two characters make a number of eleven bits, one left over a number of six. */
  lemma CharacterGroups(a: byte, b: byte, rest: seq<byte>)
    requires CharacterIndex(a, 0) >= 0 && CharacterIndex(b, 0) >= 0 && AllAlphanumeric(rest)
    ensures AlphanumericBits([a]) == BitsMsb(CharacterIndex(a, 0), 6)
    ensures AlphanumericBits([a, b] + rest) ==
      BitsMsb(45 * CharacterIndex(a, 0) + CharacterIndex(b, 0), 11) + AlphanumericBits(rest)
  {
    hide BitsMsb, CharacterIndex, ALPHANUMERIC_CHARSET, AlphanumericBits;
    assert IsCharacter(a) && IsCharacter(b);
    OneCharacter([a]);
    TwoCharacters([a, b] + rest, rest);
  }

  /** A group above 999, 99 or 9 is no group of digits. */
  lemma NoDigits(bits: seq<bool>, p: nat, length: nat)
    requires length >= 1
    requires ReadAt(bits, p, if length >= 3 then 10 else 3 * length + 1).Some?
    requires ReadAt(bits, p, if length >= 3 then 10 else 3 * length + 1).value >=
      (if length >= 3 then 1000 else if length == 2 then 100 else 10)
    ensures NumericFrom(bits, p, length) == None
  {
    hide ReadAt;
  }

  // ----- padding

  lemma {:induction false} PadAt(n: nat, j: nat, pad: byte)
    requires j < n && (pad == 0xEC || pad == 0x11)
    ensures PadBits(n, pad)[8 * j..8 * j + 8] == BitsMsb(if j % 2 == 0 then pad else OtherPad(pad), 8)
    decreases j
  {
    hide BitsMsb;
    if j > 0 {
      PadAt(n - 1, j - 1, OtherPad(pad));
      var rest := PadBits(n - 1, OtherPad(pad));
      assert PadBits(n, pad)[8 * j..8 * j + 8] == rest[8 * (j - 1)..8 * (j - 1) + 8];
    }
  }

  lemma {:induction false} ZeroBits(n: nat, k: nat)
    requires k < n
    ensures !BitsMsb(0, n)[k]
    decreases n
  {
    if k < n - 1 {
      ZeroBits(n - 1, k);
    }
  }

  /** Where the pad bytes begin. */
  function PadStart(length: nat, capacity: nat): nat
    requires length <= capacity
  {
    var t := if capacity - length < 4 then capacity - length else 4;
    (length + t + 7) / 8 * 8
  }

  lemma PadParts(bits: seq<bool>, capacity: nat)
    requires |bits| <= capacity && capacity % 8 == 0
    ensures var end := PadStart(|bits|, capacity);
            && |bits| <= end <= capacity && end % 8 == 0 && (capacity - end) % 8 == 0
            && exists t: nat, a: nat :: t + a == end - |bits| &&
                 Padded(bits, capacity) == bits + BitsMsb(0, t) + BitsMsb(0, a) + PadBits((capacity - end) / 8, 0xEC)
  {
    hide BitsMsb, PadBits;
    var t := Terminator(|bits|, capacity);
    var a := Alignment(|bits| + t);
    AlignmentFits(|bits| + t, capacity);
    RoundedUp(|bits| + t);
    var end := PadStart(|bits|, capacity);
    assert end == |bits| + t + a;
    assert Padded(bits, capacity) == bits + BitsMsb(0, t) + BitsMsb(0, a) + PadBits((capacity - end) / 8, 0xEC);
  }

  lemma RoundedUp(n: nat)
    ensures n + Alignment(n) == (n + 7) / 8 * 8
  {}

  /**
   Behind the data come zeros, four if there is room and then as many as fill the byte; behind them the bytes 236 and 17
   in turn, beginning with 236.
   */
  lemma PaddingIs(bits: seq<bool>, capacity: nat, k: nat, j: nat)
    requires |bits| <= capacity && capacity % 8 == 0
    ensures var end := PadStart(|bits|, capacity);
            && |bits| <= end <= capacity && Padded(bits, capacity)[..|bits|] == bits
            && (|bits| <= k < end ==> !Padded(bits, capacity)[k])
            && (end + 8 * j < capacity ==>
                  end + 8 * j + 8 <= capacity
                  && Padded(bits, capacity)[end + 8 * j..end + 8 * j + 8] == BitsMsb(if j % 2 == 0 then 236 else 17, 8))
  {
    hide BitsMsb, PadBits, Padded, PadStart;
    PadParts(bits, capacity);
    var end := PadStart(|bits|, capacity);
    var n := (capacity - end) / 8;
    var t: nat, a: nat :| t + a == end - |bits| &&
      Padded(bits, capacity) == bits + BitsMsb(0, t) + BitsMsb(0, a) + PadBits(n, 0xEC);
    var head := bits + BitsMsb(0, t) + BitsMsb(0, a);
    if |bits| <= k < |bits| + t {
      ZeroBits(t, k - |bits|);
    } else if |bits| + t <= k < end {
      ZeroBits(a, k - |bits| - t);
    }
    if end + 8 * j < capacity {
      PadAt(n, j, 0xEC);
      SliceBehind(head, PadBits(n, 0xEC), 8 * j);
    }
  }

  lemma SliceBehind(head: seq<bool>, tail: seq<bool>, i: nat)
    requires i + 8 <= |tail|
    ensures (head + tail)[|head| + i..|head| + i + 8] == tail[i..i + 8]
  {}

  // ----- kanji and ECI, which only the decoder knows here

  /** The two ranges of double-byte Shift JIS values that kanji mode can hold. */
  predicate Kanji(c: nat) {
    (0x8140 <= c <= 0x9FFC || 0xE040 <= c <= 0xEBBF) && 0x40 <= c % 256 <= 0xFC
  }

  /** The number of a kanji character, as in section 8.4.5 of ISO/IEC 18004:2000. */
  function KanjiNumber(c: nat): nat
    requires Kanji(c)
  {
    var d := if c <= 0x9FFC then c - 0x8140 else c - 0xC140;
    d / 256 * 0xC0 + d % 256
  }

  lemma KanjiNumberReads(c: nat)
    requires Kanji(c)
    ensures KanjiNumber(c) < Pow2(13) && KanjiBytes(KanjiNumber(c)) == [c / 256, c % 256]
  {
    assert Pow2(13) == 8192;
    var d, offset := if c <= 0x9FFC then c - 0x8140 else c - 0xC140, if c <= 0x9FFC then 0x81 else 0xC1;
    var q, r := d / 256, d % 256;
    assert c == (q + offset) * 256 + (r + 0x40);
    assert r + 0x40 < 256;
    assert c / 256 == q + offset && c % 256 == r + 0x40;
    PairNumber(q, r);
  }

  lemma PairNumber(q: nat, r: nat)
    requires r < 0xC0
    ensures (q * 0xC0 + r) / 0xC0 == q && (q * 0xC0 + r) % 0xC0 == r
  {}

  function KanjiBits(text: seq<nat>): seq<bool>
    requires forall i :: 0 <= i < |text| ==> Kanji(text[i])
  {
    if text == [] then [] else BitsMsb(KanjiNumber(text[0]), 13) + KanjiBits(text[1..])
  }

  /** The two bytes of every character. */
  function DoubleBytes(text: seq<nat>): seq<byte>
    requires forall i :: 0 <= i < |text| ==> Kanji(text[i])
  {
    if text == [] then []
    else
      assert Kanji(text[0]);
      var high: byte, low: byte := text[0] / 256, text[0] % 256;
      [high, low] + DoubleBytes(text[1..])
  }

  /** A kanji text, character by character in 13 bits, decodes to its bytes. */
  lemma {:induction false} KanjiReadsBack(bits: seq<bool>, p: nat, text: seq<nat>)
    requires (forall i :: 0 <= i < |text| ==> Kanji(text[i])) && HasAt(bits, p, KanjiBits(text))
    ensures KanjiFrom(bits, p, |text|) == Some((DoubleBytes(text), p + 13 * |text|))
    decreases |text|
  {
    hide BitsMsb, Pow2, ReadAt, HasAt, KanjiNumber, KanjiBytes;
    if text != [] {
      var first := BitsMsb(KanjiNumber(text[0]), 13);
      KanjiNumberReads(text[0]);
      HasAtSplit(bits, p, first, KanjiBits(text[1..]));
      ReadNumber(bits, p, KanjiNumber(text[0]), 13);
      KanjiReadsBack(bits, p + 13, text[1..]);
    }
  }

  /** An ECI designator of one, two or three bytes: 0, 10 or 110, and the assignment number. */
  function EciBits(assignment: nat): seq<bool> {
    if assignment < 128 then BitsMsb(0, 1) + BitsMsb(assignment, 7)
    else if assignment < 16384 then BitsMsb(1, 1) + BitsMsb(0, 1) + BitsMsb(assignment, 14)
    else BitsMsb(1, 1) + BitsMsb(1, 1) + BitsMsb(0, 1) + BitsMsb(assignment, 21)
  }

  /** The decoder passes over a designator of any length. */
  lemma EciSkipped(bits: seq<bool>, p: nat, assignment: nat)
    requires assignment < 1_000_000 && HasAt(bits, p, EciBits(assignment))
    ensures EciFrom(bits, p) == Some(([], p + |EciBits(assignment)|))
  {
    hide BitsMsb, HasAt, ReadAt, Pow2;
    EciPowers();
    if assignment < 128 {
      HasAtSplit(bits, p, BitsMsb(0, 1), BitsMsb(assignment, 7));
      ReadNumber(bits, p, 0, 1);
      ReadNumber(bits, p + 1, assignment, 7);
    } else if assignment < 16384 {
      HasAtSplit(bits, p, BitsMsb(1, 1) + BitsMsb(0, 1), BitsMsb(assignment, 14));
      HasAtSplit(bits, p, BitsMsb(1, 1), BitsMsb(0, 1));
      ReadNumber(bits, p, 1, 1);
      ReadNumber(bits, p + 1, 0, 1);
      ReadNumber(bits, p + 2, assignment, 14);
    } else {
      HasAtSplit(bits, p, BitsMsb(1, 1) + BitsMsb(1, 1) + BitsMsb(0, 1), BitsMsb(assignment, 21));
      HasAtSplit(bits, p, BitsMsb(1, 1) + BitsMsb(1, 1), BitsMsb(0, 1));
      HasAtSplit(bits, p, BitsMsb(1, 1), BitsMsb(1, 1));
      ReadNumber(bits, p, 1, 1);
      ReadNumber(bits, p + 1, 1, 1);
      ReadNumber(bits, p + 2, 0, 1);
      ReadNumber(bits, p + 3, assignment, 21);
    }
  }

  lemma EciPowers()
    ensures Pow2(1) == 2 && Pow2(7) == 128 && Pow2(14) == 16384 && Pow2(21) == 2_097_152
  {
    SmallPowers();
    Pow2Add(7, 7);
    Pow2Add(14, 7);
  }
}
