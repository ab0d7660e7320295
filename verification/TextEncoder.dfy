/** From a text to a symbol: the choice of the mode and the encoder behind it. */
module TextEncoder {
  import opened Bits
  import opened Options
  import opened Placement
  import opened Grid
  import opened Segments
  import opened DataCodewords
  import opened TextRoundTrip
  import opened CodewordTables
  import opened StandardText
  import opened Encoder
  import opened FunctionDrawing
  import opened Decoder
  import opened EndToEnd

  method IsNumeric(text: seq<byte>) returns (r: bool)
    ensures r == AllDigits(text)
  {
    for i := 0 to |text|
      invariant forall k :: 0 <= k < i ==> 48 <= text[k] <= 57
    {
      if text[i] < 48 || text[i] > 57 {
        return false;
      }
    }
    r := true;
  }

  method IsAlphanumeric(text: seq<byte>) returns (r: bool)
    ensures r == AllAlphanumeric(text)
  {
    hide CharacterIndex;
    for i := 0 to |text|
      invariant forall k :: 0 <= k < i ==> IsCharacter(text[k])
    {
      if !IsCharacter(text[i]) {
        return false;
      }
    }
    r := true;
  }

  /** The most compact mode that holds the text; an empty text needs no segment. */
  function ChunksOf(text: seq<byte>): (chunks: seq<Chunk>)
    ensures AllText(chunks) == text
  {
    if text == [] then []
    else
      var chunk :=
        if AllDigits(text) then NumericChunk(text)
        else if AllAlphanumeric(text) then AlphanumericChunk(text)
        else ByteChunk(text);
      assert [chunk][1..] == [];
      assert text + [] == text;
      [chunk]
  }

  /** No other mode that can hold the text takes fewer bits, in any version. */
  lemma ModeIsShortest(text: seq<byte>, c: Chunk, version: nat)
    requires text != [] && 1 <= version <= 40 && c.Valid() && c.text == text
    ensures |ChunksOf(text)| == 1 && ChunksOf(text)[0].Valid()
    ensures |SegmentBits(ChunksOf(text)[0], version)| <= |SegmentBits(c, version)|
  {
    hide NumericBits, AlphanumericBits, BytesToBits, BitsMsb, NumCharCountBits, AllDigits, AllAlphanumeric;
    CountWidths(version);
    PayloadLength(ChunksOf(text)[0]);
    PayloadLength(c);
  }

  lemma PayloadLength(c: Chunk)
    requires c.Valid()
    ensures var n := |c.text|;
            |c.Payload()| ==
              match c
              case NumericChunk(_) => (10 * n + 2) / 3
              case AlphanumericChunk(_) => (11 * n + 1) / 2
              case ByteChunk(_) => 8 * n
  {
    hide NumericBits, AlphanumericBits, BytesToBits, AllDigits, AllAlphanumeric;
    match c {
      case NumericChunk(text) => NumericBitsLength(text);
      case AlphanumericChunk(text) => AlphanumericBitsLength(text);
      case ByteChunk(text) =>
    }
  }

  /** The bits of the text fit the version at the level, and the length fits its field. */
  ghost predicate TextFits(text: seq<byte>, version: nat, level: nat)
    requires 1 <= version <= 40 && level < 4
  {
    var chunks := ChunksOf(text);
    && AllValid(chunks) && CountsFit(chunks, version)
    && |AllBits(chunks, version)| <= 32767 && |AllBits(chunks, version)| <= 8 * GetNumDataCodewords(version, level)
  }

  lemma OneChunk(text: seq<byte>)
    ensures AllValid(ChunksOf(text))
    ensures text == [] ==> ChunksOf(text) == []
    ensures text != [] ==> |ChunksOf(text)| == 1 && ChunksOf(text)[0].text == text && ChunksOf(text)[0].Valid()
  {
    hide AllDigits, AllAlphanumeric, AllText;
  }

  lemma OneBits(c: Chunk, version: nat)
    requires 1 <= version <= 40 && c.Valid()
    ensures AllValid([c])
    ensures |AllBits([c], version)| == 4 + NumCharCountBits(c.Mode(), version) + |c.Payload()|
  {
    hide NumCharCountBits, Chunk.Payload, Chunk.Valid;
    assert [c][..0] == [];
    assert AllBits([], version) == [];
  }

  /** The level is the one asked for, or the highest that still fits. */
  ghost predicate TextLevelIs(text: seq<byte>, version: nat, level: nat, asked: nat, boost: bool)
    requires 1 <= version <= 40 && level < 4
  {
    && TextFits(text, version, level)
    && if boost then asked <= level && forall i :: level < i < 4 ==> !TextFits(text, version, i)
       else level == asked
  }

  /** The encoder counts a text as fitting exactly when its bits fit. */
  lemma FitsExactly(text: seq<byte>, segs: seq<Segment>, version: nat, level: nat)
    requires 1 <= version <= 40 && level < 4 && AllRepresent(segs, ChunksOf(text))
    ensures Fits(segs, version, level) <==> TextFits(text, version, level)
  {
    hide NumCharCountBits, Pow2, Chunk.Payload, Chunk.Valid, AllBits, ChunksOf, AllDigits;
    hide GetNumDataCodewords, RawCodewords, ShapeFor;
    OneChunk(text);
    if text == [] {
      EmptyFits(version, level);
    } else {
      var c, s := ChunksOf(text)[0], segs[0];
      OneBits(c, version);
      assert ChunksOf(text) == [c] && Represents(s, c);
      var sum := 4 + NumCharCountBits(s.mode, version) + s.bitLength;
      assert sum <= 32767 ==> TotalBitsFrom(segs, version, 1, sum) == sum;
    }
  }

  lemma EmptyFits(version: nat, level: nat)
    requires 1 <= version <= 40 && level < 4
    ensures Fits([], version, level) && TextFits([], version, level)
  {
    hide GetNumDataCodewords;
  }

  lemma FitsEverywhere(text: seq<byte>, segs: seq<Segment>)
    requires AllRepresent(segs, ChunksOf(text))
    ensures forall v: nat, level: nat {:trigger Fits(segs, v, level)} {:trigger TextFits(text, v, level)} ::
              1 <= v <= 40 && level < 4 ==> (Fits(segs, v, level) <==> TextFits(text, v, level))
  {
    hide *;
    forall v: nat, level: nat | 1 <= v <= 40 && level < 4
      ensures Fits(segs, v, level) <==> TextFits(text, v, level)
    {
      FitsExactly(text, segs, v, level);
    }
  }

  lemma LevelOfText(text: seq<byte>, segs: seq<Segment>, version: nat, level: nat, asked: nat, boost: bool)
    requires 1 <= version <= 40 && level < 4 && AllRepresent(segs, ChunksOf(text))
    requires Fits(segs, version, level) && LevelIs(segs, version, level, asked, boost)
    ensures TextLevelIs(text, version, level, asked, boost)
  {
    hide Fits, TextFits, AllRepresent, ChunksOf;
    FitsEverywhere(text, segs);
  }

  /** A text whose payload exceeds the buffer fits no version. */
  lemma TextTooLong(text: seq<byte>, version: nat, maxVersion: nat, level: nat)
    requires 1 <= version <= maxVersion <= 40 && level < 4 && text != []
    requires var c, room := ChunksOf(text)[0], (SizeOf(maxVersion) * SizeOf(maxVersion) + 7) / 8 + 1;
             c.Valid() && (|c.Payload()| > 32767 || |c.Payload()| > 8 * room)
    ensures !TextFits(text, version, level)
  {
    hide *;
    OneChunk(text);
    OneBits(ChunksOf(text)[0], version);
    assert ChunksOf(text) == [ChunksOf(text)[0]];
    RoomFor(version, maxVersion);
    DataBelowRaw(version, level);
    TooManyBits(text, version, level);
  }

  lemma TooManyBits(text: seq<byte>, version: nat, level: nat)
    requires 1 <= version <= 40 && level < 4 && AllValid(ChunksOf(text))
    requires var n := |AllBits(ChunksOf(text), version)|; n > 32767 || n > 8 * GetNumDataCodewords(version, level)
    ensures !TextFits(text, version, level)
  {
    hide AllBits, GetNumDataCodewords, ChunksOf, AllValid;
  }

  /**
   Encodes a text in the mode that suits it best, in the smallest version in the range that holds it at the level
   asked for.
   */
  method EncodeText(text: seq<byte>, ecl: nat, minVersion: nat, maxVersion: nat, mask: int, boostEcl: bool,
                    tempBuffer: array<byte>, qrcode: array<byte>)
      returns (ok: bool, ghost tr: Trace)
    requires 1 <= minVersion <= maxVersion <= 40 && ecl < 4 && -1 <= mask < 8
    requires tempBuffer != qrcode
    requires var room := (SizeOf(maxVersion) * SizeOf(maxVersion) + 7) / 8 + 1;
             tempBuffer.Length >= room && qrcode.Length >= room
    modifies tempBuffer, qrcode
    ensures ok <==> exists v :: minVersion <= v <= maxVersion && TextFits(text, v, ecl)
    ensures !ok ==> qrcode[0] == 0
    ensures ok ==>
      && minVersion <= tr.version <= maxVersion && tr.level < 4
      && (forall v :: minVersion <= v < tr.version ==> !TextFits(text, v, ecl))
      && TextLevelIs(text, tr.version, tr.level, ecl, boostEcl)
      && Packed(qrcode[..], SizeOf(tr.version))
      && Coded(ChunksOf(text), tr)
      && Pictured(tr, View(qrcode[..], SizeOf(tr.version)))
      && |tr.base| == SizeOf(tr.version) * SizeOf(tr.version) && MaskIs(tr, mask)
      && Patterned(SizeOf(tr.version), tr.version, tr.align, tr.base)
  {
    hide *;
    OneChunk(text);
    var segs: seq<Segment> := [];
    if text == [] {
      NothingRepresented();
    } else {
      var seg := MakeSegment(text, maxVersion, tempBuffer);
      if seg.None? {
        forall v | minVersion <= v <= maxVersion
          ensures !TextFits(text, v, ecl)
        {
          TextTooLong(text, v, maxVersion, ecl);
        }
        qrcode[0] := 0;
        return false, Trace(0, 0, 0, [], [], [], []);
      }
      OneRepresented(text, seg.value);
      segs := [seg.value];
    }
    FitsEverywhere(text, segs);
    ok, tr := EncodeSegmentsAdvanced(segs, ecl, minVersion, maxVersion, mask, boostEcl, tempBuffer, qrcode,
                                     ChunksOf(text));
    if ok {
      CodedLevel(ChunksOf(text), tr);
      LevelOfText(text, segs, tr.version, tr.level, ecl, boostEcl);
    }
  }

  lemma CodedLevel(chunks: seq<Chunk>, tr: Trace)
    requires Coded(chunks, tr)
    ensures 1 <= tr.version <= 40 && tr.level < 4
  {
    hide DataOf, Protects, CountsFit, ShapeFor;
  }

  lemma OneRepresented(text: seq<byte>, s: Segment)
    requires text != [] && |ChunksOf(text)| == 1 && Represents(s, ChunksOf(text)[0])
    ensures AllRepresent([s], ChunksOf(text))
  {
    hide ChunksOf, Represents;
  }

  lemma NothingRepresented()
    ensures AllRepresent([], [])
  {}

  /** The segment for the text, or nothing if its payload is too long for the buffer. */
  method MakeSegment(text: seq<byte>, maxVersion: nat, tempBuffer: array<byte>) returns (seg: Option<Segment>)
    requires text != [] && 1 <= maxVersion <= 40
    requires tempBuffer.Length >= (SizeOf(maxVersion) * SizeOf(maxVersion) + 7) / 8 + 1
    modifies tempBuffer
    ensures |ChunksOf(text)| == 1 && ChunksOf(text)[0].Valid()
    ensures seg.Some? ==> Represents(seg.value, ChunksOf(text)[0])
    ensures seg.None? ==>
      var n := |ChunksOf(text)[0].Payload()|;
      n > 32767 || n > 8 * ((SizeOf(maxVersion) * SizeOf(maxVersion) + 7) / 8 + 1)
  {
    hide Represents, AllDigits, AllAlphanumeric, AllText, Chunk.Payload, NumericBits, AlphanumericBits, BytesToBits;
    OneChunk(text);
    BitLengthExact(ChunksOf(text)[0]);
    var bufLen := (SizeOf(maxVersion) * SizeOf(maxVersion) + 7) / 8 + 1;
    var numeric := IsNumeric(text);
    var alphanumeric := IsAlphanumeric(text);
    if numeric {
      var bits := CalcSegmentBitLength(1, |text|);
      if bits == -1 || (bits + 7) / 8 > bufLen {
        return None;
      }
      var s := MakeNumeric(text, tempBuffer);
      seg := Some(s);
    } else if alphanumeric {
      var bits := CalcSegmentBitLength(2, |text|);
      if bits == -1 || (bits + 7) / 8 > bufLen {
        return None;
      }
      var s := MakeAlphanumeric(text, tempBuffer);
      seg := Some(s);
    } else {
      if |text| > bufLen || CalcSegmentBitLength(4, |text|) == -1 {
        PayloadOfBytes(text);
        return None;
      }
      var s := MakeBytes(text);
      seg := Some(s);
    }
  }

  lemma PayloadOfBytes(text: seq<byte>)
    ensures |ByteChunk(text).Payload()| == 8 * |text|
  {}

  /**
   From text to text: whatever the decoder returns for a picture within the limits of damage is exactly the text that
   was encoded.
   */
  lemma TextSurvives(text: seq<byte>, tr: Trace, symbol: Modules, seen: Modules, r: Option<seq<byte>>,
                     codewords: seq<byte>)
    requires Encodes(ChunksOf(text), tr, symbol) && Legible(tr, symbol, seen)
    requires ReadsCodewords(tr, seen, codewords) && ReadsRepairably(tr, codewords)
    requires DecodesEitherWay(SizeOf(tr.version), seen, r)
    ensures r == Some(text)
  {
    hide *;
    TextRecovered(ChunksOf(text), tr, symbol, seen, r, codewords);
  }
}
