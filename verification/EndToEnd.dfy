/** Encoder and decoder together: the decoder reads the text from any symbol that is not damaged too much. */
module EndToEnd {
  import opened Bits
  import opened Options
  import opened Grid
  import opened Zigzag
  import opened Placement
  import opened Masks
  import opened Blocks
  import opened CodewordTables
  import opened Interleaver
  import opened JsDecodeData
  import opened Symbol
  import opened SymbolReader
  import opened Regions
  import opened FunctionPatterns
  import opened FunctionDrawing
  import opened AlignmentTable
  import opened Distances
  import opened FormatCode
  import opened FormatInformation
  import opened VersionCode
  import opened VersionInformation
  import opened MaskChoice
  import opened Segments
  import opened DataCodewords
  import opened TextRoundTrip
  import opened Encoder
  import opened Decoder
  import opened Damage

  // ----- version

  /** The modules of the version bits are function modules without format bits, and keep the encoder's colours. */
  lemma VersionModule(tr: Trace, symbol: Modules, second: bool, i: nat)
    requires Pictured(tr, symbol) && 7 <= tr.version <= 40 && i < 18
    requires Patterned(SizeOf(tr.version), tr.version, tr.align, tr.base)
    ensures var c := VersionCell(SizeOf(tr.version), second, i);
            && InGrid(SizeOf(tr.version), c.0, c.1) && |symbol| == SizeOf(tr.version) * SizeOf(tr.version)
            && symbol[Index(SizeOf(tr.version), c.0, c.1)] == Bit(VersionWord(tr.version), i)
  {
    hide Index, Dark, EncoderRects, Covered, Centres, Base, AlignmentLayer, Bit, Masked, Painted, FunctionMask;
    var size, c := SizeOf(tr.version), VersionCell(SizeOf(tr.version), second, i);
    PicturedParts(tr, symbol);
    VersionIsCovered(size, tr.version, tr.align, i / 3, size - 11 + i % 3);
    DarkAt(size, EncoderRects(size, tr.version, tr.align), c.0, c.1);
    FunctionMaskIs(tr.version, tr.align);
    var func := FunctionMask(tr.version, tr.align);
    assert tr.base[Index(size, c.0, c.1)] == Bit(VersionWord(tr.version), i);
    MaskedKeepsFunction(size, tr.base, func, tr.mask, Index(size, c.0, c.1));
    PaintedElsewhere(size, Masked(size, tr.base, func, tr.mask), FormatWords(tr.level)[tr.mask], 31, c.0, c.1);
  }

  /** Format bits lie in row 8 or column 8, apart from row 6 and column 6, and beside finder patterns. */
  predicate Unformatted(size: nat, x: int, y: int) {
    || (x != 8 && y != 8) || x == 6 || y == 6
    || (!(x < 9 && y < 9) && !(x >= size - 8 && y < 9) && !(x < 9 && y >= size - 8))
  }

  lemma {:induction false} PaintedElsewhere(size: nat, g: Modules, bits: nat, n: nat, x: int, y: int)
    requires |g| == size * size && size >= 21 && n <= 31 && InGrid(size, x, y)
    requires Unformatted(size, x, y)
    ensures Painted(size, g, bits, n)[Index(size, x, y)] == g[Index(size, x, y)]
  {
    hide Index, Bit;
    if n > 0 {
      PaintedElsewhere(size, g, bits, n - 1, x, y);
      CellInGrid(size, bits, n - 1);
      var c := CellAt(size, bits, n - 1);
      if Index(size, x, y) == Index(size, c.x, c.y) {
        IndexInjective(size, x, y, c.x, c.y);
      }
    }
  }

  lemma VersionShown(tr: Trace, symbol: Modules, second: bool)
    requires Pictured(tr, symbol) && 7 <= tr.version <= 40
    requires Patterned(SizeOf(tr.version), tr.version, tr.align, tr.base)
    ensures |symbol| == SizeOf(tr.version) * SizeOf(tr.version)
    ensures ShowsWord(SizeOf(tr.version), symbol, VersionWord(tr.version), second)
  {
    hide Pictured, Patterned, Index, Bit, VersionWord;
    VersionModule(tr, symbol, second, 0);
    forall i | 0 <= i < 18
      ensures var c := VersionCell(SizeOf(tr.version), second, i);
              symbol[Index(SizeOf(tr.version), c.0, c.1)] == Bit(VersionWord(tr.version), i)
    {
      VersionModule(tr, symbol, second, i);
    }
  }

  lemma WordBound(version: nat)
    ensures VersionWord(version) < Pow2(18)
  {
    hide VersionWord;
    assert Pow2(9) == 512;
    Pow2Add(9, 9);
  }

  lemma VersionDrawn(tr: Trace, symbol: Modules, second: bool)
    requires Pictured(tr, symbol) && 7 <= tr.version <= 40
    requires Patterned(SizeOf(tr.version), tr.version, tr.align, tr.base)
    ensures |symbol| == SizeOf(tr.version) * SizeOf(tr.version)
    ensures VersionCollected(SizeOf(tr.version), symbol, second, 18) == VersionWord(tr.version)
  {
    hide *;
    VersionShown(tr, symbol, second);
    WordBound(tr.version);
    VersionReadsBack(SizeOf(tr.version), symbol, VersionWord(tr.version), second, 18);
    ShrZero(VersionWord(tr.version));
  }

  /** From version 7 on, at most three modules of each copy of the version bits are wrong. */
  ghost predicate VersionLegible(tr: Trace, symbol: Modules, seen: Modules)
    requires |seen| == |symbol| == SizeOf(tr.version) * SizeOf(tr.version) && tr.version >= 1
  {
    tr.version >= 7 ==>
      && VersionErrors(SizeOf(tr.version), seen, symbol, false, 18) <= 3
      && VersionErrors(SizeOf(tr.version), seen, symbol, true, 18) <= 3
  }

  /** The version is recovered, from the size or from the version bits. */
  lemma VersionRecovered(tr: Trace, symbol: Modules, seen: Modules, version: Option<nat>)
    requires Pictured(tr, symbol) && 1 <= tr.version <= 40
    requires Patterned(SizeOf(tr.version), tr.version, tr.align, tr.base)
    requires |seen| == |symbol| == SizeOf(tr.version) * SizeOf(tr.version) && VersionLegible(tr, symbol, seen)
    requires VersionIs(SizeOf(tr.version), seen, version)
    ensures version == Some(tr.version)
  {
    hide Pictured, Patterned, VersionCollected, VersionErrors, VersionWord, Distance, VersionFits;
    var size := SizeOf(tr.version);
    if tr.version >= 7 {
      VersionDrawn(tr, symbol, false);
      VersionDrawn(tr, symbol, true);
      VersionDistance(size, seen, symbol, false, 18);
      VersionDistance(size, seen, symbol, true, 18);
      VersionMatches(VersionCollected(size, seen, false, 18), VersionCollected(size, seen, true, 18), version,
        tr.version);
    }
  }

  // ----- format

  lemma DrawnWord(tr: Trace, symbol: Modules, second: bool)
    requires tr.level < 4 && Pictured(tr, symbol)
    ensures |symbol| == SizeOf(tr.version) * SizeOf(tr.version)
    ensures Collected(SizeOf(tr.version), symbol, second, 15) == FORMAT_INFO_TABLE[EntryOf(tr.level, tr.mask)]
  {
    assert Pow2(15) == 0x8000;
    hide Collected, Pow2, Painted, Masked, Centres, Base, FunctionMask, Shr;
    var size := SizeOf(tr.version);
    PicturedParts(tr, symbol);
    FormatReadsBack(size, Masked(size, tr.base, FunctionMask(tr.version, tr.align), tr.mask),
                    FormatWords(tr.level)[tr.mask], second, 15);
    ShrZero(FormatWords(tr.level)[tr.mask]);
  }

  lemma PicturedParts(tr: Trace, symbol: Modules)
    requires Pictured(tr, symbol)
    ensures |tr.base| == SizeOf(tr.version) * SizeOf(tr.version) == |symbol|
  {
    hide FunctionMask, Trial, Centres;
  }

  /** With at most three wrong modules in each copy, level and mask are recovered. */
  lemma FormatRecovered(tr: Trace, symbol: Modules, seen: Modules, format: Option<nat>)
    requires tr.level < 4 && Pictured(tr, symbol)
    requires |seen| == |symbol| == SizeOf(tr.version) * SizeOf(tr.version)
    requires CopyErrors(SizeOf(tr.version), seen, symbol, false, 15) <= 3
    requires CopyErrors(SizeOf(tr.version), seen, symbol, true, 15) <= 3
    requires FormatFits(SizeOf(tr.version), seen, format)
    ensures format == Some(EntryOf(tr.level, tr.mask))
  {
    hide Collected, FarApart, IsNearest, Distance, CopyErrors, EntryOf, Centres, Base, FunctionMask, Trial;
    var size := SizeOf(tr.version);
    DrawnWord(tr, symbol, false);
    DrawnWord(tr, symbol, true);
    CopyDistance(size, seen, symbol, false, 15);
    CopyDistance(size, seen, symbol, true, 15);
    FormatsFarApart();
    NearestMatches(FORMAT_INFO_TABLE, Collected(size, seen, false, 15), Collected(size, seen, true, 15), format,
                   EntryOf(tr.level, tr.mask));
  }

  // ----- codewords

  lemma MaskedFlips(size: nat, g: Modules, h: Modules, func: Modules, mask: nat)
    requires |g| == |h| == |func| == size * size && mask < 8
    ensures Flipped(func, Masked(size, g, func, mask), Masked(size, h, func, mask)) == Flipped(func, g, h)
  {
    hide EncoderInverts;
  }

  /** The codewords read are as wrong as modules are flipped, at most. */
  lemma CodewordsRecovered(size: nat, func: Modules, raw: seq<byte>, mask: nat, symbol: Modules, seen: Modules,
                           codewords: seq<byte>)
    requires size % 4 == 1 && size >= 7 && |func| == |symbol| == |seen| == size * size && mask < 8
    requires 8 * |raw| <= |FreeModules(func, Scan(size, size - 1, true))|
    requires SameFree(func, symbol, MaskedSymbol(size, func, raw, mask))
    requires ReadFrom(size, seen, func, mask, codewords)
    ensures |codewords| >= |raw| && |Wrong(raw, codewords)| <= |Flipped(func, seen, symbol)|
  {
    hide Scan, Masked, ReadBits, FreeModules, BytesToBits, SameFree, MaskedSymbol, Wrong, Flipped, Distinct;
    var walk := Scan(size, size - 1, true);
    var bits := ReadBits(Masked(size, seen, func, mask), func, walk);
    var ideal := ReadBits(Masked(size, symbol, func, mask), func, walk);
    ReadsBack(size, func, raw, mask, symbol);
    CodewordsDamaged(raw, codewords);
    SamePrefix(bits, BytesToBits(codewords), ideal, BytesToBits(raw), 8 * |raw|);
    ScanVisitsOnce(size, 0, 0);
    BitsDamaged(Masked(size, seen, func, mask), Masked(size, symbol, func, mask), func, walk, 8 * |raw|);
    MaskedFlips(size, seen, symbol, func, mask);
  }

  lemma SamePrefix(a: seq<bool>, a': seq<bool>, b: seq<bool>, b': seq<bool>, n: nat)
    requires n <= |a'| <= |a| && a[..|a'|] == a' && n == |b'| <= |b| && b[..n] == b'
    ensures DifferentBits(a', b', n) == DifferentBits(a, b, n)
  {
    assert forall k :: 0 <= k < |a'| ==> a[..|a'|][k] == a[k];
    assert forall k :: 0 <= k < n ==> b[..n][k] == b[k];
  }

  // ----- the theorem

  /** Whatever colours the function modules have, the free modules show the codewords under the mask. */
  lemma SymbolShowsCodewords(tr: Trace, symbol: Modules)
    requires Pictured(tr, symbol)
    ensures var size := SizeOf(tr.version);
            var func := FunctionMask(tr.version, tr.align);
            |symbol| == |func| == size * size && SameFree(func, symbol, MaskedSymbol(size, func, tr.raw, tr.mask))
  {
    hide Drawn, Painted, Masked, EncoderScan, BytesToBits, Dark, EncoderRects, Centres;
    var size := SizeOf(tr.version);
    var func := FunctionMask(tr.version, tr.align);
    PicturedParts(tr, symbol);
    MaskedSame(size, tr.base, Drawn(func, EncoderScan(size, size - 1), BytesToBits(tr.raw)).0, func, tr.mask);
    forall p | 0 <= p < |func| && !func[p]
      ensures symbol[p] == Masked(size, tr.base, func, tr.mask)[p]
    {
      PaintedKeepsFree(size, Masked(size, tr.base, func, tr.mask), FormatWords(tr.level)[tr.mask], 31,
                       tr.version, tr.align, p);
    }
  }

  /** Every block of the codewords read has at most half as many wrong bytes as check bytes. */
  ghost predicate ReadsRepairably(tr: Trace, codewords: seq<byte>) {
    && 1 <= tr.version <= 40 && tr.level < 4
    && var s := ShapeFor(tr.version, tr.level);
       s.Valid() && |tr.data| == s.DataLen() && |codewords| >= s.RawLen() && Repairable(s, tr.data, codewords)
  }

  /** The codewords are repaired to the data, and the data parsed to the text. */
  lemma PayloadRecovered(chunks: seq<Chunk>, tr: Trace, codewords: seq<byte>)
    requires Coded(chunks, tr) && ReadsRepairably(tr, codewords)
    ensures PayloadIs(tr.version, tr.level, codewords, Some(AllText(chunks)))
  {
    hide FirstBlocksPlaced, Shape.RawLen, Shape.DataLen, Repairable, DecodeCodewords, DecodeFrom;
    hide BytesToBits, AllText, CountsFit, AllBits, Padded, AllValid, SizeClass;
    hide ShapeFor, DecoderShape, RawCodewords, GetNumDataCodewords;
    var s := ShapeFor(tr.version, tr.level);
    ShapeParts(tr.version, tr.level);
    RowsAgree(tr.version, tr.level);
    DamagedCodewordsDecode(s, tr.data, codewords);
    PaddedReadsBack(chunks, tr.version, 8 * |tr.data|);
  }

  /** The picture still shows version and format: at most three modules of each copy of their bits are wrong. */
  ghost predicate Legible(tr: Trace, symbol: Modules, seen: Modules) {
    && tr.version >= 1 && |seen| == |symbol| == SizeOf(tr.version) * SizeOf(tr.version)
    && VersionLegible(tr, symbol, seen)
    && CopyErrors(SizeOf(tr.version), seen, symbol, false, 15) <= 3
    && CopyErrors(SizeOf(tr.version), seen, symbol, true, 15) <= 3
  }

  /** The codewords that the decoder reads from the picture of the symbol. */
  ghost predicate ReadsCodewords(tr: Trace, seen: Modules, codewords: seq<byte>) {
    && 1 <= tr.version <= 40 && tr.mask < 8 && |seen| == SizeOf(tr.version) * SizeOf(tr.version)
    && ReadFrom(SizeOf(tr.version), seen, DecoderMask(tr.version), tr.mask, codewords)
  }

  /** The symbol was made from the chunks, and everything about it is as the encoder promises. */
  ghost predicate Encodes(chunks: seq<Chunk>, tr: Trace, symbol: Modules) {
    && Coded(chunks, tr) && Pictured(tr, symbol)
    && Patterned(SizeOf(tr.version), tr.version, tr.align, tr.base)
  }

  /** What the decoder finds in a legible picture: the version, the format, and so the codewords. */
  lemma HeaderRecovered(chunks: seq<Chunk>, tr: Trace, symbol: Modules, seen: Modules, r: Option<seq<byte>>)
      returns (codewords: seq<byte>)
    requires Encodes(chunks, tr, symbol) && Legible(tr, symbol, seen)
    requires Decodes(SizeOf(tr.version), seen, r)
    ensures ReadsCodewords(tr, seen, codewords) && PayloadIs(tr.version, tr.level, codewords, r)
  {
    hide *;
    var size := SizeOf(tr.version);
    EncodesParts(chunks, tr, symbol);
    LegibleParts(tr, symbol, seen);
    var version, format, codewords' := Witnesses(size, seen, r);
    VersionOfDecodes(size, seen, r, version, format, codewords');
    VersionRecovered(tr, symbol, seen, version);
    FormatOfDecodes(size, seen, r, tr.version, format, codewords');
    FormatRecovered(tr, symbol, seen, format);
    DecodesParts(tr, seen, r, format, codewords');
    codewords := codewords';
  }

  /**
   The decoder returns exactly the text that was encoded, from any picture in which version and format are legible and
   every block of the codewords read stays repairable.
   */
  lemma TextRecovered(chunks: seq<Chunk>, tr: Trace, symbol: Modules, seen: Modules, r: Option<seq<byte>>,
                      codewords: seq<byte>)
    requires Encodes(chunks, tr, symbol) && Legible(tr, symbol, seen)
    requires ReadsCodewords(tr, seen, codewords) && ReadsRepairably(tr, codewords)
    requires DecodesEitherWay(SizeOf(tr.version), seen, r)
    ensures r == Some(AllText(chunks))
  {
    hide *;
    EncodesParts(chunks, tr, symbol);
    LegibleParts(tr, symbol, seen);
    PayloadRecovered(chunks, tr, codewords);
    var r' := FirstTry(SizeOf(tr.version), seen, r);
    var codewords' := HeaderRecovered(chunks, tr, symbol, seen, r');
    CodewordsOnce(tr, seen, codewords, codewords');
    OnePayload(tr.version, tr.level, codewords, r', Some(AllText(chunks)));
  }

  /**
   In particular from any picture of a symbol of a version other than 23 in which twice the number of wrong data
   modules is at most the number of check bytes of a block. The other function modules do not matter.
   */
  lemma DamagedTextRecovered(chunks: seq<Chunk>, tr: Trace, symbol: Modules, seen: Modules,
                             r: Option<seq<byte>>)
    requires Encodes(chunks, tr, symbol) && Legible(tr, symbol, seen) && tr.version != 23
    requires 2 * |Flipped(FunctionMask(tr.version, tr.align), seen, symbol)| <= EccLen(tr.version, tr.level)
    requires DecodesEitherWay(SizeOf(tr.version), seen, r)
    ensures r == Some(AllText(chunks))
  {
    hide *;
    EncodesParts(chunks, tr, symbol);
    LegibleParts(tr, symbol, seen);
    SameMasks(tr, symbol);
    CodedParts(chunks, tr);
    SymbolShowsCodewords(tr, symbol);
    var r' := FirstTry(SizeOf(tr.version), seen, r);
    var codewords := HeaderRecovered(chunks, tr, symbol, seen, r');
    ReadsParts(tr, seen, codewords);
    CodewordsRecovered(SizeOf(tr.version), FunctionMask(tr.version, tr.align), tr.raw, tr.mask, symbol, seen,
      codewords);
    FewWrongReadsRepairably(chunks, tr, codewords);
    TextRecovered(chunks, tr, symbol, seen, r, codewords);
  }

  lemma EncodesParts(chunks: seq<Chunk>, tr: Trace, symbol: Modules)
    requires Encodes(chunks, tr, symbol)
    ensures Coded(chunks, tr) && Pictured(tr, symbol) && Patterned(SizeOf(tr.version), tr.version, tr.align, tr.base)
    ensures 1 <= tr.version <= 40 && tr.level < 4 && tr.mask < 8
    ensures |symbol| == |FunctionMask(tr.version, tr.align)| == SizeOf(tr.version) * SizeOf(tr.version)
    ensures Centres(tr.version, tr.align)
  {
    hide Patterned, Base, Centres, FunctionMask;
  }

  lemma LegibleParts(tr: Trace, symbol: Modules, seen: Modules)
    requires Legible(tr, symbol, seen)
    ensures SizeOf(tr.version) >= 21 && |seen| == |symbol| == SizeOf(tr.version) * SizeOf(tr.version)
    ensures VersionLegible(tr, symbol, seen)
    ensures CopyErrors(SizeOf(tr.version), seen, symbol, false, 15) <= 3
    ensures CopyErrors(SizeOf(tr.version), seen, symbol, true, 15) <= 3
  {}

  lemma ReadsParts(tr: Trace, seen: Modules, codewords: seq<byte>)
    requires ReadsCodewords(tr, seen, codewords)
    ensures 1 <= tr.version <= 40 && tr.mask < 8 && |seen| == SizeOf(tr.version) * SizeOf(tr.version)
    ensures ReadFrom(SizeOf(tr.version), seen, DecoderMask(tr.version), tr.mask, codewords)
  {}

  lemma CodewordsOnce(tr: Trace, seen: Modules, codewords: seq<byte>, codewords': seq<byte>)
    requires ReadsCodewords(tr, seen, codewords) && ReadsCodewords(tr, seen, codewords')
    ensures codewords == codewords'
  {
    hide ReadBits, Masked, Scan, BytesToBits, DecoderMask;
    BytesToBitsInjective(codewords, codewords');
  }

  /** A result of the two tries comes from a first one: the result itself, or nothing. */
  lemma FirstTry(size: nat, seen: Modules, r: Option<seq<byte>>) returns (r': Option<seq<byte>>)
    requires |seen| == size * size && DecodesEitherWay(size, seen, r)
    ensures Decodes(size, seen, r') && (r'.Some? ==> r == r')
  {
    hide Decodes;
    r' := if r.Some? && Decodes(size, seen, r) then r else None;
  }

  lemma Witnesses(size: nat, seen: Modules, r: Option<seq<byte>>)
      returns (version: Option<nat>, format: Option<nat>, codewords: seq<byte>)
    requires |seen| == size * size && Decodes(size, seen, r)
    ensures DecodesWith(size, seen, r, version, format, codewords)
  {
    hide DecodesWith;
    version, format, codewords :| DecodesWith(size, seen, r, version, format, codewords);
  }

  lemma VersionOfDecodes(size: nat, seen: Modules, r: Option<seq<byte>>,
                         version: Option<nat>, format: Option<nat>, codewords: seq<byte>)
    requires |seen| == size * size && DecodesWith(size, seen, r, version, format, codewords)
    ensures VersionIs(size, seen, version)
    ensures version.Some? ==>
      1 <= version.value <= 40 && size >= 21 && DecodesTo(size, seen, version.value, r, format, codewords)
  {
    hide VersionIs, DecodesTo;
  }

  lemma FormatOfDecodes(size: nat, seen: Modules, r: Option<seq<byte>>,
                        version: nat, format: Option<nat>, codewords: seq<byte>)
    requires 1 <= version <= 40 && size >= 21 && |seen| == size * size
    requires DecodesTo(size, seen, version, r, format, codewords)
    ensures FormatFits(size, seen, format)
  {
    hide FormatFits, ReadsAs, PayloadIs;
  }

  lemma DecodesParts(tr: Trace, seen: Modules, r: Option<seq<byte>>, format: Option<nat>, codewords: seq<byte>)
    requires 1 <= tr.version <= 40 && |seen| == SizeOf(tr.version) * SizeOf(tr.version)
    requires DecodesTo(SizeOf(tr.version), seen, tr.version, r, format, codewords)
    requires tr.level < 4 && tr.mask < 8 && format == Some(EntryOf(tr.level, tr.mask))
    ensures ReadsCodewords(tr, seen, codewords) && PayloadIs(tr.version, tr.level, codewords, r)
  {
    hide FormatFits, ReadFrom, PayloadIs, DecoderMask, Stretched, EntryLevel, EntryMask, EntryOf;
    StretchedSame(SizeOf(tr.version), DecoderMask(tr.version));
  }

  lemma SameMasks(tr: Trace, symbol: Modules)
    requires Pictured(tr, symbol) && 1 <= tr.version <= 40 && tr.version != 23
    ensures DecoderMask(tr.version) == FunctionMask(tr.version, tr.align)
  {
    hide Dark, EncoderRects, DecoderRects, Base, Trial, Centres, ALIGNMENT_PATTERN_CENTERS;
    MasksAgreeButOnce(tr.version, tr.align);
    DecoderMaskIs(tr.version);
    FunctionMaskIs(tr.version, tr.align);
  }

  lemma FewWrongReadsRepairably(chunks: seq<Chunk>, tr: Trace, codewords: seq<byte>)
    requires Coded(chunks, tr)
    requires |codewords| >= |tr.raw| && 2 * |Wrong(tr.raw, codewords)| <= EccLen(tr.version, tr.level)
    ensures ReadsRepairably(tr, codewords)
  {
    hide Wrong, FirstBlocksPlaced, Shape.RawLen, Shape.DataLen, Repairable;
    hide ShapeFor, RawCodewords, GetNumDataCodewords, NumBlocks, EccLen;
    ShapeParts(tr.version, tr.level);
    FewWrongIsRepairable(ShapeFor(tr.version, tr.level), tr.data, tr.raw, codewords);
  }

  lemma CodedParts(chunks: seq<Chunk>, tr: Trace)
    requires Coded(chunks, tr) && Centres(tr.version, tr.align)
    ensures 1 <= tr.version <= 40 && tr.level < 4
    ensures SizeOf(tr.version) % 4 == 1 && SizeOf(tr.version) >= 21
    ensures var size := SizeOf(tr.version);
            8 * |tr.raw| <= |FreeModules(FunctionMask(tr.version, tr.align), Scan(size, size - 1, true))|
  {
    hide FreeModules, Dark, EncoderRects, Scan, DataOf, FirstBlocksPlaced, CountsFit, Centres, Shape.RawLen;
    hide ShapeFor, RawCodewords, GetNumDataCodewords;
    ShapeParts(tr.version, tr.level);
    RoomForBits(tr.version);
  }
}
