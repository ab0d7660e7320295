/** The encoder as a whole: from segments to the finished symbol. */
module Encoder {
  import opened Bits
  import opened Grid
  import opened Zigzag
  import opened Placement
  import opened Blocks
  import opened ModuleCount
  import opened CodewordTables
  import opened Interleaver
  import opened SymbolWriter
  import opened Symbol
  import opened Regions
  import opened FunctionPatterns
  import opened FunctionModules
  import opened FunctionDrawing
  import opened FormatCode
  import opened MaskChoice
  import opened Segments
  import opened DataCodewords
  import opened TextRoundTrip

  function SizeOf(version: nat): (size: nat)
    ensures size >= 17 && (version >= 1 ==> size >= 21)
  {
    version * 4 + 17
  }

  // ----- codewords

  /** The sequence fills all slots of the shape with the blocks made of the data. */
  ghost predicate Protects(s: Shape, data: seq<byte>, raw: seq<byte>) {
    s.Valid() && |data| == s.DataLen() && |raw| == s.RawLen() && FirstBlocksPlaced(s, data, raw, s.numBlocks)
  }

  /** The data codewords are the padded bits of the chunks. */
  ghost predicate DataOf(chunks: seq<Chunk>, version: nat, data: seq<byte>)
    requires 1 <= version <= 40
  {
    AllValid(chunks) && PaddedInto(AllBits(chunks, version), data)
  }

  /** The bits, padded, fill the bytes. */
  predicate PaddedInto(bits: seq<bool>, data: seq<byte>) {
    |bits| <= 8 * |data| && BytesToBits(data) == Padded(bits, 8 * |data|)
  }

  /** Makes the data codewords in `qrcode` and the codewords to be drawn in `tempBuffer`. */
  method MakeCodewords(segs: seq<Segment>, version: nat, s: Shape, tempBuffer: array<byte>, qrcode: array<byte>,
                       ghost chunks: seq<Chunk>) returns (ghost data: seq<byte>)
    requires 1 <= version <= 40 && AllRepresent(segs, chunks) && s.Valid() && tempBuffer != qrcode
    requires 0 <= TotalBitsFrom(segs, version, 0, 0) <= 8 * s.DataLen()
    requires s.RawLen() <= tempBuffer.Length && s.RawLen() <= qrcode.Length
    modifies tempBuffer, qrcode
    ensures DataOf(chunks, version, data) && Protects(s, data, tempBuffer[..s.RawLen()])
  {
    hide *;
    ScratchFits(s);
    WriteDataCodewords(segs, version, 8 * s.DataLen(), qrcode, chunks);
    data := qrcode[..s.DataLen()];
    FilledIsPadded(qrcode[..], AllBits(chunks, version), s.DataLen());
    IsData(chunks, version, data);
    AddEccAndInterleave(qrcode, s, tempBuffer);
    IsProtected(s, data, tempBuffer[..]);
  }

  lemma IsProtected(s: Shape, data: seq<byte>, codewords: seq<byte>)
    requires s.Valid() && |data| == s.DataLen() && |codewords| >= s.RawLen()
    requires FirstBlocksPlaced(s, data, codewords, s.numBlocks)
    ensures Protects(s, data, codewords[..s.RawLen()])
  {
    hide FirstBlocksPlaced, Shape.RawLen, Shape.DataLen;
    PlacedPrefix(s, data, codewords[..s.RawLen()], codewords);
  }

  lemma IsData(chunks: seq<Chunk>, version: nat, data: seq<byte>)
    requires 1 <= version <= 40 && AllValid(chunks) && PaddedInto(AllBits(chunks, version), data)
    ensures DataOf(chunks, version, data)
  {
    hide PaddedInto, AllBits, AllValid;
  }

  lemma FilledIsPadded(buffer: seq<byte>, bits: seq<bool>, n: nat)
    requires |bits| <= 8 * n && n <= |buffer| && Filled(buffer, Padded(bits, 8 * n))
    ensures PaddedInto(bits, buffer[..n])
  {
    hide BytesToBits, Padded;
    BytesToBitsPrefix(buffer, n);
  }

  // ----- modules

  /** The unmasked grid: the codewords along the zigzag, and any colours at function modules. */
  ghost predicate Base(size: nat, func: Modules, raw: seq<byte>, g: Modules)
    requires size >= 1 && |func| == size * size
  {
    |g| == |func| && SameFree(func, g, Drawn(func, EncoderScan(size, size - 1), BytesToBits(raw)).0)
  }

  /** All bits find a free module. */
  lemma RoomForAll(size: nat, func: Modules, bits: seq<bool>)
    requires size % 4 == 1 && size >= 7 && |func| == size * size
    requires |bits| <= |FreeModules(func, Scan(size, size - 1, true))|
    ensures Drawn(func, EncoderScan(size, size - 1), bits).1 == |bits|
  {
    hide Scan, EncoderScan, Drawn, FreeModules, ReadBits, Index, Distinct;
    ScansAgree(size);
    ScanVisitsOnce(size, 0, 0);
    DrawnReadsBack(func, Scan(size, size - 1, true), bits);
  }

  lemma DrawnIsBase(q: seq<byte>, size: nat, func: Modules, raw: seq<byte>, i: nat)
    requires size % 2 == 1 && size >= 21 && |func| == size * size
    requires DrawState(q, size, func, EncoderScan(size, size - 1), BytesToBits(raw), i)
    requires EncoderScan(size, size - 1) == Scan(size, size - 1, true)
    ensures Packed(q, size) && Base(size, func, raw, View(q, size))
    ensures forall p :: 0 <= p < |func| && func[p] ==> View(q, size)[p]
  {
    hide View, EncoderScan, Drawn, BytesToBits, Scan, Index, Distinct;
    ScanVisitsOnce(size, 0, 0);
    forall p | 0 <= p < |func| && func[p]
      ensures View(q, size)[p]
    {
      DrawnKeepsFunction(func, EncoderScan(size, size - 1), BytesToBits(raw), p);
    }
  }

  /** The function modules drawn over the base grid leave its free modules alone. */
  lemma PatternsOverBase(q: seq<byte>, version: nat, align: seq<nat>, raw: seq<byte>, g: Modules)
    requires version >= 1
    requires var size := SizeOf(version); var func := Dark(size, EncoderRects(size, version, align));
             && |g| == |func| == size * size
             && Base(size, func, raw, g) && (forall p :: 0 <= p < |g| && func[p] ==> g[p])
             && Shows(q, size, g, FunctionLayer(size, version, align))
    ensures var size := SizeOf(version);
            && Packed(q, size) && Patterned(size, version, align, View(q, size))
            && Base(size, Dark(size, EncoderRects(size, version, align)), raw, View(q, size))
  {
    hide View, EncoderScan, Drawn, BytesToBits, Dark, EncoderRects, FunctionLayer, Patterned;
    DrawnPatterns(q, SizeOf(version), version, align, g);
  }

  /** Draws the codewords and the function modules. */
  method DrawModules(version: nat, codewords: nat, tempBuffer: array<byte>, qrcode: array<byte>)
      returns (ghost align: seq<nat>)
    requires 1 <= version <= 40 && tempBuffer != qrcode && codewords <= tempBuffer.Length
    requires var size := version * 4 + 17; qrcode.Length >= (size * size + 7) / 8 + 1
    requires var size := version * 4 + 17;
             forall align :: Centres(version, align) ==>
               8 * codewords
               <= |FreeModules(Dark(size, EncoderRects(size, version, align)), Scan(size, size - 1, true))|
    modifies qrcode
    ensures var size := version * 4 + 17;
            && Centres(version, align) && Packed(qrcode[..], size)
            && Base(size, Dark(size, EncoderRects(size, version, align)), tempBuffer[..codewords],
              View(qrcode[..], size))
            && Patterned(size, version, align, View(qrcode[..], size))
  {
    hide *;
    var size := version * 4 + 17;
    SizeParts(version);
    ghost var raw := tempBuffer[..codewords];
    align := InitializeFunctionModules(version, qrcode);
    ghost var rects := EncoderRects(size, version, align);
    MarkedParts(qrcode[..], size, rects);
    RoomForAll(size, Dark(size, rects), BytesToBits(raw));
    DrawCodewords(tempBuffer, codewords, qrcode);
    assert tempBuffer[..codewords] == raw;
    ScansAgree(size);
    DrawnIsBase(qrcode[..], size, Dark(size, rects), raw, 8 * codewords);
    ghost var g := View(qrcode[..], size);
    DrawLightFunctionModules(qrcode, version, align);
    PatternsOverBase(qrcode[..], version, align, raw, g);
  }

  lemma MarkedParts(q: seq<byte>, size: nat, rects: seq<Rect>)
    requires Marked(q, size, rects)
    ensures |q| >= 1 && q[0] == size && Packed(q, size) && View(q, size) == Dark(size, rects)
  {}

  // ----- the whole encoder

  /** Version, level and mask chosen, and the stages on the way to the symbol. */
  datatype Trace =
    Trace(version: nat, level: nat, mask: nat, align: seq<nat>, data: seq<byte>, raw: seq<byte>, base: Modules)

  ghost function FunctionMask(version: nat, align: seq<nat>): (func: Modules)
    ensures |func| == SizeOf(version) * SizeOf(version)
  {
    Dark(SizeOf(version), EncoderRects(SizeOf(version), version, align))
  }

  /** Chunks to data, and data to codewords. */
  ghost predicate Coded(chunks: seq<Chunk>, tr: Trace) {
    && 1 <= tr.version <= 40 && tr.level < 4
    && DataOf(chunks, tr.version, tr.data) && CountsFit(chunks, tr.version)
    && Protects(ShapeFor(tr.version, tr.level), tr.data, tr.raw)
  }

  /** Codewords to the base grid, and the base grid to the symbol. */
  ghost predicate Pictured(tr: Trace, symbol: Modules) {
    var size := SizeOf(tr.version);
    var func := FunctionMask(tr.version, tr.align);
    && tr.version >= 1 && tr.level < 4 && tr.mask < 8
    && Centres(tr.version, tr.align)
    && Base(size, func, tr.raw, tr.base)
    && symbol == Trial(size, tr.base, func, tr.mask, FormatWords(tr.level))
  }

  /** The mask is the one asked for, or the first of least penalty. */
  ghost predicate MaskIs(tr: Trace, asked: int)
    requires tr.version >= 1 && tr.level < 4 && tr.mask < 8 && |tr.base| == SizeOf(tr.version) * SizeOf(tr.version)
  {
    if asked >= 0 then tr.mask == asked
    else Best(SizeOf(tr.version), tr.base, FunctionMask(tr.version, tr.align), FormatWords(tr.level), tr.mask)
  }

  lemma CountsFitAll(segs: seq<Segment>, chunks: seq<Chunk>, version: nat)
    requires 1 <= version <= 40 && AllRepresent(segs, chunks) && TotalBitsFrom(segs, version, 0, 0) >= 0
    ensures CountsFit(chunks, version)
  {
    hide AllRepresent, TotalBitsFrom, NumCharCountBits, Pow2, Represents, Chunk.Payload, Chunk.Mode, Chunk.Valid;
    RepresentValid(segs, chunks);
    forall k | 0 <= k < |chunks|
      ensures |chunks[k].text| < Pow2(NumCharCountBits(chunks[k].Mode(), version))
    {
      RepresentsOne(segs, chunks, k);
      CountFits(segs, version, 0, 0, k);
    }
  }

  /** The level asked for, or else the highest that fits. */
  ghost predicate LevelIs(segs: seq<Segment>, version: nat, level: nat, asked: nat, boost: bool)
    requires 1 <= version <= 40 && level < 4
  {
    if boost then asked <= level && forall i :: level < i < 4 ==> !Fits(segs, version, i)
    else level == asked
  }

  /** Draws the codewords in `tempBuffer`, chooses and applies the mask. */
  method DrawSymbol(version: nat, level: nat, codewords: nat, mask: int, tempBuffer: array<byte>, qrcode: array<byte>,
                    ghost data: seq<byte>)
      returns (ghost tr: Trace)
    requires 1 <= version <= 40 && level < 4 && -1 <= mask < 8
    requires codewords == RawCodewords(version) && codewords <= tempBuffer.Length
    requires var room := (SizeOf(version) * SizeOf(version) + 7) / 8 + 1;
             tempBuffer != qrcode && tempBuffer.Length >= room && qrcode.Length >= room
    modifies tempBuffer, qrcode
    ensures tr.version == version && tr.level == level && tr.mask < 8
    ensures tr.data == data && tr.raw == old(tempBuffer[..codewords])
    ensures Packed(qrcode[..], SizeOf(version))
    ensures Pictured(tr, View(qrcode[..], SizeOf(version)))
    ensures |tr.base| == SizeOf(version) * SizeOf(version) && MaskIs(tr, mask)
    ensures Patterned(SizeOf(version), version, tr.align, tr.base)
  {
    hide *;
    ghost var raw := tempBuffer[..codewords];
    RoomForBits(version);
    ghost var align := DrawModules(version, codewords, tempBuffer, qrcode);
    ghost var base := View(qrcode[..], SizeOf(version));
    FunctionMaskIs(version, align);
    var chosen := MaskSymbol(version, level, mask, tempBuffer, qrcode, align);
    tr := Trace(version, level, chosen, align, data, raw, base);
    IsPictured(tr, View(qrcode[..], SizeOf(version)));
    IsMask(tr, mask);
  }

  /** Makes the function modules once more, as a template for masking, and masks the symbol. */
  method MaskSymbol(version: nat, level: nat, mask: int, tempBuffer: array<byte>, qrcode: array<byte>,
                    ghost align: seq<nat>)
      returns (chosen: nat)
    requires 1 <= version <= 40 && level < 4 && -1 <= mask < 8 && Centres(version, align)
    requires var room := (SizeOf(version) * SizeOf(version) + 7) / 8 + 1;
             tempBuffer != qrcode && tempBuffer.Length >= room
    requires Packed(qrcode[..], SizeOf(version))
    modifies tempBuffer, qrcode
    ensures chosen < 8 && Packed(qrcode[..], SizeOf(version))
    ensures var size, g := SizeOf(version), old(View(qrcode[..], SizeOf(version)));
            && (mask >= 0 ==> chosen == mask)
            && (mask == -1 ==> Best(size, g, FunctionMask(version, align), FormatWords(level), chosen))
            && View(qrcode[..], size) == Trial(size, g, FunctionMask(version, align), chosen, FormatWords(level))
  {
    hide *;
    ghost var size := SizeOf(version);
    SizeParts(version);
    PackedSize(qrcode[..], size);
    ghost var align2 := InitializeFunctionModules(version, tempBuffer);
    CentresUnique(version, align, align2);
    MarkedParts(tempBuffer[..], size, EncoderRects(size, version, align));
    FunctionMaskIs(version, align);
    chosen := ChooseMask(tempBuffer, qrcode, mask, level);
  }

  lemma SizeParts(version: nat)
    requires 1 <= version <= 40
    ensures SizeOf(version) == version * 4 + 17 && 21 <= SizeOf(version) <= 177 && SizeOf(version) % 2 == 1
  {}

  lemma PackedSize(q: seq<byte>, size: nat)
    requires Packed(q, size)
    ensures |q| >= 1 && q[0] == size
  {}

  lemma FunctionMaskIs(version: nat, align: seq<nat>)
    ensures FunctionMask(version, align) == Dark(SizeOf(version), EncoderRects(SizeOf(version), version, align))
  {}

  /** The bits of all codewords find room among the free modules; at most seven of those remain. */
  lemma RoomForBits(version: nat)
    requires 1 <= version <= 40
    ensures var size := SizeOf(version);
            && size == version * 4 + 17
            && forall align :: Centres(version, align) ==>
                 var free := |FreeModules(Dark(size, EncoderRects(size, version, align)), Scan(size, size - 1, true))|;
                 8 * RawCodewords(version) <= free < 8 * RawCodewords(version) + 8
  {
    hide Centres, Dark, EncoderRects, Scan, FreeModules, NumRawDataModules;
    var size := SizeOf(version);
    forall align | Centres(version, align)
      ensures var free := |FreeModules(Dark(size, EncoderRects(size, version, align)), Scan(size, size - 1, true))|;
              8 * RawCodewords(version) <= free < 8 * RawCodewords(version) + 8
    {
      FormulaCountsFree(version, align);
    }
  }

  method EncodeSegmentsAdvanced(segs: seq<Segment>, ecl: nat, minVersion: nat, maxVersion: nat, mask: int,
                                boostEcl: bool, tempBuffer: array<byte>, qrcode: array<byte>,
                                ghost chunks: seq<Chunk>)
      returns (ok: bool, ghost tr: Trace)
    requires 1 <= minVersion <= maxVersion <= 40 && ecl < 4 && -1 <= mask < 8
    requires AllRepresent(segs, chunks) && tempBuffer != qrcode
    requires var room := (SizeOf(maxVersion) * SizeOf(maxVersion) + 7) / 8 + 1;
             tempBuffer.Length >= room && qrcode.Length >= room
    modifies tempBuffer, qrcode
    ensures ok <==> exists v :: minVersion <= v <= maxVersion && Fits(segs, v, ecl)
    ensures !ok ==> qrcode[0] == 0
    ensures ok ==>
      && minVersion <= tr.version <= maxVersion
      && (forall v :: minVersion <= v < tr.version ==> !Fits(segs, v, ecl))
      && Packed(qrcode[..], SizeOf(tr.version))
      && Coded(chunks, tr) && Fits(segs, tr.version, tr.level)
      && LevelIs(segs, tr.version, tr.level, ecl, boostEcl)
      && Pictured(tr, View(qrcode[..], SizeOf(tr.version)))
      && |tr.base| == SizeOf(tr.version) * SizeOf(tr.version) && MaskIs(tr, mask)
      && Patterned(SizeOf(tr.version), tr.version, tr.align, tr.base)
  {
    hide *;
    var choice := ChooseVersion(segs, ecl, minVersion, maxVersion, boostEcl);
    if choice.None? {
      qrcode[0] := 0;
      return false, Trace(0, 0, 0, [], [], [], []);
    }
    var (version, level) := choice.value;
    RoomFor(version, maxVersion);
    FitsTotal(segs, version, level);
    CountsFitAll(segs, chunks, version);
    var s := ShapeFor(version, level);
    ShapeParts(version, level);
    ghost var data := MakeCodewords(segs, version, s, tempBuffer, qrcode, chunks);
    ghost var raw := tempBuffer[..s.RawLen()];
    tr := DrawSymbol(version, level, s.RawLen(), mask, tempBuffer, qrcode, data);
    IsLevel(segs, version, level, ecl, boostEcl);
    IsCoded(chunks, tr);
    ok := true;
  }

  lemma CentresUnique(version: nat, align: seq<nat>, align': seq<nat>)
    requires Centres(version, align) && Centres(version, align')
    ensures align == align'
  {}

  lemma RoomFor(version: nat, maxVersion: nat)
    requires 1 <= version <= maxVersion <= 40
    ensures var size, max := SizeOf(version), SizeOf(maxVersion);
            && size == version * 4 + 17 && RawCodewords(version) <= (size * size + 7) / 8
            && size * size <= max * max
            && (size * size + 7) / 8 + 1 <= (max * max + 7) / 8 + 1
  {
    var size, max := SizeOf(version), SizeOf(maxVersion);
    MulMonotone(size, size, max);
    MulMonotone(max, size, max);
    assert size * max == max * size;
    RawFits(version);
  }

  lemma {:induction false} TotalBitsAtLeast(segs: seq<Segment>, version: nat, i: nat, result: nat)
    requires i <= |segs| && 1 <= version <= 40
    ensures TotalBitsFrom(segs, version, i, result) == -1 || TotalBitsFrom(segs, version, i, result) >= result
    decreases |segs| - i
  {
    hide NumCharCountBits, Pow2;
    if i < |segs| {
      var next := result + 4 + NumCharCountBits(segs[i].mode, version) + segs[i].bitLength;
      TotalBitsAtLeast(segs, version, i + 1, next);
    }
  }

  lemma FitsTotal(segs: seq<Segment>, version: nat, level: nat)
    requires 1 <= version <= 40 && level < 4 && Fits(segs, version, level)
    ensures 0 <= TotalBitsFrom(segs, version, 0, 0) <= 8 * GetNumDataCodewords(version, level)
  {
    hide TotalBitsFrom, GetNumDataCodewords;
    TotalBitsAtLeast(segs, version, 0, 0);
  }

  lemma IsLevel(segs: seq<Segment>, version: nat, level: nat, asked: nat, boost: bool)
    requires 1 <= version <= 40 && level < 4 && (!boost ==> level == asked)
    requires boost ==> asked <= level && forall i :: level < i < 4 ==> !Fits(segs, version, i)
    ensures LevelIs(segs, version, level, asked, boost)
  {
    hide Fits;
  }

  lemma IsCoded(chunks: seq<Chunk>, tr: Trace)
    requires 1 <= tr.version <= 40 && tr.level < 4
    requires DataOf(chunks, tr.version, tr.data) && CountsFit(chunks, tr.version)
    requires Protects(ShapeFor(tr.version, tr.level), tr.data, tr.raw)
    ensures Coded(chunks, tr)
  {
    hide DataOf, Protects, CountsFit;
  }

  lemma IsPictured(tr: Trace, symbol: Modules)
    requires tr.version >= 1 && tr.level < 4 && tr.mask < 8 && Centres(tr.version, tr.align)
    requires Base(SizeOf(tr.version), FunctionMask(tr.version, tr.align), tr.raw, tr.base)
    requires symbol
          == Trial(SizeOf(tr.version), tr.base, FunctionMask(tr.version, tr.align), tr.mask, FormatWords(tr.level))
    ensures Pictured(tr, symbol)
  {
    hide Base, Trial, Centres, FunctionMask;
  }

  lemma IsMask(tr: Trace, asked: int)
    requires tr.version >= 1 && tr.level < 4 && tr.mask < 8 && |tr.base| == SizeOf(tr.version) * SizeOf(tr.version)
    requires asked >= 0 ==> tr.mask == asked
    requires asked < 0 ==>
      Best(SizeOf(tr.version), tr.base, FunctionMask(tr.version, tr.align), FormatWords(tr.level), tr.mask)
    ensures MaskIs(tr, asked)
  {
    hide Best, FunctionMask;
  }
}
