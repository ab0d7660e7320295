/** The decoder as a whole: from a matrix to the bytes of the text. */
module Decoder {
  import opened Bits
  import opened Options
  import opened Grid
  import opened Zigzag
  import opened Placement
  import opened Masks
  import opened Blocks
  import opened CodewordTables
  import opened JsDecodeData
  import opened Symbol
  import opened SymbolReader
  import opened Regions
  import opened FunctionPatterns
  import opened FunctionModules
  import opened AlignmentTable
  import opened FormatCode
  import opened FormatInformation
  import opened VersionInformation
  import opened Encoder

  // ----- what decoding means

  /** The whole bytes among the bits of the free modules. */
  ghost predicate ReadFrom(size: nat, seen: Modules, func: Modules, mask: nat, codewords: seq<byte>)
    requires size >= 1 && |seen| == |func| == size * size && mask < 8
  {
    var bits := ReadBits(Masked(size, seen, func, mask), func, Scan(size, size - 1, true));
    |codewords| == |bits| / 8 && BytesToBits(codewords) == bits[..8 * |codewords|]
  }

  /** The function modules of a version as the decoder takes them, with the alignment centres of its table. */
  ghost function DecoderMask(version: nat): (func: Modules)
    requires 1 <= version <= 40
    ensures |func| == SizeOf(version) * SizeOf(version)
  {
    Dark(SizeOf(version), DecoderRects(SizeOf(version), version, ALIGNMENT_PATTERN_CENTERS[version - 1]))
  }

  /** The codewords read from a matrix as a symbol of some version, of the matrix's size or not. */
  ghost predicate ReadsAs(size: nat, seen: Modules, version: nat, mask: nat, codewords: seq<byte>)
    requires 1 <= version <= 40 && size >= 21 && |seen| == size * size
  {
    mask < 8 && ReadFrom(size, seen, Stretched(SizeOf(version), DecoderMask(version), size), mask, codewords)
  }

  /** Blocks, data, segments. */
  ghost function DecodePayload(s: Shape, codewords: seq<byte>, version: nat): Option<seq<byte>>
    requires s.Valid()
  {
    match DecodeCodewords(s, codewords)
    case None => None
    case Some(data) => DecodeFrom(BytesToBits(data), 0, SizeClass(version))
  }

  /** The codewords of a symbol of some version and level hold r. */
  ghost predicate PayloadIs(version: nat, level: nat, codewords: seq<byte>, r: Option<seq<byte>>) {
    && 1 <= version <= 40 && level < 4 && DecoderShape(version, level).Valid()
    && r == DecodePayload(DecoderShape(version, level), codewords, version)
  }

  lemma OnePayload(version: nat, level: nat, codewords: seq<byte>, r: Option<seq<byte>>, r': Option<seq<byte>>)
    requires PayloadIs(version, level, codewords, r) && PayloadIs(version, level, codewords, r')
    ensures r == r'
  {
    hide DecodePayload;
  }

  /** The entry is the one nearest to the two copies of the format bits. */
  ghost predicate FormatFits(size: nat, seen: Modules, format: Option<nat>)
    requires size >= 21 && |seen| == size * size
  {
    IsNearest(FORMAT_INFO_TABLE, Collected(size, seen, false, 15), Collected(size, seen, true, 15), format)
  }

  /**
   What decoding a matrix as a symbol of some version means: the format word decides block structure and mask.
   */
  ghost predicate DecodesTo(size: nat, seen: Modules, version: nat,
                            r: Option<seq<byte>>, format: Option<nat>, codewords: seq<byte>)
    requires 1 <= version <= 40 && size >= 21 && |seen| == size * size
  {
    && FormatFits(size, seen, format)
    && match format
       case None => r == None
       case Some(k) =>
         && k < 32 && ReadsAs(size, seen, version, EntryMask(k), codewords)
         && PayloadIs(version, EntryLevel(k), codewords, r)
  }

  /** The same with the version found in the matrix. */
  ghost predicate DecodesWith(size: nat, seen: Modules, r: Option<seq<byte>>,
                              version: Option<nat>, format: Option<nat>, codewords: seq<byte>)
    requires |seen| == size * size
  {
    && VersionIs(size, seen, version)
    && match version
       case None => r == None
       case Some(v) => 1 <= v <= 40 && size >= 21 && DecodesTo(size, seen, v, r, format, codewords)
  }

  /** Decoding the matrix gives r. */
  ghost predicate Decodes(size: nat, seen: Modules, r: Option<seq<byte>>)
    requires |seen| == size * size
  {
    exists version: Option<nat>, format: Option<nat>, codewords: seq<byte> ::
      DecodesWith(size, seen, r, version, format, codewords)
  }

  lemma IsDecoded(size: nat, seen: Modules, r: Option<seq<byte>>,
                  version: Option<nat>, format: Option<nat>, codewords: seq<byte>)
    requires |seen| == size * size && DecodesWith(size, seen, r, version, format, codewords)
    ensures Decodes(size, seen, r)
  {
    hide DecodesWith;
  }

  /** Nothing is left open: a matrix has one version and decodes to one result. */
  lemma DecodesToOne(size: nat, seen: Modules, r: Option<seq<byte>>, r': Option<seq<byte>>)
    requires |seen| == size * size && Decodes(size, seen, r) && Decodes(size, seen, r')
    ensures r == r'
  {
    hide DecodesTo, VersionIs;
    var version, format, codewords :| DecodesWith(size, seen, r, version, format, codewords);
    var version', format', codewords' :| DecodesWith(size, seen, r', version', format', codewords');
    OneVersion(size, seen, version, version');
    if version.Some? {
      OneResult(size, seen, version.value, r, format, codewords, r', format', codewords');
    }
  }

  lemma OneVersion(size: nat, seen: Modules, version: Option<nat>, version': Option<nat>)
    requires |seen| == size * size && VersionIs(size, seen, version) && VersionIs(size, seen, version')
    ensures version == version'
  {
    hide Difference, Equals, VersionCollected;
    if size >= 21 && (size - 17) / 4 > 6 && version.Some? && version'.Some? {
      assert version.value - 1 < version'.value - 1 || version.value - 1 >= version'.value - 1;
    }
  }

  lemma OneResult(size: nat, seen: Modules, version: nat,
                  r: Option<seq<byte>>, format: Option<nat>, codewords: seq<byte>,
                  r': Option<seq<byte>>, format': Option<nat>, codewords': seq<byte>)
    requires 1 <= version <= 40 && size >= 21 && |seen| == size * size
    requires DecodesTo(size, seen, version, r, format, codewords)
    requires DecodesTo(size, seen, version, r', format', codewords')
    ensures r == r'
  {
    hide Difference, Collected, ReadBits, Masked, Scan, BytesToBits, DecodePayload, Stretched;
    hide Dark, DecoderRects, EntryLevel, EntryMask;
    assert format == format';
    if format.Some? {
      BytesToBitsInjective(codewords, codewords');
    }
  }

  // ----- the decoder

  /** Version, format, codewords, blocks, data. */
  method DecodeMatrix(matrix: BitMatrix) returns (r: Option<seq<byte>>)
    requires matrix.Valid()
    ensures Decodes(matrix.width, matrix.Contents(), r)
  {
    hide *;
    var version := ReadVersion(matrix);
    ghost var size, seen := matrix.width, matrix.Contents();
    if version.None? {
      NoVersion(size, seen);
      return None;
    }
    var v := version.value;
    VersionRange(size, seen, version);
    var format := ReadFormatInformation(matrix);
    IsFormat(size, seen, format);
    if format.None? {
      NoFormat(size, seen, v);
      return None;
    }
    var level, mask := EntryLevel(format.value), EntryMask(format.value);
    EntryParts(format.value);
    DecoderShapeValid(v, level);
    TableIsCentres(v);
    var functionPatternMask := BuildFunctionPatternMask(v, ALIGNMENT_PATTERN_CENTERS[v - 1]);
    var codewords := ReadCodewords(matrix, functionPatternMask, mask);
    DecoderMaskIs(v);
    IsRead(size, seen, v, functionPatternMask.Contents(), mask, codewords);
    var s := DecoderShape(v, level);
    var data := DecodeBlocks(codewords, s);
    PayloadParsed(v, level, codewords, data);
    r := None;
    if data.Some? {
      r := DecodeData(data.value, v);
    }
    WithFormat(size, seen, v, r, format, codewords);
  }

  lemma DecoderShapeValid(version: nat, level: nat)
    requires 1 <= version <= 40 && level < 4
    ensures var s := DecoderShape(version, level); s.Valid() && s.shortLen + 1 + s.eccLen <= 255
  {
    RowsAgree(version, level);
    ShapeParts(version, level);
  }

  lemma NoVersion(size: nat, seen: Modules)
    requires |seen| == size * size && VersionIs(size, seen, None)
    ensures Decodes(size, seen, None)
  {
    hide VersionIs;
    IsDecoded(size, seen, None, None, None, []);
  }

  lemma VersionRange(size: nat, seen: Modules, version: Option<nat>)
    requires |seen| == size * size && VersionIs(size, seen, version) && version.Some?
    ensures size >= 21 && 1 <= version.value <= 40
  {
    hide Equals, VersionCollected, Leads;
  }

  lemma NoFormat(size: nat, seen: Modules, version: nat)
    requires 1 <= version <= 40 && size >= 21 && |seen| == size * size && VersionIs(size, seen, Some(version))
    requires FormatFits(size, seen, None)
    ensures Decodes(size, seen, None)
  {
    hide FormatFits, VersionIs;
    IsDecoded(size, seen, None, Some(version), None, []);
  }

  lemma WithFormat(size: nat, seen: Modules, version: nat,
                   r: Option<seq<byte>>, format: Option<nat>, codewords: seq<byte>)
    requires 1 <= version <= 40 && size >= 21 && |seen| == size * size && VersionIs(size, seen, Some(version))
    requires FormatFits(size, seen, format) && format.Some? && format.value < 32
    requires ReadsAs(size, seen, version, EntryMask(format.value), codewords)
    requires PayloadIs(version, EntryLevel(format.value), codewords, r)
    ensures Decodes(size, seen, r)
  {
    hide *;
    IsDecodedTo(size, seen, version, r, format, codewords);
    IsDecodedWith(size, seen, version, r, format, codewords);
    IsDecoded(size, seen, r, Some(version), format, codewords);
  }

  lemma IsDecodedTo(size: nat, seen: Modules, version: nat,
                    r: Option<seq<byte>>, format: Option<nat>, codewords: seq<byte>)
    requires 1 <= version <= 40 && size >= 21 && |seen| == size * size
    requires FormatFits(size, seen, format) && format.Some? && format.value < 32
    requires ReadsAs(size, seen, version, EntryMask(format.value), codewords)
    requires PayloadIs(version, EntryLevel(format.value), codewords, r)
    ensures DecodesTo(size, seen, version, r, format, codewords)
  {
    hide FormatFits, ReadsAs, PayloadIs, EntryLevel, EntryMask;
  }

  lemma IsDecodedWith(size: nat, seen: Modules, version: nat,
                      r: Option<seq<byte>>, format: Option<nat>, codewords: seq<byte>)
    requires 1 <= version <= 40 && size >= 21 && |seen| == size * size && VersionIs(size, seen, Some(version))
    requires DecodesTo(size, seen, version, r, format, codewords)
    ensures DecodesWith(size, seen, r, Some(version), format, codewords)
  {
    hide DecodesTo, VersionIs;
  }

  lemma IsFormat(size: nat, seen: Modules, format: Option<nat>)
    requires size >= 21 && |seen| == size * size
    requires IsNearest(FORMAT_INFO_TABLE, Collected(size, seen, false, 15), Collected(size, seen, true, 15), format)
    ensures FormatFits(size, seen, format)
    ensures format.Some? ==> format.value < 32
  {
    hide Difference, Collected;
  }

  lemma DecoderMaskIs(version: nat)
    requires 1 <= version <= 40
    ensures SizeOf(version) == 17 + 4 * version && |ALIGNMENT_PATTERN_CENTERS| == 40
    ensures DecoderMask(version)
         == Dark(17 + 4 * version, DecoderRects(17 + 4 * version, version, ALIGNMENT_PATTERN_CENTERS[version - 1]))
  {}

  lemma EntryParts(k: nat)
    requires k < 32
    ensures EntryLevel(k) < 4 && EntryMask(k) < 8
  {}

  lemma IsRead(size: nat, seen: Modules, version: nat, shown: Modules, mask: nat, codewords: seq<byte>)
    requires 1 <= version <= 40 && size >= 21 && |seen| == size * size && mask < 8
    requires shown == DecoderMask(version)
    requires var func := Stretched(SizeOf(version), shown, size);
             var bits := ReadBits(Masked(size, seen, func, mask), func, Scan(size, size - 1, true));
             |codewords| == |bits| / 8 && BytesToBits(codewords) == bits[..8 * |codewords|]
    ensures ReadsAs(size, seen, version, mask, codewords)
  {
    hide ReadBits, Masked, Scan, BytesToBits, DecoderMask, Stretched;
  }

  lemma PayloadParsed(version: nat, level: nat, codewords: seq<byte>, data: Option<seq<byte>>)
    requires 1 <= version <= 40 && level < 4 && DecoderShape(version, level).Valid()
    requires data == DecodeCodewords(DecoderShape(version, level), codewords)
    ensures PayloadIs(version, level, codewords,
                      if data.None? then None else DecodeFrom(BytesToBits(data.value), 0, SizeClass(version)))
  {
    hide DecodeCodewords, DecodeFrom, BytesToBits, SizeClass;
  }

  // ----- the second try on the mirrored matrix

  /** Rows and columns exchanged. */
  function Transposed(size: nat, g: Modules): (h: Modules)
    requires |g| == size * size
    ensures |h| == size * size
  {
    seq(size * size, p requires 0 <= p < size * size => ShownAt(size, g, p / size, p % size))
  }

  lemma TransposedAt(size: nat, g: Modules, x: int, y: int)
    requires |g| == size * size && InGrid(size, x, y)
    ensures Transposed(size, g)[Index(size, x, y)] == g[Index(size, y, x)]
  {
    hide Index;
    IndexParts(size, x, y);
  }

  /** The pair of coordinates has been exchanged when the loops have reached column x and row y. */
  predicate Exchanged(a: int, b: int, x: int, y: int) {
    var low, high := if a < b then a else b, if a < b then b else a;
    low < x || (low == x && high < y)
  }

  ghost predicate Mirrored(size: nat, g: Modules, h: Modules, x: int, y: int) {
    && |g| == |h| == size * size
    && forall a: int, b: int :: InGrid(size, a, b) ==>
         h[Index(size, a, b)] == if Exchanged(a, b, x, y) then g[Index(size, b, a)] else g[Index(size, a, b)]
  }

  /** Exchanges rows and columns in place. */
  method Mirror(matrix: BitMatrix)
    requires matrix.Valid()
    modifies matrix.data
    ensures matrix.Valid() && matrix.Contents() == Transposed(matrix.width, old(matrix.Contents()))
  {
    hide Index;
    ghost var size, g := matrix.width, matrix.Contents();
    for x := 0 to matrix.width
      invariant Mirrored(size, g, matrix.Contents(), x, x + 1)
    {
      for y := x + 1 to matrix.height
        invariant Mirrored(size, g, matrix.Contents(), x, y)
      {
        MirrorPair(matrix, x, y, g);
      }
      NextColumn(size, g, matrix.Contents(), x);
    }
    AllMirrored(size, g, matrix.Contents());
  }

  method MirrorPair(matrix: BitMatrix, x: nat, y: nat, ghost g: Modules)
    requires matrix.Valid() && x < y < matrix.width && Mirrored(matrix.width, g, matrix.Contents(), x, y)
    modifies matrix.data
    ensures matrix.Valid() && Mirrored(matrix.width, g, matrix.Contents(), x, y + 1)
  {
    hide Index;
    ghost var size, before := matrix.width, matrix.Contents();
    var a := matrix.Get(x, y);
    var b := matrix.Get(y, x);
    if a != b {
      matrix.Set(x, y, !a);
      var c := matrix.Get(y, x);
      PairApart(size, before, x, y, !a);
      matrix.Set(y, x, !c);
    }
    PairMirrored(size, g, before, matrix.Contents(), x, y);
  }

  lemma PairApart(size: nat, g: Modules, x: nat, y: nat, v: bool)
    requires |g| == size * size && x < y < size
    ensures Index(size, x, y) != Index(size, y, x)
      && g[Index(size, x, y) := v][Index(size, y, x)] == g[Index(size, y, x)]
  {
    hide Index;
    if Index(size, x, y) == Index(size, y, x) {
      IndexInjective(size, x, y, y, x);
    }
  }

  lemma PairMirrored(size: nat, g: Modules, before: Modules, after: Modules, x: nat, y: nat)
    requires x < y < size && Mirrored(size, g, before, x, y)
    requires after ==
      before[Index(size, x, y) := before[Index(size, y, x)]][Index(size, y, x) := before[Index(size, x, y)]]
    ensures Mirrored(size, g, after, x, y + 1)
  {
    hide Index;
    forall a: int, b: int | InGrid(size, a, b)
      ensures after[Index(size, a, b)] ==
              if Exchanged(a, b, x, y + 1) then g[Index(size, b, a)] else g[Index(size, a, b)]
    {
      if Index(size, a, b) == Index(size, x, y) {
        IndexInjective(size, a, b, x, y);
      }
      if Index(size, a, b) == Index(size, y, x) {
        IndexInjective(size, a, b, y, x);
      }
      PairApart(size, before, x, y, before[Index(size, y, x)]);
    }
  }

  lemma NextColumn(size: nat, g: Modules, h: Modules, x: nat)
    requires x < size && Mirrored(size, g, h, x, size)
    ensures Mirrored(size, g, h, x + 1, x + 2)
  {
    hide Index;
    forall a: int, b: int | InGrid(size, a, b)
      ensures h[Index(size, a, b)] == if Exchanged(a, b, x + 1, x + 2) then g[Index(size, b, a)]
        else g[Index(size, a, b)]
    {
    }
  }

  lemma AllMirrored(size: nat, g: Modules, h: Modules)
    requires Mirrored(size, g, h, size, size + 1)
    ensures h == Transposed(size, g)
  {
    hide Index, Transposed;
    forall x: int, y: int | InGrid(size, x, y)
      ensures h[Index(size, x, y)] == Transposed(size, g)[Index(size, x, y)]
    {
      TransposedAt(size, g, x, y);
    }
    SameModules(size, h, Transposed(size, g));
  }

  /** The matrix as it is, or else mirrored, decodes to r. */
  ghost predicate DecodesEitherWay(size: nat, seen: Modules, r: Option<seq<byte>>)
    requires |seen| == size * size
  {
    || (r.Some? && Decodes(size, seen, r))
    || (Decodes(size, seen, None) && Decodes(size, Transposed(size, seen), r))
  }

  /** Decodes the matrix, or else the matrix mirrored at its diagonal. */
  method Decode(matrix: BitMatrix) returns (r: Option<seq<byte>>)
    requires matrix.Valid()
    modifies matrix.data
    ensures matrix.Valid() && DecodesEitherWay(matrix.width, old(matrix.Contents()), r)
  {
    hide Decodes, Transposed;
    r := DecodeMatrix(matrix);
    if r.None? {
      Mirror(matrix);
      r := DecodeMatrix(matrix);
    }
  }
}
