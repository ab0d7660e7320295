/** A mirrored picture: the decoder's second try returns the text, and there are symbols that need it. */
module MirroredPictures {
  import opened Bits
  import opened Options
  import opened Distances
  import opened Grid
  import opened MaskChoice
  import opened Regions
  import opened FunctionPatterns
  import opened FunctionDrawing
  import opened FormatCode
  import opened FormatInformation
  import opened MirroredFormats
  import opened VersionCode
  import opened VersionInformation
  import opened TextRoundTrip
  import opened Segments
  import opened Encoder
  import opened Decoder
  import opened EndToEnd
  import opened Appearance
  import opened Damage

  // ----- exchanging rows and columns

  lemma TransposedTwice(size: nat, g: Modules)
    requires |g| == size * size
    ensures Transposed(size, Transposed(size, g)) == g
  {
    hide Index, Transposed;
    forall x: int, y: int | InGrid(size, x, y)
      ensures Transposed(size, Transposed(size, g))[Index(size, x, y)] == g[Index(size, x, y)]
    {
      TransposedAt(size, Transposed(size, g), x, y);
      TransposedAt(size, g, y, x);
    }
    SameModules(size, Transposed(size, Transposed(size, g)), g);
  }

  /** The copy beside the first finder pattern is read backwards. */
  lemma FirstBackwards(size: nat, g: Modules)
    requires |g| == size * size && size >= 21
    ensures CopyDigits(size, Transposed(size, g), false) == Backwards(CopyDigits(size, g, false))
  {
    hide Index, Transposed;
    forall i | 0 <= i < 15
      ensures CopyDigits(size, Transposed(size, g), false)[i] == CopyDigits(size, g, false)[14 - i]
    {
      FormatCellInGrid(size, false, i);
      TransposedAt(size, g, First(i).0, First(i).1);
    }
  }

  /** So is the other one, with the dark module in the middle. */
  lemma SecondBackwards(size: nat, g: Modules)
    requires |g| == size * size && size >= 21
    ensures CopyDigits(size, Transposed(size, g), true)
         == Backwards(CopyDigits(size, g, true))[7 := DigitOf(g[Index(size, 8, size - 8)])]
  {
    hide Index, Transposed;
    forall i | 0 <= i < 15
      ensures CopyDigits(size, Transposed(size, g), true)[i] ==
        if i == 7 then DigitOf(g[Index(size, 8, size - 8)]) else CopyDigits(size, g, true)[14 - i]
    {
      FormatCellInGrid(size, true, i);
      TransposedAt(size, g, Second(size, i).0, Second(size, i).1);
    }
  }

  /** The copies of the version bits change places. */
  lemma VersionsExchanged(size: nat, g: Modules, word: nat, second: bool)
    requires |g| == size * size && size >= 21 && ShowsWord(size, g, word, !second)
    ensures ShowsWord(size, Transposed(size, g), word, second)
  {
    hide Index, Transposed, Bit;
    forall i | 0 <= i < 18
      ensures var c := VersionCell(size, second, i); Transposed(size, g)[Index(size, c.0, c.1)] == Bit(word, i)
    {
      var c := VersionCell(size, second, i);
      TransposedAt(size, g, c.0, c.1);
      assert VersionCell(size, !second, i) == (c.1, c.0);
    }
  }

  // ----- symbols that cannot be read directly

  lemma DarkModule(tr: Trace, symbol: Modules)
    requires 1 <= tr.version <= 40 && Pictured(tr, symbol)
    requires Patterned(SizeOf(tr.version), tr.version, tr.align, tr.base)
    ensures var size := SizeOf(tr.version);
            |symbol| == size * size && size >= 21 && symbol[Index(size, 8, size - 8)]
  {
    hide Index, Pictured, Patterned, Bit;
    FormatBitsShown(tr, symbol, 0);
  }

  lemma BackwardsUnread(size: nat, g: Modules, level: nat, mask: nat)
    requires |g| == size * size && size >= 21 && level < 4 && mask < 8 && Unreadable(level, mask)
    requires Collected(size, g, false, 15) == Collected(size, g, true, 15) == FORMAT_INFO_TABLE[EntryOf(level, mask)]
    requires g[Index(size, 8, size - 8)]
    ensures FormatFits(size, Transposed(size, g), None)
  {
    hide *;
    var h := Transposed(size, g);
    CollectedDigits(size, g, false);
    CollectedDigits(size, g, true);
    CollectedDigits(size, h, false);
    CollectedDigits(size, h, true);
    FirstBackwards(size, g);
    DarkInTheMiddle(size, g);
    TableLength();
    forall k | 0 <= k < 32
      ensures Distance(Collected(size, h, false, 15), FORMAT_INFO_TABLE[k]) > 3
      ensures Distance(Collected(size, h, true, 15), FORMAT_INFO_TABLE[k]) > 3
    {
      BackwardsIsFar(level, mask, CopyDigits(size, g, false), k);
      BackwardsIsFar(level, mask, CopyDigits(size, g, true), k);
    }
    NoneNear(size, h);
  }

  lemma TableLength()
    ensures |FORMAT_INFO_TABLE| == 32
  {}

  lemma DarkInTheMiddle(size: nat, g: Modules)
    requires |g| == size * size && size >= 21 && g[Index(size, 8, size - 8)]
    ensures CopyDigits(size, Transposed(size, g), true) == Backwards(CopyDigits(size, g, true))[7 := 1]
  {
    hide Index, Transposed, CopyDigits, Backwards;
    SecondBackwards(size, g);
  }

  lemma NoneNear(size: nat, h: Modules)
    requires |h| == size * size && size >= 21
    requires forall k :: 0 <= k < 32 ==>
      && Distance(Collected(size, h, false, 15), FORMAT_INFO_TABLE[k]) > 3
      && Distance(Collected(size, h, true, 15), FORMAT_INFO_TABLE[k]) > 3
    ensures FormatFits(size, h, None)
  {
    hide Distance, Collected;
  }

  /** Both copies of the version bits still show the version's word. */
  lemma MirroredVersion(tr: Trace, symbol: Modules)
    requires Pictured(tr, symbol) && 1 <= tr.version <= 40
    requires Patterned(SizeOf(tr.version), tr.version, tr.align, tr.base)
    ensures |symbol| == SizeOf(tr.version) * SizeOf(tr.version)
    ensures VersionIs(SizeOf(tr.version), Transposed(SizeOf(tr.version), symbol), Some(tr.version))
  {
    hide Pictured, Patterned, VersionCollected, VersionWord, VersionFits, ShowsWord, Transposed;
    var size := SizeOf(tr.version);
    SymbolSize(tr, symbol);
    if tr.version >= 7 {
      var h, word := Transposed(size, symbol), VersionWord(tr.version);
      VersionShown(tr, symbol, false);
      VersionShown(tr, symbol, true);
      VersionsExchanged(size, symbol, word, false);
      VersionsExchanged(size, symbol, word, true);
      WordBound(tr.version);
      VersionReadsBack(size, h, word, false, 18);
      VersionReadsBack(size, h, word, true, 18);
      ShrZero(word);
      WordFits(tr.version);
    }
  }

  lemma SymbolSize(tr: Trace, symbol: Modules)
    requires Pictured(tr, symbol)
    ensures |symbol| == SizeOf(tr.version) * SizeOf(tr.version) && SizeOf(tr.version) >= 21
  {
    hide Centres, Trial, FunctionMask;
    PicturedParts(tr, symbol);
  }

  lemma WordFits(version: nat)
    requires 7 <= version <= 40
    ensures VersionFits(VersionWord(version), VersionWord(version), Some(version))
  {
    hide VERSION_INFO_TABLE, Distance;
    TableSize();
    TableWord(version);
    assert Equals(VersionWord(version), VersionWord(version), version - 1);
    forall k | 0 <= k < version - 1
      ensures !Equals(VersionWord(version), VersionWord(version), k)
    {
      VersionWordsApart(version, k);
      DistanceOfSame(VersionWord(version));
    }
  }

  lemma TableWord(version: nat)
    requires 7 <= version <= 40
    ensures |VERSION_INFO_TABLE| == 40 && VERSION_INFO_TABLE[version - 1] == VersionWord(version)
  {}

  /** The mirror image of such a symbol is not decoded directly: neither copy of the format bits is near any entry. */
  lemma NotReadDirectly(chunks: seq<Chunk>, tr: Trace, symbol: Modules)
    requires Encodes(chunks, tr, symbol) && Unreadable(tr.level, tr.mask)
    ensures |symbol| == SizeOf(tr.version) * SizeOf(tr.version)
    ensures Decodes(SizeOf(tr.version), Transposed(SizeOf(tr.version), symbol), None)
  {
    hide *;
    var size := SizeOf(tr.version);
    EncodesParts(chunks, tr, symbol);
    SymbolSize(tr, symbol);
    DrawnWord(tr, symbol, false);
    DrawnWord(tr, symbol, true);
    DarkModule(tr, symbol);
    BackwardsUnread(size, symbol, tr.level, tr.mask);
    MirroredVersion(tr, symbol);
    NoFormat(size, Transposed(size, symbol), tr.version);
  }

  // ----- the second try

  /** What does not decode directly is decided by the mirror image. */
  lemma SecondTry(size: nat, seen: Modules, r: Option<seq<byte>>)
    requires |seen| == size * size
    requires Decodes(size, Transposed(size, seen), None) && DecodesEitherWay(size, Transposed(size, seen), r)
    ensures Decodes(size, seen, r)
  {
    hide Decodes, Transposed;
    TransposedTwice(size, seen);
    if r.Some? && Decodes(size, Transposed(size, seen), r) {
      DecodesToOne(size, Transposed(size, seen), None, r);
    }
  }

  /**
   The decoder returns the text from the mirror image of any legible and repairable picture that it cannot read
   directly.
   */
  lemma MirroredTextRecovered(chunks: seq<Chunk>, tr: Trace, symbol: Modules, seen: Modules, r: Option<seq<byte>>,
                              codewords: seq<byte>)
    requires Encodes(chunks, tr, symbol) && Legible(tr, symbol, seen)
    requires ReadsCodewords(tr, seen, codewords) && ReadsRepairably(tr, codewords)
    requires |seen| == SizeOf(tr.version) * SizeOf(tr.version)
    requires Decodes(SizeOf(tr.version), Transposed(SizeOf(tr.version), seen), None)
    requires DecodesEitherWay(SizeOf(tr.version), Transposed(SizeOf(tr.version), seen), r)
    ensures r == Some(AllText(chunks))
  {
    hide *;
    SecondTry(SizeOf(tr.version), seen, r);
    EncodesParts(chunks, tr, symbol);
    PayloadRecovered(chunks, tr, codewords);
    var codewords' := HeaderRecovered(chunks, tr, symbol, seen, r);
    CodewordsOnce(tr, seen, codewords, codewords');
    OnePayload(tr.version, tr.level, codewords, r, Some(AllText(chunks)));
  }

  lemma {:induction false} NoCopyErrors(size: nat, g: Modules, second: bool, k: nat)
    requires |g| == size * size && size >= 21 && k <= 15
    ensures CopyErrors(size, g, g, second, k) == 0
  {
    hide Index;
    if k > 0 {
      NoCopyErrors(size, g, second, k - 1);
    }
  }

  lemma {:induction false} NoVersionErrors(size: nat, g: Modules, second: bool, k: nat)
    requires |g| == size * size && size >= 21 && k <= 18
    ensures VersionErrors(size, g, g, second, k) == 0
  {
    hide Index;
    if k > 0 {
      NoVersionErrors(size, g, second, k - 1);
    }
  }

  lemma IntactIsLegible(tr: Trace, symbol: Modules)
    requires tr.version >= 1 && |symbol| == SizeOf(tr.version) * SizeOf(tr.version)
    ensures Legible(tr, symbol, symbol)
  {
    hide CopyErrors, VersionErrors;
    var size := SizeOf(tr.version);
    NoCopyErrors(size, symbol, false, 15);
    NoCopyErrors(size, symbol, true, 15);
    NoVersionErrors(size, symbol, false, 18);
    NoVersionErrors(size, symbol, true, 18);
  }

  /** In particular the mirror image of an intact symbol that cannot be read directly gives the text. */
  lemma MirroredSymbolDecodes(chunks: seq<Chunk>, tr: Trace, symbol: Modules, r: Option<seq<byte>>)
    requires Encodes(chunks, tr, symbol) && Unreadable(tr.level, tr.mask) && tr.version != 23
    requires |symbol| == SizeOf(tr.version) * SizeOf(tr.version)
    requires DecodesEitherWay(SizeOf(tr.version), Transposed(SizeOf(tr.version), symbol), r)
    ensures r == Some(AllText(chunks))
  {
    hide *;
    NotReadDirectly(chunks, tr, symbol);
    SecondTry(SizeOf(tr.version), symbol, r);
    EncodesParts(chunks, tr, symbol);
    IntactIsLegible(tr, symbol);
    NothingFlipped(FunctionMask(tr.version, tr.align), symbol);
    EitherWay(SizeOf(tr.version), symbol, r);
    DamagedTextRecovered(chunks, tr, symbol, symbol, r);
  }

  lemma NothingFlipped(func: Modules, g: Modules)
    requires |func| == |g|
    ensures |Flipped(func, g, g)| == 0
  {
    assert Flipped(func, g, g) == {};
  }

  lemma EitherWay(size: nat, g: Modules, r: Option<seq<byte>>)
    requires |g| == size * size && Decodes(size, g, r) && Decodes(size, Transposed(size, g), None)
    ensures DecodesEitherWay(size, g, r)
  {
    hide Decodes, Transposed;
  }
}
