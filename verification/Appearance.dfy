/** What a scanner looks for in a finished symbol: the colours of all function patterns, module by module. */
module Appearance {
  import opened Bits
  import opened Options
  import opened Grid
  import opened Masks
  import opened Regions
  import opened FunctionPatterns
  import opened FunctionDrawing
  import opened ModuleCount
  import opened FormatCode
  import opened FormatInformation
  import opened VersionCode
  import opened MaskChoice
  import opened Encoder
  import opened EndToEnd

  /** The larger of the distances in columns and rows. */
  function Away(x: int, y: int, cx: int, cy: int): nat {
    var dx, dy := if x < cx then cx - x else x - cx, if y < cy then cy - y else y - cy;
    if dx < dy then dy else dx
  }

  predicate FinderCentre(size: nat, cx: int, cy: int) {
    (cx == 3 && cy == 3) || (cx == size - 4 && cy == 3) || (cx == 3 && cy == size - 4)
  }

  // ----- where no other layer interferes

  /** No alignment pattern colours the module. */
  ghost predicate Spared(align: seq<nat>, x: int, y: int) {
    forall i, j :: 0 <= i < |align| && 0 <= j < |align| && !EncoderCorner(align, i, j) ==>
      !(Near(x, align[i], 1) && Near(y, align[j], 1))
  }

  lemma {:induction false} SparedColour(below: Layer, align: seq<nat>, i: nat, j: nat, x: int, y: int)
    requires j <= |align| && (i < |align| || (i == |align| && j == 0)) && Spared(align, x, y)
    ensures AlignmentLayer(below, align, i, j)(x, y) == below(x, y)
    decreases i, j
  {
    hide EncoderCorner, AlignmentLayer;
    AlignmentParts(below, align, i, j);
    if j > 0 {
      SparedColour(below, align, i, j - 1, x, y);
    } else if i > 0 {
      SparedColour(below, align, i - 1, |align|, x, y);
    }
  }

  lemma FinderSpared(size: nat, align: seq<nat>, cx: int, cy: int, x: int, y: int)
    requires size >= 21 && Laid(size, align) && FinderCentre(size, cx, cy) && Away(x, y, cx, cy) <= 4
    ensures Spared(align, x, y)
  {
    forall i, j | 0 <= i < |align| && 0 <= j < |align| && !EncoderCorner(align, i, j)
      ensures !(Near(x, align[i], 1) && Near(y, align[j], 1))
    {
      if Near(x, align[i], 1) && Near(y, align[j], 1) {
        OnlyEnds(size, align, i, x);
        OnlyEnds(size, align, j, y);
      }
    }
  }

  /** Only the first and the last centre are near the edges. */
  lemma OnlyEnds(size: nat, align: seq<nat>, i: nat, z: int)
    requires size >= 21 && Laid(size, align) && i < |align| && Near(z, align[i], 1)
    ensures z <= 7 ==> i == 0
    ensures z >= size - 8 ==> i == |align| - 1
    ensures i == 0 ==> z <= 7
    ensures i == |align| - 1 ==> z >= size - 8
  {
    if i > 0 {
      assert align[0] + 5 <= align[i];
    }
    if i < |align| - 1 {
      assert align[i] <= align[|align| - 2];
    }
  }

  lemma RingDistance(cx: int, cy: int, x: int, y: int)
    ensures Ring(cx, cy, x, y) <==> Away(x, y, cx, cy) == 2 || Away(x, y, cx, cy) == 4
    ensures Ring(cx, cy, x, y) ==> Reached(cx, cy, 5, -4, x, y)
  {}

  lemma RingColour(size: nat, cx: int, cy: int, x: int, y: int)
    requires size >= 21 && FinderCentre(size, cx, cy) && InGrid(size, x, y) && Away(x, y, cx, cy) <= 4
    ensures FinderLayer(TimingLayer(size - 7), size, 5, -4)(x, y) ==
      if Away(x, y, cx, cy) == 2 || Away(x, y, cx, cy) == 4 then Some(false) else None
  {
    hide Ring, Reached;
    RingDistance(3, 3, x, y);
    RingDistance(size - 4, 3, x, y);
    RingDistance(3, size - 4, x, y);
  }

  /** The version bits lie above the lower left and to the left of the upper right finder pattern. */
  predicate VersionArea(size: nat, x: int, y: int) {
    (0 <= y < 6 && size - 11 <= x < size - 8) || (0 <= x < 6 && size - 11 <= y < size - 8)
  }

  /** Outside the version bits, the colour of a function module comes from timing, finder and alignment patterns. */
  lemma PatternColour(size: nat, version: nat, align: seq<nat>, g: Modules, x: int, y: int)
    requires Patterned(size, version, align, g) && InGrid(size, x, y) && !VersionArea(size, x, y)
    requires Covered(EncoderRects(size, version, align), x, y)
    ensures g[Index(size, x, y)] ==
      Over(AlignmentLayer(FinderLayer(TimingLayer(size - 7), size, 5, -4), align, |align|, 0)(x, y), true)
  {
    hide Index, Covered, EncoderRects, AlignmentLayer, FinderLayer, TimingLayer, Bit, VersionWord;
  }

  // ----- finder patterns

  /** Around each of the three centres: a dark square of three by three, a light ring, a dark ring, a light ring. */
  lemma FinderColours(version: nat, align: seq<nat>, g: Modules, cx: int, cy: int, x: int, y: int)
    requires 1 <= version <= 40 && Centres(version, align) && Patterned(version * 4 + 17, version, align, g)
    requires FinderCentre(version * 4 + 17, cx, cy) && InGrid(version * 4 + 17, x, y) && Away(x, y, cx, cy) <= 4
    ensures g[Index(version * 4 + 17, x, y)] <==> (var d := Away(x, y, cx, cy); d == 0 || d == 1 || d == 3)
  {
    hide Index, Covered, EncoderRects, AlignmentLayer, FinderLayer, TimingLayer, Patterned, Centres, Spared, Laid;
    var size := version * 4 + 17;
    CentresLaid(version, align);
    FinderIsCovered(size, version, align, x, y);
    PatternColour(size, version, align, g, x, y);
    FinderSpared(size, align, cx, cy, x, y);
    SparedColour(FinderLayer(TimingLayer(size - 7), size, 5, -4), align, |align|, 0, x, y);
    RingColour(size, cx, cy, x, y);
  }

  // ----- timing patterns

  lemma CentresEven(version: nat, align: seq<nat>, k: nat)
    requires 1 <= version <= 40 && Centres(version, align) && k < |align|
    ensures align[k] % 2 == 0
  {
    hide Positions, Step;
    PositionEven(version, |align|, k);
  }

  lemma PositionEven(version: nat, n: nat, k: nat)
    requires 2 <= version && k < n
    ensures Positions(version, n)[k] % 2 == 0
  {
    var q := (version * 8 + (version / 7 + 2) * 3 + 5) / ((version / 7 + 2) * 4 - 4);
    var m := version / 7 + 1 - k;
    EvenProduct(q, m);
    assert Step(version) * m == q * 2 * m;
  }

  lemma EvenProduct(q: int, m: int)
    ensures (q * 2 * m) % 2 == 0
  {
    var p := q * m;
    assert q * 2 * m == 2 * p;
    TwiceIsEven(p);
  }

  lemma TwiceIsEven(p: int)
    ensures 2 * p % 2 == 0
  {}

  /** Between the separators, row and column 6 are dark at even and light at odd coordinates. */
  lemma TimingColours(version: nat, align: seq<nat>, g: Modules, i: int)
    requires 1 <= version <= 40 && Centres(version, align) && Patterned(version * 4 + 17, version, align, g)
    requires 8 <= i < version * 4 + 17 - 8
    ensures g[Index(version * 4 + 17, 6, i)] <==> i % 2 == 0
    ensures g[Index(version * 4 + 17, i, 6)] <==> i % 2 == 0
  {
    hide Index, Covered, EncoderRects, AlignmentLayer, FinderLayer, Patterned, Centres, Spared, Laid;
    var size := version * 4 + 17;
    CentresLaid(version, align);
    TimingIsCovered(size, version, align, i);
    PatternColour(size, version, align, g, 6, i);
    PatternColour(size, version, align, g, i, 6);
    TimingLayerColour(version, align, 6, i);
    TimingLayerColour(version, align, i, 6);
  }

  lemma TimingLayerColour(version: nat, align: seq<nat>, x: int, y: int)
    requires 1 <= version <= 40 && Centres(version, align) && Laid(version * 4 + 17, align)
    requires (x == 6 && 8 <= y < version * 4 + 9) || (y == 6 && 8 <= x < version * 4 + 9)
    ensures var size := version * 4 + 17;
            Over(AlignmentLayer(FinderLayer(TimingLayer(size - 7), size, 5, -4), align, |align|, 0)(x, y), true)
            <==> (x + y) % 2 == 0
  {
    hide EncoderCorner, AlignmentLayer, FinderLayer, TimingLayer, Centres, Laid;
    var size := version * 4 + 17;
    var below := FinderLayer(TimingLayer(size - 7), size, 5, -4);
    BetweenFinders(size, x, y);
    if i, j :| 0 <= i < |align| && 0 <= j < |align| && !EncoderCorner(align, i, j)
               && Near(x, align[i], 1) && Near(y, align[j], 1) {
      PatternAcross(version, align, i, j, x, y);
      LaidSpaced(size, align);
      AlignmentColour(below, align, |align|, 0, i, j, x, y);
    } else {
      SparedColour(below, align, |align|, 0, x, y);
    }
  }

  lemma LaidSpaced(size: nat, align: seq<nat>)
    requires Laid(size, align)
    ensures Spaced(align)
  {}

  lemma BetweenFinders(size: nat, x: int, y: int)
    requires size >= 21 && ((x == 6 && 8 <= y < size - 8) || (y == 6 && 8 <= x < size - 8))
    ensures FinderLayer(TimingLayer(size - 7), size, 5, -4)(x, y) == if (x + y) % 2 == 0 then None else Some(false)
  {
    hide Ring, Reached;
    RingDistance(3, 3, x, y);
    RingDistance(size - 4, 3, x, y);
    RingDistance(3, size - 4, x, y);
  }

  /** An alignment pattern across row or column 6 is centred on a dark module of the timing pattern. */
  lemma PatternAcross(version: nat, align: seq<nat>, i: nat, j: nat, x: int, y: int)
    requires 1 <= version <= 40 && Centres(version, align) && Laid(version * 4 + 17, align)
    requires (x == 6 && 8 <= y < version * 4 + 9) || (y == 6 && 8 <= x < version * 4 + 9)
    requires i < |align| && j < |align| && Near(x, align[i], 1) && Near(y, align[j], 1)
    ensures (x == align[i] && y == align[j]) <==> (x + y) % 2 == 0
  {
    hide Centres;
    CentresEven(version, align, i);
    CentresEven(version, align, j);
    if i > 0 {
      assert align[0] + 5 <= align[i];
    }
    if j > 0 {
      assert align[0] + 5 <= align[j];
    }
  }

  // ----- alignment patterns

  /** Around each centre but the three at finder patterns: a dark module, a light ring and a dark ring. */
  lemma AlignmentColours(version: nat, align: seq<nat>, g: Modules, i: nat, j: nat, x: int, y: int)
    requires 1 <= version <= 40 && Centres(version, align) && Patterned(version * 4 + 17, version, align, g)
    requires i < |align| && j < |align| && !EncoderCorner(align, i, j) && Away(x, y, align[i], align[j]) <= 2
    ensures InGrid(version * 4 + 17, x, y)
    ensures g[Index(version * 4 + 17, x, y)] <==> Away(x, y, align[i], align[j]) != 1
  {
    hide Index, Covered, EncoderRects, AlignmentLayer, FinderLayer, TimingLayer, Patterned, Centres, EncoderCorner;
    hide Laid;
    var size := version * 4 + 17;
    CentresLaid(version, align);
    LaidSpaced(size, align);
    BlockPlace(size, align, i, j, x, y);
    AlignmentIsCovered(size, version, align, i, j, x, y);
    PatternColour(size, version, align, g, x, y);
    var below := FinderLayer(TimingLayer(size - 7), size, 5, -4);
    if Away(x, y, align[i], align[j]) <= 1 {
      AlignmentColour(below, align, |align|, 0, i, j, x, y);
    } else {
      OuterRing(align, i, j, x, y);
      SparedColour(below, align, |align|, 0, x, y);
      CentresEven(version, align, i);
      CentresEven(version, align, j);
      OutsideFinders(size, align, i, j, x, y);
    }
  }

  /** A pattern lies in the grid, away from the finder patterns and the version bits. */
  lemma BlockPlace(size: nat, align: seq<nat>, i: nat, j: nat, x: int, y: int)
    requires size >= 21 && Laid(size, align) && i < |align| && j < |align| && !EncoderCorner(align, i, j)
    requires Away(x, y, align[i], align[j]) <= 2
    ensures InGrid(size, x, y) && !VersionArea(size, x, y) && Block(align[i], align[j]).Contains(x, y)
    ensures !(x <= 8 && y <= 8) && !(x >= size - 8 && y <= 8) && !(x <= 8 && y >= size - 8)
    ensures x <= 8 ==> i == 0
    ensures y <= 8 ==> j == 0
  {
    EndsOnly(size, align, i, x);
    EndsOnly(size, align, j, y);
  }

  lemma EndsOnly(size: nat, align: seq<nat>, i: nat, z: int)
    requires size >= 21 && Laid(size, align) && i < |align| && align[i] - 2 <= z <= align[i] + 2
    ensures 4 <= z < size - 4
    ensures z <= 8 <==> i == 0
    ensures z >= size - 11 ==> i == |align| - 1
    ensures align[0] == 6
  {
    if i > 0 {
      assert align[0] + 5 <= align[i];
    }
    if i < |align| - 1 {
      assert align[i] <= align[|align| - 2];
      assert align[i] < align[|align| - 1];
    }
  }

  lemma OuterRing(align: seq<nat>, i: nat, j: nat, x: int, y: int)
    requires Spaced(align) && i < |align| && j < |align| && Away(x, y, align[i], align[j]) == 2
    ensures Spared(align, x, y)
  {
    forall k, l | 0 <= k < |align| && 0 <= l < |align| && !EncoderCorner(align, k, l)
      ensures !(Near(x, align[k], 1) && Near(y, align[l], 1))
    {
    }
  }

  lemma OutsideFinders(size: nat, align: seq<nat>, i: nat, j: nat, x: int, y: int)
    requires size >= 21 && Laid(size, align) && i < |align| && j < |align| && !EncoderCorner(align, i, j)
    requires Away(x, y, align[i], align[j]) == 2 && align[i] % 2 == 0 && align[j] % 2 == 0
    ensures FinderLayer(TimingLayer(size - 7), size, 5, -4)(x, y) == None
  {
    hide Ring, Reached, Laid, EncoderCorner;
    RingDistance(3, 3, x, y);
    RingDistance(size - 4, 3, x, y);
    RingDistance(3, size - 4, x, y);
    BlockPlace(size, align, i, j, x, y);
    FirstCentre(size, align);
  }

  lemma FirstCentre(size: nat, align: seq<nat>)
    requires Laid(size, align) && align != []
    ensures align[0] == 6
  {}

  // ----- the finished symbol

  /** Function modules without format bits are not masked and keep their colours. */
  lemma ColourKept(tr: Trace, symbol: Modules, x: int, y: int)
    requires Pictured(tr, symbol) && Patterned(SizeOf(tr.version), tr.version, tr.align, tr.base)
    requires InGrid(SizeOf(tr.version), x, y) && Covered(EncoderRects(SizeOf(tr.version), tr.version, tr.align), x, y)
    requires Unformatted(SizeOf(tr.version), x, y)
    ensures var p := Index(SizeOf(tr.version), x, y); p < |symbol| == |tr.base| && symbol[p] == tr.base[p]
  {
    hide Index, Dark, EncoderRects, Covered, Centres, Base, Patterned, Masked, Painted, FunctionMask;
    var size := SizeOf(tr.version);
    PicturedParts(tr, symbol);
    DarkAt(size, EncoderRects(size, tr.version, tr.align), x, y);
    FunctionMaskIs(tr.version, tr.align);
    var func := FunctionMask(tr.version, tr.align);
    MaskedKeepsFunction(size, tr.base, func, tr.mask, Index(size, x, y));
    PaintedElsewhere(size, Masked(size, tr.base, func, tr.mask), FormatWords(tr.level)[tr.mask], 31, x, y);
  }

  /** What is known of a symbol that the encoder has made. */
  ghost predicate Finished(tr: Trace, symbol: Modules) {
    && 1 <= tr.version <= 40 && Pictured(tr, symbol)
    && Patterned(SizeOf(tr.version), tr.version, tr.align, tr.base)
  }

  lemma FinishedParts(tr: Trace, symbol: Modules)
    requires Finished(tr, symbol)
    ensures 1 <= tr.version <= 40 && SizeOf(tr.version) == tr.version * 4 + 17 && Centres(tr.version, tr.align)
    ensures |symbol| == |tr.base| == SizeOf(tr.version) * SizeOf(tr.version)
    ensures Pictured(tr, symbol) && Patterned(SizeOf(tr.version), tr.version, tr.align, tr.base)
    ensures tr.level < 4 && tr.mask < 8
  {
    hide Centres, Trial, FunctionMask, Patterned;
    PicturedParts(tr, symbol);
  }

  /** The finished symbol shows the three finder patterns: dark at the distances 0, 1 and 3, light at 2 and 4. */
  lemma FinderShown(tr: Trace, symbol: Modules, cx: int, cy: int, x: int, y: int)
    requires Finished(tr, symbol) && InGrid(SizeOf(tr.version), x, y)
    requires FinderCentre(SizeOf(tr.version), cx, cy) && Away(x, y, cx, cy) <= 4
    ensures |symbol| == SizeOf(tr.version) * SizeOf(tr.version)
    ensures symbol[Index(SizeOf(tr.version), x, y)] <==> (var d := Away(x, y, cx, cy); d == 0 || d == 1 || d == 3)
  {
    hide Index, Covered, EncoderRects, Finished, Pictured, Patterned, Centres;
    FinishedParts(tr, symbol);
    FinderIsCovered(SizeOf(tr.version), tr.version, tr.align, x, y);
    ColourKept(tr, symbol, x, y);
    FinderColours(tr.version, tr.align, tr.base, cx, cy, x, y);
  }

  /** It shows the timing patterns: dark at even coordinates, light at odd ones. */
  lemma TimingShown(tr: Trace, symbol: Modules, i: int)
    requires Finished(tr, symbol) && 8 <= i < SizeOf(tr.version) - 8
    ensures |symbol| == SizeOf(tr.version) * SizeOf(tr.version)
    ensures symbol[Index(SizeOf(tr.version), 6, i)] <==> i % 2 == 0
    ensures symbol[Index(SizeOf(tr.version), i, 6)] <==> i % 2 == 0
  {
    hide Index, Covered, EncoderRects, Finished, Pictured, Patterned, Centres;
    FinishedParts(tr, symbol);
    TimingIsCovered(SizeOf(tr.version), tr.version, tr.align, i);
    ColourKept(tr, symbol, 6, i);
    ColourKept(tr, symbol, i, 6);
    TimingColours(tr.version, tr.align, tr.base, i);
  }

  /** It shows all alignment patterns: dark at the distances 0 and 2, light at 1. */
  lemma AlignmentShown(tr: Trace, symbol: Modules, i: nat, j: nat, x: int, y: int)
    requires Finished(tr, symbol) && i < |tr.align| && j < |tr.align| && !EncoderCorner(tr.align, i, j)
    requires Away(x, y, tr.align[i], tr.align[j]) <= 2
    ensures InGrid(SizeOf(tr.version), x, y) && |symbol| == SizeOf(tr.version) * SizeOf(tr.version)
    ensures symbol[Index(SizeOf(tr.version), x, y)] <==> Away(x, y, tr.align[i], tr.align[j]) != 1
  {
    hide Index, Covered, EncoderRects, Finished, Pictured, Patterned, Centres, EncoderCorner, Laid;
    FinishedParts(tr, symbol);
    var size := SizeOf(tr.version);
    CentresLaid(tr.version, tr.align);
    BlockPlace(size, tr.align, i, j, x, y);
    AlignmentIsCovered(size, tr.version, tr.align, i, j, x, y);
    ColourKept(tr, symbol, x, y);
    AlignmentColours(tr.version, tr.align, tr.base, i, j, x, y);
  }

  /** Bit 3 i + j of the version word stands in row i left of a finder pattern and in column i above another. */
  lemma VersionBitsShown(tr: Trace, symbol: Modules, i: nat, j: nat)
    requires Finished(tr, symbol) && tr.version >= 7 && i < 6 && j < 3
    ensures |symbol| == SizeOf(tr.version) * SizeOf(tr.version)
    ensures symbol[Index(SizeOf(tr.version), SizeOf(tr.version) - 11 + j, i)] == Bit(VersionWord(tr.version), 3 * i + j)
    ensures symbol[Index(SizeOf(tr.version), i, SizeOf(tr.version) - 11 + j)] == Bit(VersionWord(tr.version), 3 * i + j)
  {
    hide Index, Finished, Pictured, Patterned, Centres, Bit, VersionWord;
    FinishedParts(tr, symbol);
    assert (3 * i + j) / 3 == i && (3 * i + j) % 3 == j;
    VersionModule(tr, symbol, false, 3 * i + j);
    VersionModule(tr, symbol, true, 3 * i + j);
  }

  /**
   The format word of level and mask, once around the first finder pattern and once beside the two others, and the
   module that is always dark.
   */
  lemma FormatBitsShown(tr: Trace, symbol: Modules, i: nat)
    requires Finished(tr, symbol) && i < 15
    ensures |symbol| == SizeOf(tr.version) * SizeOf(tr.version)
    ensures var size, word := SizeOf(tr.version), FORMAT_INFO_TABLE[EntryOf(tr.level, tr.mask)];
            && (i < 6 ==> symbol[Index(size, 8, i)] == Bit(word, i))
            && (i == 6 ==> symbol[Index(size, 8, 7)] == Bit(word, i))
            && (i == 7 ==> symbol[Index(size, 8, 8)] == Bit(word, i))
            && (i == 8 ==> symbol[Index(size, 7, 8)] == Bit(word, i))
            && (i > 8 ==> symbol[Index(size, 14 - i, 8)] == Bit(word, i))
            && (i < 8 ==> symbol[Index(size, size - 1 - i, 8)] == Bit(word, i))
            && (i >= 8 ==> symbol[Index(size, 8, size - 15 + i)] == Bit(word, i))
            && symbol[Index(size, 8, size - 8)]
  {
    hide Index, Finished, Patterned, Centres, Base, Bit, FORMAT_INFO_TABLE, Painted, Masked, FunctionMask, EntryOf;
    FinishedParts(tr, symbol);
    var size := SizeOf(tr.version);
    var masked := Masked(size, tr.base, FunctionMask(tr.version, tr.align), tr.mask);
    PaintedAt(size, masked, FormatWords(tr.level)[tr.mask], i, 31);
    PaintedAt(size, masked, FormatWords(tr.level)[tr.mask], 15 + i, 31);
    PaintedAt(size, masked, FormatWords(tr.level)[tr.mask], 30, 31);
  }
}
