/** Drawing the function modules: timing, finder, alignment and version patterns. */
module FunctionDrawing {
  import opened Bits
  import opened Options
  import opened VersionCode
  import opened Grid
  import opened Regions
  import opened FunctionPatterns
  import opened FunctionModules
  import opened Symbol

  // ----- layers of colour

  /** The colour that has been drawn at some coordinates, if any. */
  type Layer = (int, int) -> Option<bool>

  function Over(c: Option<bool>, under: bool): bool {
    if c.Some? then c.value else under
  }

  /** The buffer shows the layer over the grid g. */
  ghost predicate Shows(q: seq<byte>, size: nat, g: Modules, f: Layer) {
    && Packed(q, size) && |g| == size * size
    && forall x: int, y: int :: InGrid(size, x, y) ==>
         View(q, size)[Index(size, x, y)] == Over(f(x, y), g[Index(size, x, y)])
  }

  /** One more module drawn. */
  function With(f: Layer, a: int, b: int, v: bool): Layer {
    (x, y) => if x == a && y == b then Some(v) else f(x, y)
  }

  predicate Near(n: int, centre: int, reach: int) {
    centre - reach <= n <= centre + reach
  }

  /** Every other module of row and column 6, between 7 and the end. */
  function TimingLayer(end: int): Layer {
    (x, y) => if (x == 6 && 7 <= y < end && y % 2 == 1) || (y == 6 && 7 <= x < end && x % 2 == 1) then Some(false)
      else None
  }

  /** The two light rings of a finder pattern: distance 2 and 4 from the centre. */
  predicate Ring(cx: int, cy: int, x: int, y: int) {
    (Near(x, cx, 2) && Near(y, cy, 2) && !(Near(x, cx, 1) && Near(y, cy, 1)))
    || (Near(x, cx, 4) && Near(y, cy, 4) && !(Near(x, cx, 3) && Near(y, cy, 3)))
  }

  /** Row by row from the centre's neighbourhood on, before row dy and column dx. */
  predicate Reached(cx: int, cy: int, dy: int, dx: int, x: int, y: int) {
    y - cy < dy || (y - cy == dy && x - cx < dx)
  }

  function FinderLayer(below: Layer, size: nat, dy: int, dx: int): Layer {
    (x, y) =>
      if || (Ring(3, 3, x, y) && Reached(3, 3, dy, dx, x, y))
         || (Ring(size - 4, 3, x, y) && Reached(size - 4, 3, dy, dx, x, y))
         || (Ring(3, size - 4, x, y) && Reached(3, size - 4, dy, dx, x, y))
      then Some(false) else below(x, y)
  }

  /** The inner part of an alignment pattern: a light ring around a dark module. */
  function BlockLayer(below: Layer, cx: int, cy: int, dy: int, dx: int): Layer {
    (x, y) =>
      if Near(x, cx, 1) && Near(y, cy, 1) && Reached(cx, cy, dy, dx, x, y) then Some(x == cx && y == cy)
        else below(x, y)
  }

  /** The alignment patterns of the first i columns, and the first j of the next. */
  function AlignmentLayer(below: Layer, align: seq<nat>, i: nat, j: nat): Layer
    requires j <= |align| && (i < |align| || (i == |align| && j == 0))
    decreases i, j
  {
    if j > 0 then
      var before := AlignmentLayer(below, align, i, j - 1);
      if EncoderCorner(align, i, j - 1) then before else BlockLayer(before, align[i], align[j - 1], 2, -1)
    else if i > 0 then AlignmentLayer(below, align, i - 1, |align|)
    else below
  }

  /** The first n of the 18 version bits, in a block of three columns and one of three rows. */
  function VersionLayer(below: Layer, size: nat, word: nat, n: nat): Layer {
    (x, y) =>
      if 0 <= y < 6 && size - 11 <= x < size - 8 && 3 * y + (x - (size - 11)) < n then
        Some(Bit(word, 3 * y + (x - (size - 11))))
      else if 0 <= x < 6 && size - 11 <= y < size - 8 && 3 * x + (y - (size - 11)) < n then
        Some(Bit(word, 3 * x + (y - (size - 11))))
      else below(x, y)
  }

  /** All patterns, one over the other. */
  function FunctionLayer(size: nat, version: nat, align: seq<nat>): Layer {
    var patterns := AlignmentLayer(FinderLayer(TimingLayer(size - 7), size, 5, -4), align, |align|, 0);
    if version >= 7 then VersionLayer(patterns, size, VersionWord(version), 18) else patterns
  }

  // ----- drawing one module

  method SetModule(qrcode: array<byte>, x: int, y: int, isDark: bool, ghost size: nat, ghost g: Modules, ghost f: Layer)
    requires Shows(qrcode[..], size, g, f) && InGrid(size, x, y)
    modifies qrcode
    ensures Shows(qrcode[..], size, g, With(f, x, y, isDark))
  {
    hide View, Index;
    assert qrcode[0] == qrcode[..][0];
    ghost var before := View(qrcode[..], size);
    SetModuleBounded(qrcode, x, y, isDark);
    forall a: int, b: int | InGrid(size, a, b)
      ensures View(qrcode[..], size)[Index(size, a, b)] == Over(With(f, x, y, isDark)(a, b), g[Index(size, a, b)])
    {
      if Index(size, a, b) == Index(size, x, y) {
        IndexInjective(size, a, b, x, y);
      }
    }
  }

  /** Modules outside the grid are left alone. */
  method SetModuleUnbounded(qrcode: array<byte>, x: int, y: int, isDark: bool,
                            ghost size: nat, ghost g: Modules, ghost f: Layer)
    requires Shows(qrcode[..], size, g, f)
    modifies qrcode
    ensures Shows(qrcode[..], size, g, With(f, x, y, isDark))
  {
    hide View, Index;
    var qrsize: nat := qrcode[0];
    assert qrcode[0] == qrcode[..][0];
    if 0 <= x < qrsize && 0 <= y < qrsize {
      SetModule(qrcode, x, y, isDark, size, g, f);
    }
  }

  lemma SameLayer(q: seq<byte>, size: nat, g: Modules, f: Layer, h: Layer)
    requires Shows(q, size, g, f) && forall x: int, y: int :: InGrid(size, x, y) ==> f(x, y) == h(x, y)
    ensures Shows(q, size, g, h)
  {
    hide View, Index;
  }

  lemma NothingShown(q: seq<byte>, size: nat)
    requires Packed(q, size)
    ensures Shows(q, size, View(q, size), TimingLayer(7))
  {
    hide Index;
  }

  lemma ShowsSize(q: seq<byte>, size: nat, g: Modules, f: Layer)
    requires Shows(q, size, g, f)
    ensures |q| >= 1 && q[0] == size
  {}

  // ----- the patterns

  method DrawTiming(qrcode: array<byte>, qrsize: int, ghost g: Modules)
    requires qrsize >= 21 && qrsize % 2 == 1 && Shows(qrcode[..], qrsize, g, TimingLayer(7))
    modifies qrcode
    ensures Shows(qrcode[..], qrsize, g, TimingLayer(qrsize - 7))
  {
    hide Shows;
    var i := 7;
    while i < qrsize - 7
      invariant 7 <= i <= qrsize - 6 && i % 2 == 1
      invariant Shows(qrcode[..], qrsize, g, TimingLayer(i))
    {
      ghost var f := TimingLayer(i);
      SetModule(qrcode, 6, i, false, qrsize, g, f);
      SetModule(qrcode, i, 6, false, qrsize, g, With(f, 6, i, false));
      SameLayer(qrcode[..], qrsize, g, With(With(f, 6, i, false), i, 6, false), TimingLayer(i + 2));
      i := i + 2;
    }
    SameLayer(qrcode[..], qrsize, g, TimingLayer(i), TimingLayer(qrsize - 7));
  }

  method DrawFinders(qrcode: array<byte>, qrsize: int, ghost g: Modules, ghost below: Layer)
    requires qrsize >= 21 && Shows(qrcode[..], qrsize, g, below)
    modifies qrcode
    ensures Shows(qrcode[..], qrsize, g, FinderLayer(below, qrsize, 5, -4))
  {
    hide Shows;
    SameLayer(qrcode[..], qrsize, g, below, FinderLayer(below, qrsize, -4, -4));
    for dy := -4 to 5
      invariant Shows(qrcode[..], qrsize, g, FinderLayer(below, qrsize, dy, -4))
    {
      for dx := -4 to 5
        invariant Shows(qrcode[..], qrsize, g, FinderLayer(below, qrsize, dy, dx))
      {
        var dist := if dx < 0 then -dx else dx;
        if (if dy < 0 then -dy else dy) > dist {
          dist := if dy < 0 then -dy else dy;
        }
        ghost var f := FinderLayer(below, qrsize, dy, dx);
        if dist == 2 || dist == 4 {
          ghost var f1 := With(f, 3 + dx, 3 + dy, false);
          ghost var f2 := With(f1, qrsize - 4 + dx, 3 + dy, false);
          SetModuleUnbounded(qrcode, 3 + dx, 3 + dy, false, qrsize, g, f);
          SetModuleUnbounded(qrcode, qrsize - 4 + dx, 3 + dy, false, qrsize, g, f1);
          SetModuleUnbounded(qrcode, 3 + dx, qrsize - 4 + dy, false, qrsize, g, f2);
          FinderNext(below, qrsize, dy, dx);
          SameLayer(qrcode[..], qrsize, g, With(f2, 3 + dx, qrsize - 4 + dy, false),
                    FinderLayer(below, qrsize, dy, dx + 1));
        } else {
          FinderSame(below, qrsize, dy, dx);
          SameLayer(qrcode[..], qrsize, g, f, FinderLayer(below, qrsize, dy, dx + 1));
        }
      }
      FinderRow(below, qrsize, dy);
      SameLayer(qrcode[..], qrsize, g, FinderLayer(below, qrsize, dy, 5), FinderLayer(below, qrsize, dy + 1, -4));
    }
  }

  /** Going on by one module reaches just the one at the distances dx and dy from the centre. */
  lemma ReachedNext(cx: int, cy: int, dy: int, dx: int, x: int, y: int)
    ensures Reached(cx, cy, dy, dx + 1, x, y) <==> Reached(cx, cy, dy, dx, x, y) || (x == cx + dx && y == cy + dy)
    ensures Ring(cx, cy, cx + dx, cy + dy) <==> Ring(0, 0, dx, dy)
  {}

  /** No module of a ring is beyond the end of a row. */
  lemma ReachedRow(cx: int, cy: int, dy: int, x: int, y: int)
    requires Ring(cx, cy, x, y)
    ensures Reached(cx, cy, dy, 5, x, y) <==> Reached(cx, cy, dy + 1, -4, x, y)
  {}

  lemma FinderNext(below: Layer, size: nat, dy: int, dx: int)
    requires Ring(0, 0, dx, dy)
    ensures var one := With(FinderLayer(below, size, dy, dx), 3 + dx, 3 + dy, false);
            var f := With(With(one, size - 4 + dx, 3 + dy, false), 3 + dx, size - 4 + dy, false);
            forall x: int, y: int :: f(x, y) == FinderLayer(below, size, dy, dx + 1)(x, y)
  {
    hide Ring, Reached;
    var f := With(With(With(FinderLayer(below, size, dy, dx), 3 + dx, 3 + dy, false), size - 4 + dx, 3 + dy, false),
                  3 + dx, size - 4 + dy, false);
    forall x: int, y: int
      ensures f(x, y) == FinderLayer(below, size, dy, dx + 1)(x, y)
    {
      ReachedNext(3, 3, dy, dx, x, y);
      ReachedNext(size - 4, 3, dy, dx, x, y);
      ReachedNext(3, size - 4, dy, dx, x, y);
    }
  }

  lemma FinderSame(below: Layer, size: nat, dy: int, dx: int)
    requires !Ring(0, 0, dx, dy)
    ensures forall x: int, y: int ::
      FinderLayer(below, size, dy, dx)(x, y) == FinderLayer(below, size, dy, dx + 1)(x, y)
  {
    hide Ring, Reached;
    forall x: int, y: int
      ensures FinderLayer(below, size, dy, dx)(x, y) == FinderLayer(below, size, dy, dx + 1)(x, y)
    {
      ReachedNext(3, 3, dy, dx, x, y);
      ReachedNext(size - 4, 3, dy, dx, x, y);
      ReachedNext(3, size - 4, dy, dx, x, y);
    }
  }

  lemma FinderRow(below: Layer, size: nat, dy: int)
    ensures forall x: int, y: int :: FinderLayer(below, size, dy, 5)(x, y) == FinderLayer(below, size, dy + 1, -4)(x, y)
  {
    hide Ring, Reached;
    forall x: int, y: int
      ensures FinderLayer(below, size, dy, 5)(x, y) == FinderLayer(below, size, dy + 1, -4)(x, y)
    {
      if Ring(3, 3, x, y) { ReachedRow(3, 3, dy, x, y); }
      if Ring(size - 4, 3, x, y) { ReachedRow(size - 4, 3, dy, x, y); }
      if Ring(3, size - 4, x, y) { ReachedRow(3, size - 4, dy, x, y); }
    }
  }

  method DrawAlignment(qrcode: array<byte>, qrsize: int, version: nat, ghost align: seq<nat>, ghost g: Modules,
                       ghost below: Layer)
    requires 1 <= version <= 40 && qrsize == version * 4 + 17 && Centres(version, align)
    requires Shows(qrcode[..], qrsize, g, below)
    modifies qrcode
    ensures Shows(qrcode[..], qrsize, g, AlignmentLayer(below, align, |align|, 0))
  {
    hide Shows, AlignmentCentres, Positions;
    var alignPatPos := new byte[7];
    var numAlign := GetAlignmentPatternPositions(version, alignPatPos);
    assert alignPatPos[..numAlign] == align;
    for i := 0 to numAlign
      invariant alignPatPos[..numAlign] == align
      invariant Shows(qrcode[..], qrsize, g, AlignmentLayer(below, align, i, 0))
    {
      for j := 0 to numAlign
        invariant alignPatPos[..numAlign] == align
        invariant Shows(qrcode[..], qrsize, g, AlignmentLayer(below, align, i, j))
      {
        if !((i == 0 && j == 0) || (i == 0 && j == numAlign - 1) || (i == numAlign - 1 && j == 0)) {
          assert alignPatPos[i] == align[i] && alignPatPos[j] == align[j];
          BlockWithin(qrsize, align, i, j);
          DrawAlignmentPattern(qrcode, alignPatPos[i], alignPatPos[j], qrsize, g, AlignmentLayer(below, align, i, j));
        }
      }
    }
  }

  method DrawAlignmentPattern(qrcode: array<byte>, x: int, y: int, ghost qrsize: nat, ghost g: Modules,
                              ghost below: Layer)
    requires 1 <= x < qrsize - 1 && 1 <= y < qrsize - 1 && Shows(qrcode[..], qrsize, g, below)
    modifies qrcode
    ensures Shows(qrcode[..], qrsize, g, BlockLayer(below, x, y, 2, -1))
  {
    hide Shows;
    SameLayer(qrcode[..], qrsize, g, below, BlockLayer(below, x, y, -1, -1));
    for dy := -1 to 2
      invariant Shows(qrcode[..], qrsize, g, BlockLayer(below, x, y, dy, -1))
    {
      for dx := -1 to 2
        invariant Shows(qrcode[..], qrsize, g, BlockLayer(below, x, y, dy, dx))
      {
        ghost var f := BlockLayer(below, x, y, dy, dx);
        SetModule(qrcode, x + dx, y + dy, dx == 0 && dy == 0, qrsize, g, f);
        SameLayer(qrcode[..], qrsize, g, With(f, x + dx, y + dy, dx == 0 && dy == 0),
          BlockLayer(below, x, y, dy, dx + 1));
      }
      SameLayer(qrcode[..], qrsize, g, BlockLayer(below, x, y, dy, 2), BlockLayer(below, x, y, dy + 1, -1));
    }
  }

  method DrawVersion(qrcode: array<byte>, qrsize: int, version: nat, ghost g: Modules, ghost below: Layer)
    requires 7 <= version <= 40 && qrsize >= 45 && Shows(qrcode[..], qrsize, g, below)
    modifies qrcode
    ensures Shows(qrcode[..], qrsize, g, VersionLayer(below, qrsize, VersionWord(version), 18))
  {
    hide Shows, Bit, Shr, VersionWord;
    var bits := VersionBits(version);
    var rest := bits;
    SameLayer(qrcode[..], qrsize, g, below, VersionLayer(below, qrsize, bits, 0));
    ShrZero(bits);
    for i := 0 to 6
      invariant rest == Shr(bits, 3 * i)
      invariant Shows(qrcode[..], qrsize, g, VersionLayer(below, qrsize, bits, 3 * i))
    {
      for j := 0 to 3
        invariant rest == Shr(bits, 3 * i + j)
        invariant Shows(qrcode[..], qrsize, g, VersionLayer(below, qrsize, bits, 3 * i + j))
      {
        var k := qrsize - 11 + j;
        ghost var n, f := 3 * i + j, VersionLayer(below, qrsize, bits, 3 * i + j);
        ShrBit(bits, n);
        ShrStep(bits, n);
        SetModule(qrcode, k, i, rest % 2 != 0, qrsize, g, f);
        SetModule(qrcode, i, k, rest % 2 != 0, qrsize, g, With(f, k, i, Bit(bits, n)));
        SameLayer(qrcode[..], qrsize, g, With(With(f, k, i, Bit(bits, n)), i, k, Bit(bits, n)),
                  VersionLayer(below, qrsize, bits, n + 1));
        rest := rest / 2;
      }
    }
  }

  /** Draws the timing, finder, alignment and version patterns. */
  method DrawLightFunctionModules(qrcode: array<byte>, version: nat, ghost align: seq<nat>)
    requires 1 <= version <= 40 && Centres(version, align) && Packed(qrcode[..], version * 4 + 17)
    modifies qrcode
    ensures var size := version * 4 + 17;
            Shows(qrcode[..], size, old(View(qrcode[..], size)), FunctionLayer(size, version, align))
  {
    hide *;
    ghost var size, g := version * 4 + 17, View(qrcode[..], version * 4 + 17);
    NothingShown(qrcode[..], size);
    ShowsSize(qrcode[..], size, g, TimingLayer(7));
    var qrsize: int := qrcode[0];
    DrawTiming(qrcode, qrsize, g);
    DrawFinders(qrcode, qrsize, g, TimingLayer(qrsize - 7));
    ghost var finders := FinderLayer(TimingLayer(qrsize - 7), qrsize, 5, -4);
    DrawAlignment(qrcode, qrsize, version, align, g, finders);
    LayersAre(size, version, align);
    if version >= 7 {
      DrawVersion(qrcode, qrsize, version, g, AlignmentLayer(finders, align, |align|, 0));
    }
  }

  lemma LayersAre(size: nat, version: nat, align: seq<nat>)
    ensures var patterns := AlignmentLayer(FinderLayer(TimingLayer(size - 7), size, 5, -4), align, |align|, 0);
            FunctionLayer(size, version, align)
            == if version >= 7 then VersionLayer(patterns, size, VersionWord(version), 18) else patterns
  {}

  // ----- only function modules are drawn

  lemma TimingIsCovered(size: nat, version: nat, align: seq<nat>, i: int)
    requires 0 <= i < size
    ensures Covered(EncoderRects(size, version, align), 6, i) && Covered(EncoderRects(size, version, align), i, 6)
  {
    hide Covered, EncoderRects;
    EncoderCovers(size, version, align, 6, i);
    EncoderCovers(size, version, align, i, 6);
  }

  lemma FinderIsCovered(size: nat, version: nat, align: seq<nat>, x: int, y: int)
    requires InGrid(size, x, y) && size >= 17
    requires (x < 9 && y < 9) || (x >= size - 8 && y < 9) || (x < 9 && y >= size - 8)
    ensures Covered(EncoderRects(size, version, align), x, y)
  {
    hide Covered, EncoderRects;
    EncoderCovers(size, version, align, x, y);
    CoveredFinders(size, x, y);
  }

  lemma AlignmentIsCovered(size: nat, version: nat, align: seq<nat>, i: nat, j: nat, x: int, y: int)
    requires i < |align| && j < |align| && !EncoderCorner(align, i, j) && Block(align[i], align[j]).Contains(x, y)
    ensures Covered(EncoderRects(size, version, align), x, y)
  {
    hide Covered, EncoderRects, EncoderCorner;
    EncoderCovers(size, version, align, x, y);
    AllBlocksCover(align, |align|, x, y);
  }

  lemma VersionIsCovered(size: nat, version: nat, align: seq<nat>, i: int, k: int)
    requires version >= 7 && 0 <= i < 6 && size - 11 <= k < size - 8
    ensures Covered(EncoderRects(size, version, align), k, i) && Covered(EncoderRects(size, version, align), i, k)
  {
    hide Covered, EncoderRects;
    EncoderCovers(size, version, align, k, i);
    EncoderCovers(size, version, align, i, k);
    VersionCovered(size, version, k, i);
    VersionCovered(size, version, i, k);
  }

  lemma {:induction false} AlignmentInside(below: Layer, size: nat, version: nat, align: seq<nat>, i: nat, j: nat,
                                           x: int, y: int)
    requires j <= |align| && (i < |align| || (i == |align| && j == 0))
    ensures AlignmentLayer(below, align, i, j)(x, y) == below(x, y) || Covered(EncoderRects(size, version, align), x, y)
    decreases i, j
  {
    hide Covered, EncoderRects, EncoderCorner, AlignmentLayer;
    AlignmentParts(below, align, i, j);
    if j > 0 {
      AlignmentInside(below, size, version, align, i, j - 1, x, y);
      if !EncoderCorner(align, i, j - 1) && Near(x, align[i], 1) && Near(y, align[j - 1], 1) {
        AlignmentIsCovered(size, version, align, i, j - 1, x, y);
      }
    } else if i > 0 {
      AlignmentInside(below, size, version, align, i - 1, |align|, x, y);
    }
  }

  lemma AlignmentParts(below: Layer, align: seq<nat>, i: nat, j: nat)
    requires j <= |align| && (i < |align| || (i == |align| && j == 0))
    ensures AlignmentLayer(below, align, i, j) ==
      if j > 0 then
        var before := AlignmentLayer(below, align, i, j - 1);
        if EncoderCorner(align, i, j - 1) then before else BlockLayer(before, align[i], align[j - 1], 2, -1)
      else if i > 0 then AlignmentLayer(below, align, i - 1, |align|)
      else below
  {}

  lemma BlockColour(below: Layer, cx: int, cy: int, x: int, y: int)
    requires Near(x, cx, 1) && Near(y, cy, 1)
    ensures BlockLayer(below, cx, cy, 2, -1)(x, y) == Some(x == cx && y == cy)
  {
    assert Reached(cx, cy, 2, -1, x, y);
  }

  /** Patterns at least five apart do not disturb each other: each shows a light ring around a dark module. */
  lemma {:induction false} AlignmentColour(below: Layer, align: seq<nat>, i: nat, j: nat, k: nat, l: nat, x: int,
                                           y: int)
    requires Spaced(align)
    requires j <= |align| && (i < |align| || (i == |align| && j == 0))
    requires k < |align| && l < |align| && (k < i || (k == i && l < j)) && !EncoderCorner(align, k, l)
    requires Near(x, align[k], 1) && Near(y, align[l], 1)
    ensures AlignmentLayer(below, align, i, j)(x, y) == Some(x == align[k] && y == align[l])
    decreases i, j
  {
    hide EncoderCorner, AlignmentLayer;
    AlignmentParts(below, align, i, j);
    if j > 0 {
      var before, cx, cy := AlignmentLayer(below, align, i, j - 1), align[i], align[j - 1];
      if i == k && j - 1 == l {
        BlockColour(before, cx, cy, x, y);
      } else {
        AlignmentColour(below, align, i, j - 1, k, l, x, y);
        assert !(Near(x, cx, 1) && Near(y, cy, 1));
        assert BlockLayer(before, cx, cy, 2, -1)(x, y) == before(x, y);
      }
    } else {
      AlignmentColour(below, align, i - 1, |align|, k, l, x, y);
    }
  }

  lemma FinderInside(below: Layer, size: nat, version: nat, align: seq<nat>, x: int, y: int)
    requires InGrid(size, x, y) && size >= 21
    ensures FinderLayer(below, size, 5, -4)(x, y) == below(x, y) || Covered(EncoderRects(size, version, align), x, y)
  {
    hide Covered, EncoderRects;
    if FinderLayer(below, size, 5, -4)(x, y) != below(x, y) {
      FinderIsCovered(size, version, align, x, y);
    }
  }

  /** Every module that gets a colour belongs to a pattern. */
  lemma LayerInside(size: nat, version: nat, align: seq<nat>, x: int, y: int)
    requires InGrid(size, x, y) && size >= 21 && (version >= 7 ==> size >= 45)
    ensures FunctionLayer(size, version, align)(x, y).Some? ==> Covered(EncoderRects(size, version, align), x, y)
  {
    hide Covered, EncoderRects, AlignmentLayer, Bit, VersionWord;
    var timing := TimingLayer(size - 7);
    var finders := FinderLayer(timing, size, 5, -4);
    AlignmentInside(finders, size, version, align, |align|, 0, x, y);
    FinderInside(timing, size, version, align, x, y);
    if timing(x, y).Some? {
      TimingIsCovered(size, version, align, if x == 6 then y else x);
    }
    if version >= 7 {
      if 0 <= y < 6 && size - 11 <= x < size - 8 {
        VersionIsCovered(size, version, align, y, x);
      }
      if 0 <= x < 6 && size - 11 <= y < size - 8 {
        VersionIsCovered(size, version, align, x, y);
      }
    }
  }

  /** The function modules are dark, except where the patterns say otherwise. */
  ghost predicate Patterned(size: nat, version: nat, align: seq<nat>, g: Modules) {
    && |g| == size * size
    && forall x: int, y: int :: InGrid(size, x, y) && Covered(EncoderRects(size, version, align), x, y) ==>
         g[Index(size, x, y)] == Over(FunctionLayer(size, version, align)(x, y), true)
  }

  /** Drawing over a grid whose function modules are dark gives the patterns and keeps all other modules. */
  lemma DrawnPatterns(q: seq<byte>, size: nat, version: nat, align: seq<nat>, g: Modules)
    requires size >= 21 && (version >= 7 ==> size >= 45)
    requires Shows(q, size, g, FunctionLayer(size, version, align))
    requires forall p :: 0 <= p < |g| && Dark(size, EncoderRects(size, version, align))[p] ==> g[p]
    ensures Patterned(size, version, align, View(q, size))
    ensures SameFree(Dark(size, EncoderRects(size, version, align)), View(q, size), g)
  {
    hide View, Dark, Covered, Index, FunctionLayer, EncoderRects;
    var rects := EncoderRects(size, version, align);
    forall x: int, y: int | InGrid(size, x, y) && Covered(rects, x, y)
      ensures View(q, size)[Index(size, x, y)] == Over(FunctionLayer(size, version, align)(x, y), true)
    {
      DarkAt(size, rects, x, y);
    }
    forall p | 0 <= p < |g| && !Dark(size, rects)[p]
      ensures View(q, size)[p] == g[p]
    {
      PositionInGrid(size, p);
      var x, y := p % size, p / size;
      DarkAt(size, rects, x, y);
      LayerInside(size, version, align, x, y);
    }
  }
}
