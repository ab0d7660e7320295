/** How many modules of a symbol are free: the encoder's formula counts exactly those along the walk. */
module ModuleCount {
  import opened Bits
  import opened Grid
  import opened Zigzag
  import opened Placement
  import opened Regions
  import opened FunctionPatterns
  import opened FunctionModules

  // ----- counting

  /** All pairs of a column and a row. */
  function Pairs(xs: set<int>, ys: set<int>): set<(int, int)> {
    set x, y | x in xs && y in ys :: (x, y)
  }

  lemma {:induction false} ColumnSize(x: int, ys: set<int>)
    ensures |Pairs({x}, ys)| == |ys|
    decreases |ys|
  {
    if ys == {} {
      assert Pairs({x}, ys) == {};
    } else {
      var y := Member(ys);
      ColumnSize(x, ys - {y});
      assert Pairs({x}, ys) == Pairs({x}, ys - {y}) + {(x, y)};
    }
  }

  lemma {:induction false} PairsSize(xs: set<int>, ys: set<int>)
    ensures |Pairs(xs, ys)| == |xs| * |ys|
    decreases |xs|
  {
    hide Pairs;
    if xs == {} {
      NoPairs(ys);
    } else {
      var x := Member(xs);
      var rest := xs - {x};
      PairsSize(rest, ys);
      ColumnSize(x, ys);
      OneColumnMore(xs, x, ys);
      OneRowMore(|rest|, |ys|);
    }
  }

  lemma NoPairs(ys: set<int>)
    ensures Pairs({}, ys) == {}
  {}

  lemma OneColumnMore(xs: set<int>, x: int, ys: set<int>)
    requires x in xs
    ensures Pairs(xs, ys) == Pairs(xs - {x}, ys) + Pairs({x}, ys)
    ensures Pairs(xs - {x}, ys) !! Pairs({x}, ys)
  {}

  lemma OneRowMore(m: nat, n: nat)
    ensures (m + 1) * n == m * n + n
  {}

  /** The numbers from a up to b - 1. */
  function Range(a: int, b: int): set<int>
    decreases b - a
  {
    if b <= a then {} else Range(a, b - 1) + {b - 1}
  }

  lemma {:induction false} RangeMember(a: int, b: int, z: int)
    ensures z in Range(a, b) <==> a <= z < b
    decreases b - a
  {
    if a < b {
      RangeMember(a, b - 1, z);
    }
  }

  lemma {:induction false} RangeCount(a: int, b: int)
    requires a <= b
    ensures |Range(a, b)| == b - a
    decreases b - a
  {
    if a < b {
      RangeCount(a, b - 1);
      RangeMember(a, b - 1, b - 1);
    }
  }

  // ----- the alignment patterns

  /** The columns (or rows) of the pattern around a centre. */
  function Reach(c: int): set<int> {
    Range(c - 2, c + 3)
  }

  /** The columns (or rows) of the patterns around centres i, ..., j - 1. */
  function Strip(align: seq<nat>, i: nat, j: int): set<int>
    requires j <= |align|
    decreases j
  {
    if j <= i then {} else Strip(align, i, j - 1) + Reach(align[j - 1])
  }

  lemma {:induction false} StripMember(align: seq<nat>, i: nat, j: int, z: int)
    requires j <= |align|
    ensures z in Strip(align, i, j) <==> exists k :: i <= k < j && z in Reach(align[k])
    decreases j
  {
    if i < j {
      StripMember(align, i, j - 1, z);
    }
  }

  lemma ReachMember(c: int, z: int)
    ensures z in Reach(c) <==> c - 2 <= z <= c + 2
  {
    RangeMember(c - 2, c + 3, z);
  }

  lemma ReachSize(c: int)
    ensures |Reach(c)| == 5
  {
    RangeCount(c - 2, c + 3);
  }

  lemma {:induction false} StripSize(align: seq<nat>, i: nat, j: int)
    requires Spaced(align) && j <= |align|
    ensures |Strip(align, i, j)| == if j <= i then 0 else 5 * (j - i)
    decreases j
  {
    hide Reach;
    if i < j {
      StripSize(align, i, j - 1);
      var last := Reach(align[j - 1]);
      ReachSize(align[j - 1]);
      forall z | z in last
        ensures z !in Strip(align, i, j - 1)
      {
        ReachMember(align[j - 1], z);
        StripMember(align, i, j - 1, z);
        if z in Strip(align, i, j - 1) {
          var k :| i <= k < j - 1 && z in Reach(align[k]);
          ReachMember(align[k], z);
        }
      }
      assert Strip(align, i, j - 1) !! last;
    }
  }

  /** Patterns in the first column stand beside the timing pattern, which runs through them. */
  function Beside(): set<int> {
    {4, 5, 7, 8}
  }

  // ----- the function modules, in pieces that do not overlap

  function Finding(size: nat): set<(int, int)> {
    Pairs(Range(0, 9), Range(0, 9)) + Pairs(Range(size - 8, size), Range(0, 9))
      + Pairs(Range(0, 9), Range(size - 8, size))
  }

  function Timing(size: nat): set<(int, int)> {
    Pairs({6}, Range(9, size - 8)) + Pairs(Range(9, size - 8), {6})
  }

  /** The patterns away from the timing patterns, and what those in the first column and row add to them. */
  function Aligning(align: seq<nat>): set<(int, int)> {
    var far, near := Strip(align, 1, |align|), Strip(align, 1, |align| - 1);
    Pairs(far, far) + Pairs(Beside(), near) + Pairs(near, Beside())
  }

  function Versions(size: nat, version: nat): set<(int, int)> {
    if version >= 7 then
      Pairs(Range(size - 11, size - 8), Range(0, 6)) + Pairs(Range(0, 6), Range(size - 11, size - 8))
    else {}
  }

  lemma FindingSize(size: nat)
    requires size >= 21
    ensures |Finding(size)| == 225
  {
    hide Range, Pairs;
    RangeCount(0, 9);
    RangeCount(size - 8, size);
    PairsSize(Range(0, 9), Range(0, 9));
    PairsSize(Range(size - 8, size), Range(0, 9));
    PairsSize(Range(0, 9), Range(size - 8, size));
    Apart(Range(0, 9), Range(0, 9), Range(size - 8, size), Range(0, 9));
    Apart(Range(0, 9), Range(0, 9), Range(0, 9), Range(size - 8, size));
    Apart(Range(size - 8, size), Range(0, 9), Range(0, 9), Range(size - 8, size));
    RangesApart(0, 9, size - 8, size);
  }

  lemma RangesApart(a: int, b: int, c: int, d: int)
    requires b <= c
    ensures Range(a, b) !! Range(c, d)
  {
    forall z | z in Range(a, b)
      ensures z !in Range(c, d)
    {
      RangeMember(a, b, z);
      RangeMember(c, d, z);
    }
  }

  lemma Apart(xs: set<int>, ys: set<int>, xs': set<int>, ys': set<int>)
    ensures xs !! xs' || ys !! ys' ==> Pairs(xs, ys) !! Pairs(xs', ys')
  {}

  lemma TimingSize(size: nat)
    requires size >= 21
    ensures |Timing(size)| == 2 * (size - 17)
  {
    hide Range, Pairs;
    RangeCount(9, size - 8);
    PairsSize({6}, Range(9, size - 8));
    PairsSize(Range(9, size - 8), {6});
    RangeMember(9, size - 8, 6);
    Apart({6}, Range(9, size - 8), Range(9, size - 8), {6});
  }

  lemma VersionsSize(size: nat, version: nat)
    requires size >= 21
    ensures |Versions(size, version)| == if version >= 7 then 36 else 0
  {
    hide Range, Pairs;
    RangeCount(0, 6);
    RangeCount(size - 11, size - 8);
    PairsSize(Range(0, 6), Range(size - 11, size - 8));
    PairsSize(Range(size - 11, size - 8), Range(0, 6));
    RangesApart(0, 6, size - 11, size - 8);
    Apart(Range(size - 11, size - 8), Range(0, 6), Range(0, 6), Range(size - 11, size - 8));
  }

  lemma AligningSize(align: seq<nat>)
    requires Spaced(align) && (align == [] || (|align| >= 2 && align[0] == 6))
    ensures var k := |align|;
            |Aligning(align)| == if k == 0 then 0 else 25 * (k - 1) * (k - 1) + 40 * (k - 2)
  {
    hide Pairs, Strip, Beside, Spaced;
    var k := |align|;
    var far, near := Strip(align, 1, k), Strip(align, 1, k - 1);
    StripSize(align, 1, k);
    StripSize(align, 1, k - 1);
    forall z | z in far || z in near
      ensures z !in Beside()
    {
      FarFromFirst(align, z);
    }
    assert far !! Beside() && near !! Beside();
    CrossSize(far, near);
    if k >= 2 {
      assert (5 * (k - 1)) * (5 * (k - 1)) == 25 * (k - 1) * (k - 1);
    }
  }

  lemma CrossSize(far: set<int>, near: set<int>)
    requires far !! Beside() && near !! Beside()
    ensures |Pairs(far, far) + Pairs(Beside(), near) + Pairs(near, Beside())| == |far| * |far| + 8 * |near|
  {
    hide Pairs, Beside;
    BesideSize();
    PairsSize(far, far);
    PairsSize(Beside(), near);
    PairsSize(near, Beside());
    Apart(far, far, Beside(), near);
    Apart(far, far, near, Beside());
    Apart(Beside(), near, near, Beside());
  }

  lemma BesideSize()
    ensures |Beside()| == 4
  {}

  lemma FarFromFirst(align: seq<nat>, z: int)
    requires Spaced(align) && (align == [] || (|align| >= 2 && align[0] == 6))
    requires z in Strip(align, 1, |align|) || z in Strip(align, 1, |align| - 1)
    ensures z >= 9 && z !in Beside()
  {
    hide Strip, Reach;
    StripMember(align, 1, |align|, z);
    StripMember(align, 1, |align| - 1, z);
    var k :| 1 <= k < |align| && z in Reach(align[k]);
    ReachMember(align[k], z);
  }

  /** Centres with a wide gap at the end. */
  predicate Laid(size: nat, align: seq<nat>) {
    && Spaced(align) && AlignmentCentres(size, align)
    && (|align| >= 3 ==> align[|align| - 2] + 7 <= size - 7)
  }

  lemma NearBelowFormat(size: nat, align: seq<nat>, z: int)
    requires Laid(size, align) && z in Strip(align, 1, |align| - 1)
    ensures 9 <= z < size - 11
  {
    hide Strip, Reach;
    StripMember(align, 1, |align| - 1, z);
    FarFromFirst(align, z);
    var k :| 1 <= k < |align| - 1 && z in Reach(align[k]);
    ReachMember(align[k], z);
    assert align[k] <= align[|align| - 2];
  }

  lemma FarBelowEnd(size: nat, align: seq<nat>, z: int)
    requires Laid(size, align) && z in Strip(align, 1, |align|)
    ensures 9 <= z < size - 4
  {
    hide Strip, Reach;
    StripMember(align, 1, |align|, z);
    FarFromFirst(align, z);
    var k :| 1 <= k < |align| && z in Reach(align[k]);
    ReachMember(align[k], z);
    assert align[k] <= align[|align| - 1];
  }

  /** All function modules. */
  function Pieces(size: nat, version: nat, align: seq<nat>): set<(int, int)> {
    Finding(size) + Timing(size) + Aligning(align) + Versions(size, version)
  }

  /** Where the pieces are. */
  lemma PairMember(x: int, y: int, xs: set<int>, ys: set<int>)
    ensures (x, y) in Pairs(xs, ys) <==> x in xs && y in ys
  {}

  lemma FindingMember(size: nat, x: int, y: int)
    ensures (x, y) in Finding(size) <==> Covered(Finders(size), x, y)
  {
    hide Range, Pairs, Covered, Finders;
    CoveredFinders(size, x, y);
    PairMember(x, y, Range(0, 9), Range(0, 9));
    PairMember(x, y, Range(size - 8, size), Range(0, 9));
    PairMember(x, y, Range(0, 9), Range(size - 8, size));
    RangeMember(0, 9, x);
    RangeMember(0, 9, y);
    RangeMember(size - 8, size, x);
    RangeMember(size - 8, size, y);
  }

  lemma TimingMember(size: nat, x: int, y: int)
    requires size >= 17
    ensures (x, y) in Timing(size) <==>
      Rect(6, 9, 1, size - 17).Contains(x, y) || Rect(9, 6, size - 17, 1).Contains(x, y)
  {
    hide Range, Pairs;
    PairMember(x, y, {6}, Range(9, size - 8));
    PairMember(x, y, Range(9, size - 8), {6});
    RangeMember(9, size - 8, x);
    RangeMember(9, size - 8, y);
  }

  lemma VersionsMember(size: nat, version: nat, x: int, y: int)
    ensures (x, y) in Versions(size, version) <==> Covered(VersionBlocks(size, version), x, y)
  {
    hide Range, Pairs, Covered;
    PairMember(x, y, Range(0, 6), Range(size - 11, size - 8));
    PairMember(x, y, Range(size - 11, size - 8), Range(0, 6));
    RangeMember(0, 6, x);
    RangeMember(0, 6, y);
    RangeMember(size - 11, size - 8, x);
    RangeMember(size - 11, size - 8, y);
    if version >= 7 {
      VersionCovered(size, version, x, y);
    } else {
      NothingCovered(x, y);
    }
  }

  lemma BlockMember(a: nat, b: nat, x: int, y: int)
    ensures Block(a, b).Contains(x, y) <==> x in Reach(a) && y in Reach(b)
  {
    hide Reach;
    ReachMember(a, x);
    ReachMember(b, y);
  }

  /** The same, in terms of the centres. */
  lemma AligningReached(align: seq<nat>, x: int, y: int)
    ensures (x, y) in Aligning(align) <==>
      var n := |align|;
      || ((exists i :: 1 <= i < n && x in Reach(align[i])) && (exists j :: 1 <= j < n && y in Reach(align[j])))
      || (x in Beside() && (exists j :: 1 <= j < n - 1 && y in Reach(align[j])))
      || ((exists i :: 1 <= i < n - 1 && x in Reach(align[i])) && y in Beside())
  {
    hide Pairs, Strip, Reach, Beside;
    var n := |align|;
    var far, near := Strip(align, 1, n), Strip(align, 1, n - 1);
    PairMember(x, y, far, far);
    PairMember(x, y, Beside(), near);
    PairMember(x, y, near, Beside());
    StripMember(align, 1, n, x);
    StripMember(align, 1, n, y);
    StripMember(align, 1, n - 1, x);
    StripMember(align, 1, n - 1, y);
  }

  /** The first centre reaches the modules beside the timing pattern, apart from that. */
  lemma FirstReaches(size: nat, align: seq<nat>, z: int)
    requires Laid(size, align) && align != [] && z != 6
    ensures z in Reach(align[0]) <==> z in Beside()
  {
    hide Reach;
    ReachMember(align[0], z);
  }

  lemma BlocksAligned(size: nat, align: seq<nat>, i: nat, j: nat, x: int, y: int)
    requires Laid(size, align) && x != 6 && y != 6 && i < |align| && j < |align|
    requires !EncoderCorner(align, i, j) && Block(align[i], align[j]).Contains(x, y)
    ensures (x, y) in Aligning(align)
  {
    hide Reach, Block, Beside, Aligning;
    AligningReached(align, x, y);
    BlockMember(align[i], align[j], x, y);
    FirstReaches(size, align, x);
    FirstReaches(size, align, y);
  }

  lemma AlignedBlocks(size: nat, align: seq<nat>, x: int, y: int) returns (i: nat, j: nat)
    requires Laid(size, align) && x != 6 && y != 6 && (x, y) in Aligning(align)
    ensures i < |align| && j < |align|
    ensures !EncoderCorner(align, i, j) && Block(align[i], align[j]).Contains(x, y)
  {
    hide Reach, Block, Beside, Aligning, Laid;
    var n := |align|;
    AligningReached(align, x, y);
    if align != [] {
      FirstReaches(size, align, x);
      FirstReaches(size, align, y);
    }
    if (exists a :: 1 <= a < n && x in Reach(align[a])) && (exists b :: 1 <= b < n && y in Reach(align[b])) {
      i :| 1 <= i < n && x in Reach(align[i]);
      j :| 1 <= j < n && y in Reach(align[j]);
    } else if x in Beside() && exists b :: 1 <= b < n - 1 && y in Reach(align[b]) {
      i := 0;
      j :| 1 <= j < n - 1 && y in Reach(align[j]);
    } else {
      i :| 1 <= i < n - 1 && x in Reach(align[i]);
      j := 0;
    }
    BlockMember(align[i], align[j], x, y);
  }

  /** Outside the timing patterns, the pieces of the alignment patterns are what the patterns cover. */
  lemma AligningMember(size: nat, align: seq<nat>, x: int, y: int)
    requires Laid(size, align) && x != 6 && y != 6
    ensures (x, y) in Aligning(align) <==> Covered(AllBlocks(align, |align|), x, y)
  {
    hide Laid, Aligning, AllBlocks, Covered, Block, EncoderCorner;
    var n := |align|;
    AllBlocksCover(align, n, x, y);
    if Covered(AllBlocks(align, n), x, y) {
      var i, j :| 0 <= i < n && 0 <= j < n && !EncoderCorner(align, i, j) && Block(align[i], align[j]).Contains(x, y);
      BlocksAligned(size, align, i, j, x, y);
    }
    if (x, y) in Aligning(align) {
      var i, j := AlignedBlocks(size, align, x, y);
    }
  }

  /** The pieces are the function modules of the encoder. */
  lemma PiecesMember(size: nat, version: nat, align: seq<nat>, x: int, y: int)
    requires size >= 21 && InGrid(size, x, y) && Laid(size, align)
    ensures (x, y) in Pieces(size, version, align) <==> Covered(EncoderRects(size, version, align), x, y)
  {
    hide Finding, Timing, Aligning, Versions, Laid, Covered, AllBlocks, VersionBlocks, EncoderRects, Finders;
    FindingMember(size, x, y);
    TimingMember(size, x, y);
    VersionsMember(size, version, x, y);
    EncoderCovers(size, version, align, x, y);
    TimingCovered(size, x, y);
    if x == 6 || y == 6 {
      CoveredFinders(size, x, y);
    } else {
      AligningMember(size, align, x, y);
    }
  }

  lemma AligningWithin(size: nat, align: seq<nat>, x: int, y: int)
    requires Laid(size, align) && (x, y) in Aligning(align)
    ensures || (9 <= x < size - 4 && 9 <= y < size - 4)
            || (x in Beside() && 9 <= y < size - 11)
            || (9 <= x < size - 11 && y in Beside())
  {
    hide Pairs, Strip, Beside, Laid;
    var n := |align|;
    var far, near := Strip(align, 1, n), Strip(align, 1, n - 1);
    PairMember(x, y, far, far);
    PairMember(x, y, Beside(), near);
    PairMember(x, y, near, Beside());
    if x in far && y in far {
      FarBelowEnd(size, align, x);
      FarBelowEnd(size, align, y);
    } else if x in Beside() && y in near {
      NearBelowFormat(size, align, y);
    } else {
      NearBelowFormat(size, align, x);
    }
  }

  /** No two pieces overlap. */
  lemma PiecesApart(size: nat, version: nat, align: seq<nat>)
    requires size >= 21 && Laid(size, align)
    ensures Finding(size) !! Timing(size) && (Finding(size) + Timing(size)) !! Aligning(align)
    ensures (Finding(size) + Timing(size) + Aligning(align)) !! Versions(size, version)
  {
    hide Finding, Timing, Aligning, Versions, Laid, Covered, Finders, VersionBlocks;
    forall p: (int, int)
      ensures p in Finding(size) ==> p !in Timing(size) && p !in Aligning(align) && p !in Versions(size, version)
      ensures p in Timing(size) ==> p !in Aligning(align) && p !in Versions(size, version)
      ensures p in Aligning(align) ==> p !in Versions(size, version)
    {
      OnePiece(size, version, align, p.0, p.1);
    }
  }

  lemma OnePiece(size: nat, version: nat, align: seq<nat>, x: int, y: int)
    requires size >= 21 && Laid(size, align)
    ensures (x, y) in Finding(size) ==>
      (x, y) !in Timing(size) && (x, y) !in Aligning(align) && (x, y) !in Versions(size, version)
    ensures (x, y) in Timing(size) ==> (x, y) !in Aligning(align) && (x, y) !in Versions(size, version)
    ensures (x, y) in Aligning(align) ==> (x, y) !in Versions(size, version)
  {
    hide Finding, Timing, Aligning, Versions, Laid, Covered, Finders, VersionBlocks;
    FindingMember(size, x, y);
    CoveredFinders(size, x, y);
    TimingMember(size, x, y);
    VersionsMember(size, version, x, y);
    if (x, y) in Versions(size, version) {
      VersionPlace(size, version, x, y);
    }
    if (x, y) in Aligning(align) {
      AligningWithin(size, align, x, y);
    }
  }

  lemma VersionPlace(size: nat, version: nat, x: int, y: int)
    requires Covered(VersionBlocks(size, version), x, y)
    ensures Rect(size - 11, 0, 3, 6).Contains(x, y) || Rect(0, size - 11, 6, 3).Contains(x, y)
  {
    hide Covered;
    if version >= 7 {
      VersionCovered(size, version, x, y);
    } else {
      NothingCovered(x, y);
    }
  }

  // ----- the free modules along the walk

  lemma {:induction false} FreeMember(func: Modules, walk: seq<nat>, p: nat)
    requires Inside(walk, |func|)
    ensures p in FreeModules(func, walk) <==> p in walk && !func[p]
    decreases |walk|
  {
    if walk != [] {
      var n := |walk| - 1;
      FreeMember(func, walk[..n], p);
      assert walk == walk[..n] + [walk[n]];
    }
  }

  lemma {:induction false} FreeDistinct(func: Modules, walk: seq<nat>)
    requires Inside(walk, |func|) && Distinct(walk)
    ensures Distinct(FreeModules(func, walk))
    decreases |walk|
  {
    if walk != [] {
      var n := |walk| - 1;
      FreeDistinct(func, walk[..n]);
      FreeMember(func, walk[..n], walk[n]);
      assert walk[n] !in walk[..n];
    }
  }

  /** Column and row of a position. */
  function Spot(size: nat, p: nat): (int, int)
    requires size >= 1
  {
    (p % size, p / size)
  }

  lemma SpotAt(size: nat, p: nat)
    requires size >= 1 && p < size * size
    ensures InGrid(size, Spot(size, p).0, Spot(size, p).1) && Index(size, Spot(size, p).0, Spot(size, p).1) == p
  {
    PositionInGrid(size, p);
  }

  lemma SpotOf(size: nat, c: (int, int))
    requires size >= 1 && InGrid(size, c.0, c.1)
    ensures Spot(size, Index(size, c.0, c.1)) == c
  {
    IndexParts(size, c.0, c.1);
  }

  /** The list numbers modules of the set only, and all of them. */
  predicate Numbers(size: nat, list: seq<nat>, s: set<(int, int)>)
    requires size >= 1
  {
    && (forall p :: p in list ==> p < size * size && Spot(size, p) in s)
    && (forall c :: c in s ==> InGrid(size, c.0, c.1) && Index(size, c.0, c.1) in list)
  }

  /** A list without repetitions that numbers the modules of a set is as long as the set is large. */
  lemma {:induction false} ListedOnce(size: nat, list: seq<nat>, s: set<(int, int)>)
    requires size >= 1 && Distinct(list) && Numbers(size, list, s)
    ensures |list| == |s|
    decreases |list|
  {
    hide Distinct, Numbers;
    if list == [] {
      NumbersNothing(size, s);
    } else {
      var n := |list| - 1;
      RestDistinct(list);
      RestNumbers(size, list, s);
      ListedOnce(size, list[..n], s - {Spot(size, list[n])});
    }
  }

  lemma NumbersNothing(size: nat, s: set<(int, int)>)
    requires size >= 1 && Numbers(size, [], s)
    ensures s == {}
  {
    if s != {} {
      var c := Member(s);
      assert false;
    }
  }

  lemma RestDistinct(list: seq<nat>)
    requires list != [] && Distinct(list)
    ensures Distinct(list[..|list| - 1]) && list[|list| - 1] !in list[..|list| - 1]
  {}

  lemma RestNumbers(size: nat, list: seq<nat>, s: set<(int, int)>)
    requires size >= 1 && list != [] && Distinct(list) && Numbers(size, list, s)
    ensures var n := |list| - 1;
            var c := Spot(size, list[n]);
            c in s && Numbers(size, list[..n], s - {c})
  {
    hide Distinct, Index, InGrid, Spot;
    var n := |list| - 1;
    var p, rest := list[n], list[..n];
    var c := Spot(size, p);
    RestDistinct(list);
    assert list == rest + [p];
    assert p in list;
    SpotAt(size, p);
    forall q | q in rest
      ensures q < size * size && Spot(size, q) in s - {c}
    {
      assert q in list;
      SpotAt(size, q);
    }
    forall d | d in s - {c}
      ensures InGrid(size, d.0, d.1) && Index(size, d.0, d.1) in rest
    {
      SpotOf(size, d);
      assert Index(size, d.0, d.1) in list;
    }
  }

  /** The grid without the function modules. */
  function Free(size: nat, version: nat, align: seq<nat>): set<(int, int)> {
    Pairs(Range(0, size), Range(0, size)) - Pieces(size, version, align)
  }

  lemma PiecesSize(size: nat, version: nat, align: seq<nat>)
    requires size >= 21 && Laid(size, align)
    ensures var k := |align|;
            |Pieces(size, version, align)| == 225 + 2 * (size - 17)
              + (if k == 0 then 0 else 25 * (k - 1) * (k - 1) + 40 * (k - 2)) + (if version >= 7 then 36 else 0)
  {
    hide Finding, Timing, Aligning, Versions;
    FindingSize(size);
    TimingSize(size);
    AligningSize(align);
    VersionsSize(size, version);
    PiecesApart(size, version, align);
  }

  lemma FreeSize(size: nat, version: nat, align: seq<nat>)
    requires size >= 21 && Laid(size, align)
    ensures |Free(size, version, align)| == size * size - |Pieces(size, version, align)|
  {
    hide Range, Pairs, Pieces, Laid;
    var all, pieces := Pairs(Range(0, size), Range(0, size)), Pieces(size, version, align);
    RangeCount(0, size);
    PairsSize(Range(0, size), Range(0, size));
    forall p | p in pieces
      ensures p in all
    {
      PieceInGrid(size, version, align, p.0, p.1);
      InAll(size, p.0, p.1);
    }
    assert pieces <= all;
    assert |all - pieces| == |all| - |pieces|;
  }

  lemma InAll(size: nat, x: int, y: int)
    ensures (x, y) in Pairs(Range(0, size), Range(0, size)) <==> InGrid(size, x, y)
  {
    hide Range, Pairs;
    PairMember(x, y, Range(0, size), Range(0, size));
    RangeMember(0, size, x);
    RangeMember(0, size, y);
  }

  lemma PieceInGrid(size: nat, version: nat, align: seq<nat>, x: int, y: int)
    requires size >= 21 && Laid(size, align) && (x, y) in Pieces(size, version, align)
    ensures InGrid(size, x, y)
  {
    hide Finding, Timing, Aligning, Versions, Laid, Covered, Finders, VersionBlocks;
    FindingMember(size, x, y);
    CoveredFinders(size, x, y);
    TimingMember(size, x, y);
    VersionsMember(size, version, x, y);
    if (x, y) in Versions(size, version) {
      VersionPlace(size, version, x, y);
    }
    if (x, y) in Aligning(align) {
      AligningWithin(size, align, x, y);
    }
  }

  /** The walk meets the free modules and no others that are light. */
  lemma FreeAlongWalk(size: nat, version: nat, align: seq<nat>)
    requires size >= 21 && size % 2 == 1 && Laid(size, align)
    ensures |FreeModules(Dark(size, EncoderRects(size, version, align)), Scan(size, size - 1, true))|
         == |Free(size, version, align)|
  {
    hide *;
    var func, walk := Dark(size, EncoderRects(size, version, align)), Scan(size, size - 1, true);
    var list, s := FreeModules(func, walk), Free(size, version, align);
    WalkDistinct(size);
    FreeDistinct(func, walk);
    forall p | p in list
      ensures p < size * size && Spot(size, p) in s
    {
      FreeMember(func, walk, p);
      WalkInside(size, p);
      SpotAt(size, p);
      IsFree(size, version, align, Spot(size, p).0, Spot(size, p).1);
    }
    forall c | c in s
      ensures InGrid(size, c.0, c.1) && Index(size, c.0, c.1) in list
    {
      FreeInGrid(size, version, align, c);
      IsFree(size, version, align, c.0, c.1);
      FreeMember(func, walk, Index(size, c.0, c.1));
    }
    AreNumbers(size, list, s);
    ListedOnce(size, list, s);
  }

  lemma FreeInGrid(size: nat, version: nat, align: seq<nat>, c: (int, int))
    requires c in Free(size, version, align)
    ensures c == (c.0, c.1) && InGrid(size, c.0, c.1)
  {
    hide Pairs, Range, Pieces;
    InAll(size, c.0, c.1);
  }

  lemma AreNumbers(size: nat, list: seq<nat>, s: set<(int, int)>)
    requires size >= 1
    requires forall p :: p in list ==> p < size * size && Spot(size, p) in s
    requires forall c :: c in s ==> InGrid(size, c.0, c.1) && Index(size, c.0, c.1) in list
    ensures Numbers(size, list, s)
  {
    hide Spot, Index, InGrid;
  }

  lemma WalkDistinct(size: nat)
    requires size >= 21 && size % 2 == 1
    ensures Distinct(Scan(size, size - 1, true)) && Inside(Scan(size, size - 1, true), size * size)
  {
    hide Scan;
    assert InGrid(size, 0, 0);
    ScanVisitsOnce(size, 0, 0);
  }

  lemma WalkInside(size: nat, p: nat)
    requires p in Scan(size, size - 1, true) && Inside(Scan(size, size - 1, true), size * size)
    ensures p < size * size
  {
    hide Scan;
  }

  /** A module is free exactly if the walk meets it and the encoder has not marked it. */
  lemma IsFree(size: nat, version: nat, align: seq<nat>, x: int, y: int)
    requires size >= 21 && size % 2 == 1 && Laid(size, align) && InGrid(size, x, y)
    ensures (x, y) in Free(size, version, align) <==>
      var p := Index(size, x, y);
      p in Scan(size, size - 1, true) && !Dark(size, EncoderRects(size, version, align))[p]
  {
    hide Pairs, Range, Pieces, Scan, Dark, EncoderRects, Index, Laid, Covered;
    InAll(size, x, y);
    PiecesMember(size, version, align, x, y);
    DarkAt(size, EncoderRects(size, version, align), x, y);
    ScanVisitsOnce(size, x, y);
    if x == 6 {
      ColumnSixCovered(size, version, align, y);
    }
  }

  lemma ColumnSixCovered(size: nat, version: nat, align: seq<nat>, y: int)
    requires size >= 21 && InGrid(size, 6, y)
    ensures Covered(EncoderRects(size, version, align), 6, y)
  {
    hide Covered, Finders, AllBlocks, VersionBlocks, EncoderRects;
    EncoderCovers(size, version, align, 6, y);
  }

  // ----- the formula

  function NumRawDataModules(ver: nat): int {
    var all := (16 * ver + 128) * ver + 64;
    var numAlign := ver / 7 + 2;
    if ver < 2 then all
    else all - ((25 * numAlign - 10) * numAlign - 55) - if ver >= 7 then 36 else 0
  }

  lemma CentresLaid(version: nat, align: seq<nat>)
    requires 1 <= version <= 40 && Centres(version, align)
    ensures Laid(version * 4 + 17, align) && |align| == if version < 2 then 0 else version / 7 + 2
  {
    hide Step;
    FormulaCentres(version, align);
    if version >= 2 {
      var n := version / 7 + 2;
      StepFits(version);
      PositionAt(version, n - 1);
      PositionPrefix(version, n, n - 1);
      PositionPrefix(version, n, n - 2);
    }
  }

  /** The formula is the number of free modules of the encoder's mask along the walk. */
  lemma FormulaCountsFree(version: nat, align: seq<nat>)
    requires 1 <= version <= 40 && Centres(version, align)
    ensures var size := version * 4 + 17;
            |FreeModules(Dark(size, EncoderRects(size, version, align)), Scan(size, size - 1, true))|
            == NumRawDataModules(version)
  {
    hide Free, Pieces, FreeModules, Dark, EncoderRects, Scan, Centres;
    var size := version * 4 + 17;
    CentresLaid(version, align);
    FreeAlongWalk(size, version, align);
    FreeSize(size, version, align);
    PiecesSize(size, version, align);
    Formula(version, |align|);
  }

  lemma Formula(version: nat, k: nat)
    requires version >= 1 && k == if version < 2 then 0 else version / 7 + 2
    ensures var size := version * 4 + 17;
            size * size - 225 - 2 * (size - 17) - (if k == 0 then 0 else 25 * (k - 1) * (k - 1) + 40 * (k - 2))
              - (if version >= 7 then 36 else 0)
            == NumRawDataModules(version)
  {
    assert (version * 4 + 17) * (version * 4 + 17) == 16 * version * version + 136 * version + 289;
  }

  /** The range that the encoder asserts. */
  lemma RawRange(ver: nat)
    requires 1 <= ver <= 40
    ensures 208 <= NumRawDataModules(ver) <= 29648
  {
    var n := ver / 7 + 2;
    if n == 2 {
    } else if n == 3 {
    } else if n == 4 {
    } else if n == 5 {
    } else if n == 6 {
    } else {
      assert n == 7;
    }
  }

  /** No symbol has more free modules than modules. */
  lemma RawFits(version: nat)
    requires 1 <= version <= 40
    ensures NumRawDataModules(version) <= (version * 4 + 17) * (version * 4 + 17)
  {
    var n := version / 7 + 2;
    MulMonotone(25 * n - 10, 2, n);
    assert (version * 4 + 17) * (version * 4 + 17) == 16 * version * version + 136 * version + 289;
  }

  method GetNumRawDataModules(ver: nat) returns (result: int)
    requires 1 <= ver <= 40
    ensures result == NumRawDataModules(ver) && 208 <= result <= 29648
    ensures forall align :: Centres(ver, align) ==>
      var size := ver * 4 + 17;
      result == |FreeModules(Dark(size, EncoderRects(size, ver, align)), Scan(size, size - 1, true))|
  {
    hide FreeModules, Dark, EncoderRects, Scan, Centres;
    result := (16 * ver + 128) * ver + 64;
    if ver >= 2 {
      var numAlign := ver / 7 + 2;
      result := result - ((25 * numAlign - 10) * numAlign - 55);
      if ver >= 7 {
        result := result - 36;
      }
    }
    RawRange(ver);
    forall align | Centres(ver, align)
      ensures var size := ver * 4 + 17;
              result == |FreeModules(Dark(size, EncoderRects(size, ver, align)), Scan(size, size - 1, true))|
    {
      FormulaCountsFree(ver, align);
    }
  }
}
