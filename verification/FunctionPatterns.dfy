/** The function modules of a symbol, as the encoder marks them and as the decoder rebuilds them. */
module FunctionPatterns {
  import opened Bits
  import opened Grid
  import opened Regions

  // ----- the two lists of rectangles

  /** Centres of alignment patterns in ascending order, from 6 to size - 7, or none at all. */
  predicate AlignmentCentres(size: nat, align: seq<nat>) {
    && |align| != 1
    && (forall i, j :: 0 <= i < j < |align| ==> align[i] < align[j])
    && (|align| >= 2 ==> align[0] == 6 && align[|align| - 1] == size - 7)
  }

  /** Centres so far apart that their patterns do not touch. */
  predicate Spaced(align: seq<nat>) {
    forall i, j :: 0 <= i < j < |align| ==> align[i] + 5 <= align[j]
  }

  /** The encoder leaves out the three corners by their indices. */
  predicate EncoderCorner(align: seq<nat>, i: nat, j: nat) {
    (i == 0 && j == 0) || (i == 0 && j == |align| - 1) || (i == |align| - 1 && j == 0)
  }

  /** The decoder leaves them out by their coordinates. */
  predicate DecoderCorner(size: nat, x: nat, y: nat) {
    (x == 6 && y == 6) || (x == 6 && y == size - 7) || (x == size - 7 && y == 6)
  }

  lemma CornersAgree(size: nat, align: seq<nat>, i: nat, j: nat)
    requires AlignmentCentres(size, align) && i < |align| && j < |align|
    ensures EncoderCorner(align, i, j) <==> DecoderCorner(size, align[i], align[j])
  {}

  function Block(x: nat, y: nat): Rect {
    Rect(x - 2, y - 2, 5, 5)
  }

  /** The first j patterns of column i. */
  function BlocksOf(align: seq<nat>, i: nat, j: nat): seq<Rect>
    requires i < |align| && j <= |align|
  {
    if j == 0 then []
    else BlocksOf(align, i, j - 1) + if EncoderCorner(align, i, j - 1) then [] else [Block(align[i], align[j - 1])]
  }

  function AllBlocks(align: seq<nat>, i: nat): seq<Rect>
    requires i <= |align|
  {
    if i == 0 then [] else AllBlocks(align, i - 1) + BlocksOf(align, i - 1, |align|)
  }

  function VersionBlocks(size: nat, version: nat): seq<Rect> {
    if version >= 7 then [Rect(size - 11, 0, 3, 6), Rect(0, size - 11, 6, 3)] else []
  }

  function Finders(size: nat): seq<Rect> {
    [Rect(0, 0, 9, 9), Rect(size - 8, 0, 8, 9), Rect(0, size - 8, 9, 8)]
  }

  /** Timing patterns first, across the whole symbol. */
  function EncoderRects(size: nat, version: nat, align: seq<nat>): seq<Rect> {
    [Rect(6, 0, 1, size), Rect(0, 6, size, 1)] + Finders(size) + AllBlocks(align, |align|)
      + VersionBlocks(size, version)
  }

  /** Timing patterns after the alignment patterns, only between the finder patterns. */
  function DecoderRects(size: nat, version: nat, align: seq<nat>): seq<Rect>
    requires size >= 17
  {
    Finders(size) + AllBlocks(align, |align|)
    + [Rect(6, 9, 1, size - 17), Rect(9, 6, size - 17, 1)] + VersionBlocks(size, version)
  }

  lemma CoveredPair(r: Rect, s: Rect, x: int, y: int)
    ensures Covered([r, s], x, y) <==> r.Contains(x, y) || s.Contains(x, y)
  {
    assert [r, s][0] == r && [r, s][1] == s;
  }

  lemma CoveredFinders(size: nat, x: int, y: int)
    ensures Covered(Finders(size), x, y) <==>
      || Rect(0, 0, 9, 9).Contains(x, y) || Rect(size - 8, 0, 8, 9).Contains(x, y)
      || Rect(0, size - 8, 9, 8).Contains(x, y)
  {
    var f := Finders(size);
    assert f[0] == Rect(0, 0, 9, 9) && f[1] == Rect(size - 8, 0, 8, 9) && f[2] == Rect(0, size - 8, 9, 8);
  }

  lemma EncoderCovers(size: nat, version: nat, align: seq<nat>, x: int, y: int)
    ensures Covered(EncoderRects(size, version, align), x, y) <==>
      || Rect(6, 0, 1, size).Contains(x, y) || Rect(0, 6, size, 1).Contains(x, y)
      || Covered(Finders(size), x, y) || Covered(AllBlocks(align, |align|), x, y)
      || Covered(VersionBlocks(size, version), x, y)
  {
    hide Covered, Rect.Contains, AllBlocks, VersionBlocks, Finders;
    var wide := [Rect(6, 0, 1, size), Rect(0, 6, size, 1)];
    var blocks, vers := AllBlocks(align, |align|), VersionBlocks(size, version);
    CoveredPair(Rect(6, 0, 1, size), Rect(0, 6, size, 1), x, y);
    CoveredConcat(wide, Finders(size), x, y);
    CoveredConcat(wide + Finders(size), blocks, x, y);
    CoveredConcat(wide + Finders(size) + blocks, vers, x, y);
  }

  lemma DecoderCovers(size: nat, version: nat, align: seq<nat>, x: int, y: int)
    requires size >= 17
    ensures Covered(DecoderRects(size, version, align), x, y) <==>
      || Rect(6, 9, 1, size - 17).Contains(x, y) || Rect(9, 6, size - 17, 1).Contains(x, y)
      || Covered(Finders(size), x, y) || Covered(AllBlocks(align, |align|), x, y)
      || Covered(VersionBlocks(size, version), x, y)
  {
    hide Covered, Rect.Contains, AllBlocks, VersionBlocks, Finders;
    var narrow := [Rect(6, 9, 1, size - 17), Rect(9, 6, size - 17, 1)];
    var blocks, vers := AllBlocks(align, |align|), VersionBlocks(size, version);
    CoveredPair(Rect(6, 9, 1, size - 17), Rect(9, 6, size - 17, 1), x, y);
    CoveredConcat(Finders(size), blocks, x, y);
    CoveredConcat(Finders(size) + blocks, narrow, x, y);
    CoveredConcat(Finders(size) + blocks + narrow, vers, x, y);
  }

  /** What a timing pattern covers beyond the shorter one already belongs to a finder pattern. */
  lemma TimingCovered(size: nat, x: int, y: int)
    requires size >= 17 && InGrid(size, x, y)
    ensures (Rect(6, 0, 1, size).Contains(x, y) || Rect(0, 6, size, 1).Contains(x, y) || Covered(Finders(size), x, y))
       <==> (|| Rect(6, 9, 1, size - 17).Contains(x, y) || Rect(9, 6, size - 17, 1).Contains(x, y)
             || Covered(Finders(size), x, y))
  {
    hide Covered, Finders;
    CoveredFinders(size, x, y);
  }

  /** Encoder and decoder mark the same modules, whatever the list of alignment centres. */
  lemma PatternsAgree(size: nat, version: nat, align: seq<nat>)
    requires size >= 17
    ensures Dark(size, EncoderRects(size, version, align)) == Dark(size, DecoderRects(size, version, align))
  {
    hide Dark, Index, AllBlocks, VersionBlocks, Finders, Covered, Rect.Contains, EncoderRects, DecoderRects;
    var encoder, decoder := EncoderRects(size, version, align), DecoderRects(size, version, align);
    forall x: int, y: int | InGrid(size, x, y)
      ensures Dark(size, encoder)[Index(size, x, y)] == Dark(size, decoder)[Index(size, x, y)]
    {
      DarkAt(size, encoder, x, y);
      DarkAt(size, decoder, x, y);
      EncoderCovers(size, version, align, x, y);
      DecoderCovers(size, version, align, x, y);
      TimingCovered(size, x, y);
    }
    SameModules(size, Dark(size, encoder), Dark(size, decoder));
  }

  // ----- alignment centres

  function Step(version: nat): nat
    requires version >= 2
  {
    (version * 8 + (version / 7 + 2) * 3 + 5) / ((version / 7 + 2) * 4 - 4) * 2
  }

  lemma StepValue(version: nat, n: nat)
    requires version >= 2 && n == version / 7 + 2
    ensures Step(version) == (version * 8 + n * 3 + 5) / (n * 4 - 4) * 2
  {}

  /** The first i centres: 6, then steps counted back from the far end. */
  function Positions(version: nat, i: nat): (r: seq<int>)
    requires version >= 2
    ensures |r| == i
  {
    seq(i, k requires 0 <= k => if k == 0 then 6 else version * 4 + 10 - Step(version) * (version / 7 + 1 - k))
  }

  lemma StepOf0(version: nat)
    requires 2 <= version <= 6
    ensures 7 <= Step(version)
  {
    hide Step;
    StepValue(version, 2);
  }

  lemma StepOf1(version: nat)
    requires 7 <= version <= 13
    ensures 7 <= Step(version) && Step(version) <= version * 4 - 1
  {
    hide Step;
    StepValue(version, 3);
  }

  lemma StepOf2(version: nat)
    requires 14 <= version <= 20
    ensures 7 <= Step(version) && 2 * Step(version) <= version * 4 - 1
  {
    hide Step;
    StepValue(version, 4);
  }

  lemma StepOf3(version: nat)
    requires 21 <= version <= 27
    ensures 7 <= Step(version) && 3 * Step(version) <= version * 4 - 1
  {
    hide Step;
    StepValue(version, 5);
  }

  lemma StepOf4(version: nat)
    requires 28 <= version <= 34
    ensures 7 <= Step(version) && 4 * Step(version) <= version * 4 - 1
  {
    hide Step;
    StepValue(version, 6);
  }

  lemma StepOf5(version: nat)
    requires 35 <= version <= 40
    ensures 7 <= Step(version) && 5 * Step(version) <= version * 4 - 1
  {
    hide Step;
    StepValue(version, 7);
  }

  /** The steps fill the distance from 6 to the far end without overlap. */
  lemma StepFits(version: nat)
    requires 2 <= version <= 40
    ensures 7 <= Step(version)
    ensures Step(version) * (version / 7) <= version * 4 - 1
  {
    hide Step;
    if version < 7 {
      StepOf0(version);
      StepTimes(Step(version), version / 7, 0);
    } else if version < 14 {
      StepOf1(version);
      StepTimes(Step(version), version / 7, 1);
    } else if version < 21 {
      StepOf2(version);
      StepTimes(Step(version), version / 7, 2);
    } else if version < 28 {
      StepOf3(version);
      StepTimes(Step(version), version / 7, 3);
    } else if version < 35 {
      StepOf4(version);
      StepTimes(Step(version), version / 7, 4);
    } else {
      StepOf5(version);
      StepTimes(Step(version), version / 7, 5);
    }
  }

  lemma StepTimes(step: nat, n: nat, c: nat)
    requires n == c
    ensures step * n == c * step
  {}

  lemma PositionAt(version: nat, k: nat)
    requires 2 <= version <= 40 && k < version / 7 + 2
    ensures 6 <= Positions(version, k + 1)[k] <= version * 4 + 10
    ensures k > 0 ==> Positions(version, k + 1)[k] >= 11
    ensures k == version / 7 + 1 ==> Positions(version, k + 1)[k] == version * 4 + 10
    ensures k > 1 ==> Positions(version, k + 1)[k] == Positions(version, k)[k - 1] + Step(version)
  {
    hide Step;
    StepFits(version);
    if k > 0 {
      MulMonotone(Step(version), version / 7 + 1 - k, version / 7);
      MulMonotone(Step(version), 0, version / 7 + 1 - k);
    }
    if k > 1 {
      StepsApart(Step(version), version / 7 + 1 - k);
    }
  }

  lemma StepsApart(step: nat, m: nat)
    ensures step * (m + 1) == step * m + step
  {}

  lemma {:induction false} PositionsAscend(version: nat, i: nat, j: nat)
    requires 2 <= version <= 40 && i < j < version / 7 + 2
    ensures Positions(version, i + 1)[i] + 5 <= Positions(version, j + 1)[j]
    decreases j
  {
    hide Step, Positions;
    StepFits(version);
    PositionAt(version, j);
    PositionFirst(version);
    if j > 1 && i < j - 1 {
      PositionsAscend(version, i, j - 1);
    }
  }

  lemma PositionFirst(version: nat)
    requires version >= 2
    ensures Positions(version, 1)[0] == 6
  {}

  lemma PositionPrefix(version: nat, n: nat, k: nat)
    requires version >= 2 && k < n
    ensures Positions(version, n)[k] == Positions(version, k + 1)[k]
  {}

  /** The computed positions are ascending alignment centres whose patterns do not overlap. */
  lemma PositionsAreCentres(version: nat, align: seq<nat>)
    requires 2 <= version <= 40 && align == Positions(version, version / 7 + 2)
    ensures AlignmentCentres(version * 4 + 17, align)
    ensures Spaced(align)
  {
    hide Step, Positions;
    var n := version / 7 + 2;
    forall i, j | 0 <= i < j < |align|
      ensures align[i] + 5 <= align[j]
    {
      PositionsAscend(version, i, j);
      PositionPrefix(version, n, i);
      PositionPrefix(version, n, j);
    }
    PositionFirst(version);
    PositionPrefix(version, n, 0);
    PositionPrefix(version, n, n - 1);
    PositionAt(version, n - 1);
  }

  /** Centres for a version, empty for version 1. */
  ghost predicate Centres(version: nat, align: seq<nat>) {
    if version <= 1 then align == [] else align == Positions(version, version / 7 + 2)
  }

  method GetAlignmentPatternPositions(version: nat, result: array<byte>) returns (numAlign: nat)
    requires 1 <= version <= 40 && result.Length == 7
    modifies result
    ensures numAlign <= 7 && Centres(version, result[..numAlign])
    ensures AlignmentCentres(version * 4 + 17, result[..numAlign])
  {
    if version == 1 {
      return 0;
    }
    hide Step, Positions, AlignmentCentres;
    numAlign := version / 7 + 2;
    var step := (version * 8 + numAlign * 3 + 5) / (numAlign * 4 - 4) * 2;
    StepValue(version, numAlign);
    var i, pos := numAlign - 1, version * 4 + 10;
    LastPosition(version);
    while i >= 1
      invariant 0 <= i < numAlign && step == Step(version)
      invariant i > 0 ==> pos == Positions(version, i + 1)[i]
      invariant forall k :: i < k < numAlign ==> result[k] == Positions(version, k + 1)[k]
    {
      PositionAt(version, i);
      result[i] := pos;
      i, pos := i - 1, pos - step;
    }
    result[0] := 6;
    PositionFirst(version);
    var align := result[..numAlign];
    forall k | 0 <= k < numAlign
      ensures align[k] == Positions(version, numAlign)[k]
    {
      PositionPrefix(version, numAlign, k);
    }
    assert align == Positions(version, numAlign);
    PositionsAreCentres(version, align);
  }

  lemma LastPosition(version: nat)
    requires 2 <= version <= 40
    ensures Positions(version, version / 7 + 2)[version / 7 + 1] == version * 4 + 10
  {
    hide Step;
    PositionAt(version, version / 7 + 1);
  }
}
