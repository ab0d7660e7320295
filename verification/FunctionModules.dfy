/** Marking the function modules: the encoder in its packed buffer, the decoder in its matrix. */
module FunctionModules {
  import opened Bits
  import opened Grid
  import opened Regions
  import opened FunctionPatterns
  import opened SymbolReader

  method FillRectangle(left: nat, top: nat, width: nat, height: nat, qrcode: array<byte>)
    requires qrcode.Length >= 1 && Packed(qrcode[..], qrcode[0])
    requires Rect(left, top, width, height).Within(qrcode[0])
    modifies qrcode
    ensures qrcode[0] == old(qrcode[0]) && Packed(qrcode[..], qrcode[0])
    ensures View(qrcode[..], qrcode[0]) ==
      Region(qrcode[0], old(View(qrcode[..], qrcode[0])), Rect(left, top, width, height), true)
  {
    hide View, Packed, Region, Index;
    ghost var size: nat := qrcode[0];
    ghost var g := View(qrcode[..], size);
    RegionEmpty(size, g, Rect(left, top, width, 0), true);
    for dy := 0 to height
      invariant qrcode[0] == size && Packed(qrcode[..], size)
      invariant View(qrcode[..], size) == Region(size, g, Rect(left, top, width, dy), true)
    {
      ghost var above := View(qrcode[..], size);
      RegionEmpty(size, above, Rect(left, top + dy, 0, 1), true);
      for dx := 0 to width
        invariant qrcode[0] == size && Packed(qrcode[..], size)
        invariant View(qrcode[..], size) == Region(size, above, Rect(left, top + dy, dx, 1), true)
      {
        RegionCell(size, above, left, top + dy, dx, true);
        SetModuleBounded(qrcode, left + dx, top + dy, true);
      }
      RegionRow(size, g, left, top, width, dy, true);
    }
  }

  /** Exactly the modules of the rectangles are dark in the packed buffer. */
  ghost predicate Marked(q: seq<byte>, size: nat, rects: seq<Rect>) {
    Packed(q, size) && View(q, size) == Dark(size, rects)
  }

  method Fill(left: nat, top: nat, width: nat, height: nat, qrcode: array<byte>, ghost size: nat,
              ghost rects: seq<Rect>)
    requires Marked(qrcode[..], size, rects) && Rect(left, top, width, height).Within(size)
    modifies qrcode
    ensures Marked(qrcode[..], size, rects + [Rect(left, top, width, height)])
  {
    hide View, Dark, Region;
    assert qrcode[0] == qrcode[..][0];
    DarkMore(size, rects, Rect(left, top, width, height));
    FillRectangle(left, top, width, height, qrcode);
  }

  method Clear(qrsize: nat, qrcode: array<byte>)
    requires 1 <= qrsize < 256 && qrcode.Length >= (qrsize * qrsize + 7) / 8 + 1
    modifies qrcode
    ensures Marked(qrcode[..], qrsize, [])
  {
    var n := (qrsize * qrsize + 7) / 8 + 1;
    for i := 0 to n
      invariant forall k :: 0 <= k < i ==> qrcode[k] == 0
    {
      qrcode[i] := 0;
    }
    qrcode[0] := qrsize;
    ClearedView(qrcode[..], qrsize);
  }

  lemma ClearedView(q: seq<byte>, size: nat)
    requires Packed(q, size) && forall k :: 1 <= k < (size * size + 7) / 8 + 1 ==> q[k] == 0
    ensures Marked(q, size, [])
  {
    forall p | 0 <= p < size * size
      ensures View(q, size)[p] == false == Dark(size, [])[p]
    {
      assert q[p / 8 + 1] == 0;
      BitOfZero(p % 8);
    }
  }

  method FillFinders(qrsize: nat, qrcode: array<byte>, ghost rects: seq<Rect>)
    requires qrsize >= 21 && Marked(qrcode[..], qrsize, rects)
    modifies qrcode
    ensures Marked(qrcode[..], qrsize, rects + Finders(qrsize))
  {
    hide Marked;
    ghost var one, two := Rect(0, 0, 9, 9), Rect(qrsize - 8, 0, 8, 9);
    Fill(0, 0, 9, 9, qrcode, qrsize, rects);
    Fill(qrsize - 8, 0, 8, 9, qrcode, qrsize, rects + [one]);
    Fill(0, qrsize - 8, 9, 8, qrcode, qrsize, rects + [one] + [two]);
    assert rects + [one] + [two] + [Rect(0, qrsize - 8, 9, 8)] == rects + Finders(qrsize);
  }

  method FillVersion(version: nat, qrsize: nat, qrcode: array<byte>, ghost rects: seq<Rect>)
    requires qrsize >= 21 && Marked(qrcode[..], qrsize, rects)
    modifies qrcode
    ensures Marked(qrcode[..], qrsize, rects + VersionBlocks(qrsize, version))
  {
    hide Marked;
    if version >= 7 {
      Fill(qrsize - 11, 0, 3, 6, qrcode, qrsize, rects);
      Fill(0, qrsize - 11, 6, 3, qrcode, qrsize, rects + [Rect(qrsize - 11, 0, 3, 6)]);
      assert rects + [Rect(qrsize - 11, 0, 3, 6)] + [Rect(0, qrsize - 11, 6, 3)] ==
        rects + VersionBlocks(qrsize, version);
    } else {
      assert rects + VersionBlocks(qrsize, version) == rects;
    }
  }

  /** A pattern around a centre lies inside the grid. */
  lemma BlockWithin(size: nat, align: seq<nat>, i: nat, j: nat)
    requires AlignmentCentres(size, align) && i < |align| && j < |align|
    ensures 6 <= align[i] <= size - 7 && Block(align[i], align[j]).Within(size)
  {}

  method FillAlignment(qrsize: nat, alignPatPos: array<byte>, numAlign: nat, qrcode: array<byte>,
                       ghost rects: seq<Rect>)
    requires alignPatPos != qrcode && numAlign <= alignPatPos.Length
    requires AlignmentCentres(qrsize, alignPatPos[..numAlign])
    requires Marked(qrcode[..], qrsize, rects)
    modifies qrcode
    ensures Marked(qrcode[..], qrsize, rects + AllBlocks(alignPatPos[..numAlign], numAlign))
  {
    hide Marked, AlignmentCentres, AllBlocks, BlocksOf;
    ghost var align: seq<nat> := alignPatPos[..numAlign];
    NoBlocks(align);
    assert rects + [] == rects;
    for i := 0 to numAlign
      invariant align == alignPatPos[..numAlign]
      invariant Marked(qrcode[..], qrsize, rects + AllBlocks(align, i))
    {
      ghost var before := rects + AllBlocks(align, i);
      NoBlocksIn(align, i);
      assert before + [] == before;
      for j := 0 to numAlign
        invariant align == alignPatPos[..numAlign]
        invariant Marked(qrcode[..], qrsize, before + BlocksOf(align, i, j))
      {
        BlocksNext(align, i, j, before);
        if !((i == 0 && j == 0) || (i == 0 && j == numAlign - 1) || (i == numAlign - 1 && j == 0)) {
          BlockWithin(qrsize, align, i, j);
          assert align[i] == alignPatPos[i] && align[j] == alignPatPos[j];
          Fill(alignPatPos[i] - 2, alignPatPos[j] - 2, 5, 5, qrcode, qrsize, before + BlocksOf(align, i, j));
        }
      }
      AllBlocksNext(align, i, rects);
    }
  }

  lemma NoBlocks(align: seq<nat>)
    ensures AllBlocks(align, 0) == []
  {}

  lemma NoBlocksIn(align: seq<nat>, i: nat)
    requires i < |align|
    ensures BlocksOf(align, i, 0) == []
  {}

  lemma BlocksNext(align: seq<nat>, i: nat, j: nat, before: seq<Rect>)
    requires i < |align| && j < |align|
    ensures before + BlocksOf(align, i, j + 1) ==
      if EncoderCorner(align, i, j) then before + BlocksOf(align, i, j)
      else before + BlocksOf(align, i, j) + [Block(align[i], align[j])]
  {}

  lemma AllBlocksNext(align: seq<nat>, i: nat, rects: seq<Rect>)
    requires i < |align|
    ensures rects + AllBlocks(align, i + 1) == rects + AllBlocks(align, i) + BlocksOf(align, i, |align|)
  {}

  /** Clears the grid and marks every function module of the version. */
  method InitializeFunctionModules(version: nat, qrcode: array<byte>) returns (ghost align: seq<nat>)
    requires 1 <= version <= 40
    requires var size := version * 4 + 17; qrcode.Length >= (size * size + 7) / 8 + 1
    modifies qrcode
    ensures var size := version * 4 + 17;
            && Centres(version, align) && AlignmentCentres(size, align)
            && qrcode[0] == size && Marked(qrcode[..], size, EncoderRects(size, version, align))
  {
    hide Marked, AllBlocks, VersionBlocks, BlocksOf, Centres, AlignmentCentres;
    var qrsize := version * 4 + 17;
    Clear(qrsize, qrcode);
    Fill(6, 0, 1, qrsize, qrcode, qrsize, []);
    assert [] + [Rect(6, 0, 1, qrsize)] == [Rect(6, 0, 1, qrsize)];
    Fill(0, 6, qrsize, 1, qrcode, qrsize, [Rect(6, 0, 1, qrsize)]);
    ghost var rects := [Rect(6, 0, 1, qrsize), Rect(0, 6, qrsize, 1)];
    assert rects == [Rect(6, 0, 1, qrsize)] + [Rect(0, 6, qrsize, 1)];
    FillFinders(qrsize, qrcode, rects);
    rects := rects + Finders(qrsize);
    var alignPatPos := new byte[7];
    var numAlign := GetAlignmentPatternPositions(version, alignPatPos);
    align := alignPatPos[..numAlign];
    FillAlignment(qrsize, alignPatPos, numAlign, qrcode, rects);
    rects := rects + AllBlocks(align, |align|);
    FillVersion(version, qrsize, qrcode, rects);
    assert rects + VersionBlocks(qrsize, version) == EncoderRects(qrsize, version, align);
    SizeMarked(qrcode[..], qrsize, EncoderRects(qrsize, version, align));
  }

  lemma SizeMarked(q: seq<byte>, size: nat, rects: seq<Rect>)
    requires Marked(q, size, rects)
    ensures |q| >= 1 && q[0] == size
  {}

  // ----- decoder

  method SetDark(matrix: BitMatrix, left: nat, top: nat, width: nat, height: nat, ghost rects: seq<Rect>)
    requires matrix.Valid() && Rect(left, top, width, height).Within(matrix.width)
    requires matrix.Contents() == Dark(matrix.width, rects)
    modifies matrix.data
    ensures matrix.Valid() && matrix.Contents() == Dark(matrix.width, rects + [Rect(left, top, width, height)])
  {
    hide Dark, Region;
    DarkMore(matrix.width, rects, Rect(left, top, width, height));
    matrix.SetRegion(left, top, width, height, true);
  }

  /** The decoder's mask of function modules for a version number and its list of alignment centres. */
  method BuildFunctionPatternMask(versionNumber: nat, centers: seq<nat>) returns (matrix: BitMatrix)
    requires versionNumber >= 1 && AlignmentCentres(17 + 4 * versionNumber, centers)
    ensures var size := 17 + 4 * versionNumber;
            && fresh(matrix.data) && matrix.Valid() && matrix.width == size
            && matrix.Contents() == Dark(size, DecoderRects(size, versionNumber, centers))
  {
    hide Dark, AllBlocks, BlocksOf, VersionBlocks, AlignmentCentres;
    var dimension := 17 + 4 * versionNumber;
    matrix := new BitMatrix.CreateEmpty(dimension);
    NothingDark(dimension);
    SetDark(matrix, 0, 0, 9, 9, []);
    SetDark(matrix, dimension - 8, 0, 8, 9, [] + [Rect(0, 0, 9, 9)]);
    SetDark(matrix, 0, dimension - 8, 9, 8, [] + [Rect(0, 0, 9, 9)] + [Rect(dimension - 8, 0, 8, 9)]);
    ghost var rects := Finders(dimension);
    assert [] + [Rect(0, 0, 9, 9)] + [Rect(dimension - 8, 0, 8, 9)] + [Rect(0, dimension - 8, 9, 8)] == rects;
    SetAlignment(matrix, centers, rects);
    rects := rects + AllBlocks(centers, |centers|);
    SetDark(matrix, 6, 9, 1, dimension - 17, rects);
    rects := rects + [Rect(6, 9, 1, dimension - 17)];
    SetDark(matrix, 9, 6, dimension - 17, 1, rects);
    rects := rects + [Rect(9, 6, dimension - 17, 1)];
    SetVersion(matrix, versionNumber, rects);
    assert rects + VersionBlocks(dimension, versionNumber) == DecoderRects(dimension, versionNumber, centers);
  }

  lemma NothingDark(size: nat)
    ensures Dark(size, []) == seq(size * size, _ => false)
  {}

  method SetVersion(matrix: BitMatrix, versionNumber: nat, ghost rects: seq<Rect>)
    requires matrix.Valid() && matrix.width >= 21 && matrix.Contents() == Dark(matrix.width, rects)
    modifies matrix.data
    ensures matrix.Valid()
      && matrix.Contents() == Dark(matrix.width, rects + VersionBlocks(matrix.width, versionNumber))
  {
    hide Dark;
    var dimension := matrix.width;
    if versionNumber > 6 {
      SetDark(matrix, dimension - 11, 0, 3, 6, rects);
      SetDark(matrix, 0, dimension - 11, 6, 3, rects + [Rect(dimension - 11, 0, 3, 6)]);
      assert rects + [Rect(dimension - 11, 0, 3, 6)] + [Rect(0, dimension - 11, 6, 3)]
          == rects + VersionBlocks(dimension, versionNumber);
    } else {
      assert rects + VersionBlocks(dimension, versionNumber) == rects;
    }
  }

  method SetAlignment(matrix: BitMatrix, centers: seq<nat>, ghost rects: seq<Rect>)
    requires matrix.Valid() && AlignmentCentres(matrix.width, centers)
    requires matrix.Contents() == Dark(matrix.width, rects)
    modifies matrix.data
    ensures matrix.Valid() && matrix.Contents() == Dark(matrix.width, rects + AllBlocks(centers, |centers|))
  {
    hide Dark, AlignmentCentres, AllBlocks, BlocksOf;
    var dimension: int := matrix.width;
    NoBlocks(centers);
    assert rects + [] == rects;
    for i := 0 to |centers|
      invariant matrix.Contents() == Dark(dimension, rects + AllBlocks(centers, i))
    {
      var x: int := centers[i];
      ghost var before := rects + AllBlocks(centers, i);
      NoBlocksIn(centers, i);
      assert before + [] == before;
      for j := 0 to |centers|
        invariant matrix.Contents() == Dark(dimension, before + BlocksOf(centers, i, j))
      {
        var y: int := centers[j];
        BlocksNext(centers, i, j, before);
        CornersAgree(dimension, centers, i, j);
        if !((x == 6 && y == 6) || (x == 6 && y == dimension - 7) || (x == dimension - 7 && y == 6)) {
          BlockWithin(dimension, centers, i, j);
          SetDark(matrix, x - 2, y - 2, 5, 5, before + BlocksOf(centers, i, j));
        }
      }
      AllBlocksNext(centers, i, rects);
    }
  }

  // ----- when the two masks agree

  /** The blocks of a list of centres cover the surroundings of its pairs of centres, without the three corners. */
  lemma EncoderDark(size: nat, version: nat, align: seq<nat>, x: int, y: int)
    requires InGrid(size, x, y) && size >= 21 && x >= 9 && y >= 9
    requires !(x >= size - 8 && y < 9) && !(x < 9 && y >= size - 8)
    ensures Dark(size, EncoderRects(size, version, align))[Index(size, x, y)] <==>
      exists i, j :: 0 <= i < |align| && 0 <= j < |align| && !EncoderCorner(align, i, j)
                     && Block(align[i], align[j]).Contains(x, y)
  {
    hide Dark, Index, AllBlocks, Finders, Covered, EncoderRects, EncoderCorner, VersionBlocks, Block;
    DarkAt(size, EncoderRects(size, version, align), x, y);
    EncoderCovers(size, version, align, x, y);
    CoveredFinders(size, x, y);
    AllBlocksCover(align, |align|, x, y);
    NoVersionBlock(size, version, x, y);
  }

  lemma NoVersionBlock(size: nat, version: nat, x: int, y: int)
    requires x >= 9 && y >= 9
    ensures !Covered(VersionBlocks(size, version), x, y)
  {
    hide Covered;
    if version >= 7 {
      VersionCovered(size, version, x, y);
    } else {
      NothingCovered(x, y);
    }
  }

  /** Where the lists differ first, the smaller centre has modules that no centre of the other list reaches. */
  lemma SmallerCentreShows(size: nat, version: nat, align: seq<nat>, centers: seq<nat>, i: nat)
    requires size >= 21
    requires AlignmentCentres(size, align) && AlignmentCentres(size, centers) && Spaced(align) && Spaced(centers)
    requires i < |align| && i < |centers| && align[i] < centers[i]
    requires forall k :: 0 <= k < i ==> align[k] == centers[k]
    ensures Dark(size, EncoderRects(size, version, align)) != Dark(size, EncoderRects(size, version, centers))
  {
    hide Dark, Index, EncoderRects;
    var n := |align| - 1;
    var x, y := align[i] - 2, size - 7;
    assert i >= 1 && i < n;
    assert align[0] + 5 <= align[i] && align[i] + 5 <= align[n];
    EncoderDark(size, version, align, x, y);
    EncoderDark(size, version, centers, x, y);
    assert !EncoderCorner(align, i, n) && Block(align[i], align[n]).Contains(x, y);
    forall k, l | 0 <= k < |centers| && 0 <= l < |centers|
      ensures !Block(centers[k], centers[l]).Contains(x, y)
    {
      if k < i {
        assert align[k] + 5 <= align[i];
      } else if k > i {
        assert centers[i] + 5 <= centers[k];
      }
    }
  }

  /** The last pattern of a list shows when the other list is empty. */
  lemma LastCentreShows(size: nat, version: nat, align: seq<nat>)
    requires size >= 21 && AlignmentCentres(size, align) && align != []
    ensures Dark(size, EncoderRects(size, version, align)) != Dark(size, EncoderRects(size, version, []))
  {
    hide Dark, Index, EncoderRects;
    var n := |align| - 1;
    var x := size - 7;
    EncoderDark(size, version, align, x, x);
    EncoderDark(size, version, [], x, x);
    assert !EncoderCorner(align, n, n) && Block(align[n], align[n]).Contains(x, x);
  }

  /** Two different lists differ at some first index, or one of them is empty. */
  lemma FirstDifferentCentre(size: nat, align: seq<nat>, centers: seq<nat>) returns (i: nat)
    requires AlignmentCentres(size, align) && AlignmentCentres(size, centers) && align != centers
    requires align != [] && centers != []
    ensures i < |align| && i < |centers| && align[i] != centers[i]
    ensures forall k :: 0 <= k < i ==> align[k] == centers[k]
  {
    i := 0;
    while i < |align| && i < |centers| && align[i] == centers[i]
      invariant i <= |align| && i <= |centers|
      invariant forall k :: 0 <= k < i ==> align[k] == centers[k]
    {
      i := i + 1;
    }
  }

  /** The two function masks are equal exactly when the two sides use the same alignment centres. */
  lemma MasksAgreeExactly(size: nat, version: nat, align: seq<nat>, centers: seq<nat>)
    requires size >= 21
    requires AlignmentCentres(size, align) && AlignmentCentres(size, centers) && Spaced(align) && Spaced(centers)
    ensures Dark(size, EncoderRects(size, version, align)) == Dark(size, DecoderRects(size, version, centers))
       <==> align == centers
  {
    hide Dark, EncoderRects, DecoderRects, AlignmentCentres, Spaced;
    PatternsAgree(size, version, centers);
    if align != centers {
      if align == [] {
        LastCentreShows(size, version, centers);
      } else if centers == [] {
        LastCentreShows(size, version, align);
      } else {
        var i := FirstDifferentCentre(size, align, centers);
        if align[i] < centers[i] {
          SmallerCentreShows(size, version, align, centers, i);
        } else {
          SmallerCentreShows(size, version, centers, align, i);
        }
      }
    }
  }

  /**
   For a version, the decoder's mask marks the encoder's function modules exactly when the decoder's table lists the
   centres of the encoder's formula.
   */
  lemma MasksAgree(version: nat, align: seq<nat>, centers: seq<nat>, q: seq<byte>, mask: Modules)
    requires 1 <= version <= 40 && Centres(version, align)
    requires AlignmentCentres(version * 4 + 17, centers) && Spaced(centers)
    requires var size := version * 4 + 17;
             Marked(q, size, EncoderRects(size, version, align))
             && mask == Dark(size, DecoderRects(size, version, centers))
    ensures View(q, version * 4 + 17) == mask <==> Centres(version, centers)
  {
    hide Dark, EncoderRects, DecoderRects, Positions, AlignmentCentres, Spaced;
    FormulaCentres(version, align);
    MasksAgreeExactly(version * 4 + 17, version, align, centers);
  }

  lemma FormulaCentres(version: nat, align: seq<nat>)
    requires 1 <= version <= 40 && Centres(version, align)
    ensures AlignmentCentres(version * 4 + 17, align) && Spaced(align)
  {
    hide Positions;
    if version >= 2 {
      PositionsAreCentres(version, align);
    }
  }

  /** The decoder's table lists 74 where the encoder computes 78: for version 23 the two sides disagree. */
  lemma VersionTwentyThreeDiffers(align: seq<nat>, centers: seq<nat>)
    requires Centres(23, align) && centers == [6, 30, 54, 74, 102]
    ensures Dark(109, EncoderRects(109, 23, align)) != Dark(109, DecoderRects(109, 23, centers))
  {
    hide Dark, EncoderRects, DecoderRects;
    EncoderCentre(align);
    FormulaCentres(23, align);
    MasksAgreeExactly(109, 23, align, centers);
  }

  lemma EncoderCentre(align: seq<nat>)
    requires Centres(23, align)
    ensures |align| == 5 && align[3] == 78
  {
    assert 23 / 7 == 3 && Step(23) == 24;
    assert align[3] == Positions(23, 5)[3];
  }

  lemma VersionCovered(size: nat, version: nat, x: int, y: int)
    requires version >= 7
    ensures Covered(VersionBlocks(size, version), x, y) <==>
      Rect(size - 11, 0, 3, 6).Contains(x, y) || Rect(0, size - 11, 6, 3).Contains(x, y)
  {
    hide Covered;
    CoveredPair(Rect(size - 11, 0, 3, 6), Rect(0, size - 11, 6, 3), x, y);
  }

  lemma {:induction false} BlocksCover(align: seq<nat>, i: nat, n: nat, x: int, y: int)
    requires i < |align| && n <= |align|
    ensures Covered(BlocksOf(align, i, n), x, y) <==>
      exists j :: 0 <= j < n && !EncoderCorner(align, i, j) && Block(align[i], align[j]).Contains(x, y)
  {
    hide Covered, Rect.Contains, Block, EncoderCorner;
    if n == 0 {
      NothingCovered(x, y);
    } else {
      BlocksCover(align, i, n - 1, x, y);
      NothingCovered(x, y);
      CoveredOne(Block(align[i], align[n - 1]), x, y);
      CoveredConcat(BlocksOf(align, i, n - 1),
                    if EncoderCorner(align, i, n - 1) then [] else [Block(align[i], align[n - 1])], x, y);
    }
  }

  lemma NothingCovered(x: int, y: int)
    ensures !Covered([], x, y)
  {}

  /** The blocks cover exactly the surroundings of the pairs of centres, without the three corners. */
  lemma {:induction false} AllBlocksCover(align: seq<nat>, n: nat, x: int, y: int)
    requires n <= |align|
    ensures Covered(AllBlocks(align, n), x, y) <==>
      exists i, j :: 0 <= i < n && 0 <= j < |align| && !EncoderCorner(align, i, j)
                     && Block(align[i], align[j]).Contains(x, y)
  {
    hide Covered, Rect.Contains, Block, EncoderCorner, BlocksOf;
    if n == 0 {
      NothingCovered(x, y);
    } else {
      AllBlocksCover(align, n - 1, x, y);
      BlocksCover(align, n - 1, |align|, x, y);
      CoveredConcat(AllBlocks(align, n - 1), BlocksOf(align, n - 1, |align|), x, y);
    }
  }
}
