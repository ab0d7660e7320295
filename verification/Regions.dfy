/** Rectangles of modules, and filling them one module at a time. */
module Regions {
  import opened Grid

  datatype Rect = Rect(left: int, top: int, width: nat, height: nat) {

    predicate Contains(x: int, y: int) {
      left <= x < left + width && top <= y < top + height
    }

    predicate Within(size: nat) {
      0 <= left && left + width <= size && 0 <= top && top + height <= size
    }
  }

  /** Some rectangle contains the module. */
  ghost predicate Covered(rects: seq<Rect>, x: int, y: int) {
    exists k :: 0 <= k < |rects| && rects[k].Contains(x, y)
  }

  /** The modules covered by one of the rectangles. */
  ghost function Dark(size: nat, rects: seq<Rect>): (g: Modules)
    ensures |g| == size * size
  {
    seq(size * size, p requires 0 <= p < size * size =>
      Covered(rects, p % size, p / size))
  }

  lemma DarkAt(size: nat, rects: seq<Rect>, x: int, y: int)
    requires InGrid(size, x, y)
    ensures Dark(size, rects)[Index(size, x, y)] <==> Covered(rects, x, y)
  {
    hide Index;
    IndexParts(size, x, y);
  }

  /** Two grids that agree at all coordinates are equal. */
  lemma SameModules(size: nat, g: Modules, h: Modules)
    requires |g| == |h| == size * size
    requires forall x: int, y: int :: InGrid(size, x, y) ==> g[Index(size, x, y)] == h[Index(size, x, y)]
    ensures g == h
  {
    forall p | 0 <= p < size * size
      ensures g[p] == h[p]
    {
      PositionInGrid(size, p);
      var x, y := p % size, p / size;
      assert g[Index(size, x, y)] == h[Index(size, x, y)];
    }
  }

  lemma CoveredConcat(a: seq<Rect>, b: seq<Rect>, x: int, y: int)
    ensures Covered(a + b, x, y) <==> Covered(a, x, y) || Covered(b, x, y)
  {
    if Covered(a, x, y) {
      var k :| 0 <= k < |a| && a[k].Contains(x, y);
      assert (a + b)[k].Contains(x, y);
    }
    if Covered(b, x, y) {
      var k :| 0 <= k < |b| && b[k].Contains(x, y);
      assert (a + b)[|a| + k].Contains(x, y);
    }
  }

  /** The grid with all modules of the rectangle set to v. */
  function Region(size: nat, g: Modules, r: Rect, v: bool): (h: Modules)
    requires |g| == size * size
    ensures |h| == |g|
  {
    seq(size * size, p requires 0 <= p < size * size => if r.Contains(p % size, p / size) then v else g[p])
  }

  lemma RegionAt(size: nat, g: Modules, r: Rect, v: bool, x: int, y: int)
    requires |g| == size * size && InGrid(size, x, y)
    ensures var p := Index(size, x, y); Region(size, g, r, v)[p] == if r.Contains(x, y) then v else g[p]
  {
    hide Index, Rect.Contains;
    IndexParts(size, x, y);
  }

  /** Setting one more module extends a row to the right. */
  lemma RegionCell(size: nat, g: Modules, left: int, top: int, width: nat, v: bool)
    requires |g| == size * size && InGrid(size, left + width, top)
    ensures Region(size, g, Rect(left, top, width, 1), v)[Index(size, left + width, top) := v]
         == Region(size, g, Rect(left, top, width + 1, 1), v)
  {
    hide Index, Region;
    var r, s := Rect(left, top, width, 1), Rect(left, top, width + 1, 1);
    var p := Index(size, left + width, top);
    var h, h' := Region(size, g, r, v)[p := v], Region(size, g, s, v);
    forall x: int, y: int | InGrid(size, x, y)
      ensures h[Index(size, x, y)] == h'[Index(size, x, y)]
    {
      RegionAt(size, g, r, v, x, y);
      RegionAt(size, g, s, v, x, y);
      if Index(size, x, y) == p {
        IndexInjective(size, x, y, left + width, top);
      }
    }
    SameModules(size, h, h');
  }

  /** Setting one more row extends a rectangle downwards. */
  lemma RegionRow(size: nat, g: Modules, left: int, top: int, width: nat, height: nat, v: bool)
    requires |g| == size * size
    ensures Region(size, Region(size, g, Rect(left, top, width, height), v), Rect(left, top + height, width, 1), v)
         == Region(size, g, Rect(left, top, width, height + 1), v)
  {
    hide Index, Region;
    var r, s := Rect(left, top, width, height), Rect(left, top, width, height + 1);
    var row := Rect(left, top + height, width, 1);
    var h := Region(size, g, r, v);
    forall x: int, y: int | InGrid(size, x, y)
      ensures Region(size, h, row, v)[Index(size, x, y)] == Region(size, g, s, v)[Index(size, x, y)]
    {
      RegionAt(size, g, r, v, x, y);
      RegionAt(size, h, row, v, x, y);
      RegionAt(size, g, s, v, x, y);
    }
    SameModules(size, Region(size, h, row, v), Region(size, g, s, v));
  }

  lemma RegionEmpty(size: nat, g: Modules, r: Rect, v: bool)
    requires |g| == size * size && (r.width == 0 || r.height == 0)
    ensures Region(size, g, r, v) == g
  {}

  /** Darkening a rectangle adds it to the covered ones. */
  lemma DarkMore(size: nat, rects: seq<Rect>, r: Rect)
    ensures Region(size, Dark(size, rects), r, true) == Dark(size, rects + [r])
  {
    hide Rect.Contains, Covered;
    forall p | 0 <= p < size * size
      ensures Region(size, Dark(size, rects), r, true)[p] == Dark(size, rects + [r])[p]
    {
      CoveredConcat(rects, [r], p % size, p / size);
      CoveredOne(r, p % size, p / size);
    }
  }

  lemma CoveredOne(r: Rect, x: int, y: int)
    ensures Covered([r], x, y) <==> r.Contains(x, y)
  {
    assert [r][0] == r;
  }
}
