/** The penalty score of a symbol. */
module Penalty {
  import opened Bits
  import opened Grid
  import opened Runs

  // ----- what is scored

  /** Row k, or column k if `vertical`. */
  function Line(size: nat, g: Modules, k: nat, vertical: bool): (r: seq<bool>)
    requires |g| == size * size && k < size
    ensures |r| == size
  {
    seq(size, i requires 0 <= i < size => g[if vertical then Index(size, k, i) else Index(size, i, k)])
  }

  /** Points of the first n rows or columns. */
  function LinePoints(size: nat, g: Modules, vertical: bool, n: nat): nat
    requires |g| == size * size && n <= size
  {
    if n == 0 then 0
    else LinePoints(size, g, vertical, n - 1) + LinePenalty(Line(size, g, n - 1, vertical), size)
  }

  function CountTrue(s: seq<bool>): (r: nat)
    ensures r <= |s|
    decreases |s|
  {
    if s == [] then 0 else CountTrue(s[..|s| - 1]) + if s[|s| - 1] then 1 else 0
  }

  /** The four modules to the right of and below (x, y) have one colour. */
  predicate SameSquare(size: nat, g: Modules, x: int, y: int)
    requires |g| == size * size && InGrid(size, x, y)
  {
    InGrid(size, x + 1, y + 1) &&
    var color := g[Index(size, x, y)];
    && color == g[Index(size, x + 1, y)]
    && color == g[Index(size, x, y + 1)]
    && color == g[Index(size, x + 1, y + 1)]
  }

  predicate SameSquareAt(size: nat, g: Modules, p: nat)
    requires |g| == size * size && p < size * size
  {
    PositionInGrid(size, p);
    SameSquare(size, g, p % size, p / size)
  }

  /** For every module, whether it is the corner of a square of one colour. */
  function Squares(size: nat, g: Modules): (r: seq<bool>)
    requires |g| == size * size
    ensures |r| == size * size
  {
    seq(size * size, p requires 0 <= p < size * size => SameSquareAt(size, g, p))
  }

  function Abs(n: int): nat {
    if n < 0 then -n else n
  }

  /** How far the share of dark modules is from one half, in steps of five percent. */
  function Imbalance(dark: nat, total: nat): int
    requires total > 0
  {
    (Abs(dark * 20 - total * 10) + total - 1) / total - 1
  }

  /** At least 45 - 5 k and at most 55 + 5 k percent of the modules are dark. */
  predicate Within(dark: nat, total: nat, k: int) {
    (45 - 5 * k) * total <= 100 * dark <= (55 + 5 * k) * total
  }

  /** Unless exactly half of the modules are dark, the formula gives the least step that holds. */
  lemma ImbalanceIsLeast(dark: nat, total: nat, k: nat)
    requires 0 < total && dark <= total && dark * 2 != total
    ensures 0 <= Imbalance(dark, total) <= 9
    ensures Within(dark, total, k) <==> k >= Imbalance(dark, total)
  {
    var d := Abs(dark * 20 - total * 10);
    var q := (d + total - 1) / total;
    CeilingBounds(d, total, q, k);
    assert Within(dark, total, k) <==> d <= (k + 1) * total;
    CeilingBounds(d, total, q, 9);
  }

  lemma CeilingBounds(d: nat, total: nat, q: int, k: nat)
    requires 0 < total && 0 < d && q == (d + total - 1) / total
    ensures q >= 1
    ensures d <= (k + 1) * total <==> k + 1 >= q
  {
    var r := (d + total - 1) % total;
    assert d + total - 1 == q * total + r;
    if k + 1 >= q {
      MulMonotone(total, q, k + 1);
    } else {
      MulMonotone(total, k + 2, q);
      assert (k + 2) * total == (k + 1) * total + total;
    }
    if q <= 0 {
      MulMonotone(total, q, 0);
    }
  }

  /** With exactly half of the modules dark, which an odd size excludes, the formula would give -1. */
  lemma ImbalanceOfHalf(dark: nat, total: nat)
    requires 0 < total
    ensures Imbalance(dark, total) == -1 <==> dark * 2 == total
  {
    var d := Abs(dark * 20 - total * 10);
    if d > 0 {
      CeilingBounds(d, total, (d + total - 1) / total, 0);
    }
  }

  lemma OddSquare(size: nat, dark: nat)
    requires size % 2 == 1
    ensures dark * 2 != size * size
  {
    var h := size / 2;
    assert size * size == (2 * h + 1) * (2 * h + 1) == 2 * (2 * h * h + 2 * h) + 1;
  }

  /** The score of a symbol. */
  function Score(size: nat, g: Modules): int
    requires size > 0 && |g| == size * size
  {
    LinePoints(size, g, false, size) + LinePoints(size, g, true, size) + 3 * CountTrue(Squares(size, g))
    + 10 * Imbalance(CountTrue(g), size * size)
  }

  // ----- computing the score

  method ScoreLine(qrcode: array<byte>, k: nat, vertical: bool) returns (points: nat)
    requires qrcode.Length >= 1 && Packed(qrcode[..], qrcode[0]) && k < qrcode[0]
    ensures points == LinePenalty(Line(qrcode[0], View(qrcode[..], qrcode[0]), k, vertical), qrcode[0])
  {
    hide View, Packed, ScanState, LinePenalty, CountPatterns, Index;
    var qrsize: nat := qrcode[0];
    ghost var line := Line(qrsize, View(qrcode[..], qrsize), k, vertical);
    points := 0;
    var runColor, run := false, 0;
    var runHistory := new nat[7](_ => 0);
    ghost var q := qrcode[..];
    ScanStart(qrsize);
    assert runHistory[..] == [0, 0, 0, 0, 0, 0, 0];
    assert line[..0] == [];
    for i := 0 to qrsize
      invariant qrcode[..] == q
      invariant ScanState(line[..i], qrsize, runColor, run, runHistory[..], points)
    {
      assert line[..i + 1] == line[..i] + [line[i]];
      var color := GetModuleBounded(qrcode, if vertical then k else i, if vertical then i else k);
      if color == runColor {
        ScanSame(line[..i], qrsize, runColor, run, runHistory[..], points);
        run := run + 1;
        if run == 5 {
          points := points + 3;
        } else if run > 5 {
          points := points + 1;
        }
      } else {
        ScanChange(line[..i], qrsize, runColor, run, runHistory[..], points);
        AddHistory(run, runHistory, qrsize);
        if !runColor {
          var count := CountPatterns(runHistory[..]);
          points := points + count * 40;
        }
        runColor, run := color, 1;
      }
    }
    assert line[..qrsize] == line;
    ScanEnd(line, qrsize, runColor, run, runHistory[..], points);
    var count := TerminateAndCount(runColor, run, runHistory, qrsize);
    points := points + count * 40;
  }

  lemma CountNext(s: seq<bool>, k: nat)
    requires k < |s|
    ensures CountTrue(s[..k + 1]) == CountTrue(s[..k]) + if s[k] then 1 else 0
  {
    assert s[..k + 1][..k] == s[..k];
  }

  method CountSquares(qrcode: array<byte>) returns (count: nat)
    requires qrcode.Length >= 1 && qrcode[0] >= 1 && Packed(qrcode[..], qrcode[0])
    ensures count == CountTrue(Squares(qrcode[0], View(qrcode[..], qrcode[0])))
  {
    hide View, Packed, Index, CountTrue, Squares;
    var qrsize: nat := qrcode[0];
    ghost var g := View(qrcode[..], qrsize);
    ghost var squares := Squares(qrsize, g);
    count := 0;
    NothingCounted(squares);
    MulMonotone(qrsize, 0, qrsize);
    for y := 0 to qrsize - 1
      invariant y * qrsize <= |squares|
      invariant count == CountTrue(squares[..y * qrsize])
    {
      MulMonotone(qrsize, y + 1, qrsize);
      for x := 0 to qrsize - 1
        invariant count == CountTrue(squares[..y * qrsize + x])
      {
        SquareHere(qrsize, g, x, y);
        CountNext(squares, y * qrsize + x);
        var color := GetModuleBounded(qrcode, x, y);
        var right := GetModuleBounded(qrcode, x + 1, y);
        var below := GetModuleBounded(qrcode, x, y + 1);
        var across := GetModuleBounded(qrcode, x + 1, y + 1);
        if color == right && color == below && color == across {
          count := count + 1;
        }
      }
      SquareAtEdge(qrsize, g, qrsize - 1, y);
      CountNext(squares, y * qrsize + qrsize - 1);
    }
    MulMonotone(qrsize, qrsize - 1, qrsize);
    LastRow(qrsize, g, (qrsize - 1) * qrsize);
  }

  lemma NothingCounted(s: seq<bool>)
    ensures CountTrue(s[..0]) == 0
  {}

  lemma SquareHere(size: nat, g: Modules, x: int, y: int)
    requires |g| == size * size && InGrid(size, x, y) && InGrid(size, x + 1, y + 1)
    ensures Index(size, x, y) == y * size + x < size * size
    ensures Squares(size, g)[Index(size, x, y)] <==>
      var color := g[Index(size, x, y)];
      color == g[Index(size, x + 1, y)] && color == g[Index(size, x, y + 1)] && color == g[Index(size, x + 1, y + 1)]
  {
    IndexParts(size, x, y);
  }

  lemma SquareAtEdge(size: nat, g: Modules, x: int, y: int)
    requires |g| == size * size && InGrid(size, x, y) && (x == size - 1 || y == size - 1)
    ensures Index(size, x, y) == y * size + x < size * size && !Squares(size, g)[Index(size, x, y)]
  {
    hide Index;
    IndexParts(size, x, y);
    IndexValue(size, x, y);
  }

  lemma IndexValue(size: nat, x: int, y: int)
    requires InGrid(size, x, y)
    ensures Index(size, x, y) == y * size + x
  {}

  /** No square begins in the last row. */
  lemma {:induction false} LastRow(size: nat, g: Modules, k: nat)
    requires |g| == size * size && size >= 1 && (size - 1) * size <= k <= size * size
    ensures CountTrue(Squares(size, g)) == CountTrue(Squares(size, g)[..k])
    decreases size * size - k
  {
    hide CountTrue, Squares, SameSquare, Index;
    var squares := Squares(size, g);
    if k == size * size {
      assert squares[..k] == squares;
    } else {
      PositionInGrid(size, k);
      if k / size < size - 1 {
        RowBelow(size, k % size, k / size, size - 1);
        IndexValue(size, k % size, k / size);
        assert false;
      }
      SquareAtEdge(size, g, k % size, k / size);
      CountNext(squares, k);
      LastRow(size, g, k + 1);
    }
  }

  method CountDark(qrcode: array<byte>) returns (dark: nat)
    requires qrcode.Length >= 1 && Packed(qrcode[..], qrcode[0])
    ensures dark == CountTrue(View(qrcode[..], qrcode[0]))
  {
    hide View, Packed, Index, CountTrue;
    var qrsize: nat := qrcode[0];
    ghost var g, done := View(qrcode[..], qrsize), 0;
    dark := 0;
    NothingCounted(g);
    for y := 0 to qrsize
      invariant done == y * qrsize
      invariant done <= |g| && dark == CountTrue(g[..done])
    {
      MulMonotone(qrsize, y + 1, qrsize);
      ghost var row := done;
      for x := 0 to qrsize
        invariant done == row + x && done <= |g| && dark == CountTrue(g[..done])
      {
        IndexValue(qrsize, x, y);
        CountNext(g, done);
        var color := GetModuleBounded(qrcode, x, y);
        if color {
          dark := dark + 1;
        }
        done := done + 1;
      }
    }
    assert g[..|g|] == g;
  }

  method GetPenaltyScore(qrcode: array<byte>) returns (result: int)
    requires qrcode.Length >= 1 && qrcode[0] >= 1 && Packed(qrcode[..], qrcode[0])
    ensures result == Score(qrcode[0], View(qrcode[..], qrcode[0]))
  {
    hide View, Packed, Line, LinePenalty, CountTrue, Squares;
    var qrsize: nat := qrcode[0];
    ghost var g := View(qrcode[..], qrsize);
    result := 0;
    for y := 0 to qrsize
      invariant result == LinePoints(qrsize, g, false, y)
    {
      var points := ScoreLine(qrcode, y, false);
      result := result + points;
    }
    ghost var rows := result;
    for x := 0 to qrsize
      invariant result == rows + LinePoints(qrsize, g, true, x)
    {
      var points := ScoreLine(qrcode, x, true);
      result := result + points;
    }
    var squares := CountSquares(qrcode);
    result := result + squares * 3;
    var dark := CountDark(qrcode);
    var total := qrsize * qrsize;
    var difference := dark * 20 - total * 10;
    var k := ((if difference < 0 then -difference else difference) + total - 1) / total - 1;
    result := result + k * 10;
  }
}
