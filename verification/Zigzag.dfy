/** The zigzag scan over the column pairs of a symbol, as the encoder and as the decoder walk it. */
module Zigzag {
  import opened Bits
  import opened Grid

  /** A walk over a grid of n modules. */
  predicate Inside(walk: seq<nat>, n: nat) {
    forall k :: 0 <= k < |walk| ==> walk[k] < n
  }

  /** One column pair: `right` and the column left of it, bottom to top if `up`. */
  function Column(size: nat, right: int, up: bool): (r: seq<nat>)
    requires 1 <= right < size
    ensures |r| == 2 * size && Inside(r, size * size)
  {
    seq(2 * size, k requires 0 <= k < 2 * size =>
      Index(size, right - k % 2, if up then size - 1 - k / 2 else k / 2))
  }

  /** Column 6 holds the vertical timing pattern and is skipped. */
  function SkipTiming(right: int): int {
    if right == 6 then 5 else right
  }

  /** The decoder's walk: the direction toggles after every column pair. */
  function Scan(size: nat, right: int, up: bool): (r: seq<nat>)
    requires right < size
    ensures Inside(r, size * size)
    decreases right
  {
    if right < 1 then []
    else
      var r := SkipTiming(right);
      Column(size, r, up) + Scan(size, r - 2, !up)
  }

  /** The encoder's direction: decided from the column number. */
  predicate Upward(right: nat) {
    And(right + 1, 2) == 0
  }

  function EncoderScan(size: nat, right: int): (r: seq<nat>)
    requires right < size
    ensures Inside(r, size * size)
    decreases right
  {
    if right < 1 then []
    else
      var r := SkipTiming(right);
      Column(size, r, Upward(r)) + EncoderScan(size, r - 2)
  }

  // ----- the two walks agree

  lemma AndTwo(n: nat)
    ensures And(n, 2) == 0 <==> n / 2 % 2 == 0
  {
    assert And(n / 2 / 2, 0) == 0 by { AndZero(n / 2 / 2); }
  }

  /** Direction after the skip, by the column's remainder modulo 4. */
  lemma UpwardValue(right: nat)
    ensures Upward(right) <==> right % 4 == 3 || right % 4 == 0
  {
    AndTwo(right + 1);
  }

  /** Columns at which a walk over an odd size can stand: even ones right of the timing column, odd ones left of it. */
  predicate OnWalk(right: int) {
    right <= 0 || right % 2 == if right > 5 then 0 else 1
  }

  /** The column number changes direction at every step, also across the timing column. */
  lemma Alternates(right: int)
    requires right >= 3 && OnWalk(right)
    ensures var r := SkipTiming(right);
            OnWalk(r - 2) && (Upward(SkipTiming(r - 2)) <==> !Upward(r))
  {
    hide And, Upward;
    UpwardValue(SkipTiming(right));
    UpwardValue(SkipTiming(SkipTiming(right) - 2));
  }

  lemma {:induction false} ScansAgreeFrom(size: nat, right: int)
    requires right < size && OnWalk(right)
    ensures right >= 1 ==> EncoderScan(size, right) == Scan(size, right, Upward(SkipTiming(right)))
    decreases right
  {
    hide Column, Upward;
    if right >= 3 {
      Alternates(right);
      ScansAgreeFrom(size, SkipTiming(right) - 2);
    }
  }

  /** Encoder and decoder walk the same way exactly on sizes like those that occur, 4 * version + 17. */
  lemma ScansAgree(size: nat)
    requires size % 2 == 1 && size >= 7
    ensures EncoderScan(size, size - 1) == Scan(size, size - 1, true) <==> size % 4 == 1
  {
    hide Column, Upward, EncoderScan, Scan;
    ScansAgreeFrom(size, size - 1);
    UpwardValue(SkipTiming(size - 1));
    FirstModuleDiffers(size, size - 1);
  }

  lemma FirstModuleDiffers(size: nat, right: int)
    requires 1 <= right < size && size > 1
    ensures Scan(size, right, false)[..1] != Scan(size, right, true)[..1]
  {
    var r := SkipTiming(right);
    var down, up := Column(size, r, false), Column(size, r, true);
    assert down[0] == Index(size, r, 0) && up[0] == Index(size, r, size - 1);
    if down[0] == up[0] {
      IndexInjective(size, r, 0, r, size - 1);
    }
    assert Scan(size, right, false)[0] == down[0] && Scan(size, right, true)[0] == up[0];
  }

  // ----- every module outside column 6 is visited exactly once

  predicate Distinct(s: seq<nat>) {
    forall i, j :: 0 <= i < j < |s| ==> s[i] != s[j]
  }

  lemma ColumnMember(size: nat, right: int, up: bool, k: nat)
    requires 1 <= right < size && k < 2 * size
    ensures var x, y := right - k % 2, if up then size - 1 - k / 2 else k / 2;
            InGrid(size, x, y) && Column(size, right, up)[k] == Index(size, x, y)
  {}

  /** The two modules of a row of the column, as both programs count them. */
  lemma ColumnWalk(size: nat, right: int, up: bool, vert: nat, j: nat)
    requires 1 <= right < size && vert < size && j < 2
    ensures var y := if up then size - 1 - vert else vert;
            && InGrid(size, right - j, y)
            && Column(size, right, up)[2 * vert + j] == Index(size, right - j, y)
  {
    ColumnMember(size, right, up, 2 * vert + j);
  }

  lemma ColumnDistinct(size: nat, right: int, up: bool)
    requires 1 <= right < size
    ensures Distinct(Column(size, right, up))
  {
    hide Index, Column;
    var c := Column(size, right, up);
    forall i, j | 0 <= i < j < |c|
      ensures c[i] != c[j]
    {
      ColumnMember(size, right, up, i);
      ColumnMember(size, right, up, j);
      assert i / 2 != j / 2 || i % 2 != j % 2;
      if c[i] == c[j] {
        var (xi, yi) := (right - i % 2, if up then size - 1 - i / 2 else i / 2);
        var (xj, yj) := (right - j % 2, if up then size - 1 - j / 2 else j / 2);
        IndexInjective(size, xi, yi, xj, yj);
      }
    }
  }

  lemma ColumnContains(size: nat, right: int, up: bool, x: int, y: int)
    requires 1 <= right < size && InGrid(size, x, y)
    ensures Index(size, x, y) in Column(size, right, up) <==> x == right || x == right - 1
  {
    hide Index, Column;
    var c, p := Column(size, right, up), Index(size, x, y);
    if x == right || x == right - 1 {
      var k := 2 * (if up then size - 1 - y else y) + (right - x);
      ColumnMember(size, right, up, k);
      assert c[k] == p;
    } else {
      forall k | 0 <= k < |c|
        ensures c[k] != p
      {
        ColumnMember(size, right, up, k);
        if c[k] == p {
          IndexInjective(size, right - k % 2, if up then size - 1 - k / 2 else k / 2, x, y);
        }
      }
    }
  }

  /** A scan from column `right` visits (x, y) exactly if x is at most `right` and not the timing column. */
  lemma {:induction false} ScanMember(size: nat, right: int, up: bool, x: int, y: int)
    requires right < size && InGrid(size, x, y) && OnWalk(right)
    ensures Index(size, x, y) in Scan(size, right, up) <==> 1 <= right && x <= right && x != 6
    decreases right
  {
    hide Index, Column;
    if right >= 1 {
      var r := SkipTiming(right);
      ColumnContains(size, r, up, x, y);
      assert OnWalk(r - 2);
      ScanMember(size, r - 2, !up, x, y);
    }
  }

  lemma {:induction false} ScanDistinct(size: nat, right: int, up: bool)
    requires right < size && OnWalk(right)
    ensures Distinct(Scan(size, right, up))
    decreases right
  {
    hide Index, Column;
    if right >= 1 {
      var r := SkipTiming(right);
      var c, rest := Column(size, r, up), Scan(size, r - 2, !up);
      ColumnDistinct(size, r, up);
      assert OnWalk(r - 2);
      ScanDistinct(size, r - 2, !up);
      forall i, j | 0 <= i < |c| && 0 <= j < |rest|
        ensures c[i] != rest[j]
      {
        ColumnMember(size, r, up, i);
        ScanMember(size, r - 2, !up, r - i % 2, if up then size - 1 - i / 2 else i / 2);
      }
    }
  }

  /** The walk visits every module outside column 6 exactly once, and no module of column 6. */
  lemma ScanVisitsOnce(size: nat, x: int, y: int)
    requires size % 2 == 1 && size >= 7 && InGrid(size, x, y)
    ensures Distinct(Scan(size, size - 1, true))
    ensures Index(size, x, y) in Scan(size, size - 1, true) <==> x != 6
  {
    hide Scan;
    assert OnWalk(size - 1);
    ScanDistinct(size, size - 1, true);
    ScanMember(size, size - 1, true, x, y);
  }

  // ----- the walk module by module

  /** How many columns a walk from `right` on visits. */
  function Columns(right: int): nat {
    if right > 5 then right else if right >= 1 then right + 1 else 0
  }

  lemma {:induction false} ScanLength(size: nat, right: int, up: bool)
    requires right < size && OnWalk(right)
    ensures |Scan(size, right, up)| == size * Columns(right)
    decreases right
  {
    hide Column;
    if right >= 1 {
      var r := SkipTiming(right);
      ScanLength(size, r - 2, !up);
      assert size * (2 + Columns(r - 2)) == 2 * size + size * Columns(r - 2);
    }
  }

  /** The walk begins with a column pair, and goes on behind it. */
  lemma ScanSplit(size: nat, right: int, up: bool, k: nat)
    requires 1 <= right < size
    ensures var rest := Scan(size, SkipTiming(right) - 2, !up);
            && |Scan(size, right, up)| == 2 * size + |rest|
            && (k < 2 * size ==> Scan(size, right, up)[k] == Column(size, SkipTiming(right), up)[k])
            && (k < |rest| ==> Scan(size, right, up)[2 * size + k] == rest[k])
  {
    hide Column;
  }

  /** Where a pair begins in the walk. */
  function PairStart(size: nat, pair: nat): nat {
    if pair == 0 then 0 else 2 * size + PairStart(size, pair - 1)
  }

  lemma {:induction false} PairStartIs(size: nat, pair: nat)
    ensures PairStart(size, pair) == 2 * size * pair
  {
    if pair > 0 {
      PairStartIs(size, pair - 1);
    }
  }

  /** The right column of a pair, counted from the column where the walk begins. */
  function PairColumn(right: int, pair: nat): int {
    if right <= 5 || right - 2 * pair > 6 then right - 2 * pair else right - 1 - 2 * pair
  }

  lemma PairColumns(right: int, pair: nat)
    requires OnWalk(right) && 2 * pair < Columns(right)
    ensures 1 <= PairColumn(right, pair) <= right && 1 <= SkipTiming(right) <= right
    ensures pair == 0 ==> PairColumn(right, pair) == SkipTiming(right)
    ensures pair > 0 ==>
      && OnWalk(SkipTiming(right) - 2) && 2 * (pair - 1) < Columns(SkipTiming(right) - 2)
      && PairColumn(right, pair) == PairColumn(SkipTiming(right) - 2, pair - 1)
  {}

  lemma PairStarts(size: nat, pair: nat)
    ensures pair == 0 ==> PairStart(size, pair) == 0
    ensures pair > 0 ==> PairStart(size, pair) == 2 * size + PairStart(size, pair - 1)
  {}

  lemma {:induction false} ScanAt(size: nat, right: int, up: bool, pair: nat, step: nat, upThere: bool)
    requires right < size && OnWalk(right) && 2 * pair < Columns(right) && step < 2 * size
    requires upThere <==> (if pair % 2 == 0 then up else !up)
    ensures 1 <= PairColumn(right, pair) < size
    ensures PairStart(size, pair) + step < |Scan(size, right, up)|
    ensures Scan(size, right, up)[PairStart(size, pair) + step] ==
      Column(size, PairColumn(right, pair), upThere)[step]
    decreases right
  {
    hide *;
    PairStarts(size, pair);
    var r := SkipTiming(right);
    PairColumns(right, pair);
    if pair == 0 {
      ScanSplit(size, right, up, step);
    } else {
      ScanAt(size, r - 2, !up, pair - 1, step, upThere);
      ScanSplit(size, right, up, PairStart(size, pair - 1) + step);
    }
  }

  /**
   The walk visits two columns at a time from the right edge, in each row the right module before the left one, upwards
   first and then down and up in turn. Left of the timing column the pairs begin at odd columns.
   */
  lemma WalkAt(size: nat, pair: nat, step: nat)
    requires size % 2 == 1 && size >= 7 && 2 * pair < size - 1 && step < 2 * size
    ensures |Scan(size, size - 1, true)| == size * (size - 1)
    ensures 0 <= 2 * size * pair && 2 * size * pair + step < size * (size - 1)
    ensures var right := if 2 * pair < size - 7 then size - 1 - 2 * pair else size - 2 - 2 * pair;
            var x, y := right - step % 2, if pair % 2 == 0 then size - 1 - step / 2 else step / 2;
            InGrid(size, x, y) && Scan(size, size - 1, true)[2 * size * pair + step] == Index(size, x, y)
  {
    hide Scan, Index, Column;
    ScanLength(size, size - 1, true);
    ScanAt(size, size - 1, true, pair, step, pair % 2 == 0);
    PairStartIs(size, pair);
    ColumnMember(size, PairColumn(size - 1, pair), pair % 2 == 0, step);
  }
}
