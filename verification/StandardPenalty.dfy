/**
 The penalty score without runs and histories: rules about modules at given places, with all weights written out. The
 scan of module Runs counts exactly this.
 */
module StandardPenalty {
  import opened Bits
  import opened Grid
  import opened Runs
  import opened Penalty

  // ----- five in a row

  /** Modules i - 4 to i of the line have one colour. */
  predicate Five(line: seq<bool>, i: int) {
    4 <= i < |line| && forall k :: i - 4 <= k < i ==> line[k] == line[i]
  }

  /** They are the first five of their colour. */
  predicate FirstFive(line: seq<bool>, i: int) {
    Five(line, i) && (i == 4 || line[i - 5] != line[i])
  }

  /** How many of the first n places end five modules of one colour. */
  function Fives(line: seq<bool>, n: nat): nat {
    if n == 0 then 0 else Fives(line, n - 1) + if Five(line, n - 1) then 1 else 0
  }

  function FirstFives(line: seq<bool>, n: nat): nat {
    if n == 0 then 0 else FirstFives(line, n - 1) + if FirstFive(line, n - 1) then 1 else 0
  }

  /** The last run ends the line, and a module of the other colour stands in front of it. */
  lemma {:induction false} LastRun(line: seq<bool>)
    ensures var r := RunsOf(line);
            var m := |r| - 1;
            && r[m] <= |line|
            && (forall k :: |line| - r[m] <= k < |line| ==> line[k] == DarkRun(m))
            && (r[m] < |line| ==> line[|line| - r[m] - 1] != DarkRun(m))
    decreases |line|
  {
    hide RunsOf;
    if line == [] {
      NoRuns();
    } else {
      var n := |line| - 1;
      var rest, c := line[..n], line[n];
      LastRun(rest);
      RunsStep(rest, c);
      assert line == rest + [c];
      var m := |RunsOf(rest)| - 1;
      if RunsOf(rest)[m] == 0 {
        FirstRunOnly(rest);
      }
    }
  }

  lemma {:induction false} FivesOfPrefix(line: seq<bool>, c: bool, n: nat)
    requires n <= |line|
    ensures Fives(line + [c], n) == Fives(line, n) && FirstFives(line + [c], n) == FirstFives(line, n)
  {
    if n > 0 {
      FivesOfPrefix(line, c, n - 1);
      assert forall k :: 0 <= k < |line| ==> (line + [c])[k] == line[k];
      assert Five(line + [c], n - 1) <==> Five(line, n - 1);
    }
  }

  /** The points for long runs: one for every five in a row, and two more for the first five. */
  lemma {:induction false} RunsCountFives(line: seq<bool>)
    ensures var r := RunsOf(line);
            RunSum(r, |r|) == Fives(line, |line|) + 2 * FirstFives(line, |line|)
    decreases |line|
  {
    hide RunsOf, RunSum, Five, FirstFive, WithModule, DarkRun;
    if line == [] {
      NoRuns();
      NoPoints();
    } else {
      var n := |line| - 1;
      var rest, c := line[..n], line[n];
      assert line == rest + [c];
      RunsCountFives(rest);
      FivesOfPrefix(rest, c, n);
      RunsStep(rest, c);
      OneMoreModule(rest, c);
      PointsOfModule(RunsOf(rest), c);
    }
  }

  lemma NoPoints()
    ensures RunSum([0], 1) == 0
  {}

  /** What a module adds to the points of the runs. */
  lemma PointsOfModule(r: seq<nat>, c: bool)
    requires r != []
    ensures var s, length := WithModule(r, c), if c == DarkRun(|r| - 1) then r[|r| - 1] + 1 else 1;
            RunSum(s, |s|) == RunSum(r, |r|) + if length == 5 then 3 else if length > 5 then 1 else 0
  {
    SameRunSum(r, WithModule(r, c), |r| - 1);
  }

  /** The new module ends five of one colour if its run has five modules by now. */
  lemma OneMoreModule(line: seq<bool>, c: bool)
    ensures var r := RunsOf(line);
            var m := |r| - 1;
            var length := if c == DarkRun(m) then r[m] + 1 else 1;
            && (Five(line + [c], |line|) <==> length >= 5)
            && (FirstFive(line + [c], |line|) <==> length == 5)
  {
    hide RunsOf;
    LastRun(line);
    var n, l := |line|, line + [c];
    var r := RunsOf(line);
    var m := |r| - 1;
    assert forall k :: 0 <= k < n ==> l[k] == line[k];
    var length := if c == DarkRun(m) then r[m] + 1 else 1;
    assert forall k :: n + 1 - length <= k <= n ==> l[k] == c;
    assert length <= n ==> l[n - length] != c by {
      if length <= n && c != DarkRun(m) && r[m] == 0 {
        FirstRunOnly(line);
      }
    }
    if length >= 5 {
      assert Five(l, n);
    } else if n >= 4 {
      assert l[n - length] != l[n];
    }
  }

  /** A run is empty only in front of a dark module, at the very start. */
  lemma FirstRunOnly(line: seq<bool>)
    requires RunsOf(line)[|RunsOf(line)| - 1] == 0
    ensures line == []
  {
    hide RunsOf;
    RunsOfExact(line);
  }

  // ----- finder-like patterns

  /** The modules from a to b - 1 are light; those outside the line count as light. */
  predicate Light(line: seq<bool>, a: int, b: int) {
    forall k :: a <= k < b && 0 <= k < |line| ==> !line[k]
  }

  predicate AllDark(line: seq<bool>, a: int, b: int) {
    0 <= a && b <= |line| && forall k :: a <= k < b ==> line[k]
  }

  /** Seven units that end in front of place e: dark, light, dark, dark, dark, light, dark. */
  predicate Core(line: seq<bool>, e: int, n: int) {
    && 1 <= n && AllDark(line, e - 7 * n, e - 6 * n) && Light(line, e - 6 * n, e - 5 * n)
    && AllDark(line, e - 5 * n, e - 2 * n) && Light(line, e - 2 * n, e - n) && AllDark(line, e - n, e)
  }

  /** With at least one light unit in front and four behind, or four in front and one behind. */
  function FinderLike(line: seq<bool>, e: int, n: int): nat {
    if Core(line, e, n) then
      (if Light(line, e - 8 * n, e - 7 * n) && Light(line, e, e + 4 * n) then 1 else 0)
      + (if Light(line, e - 11 * n, e - 7 * n) && Light(line, e, e + n) then 1 else 0)
    else 0
  }

  /** Patterns that end in front of place e, of units up to n. */
  function FinderLikeAt(line: seq<bool>, e: int, n: nat): nat {
    if n == 0 then 0 else FinderLikeAt(line, e, n - 1) + FinderLike(line, e, n)
  }

  /** Patterns that end in front of places up to e. */
  function FinderLikes(line: seq<bool>, e: nat): nat {
    FinderLikeAt(line, e, |line|) + if e == 0 then 0 else FinderLikes(line, e - 1)
  }

  // ----- runs by place

  /** Run j starts where the runs before it end. */
  lemma RunPlace(line: seq<bool>, j: nat, k: int)
    requires j < |RunsOf(line)| && Total(RunsOf(line), j) <= k < Total(RunsOf(line), j + 1)
    ensures k < |line| && line[k] == DarkRun(j)
  {
    hide RunsOf;
    var r := RunsOf(line);
    RunsOfExact(line);
    ExpandedAt(r, |r|, j, k);
    ExpandedLength(r, |r|);
    TotalMonotone(r, j + 1, |r|);
  }

  lemma {:induction false} ExpandedAt(r: seq<nat>, m: nat, j: nat, k: int)
    requires j < m <= |r| && Total(r, j) <= k < Total(r, j + 1)
    ensures k < |Expanded(r, m)| && Expanded(r, m)[k] == DarkRun(j)
  {
    hide Expanded;
    ExpandedStep(r, m);
    ExpandedLength(r, m - 1);
    ExpandedLength(r, m);
    if j < m - 1 {
      ExpandedAt(r, m - 1, j, k);
    }
  }

  lemma {:induction false} TotalMonotone(r: seq<nat>, i: nat, j: nat)
    requires i <= j <= |r|
    ensures Total(r, i) <= Total(r, j)
  {
    if i < j {
      TotalMonotone(r, i, j - 1);
    }
  }

  lemma TotalIsLength(line: seq<bool>)
    ensures Total(RunsOf(line), |RunsOf(line)|) == |line|
  {
    hide RunsOf;
    RunsOfExact(line);
    ExpandedLength(RunsOf(line), |RunsOf(line)|);
  }

  /** Where run i begins. */
  function StartOf(line: seq<bool>, i: nat): nat
    requires i <= |RunsOf(line)|
  {
    Total(RunsOf(line), i)
  }

  lemma RunLength(line: seq<bool>, i: nat)
    requires 1 <= i <= |RunsOf(line)|
    ensures StartOf(line, i) == StartOf(line, i - 1) + RunsOf(line)[i - 1] <= |line|
    ensures i >= 2 ==> RunsOf(line)[i - 1] >= 1
  {
    hide RunsOf;
    RunsOfExact(line);
    TotalIsLength(line);
    TotalMonotone(RunsOf(line), i, |RunsOf(line)|);
  }

  /** If n modules of its colour stand in front of the end of a run, and then another colour, these are the run. */
  lemma WholeRun(line: seq<bool>, i: nat, n: nat)
    requires 1 <= i <= |RunsOf(line)| && 1 <= n <= StartOf(line, i)
    requires var e := StartOf(line, i);
             && e <= |line| && (forall k :: e - n <= k < e ==> line[k] == DarkRun(i - 1))
             && (e - n > 0 ==> line[e - n - 1] != DarkRun(i - 1))
    ensures RunsOf(line)[i - 1] == n && StartOf(line, i - 1) == StartOf(line, i) - n
  {
    hide RunsOf;
    var e := StartOf(line, i);
    RunLength(line, i);
    if StartOf(line, i - 1) < e - n {
      RunPlace(line, i - 1, e - n - 1);
    }
    if StartOf(line, i - 1) > e - n {
      RunLength(line, i - 1);
      RunPlace(line, i - 2, StartOf(line, i - 1) - 1);
    }
  }

  // ----- light runs and the border

  /** Behind a dark run there are m light modules if the light run there is as long, the border included. */
  lemma LightBehind(line: seq<bool>, size: nat, i: nat, m: nat)
    requires !DarkRun(i) && 1 <= i < |Bordered(RunsOf(line), size)| && 1 <= m <= size
    ensures i <= |RunsOf(line)|
    ensures Light(line, StartOf(line, i), StartOf(line, i) + m) <==> Bordered(RunsOf(line), size)[i] >= m
  {
    hide RunsOf;
    var r := RunsOf(line);
    var e := StartOf(line, i);
    TotalIsLength(line);
    if i < |r| {
      RunLength(line, i + 1);
      forall k | e <= k < e + r[i]
        ensures !line[k]
      {
        RunPlace(line, i, k);
      }
      if i + 1 < |r| {
        RunLength(line, i + 2);
        RunPlace(line, i + 1, e + r[i]);
      }
    }
  }

  /** The same in front of a dark run. */
  lemma LightBefore(line: seq<bool>, size: nat, i: nat, m: nat)
    requires !DarkRun(i) && i + 1 < |RunsOf(line)| && 1 <= m <= size
    ensures Light(line, StartOf(line, i + 1) - m, StartOf(line, i + 1)) <==> Bordered(RunsOf(line), size)[i] >= m
  {
    hide RunsOf;
    var r := RunsOf(line);
    var s := StartOf(line, i + 1);
    RunLength(line, i + 1);
    forall k | s - r[i] <= k < s
      ensures !line[k]
    {
      RunPlace(line, i, k);
    }
    if i > 0 {
      RunLength(line, i);
      RunPlace(line, i - 1, s - r[i] - 1);
    }
  }

  // ----- patterns by runs

  /** The five runs in front of a light run make the core of a pattern. */
  predicate CoreRuns(r: seq<nat>, i: nat, n: nat)
    requires i <= |r|
  {
    i >= 6 && n >= 1 && r[i - 1] == n && r[i - 2] == n && r[i - 3] == 3 * n && r[i - 4] == n && r[i - 5] == n
  }

  lemma RunsMakeCore(line: seq<bool>, i: nat, n: nat)
    requires !DarkRun(i) && i <= |RunsOf(line)| && CoreRuns(RunsOf(line), i, n)
    ensures Core(line, StartOf(line, i), n) && StartOf(line, i - 5) == StartOf(line, i) - 7 * n
  {
    hide RunsOf;
    var e := StartOf(line, i);
    RunLength(line, i);
    RunLength(line, i - 1);
    RunLength(line, i - 2);
    RunLength(line, i - 3);
    RunLength(line, i - 4);
    RunColour(line, i - 1, e - n, e);
    RunColour(line, i - 2, e - 2 * n, e - n);
    RunColour(line, i - 3, e - 5 * n, e - 2 * n);
    RunColour(line, i - 4, e - 6 * n, e - 5 * n);
    RunColour(line, i - 5, e - 7 * n, e - 6 * n);
  }

  lemma RunColour(line: seq<bool>, j: nat, a: int, b: int)
    requires j < |RunsOf(line)| && StartOf(line, j) == a && StartOf(line, j + 1) == b
    ensures 0 <= a && b <= |line| && forall k :: a <= k < b ==> line[k] == DarkRun(j)
  {
    hide RunsOf;
    RunLength(line, j + 1);
    forall k | a <= k < b
      ensures line[k] == DarkRun(j)
    {
      RunPlace(line, j, k);
    }
  }

  lemma CoreMakesRuns(line: seq<bool>, i: nat, n: nat)
    requires !DarkRun(i) && 2 <= i <= |RunsOf(line)|
    requires var e := StartOf(line, i); Core(line, e, n) && Light(line, e - 7 * n - 1, e - 7 * n)
    ensures CoreRuns(RunsOf(line), i, n)
  {
    hide RunsOf;
    var e := StartOf(line, i);
    RunLength(line, i);
    WholeRun(line, i, n);
    WholeRun(line, i - 1, n);
    assert i - 2 >= 1;
    WholeRun(line, i - 2, 3 * n);
    WholeRun(line, i - 3, n);
    assert i - 4 >= 1;
    WholeRun(line, i - 4, n);
  }

  /** What the runs show at a light run is what the modules show at the place where it begins, for units of one size. */
  lemma UnitAgrees(line: seq<bool>, i: nat, n: nat)
    requires !DarkRun(i) && 2 <= i < |Bordered(RunsOf(line), |line|)| && n >= 1
    ensures i <= |RunsOf(line)|
    ensures RunsOf(line)[i - 1] != n ==> FinderLike(line, StartOf(line, i), n) == 0
    ensures RunsOf(line)[i - 1] == n ==>
      FinderLike(line, StartOf(line, i), n) == PatternsAt(Bordered(RunsOf(line), |line|), i)
  {
    hide RunsOf, Core, Light, CoreRuns, Bordered;
    var r, h, size := RunsOf(line), Bordered(RunsOf(line), |line|), |line|;
    BorderedRuns(line, size, i);
    var e := StartOf(line, i);
    if CoreRuns(r, i, n) {
      RunsMakeCore(line, i, n);
      CorePlace(line, e, n);
      CoreRunsParts(r, h, i, n);
      LightBehind(line, size, i, n);
      LightBehind(line, size, i, 4 * n);
      LightBefore(line, size, i - 6, n);
      LightBefore(line, size, i - 6, 4 * n);
    } else if Core(line, e, n) {
      LightPart(line, e - 8 * n, e - 7 * n, n);
      LightPart(line, e - 11 * n, e - 7 * n, n);
      if Light(line, e - 7 * n - 1, e - 7 * n) {
        CoreMakesRuns(line, i, n);
      }
      if r[i - 1] == n {
        NotCoreRuns(r, h, i, n);
      }
    } else if r[i - 1] == n {
      NotCoreRuns(r, h, i, n);
    }
  }

  /** Runs that the border does not change. */
  predicate SameInside(r: seq<nat>, h: seq<nat>, i: nat) {
    i <= |r| && i < |h| && forall k :: 1 <= k < i ==> h[k] == r[k]
  }

  lemma CoreRunsParts(r: seq<nat>, h: seq<nat>, i: nat, n: nat)
    requires SameInside(r, h, i) && CoreRuns(r, i, n)
    ensures i >= 6 && n >= 1 && r[i - 1] == n
    ensures PatternsAt(h, i) ==
      (if h[i - 6] >= n && h[i] >= 4 * n then 1 else 0) + (if h[i - 6] >= 4 * n && h[i] >= n then 1 else 0)
  {}

  lemma NotCoreRuns(r: seq<nat>, h: seq<nat>, i: nat, n: nat)
    requires SameInside(r, h, i) && 2 <= i && !CoreRuns(r, i, n) && r[i - 1] == n
    ensures PatternsAt(h, i) == 0
  {}

  lemma LightPart(line: seq<bool>, a: int, b: int, n: nat)
    requires n >= 1 && a < b
    ensures Light(line, a, b) ==> Light(line, b - 1, b)
  {}

  lemma CorePlace(line: seq<bool>, e: int, n: nat)
    requires Core(line, e, n)
    ensures 7 * n <= e <= |line|
  {}

  /** The runs with borders are the runs, apart from the first and the last. */
  lemma BorderedRuns(line: seq<bool>, size: nat, i: nat)
    requires !DarkRun(i) && i < |Bordered(RunsOf(line), size)|
    ensures SameInside(RunsOf(line), Bordered(RunsOf(line), size), i)
  {
    hide RunsOf;
  }

  // ----- all patterns of a line

  lemma {:induction false} OneUnit(line: seq<bool>, e: int, u: nat, n: nat)
    requires u >= 1 && forall k :: 1 <= k <= n && k != u ==> FinderLike(line, e, k) == 0
    ensures FinderLikeAt(line, e, n) == if u <= n then FinderLike(line, e, u) else 0
  {
    hide FinderLike;
    if n > 0 {
      OneUnit(line, e, u, n - 1);
    }
  }

  lemma AtLightRun(line: seq<bool>, i: nat)
    requires !DarkRun(i) && 2 <= i < |Bordered(RunsOf(line), |line|)|
    ensures i <= |RunsOf(line)|
    ensures FinderLikeAt(line, StartOf(line, i), |line|) == PatternsAt(Bordered(RunsOf(line), |line|), i)
  {
    hide RunsOf, Bordered, FinderLike, PatternsAt;
    BorderedRuns(line, |line|, i);
    var e, u := StartOf(line, i), RunsOf(line)[i - 1];
    RunLength(line, i);
    forall k | 1 <= k <= |line| && k != u
      ensures FinderLike(line, e, k) == 0
    {
      UnitAgrees(line, i, k);
    }
    OneUnit(line, e, u, |line|);
    UnitAgrees(line, i, u);
  }

  /** No pattern ends but between a dark module and a light one. */
  lemma {:induction false} NoneAt(line: seq<bool>, e: nat, n: nat)
    requires e <= |line| && (e == 0 || !line[e - 1] || (e < |line| && line[e]))
    ensures FinderLikeAt(line, e, n) == 0
  {
    if n > 0 {
      NoneAt(line, e, n - 1);
      assert FinderLike(line, e, n) == 0 by {
        if Core(line, e, n) {
          assert line[e - 1];
          assert !Light(line, e, e + n) && !Light(line, e, e + 4 * n);
        }
      }
    }
  }

  lemma {:induction false} NoneBetween(line: seq<bool>, a: nat, b: nat)
    requires a <= b <= |line|
    requires forall e :: a < e <= b ==> !line[e - 1] || (e < |line| && line[e])
    ensures FinderLikes(line, b) == FinderLikes(line, a)
  {
    hide FinderLikeAt;
    if a < b {
      NoneBetween(line, a, b - 1);
      NoneAt(line, b, |line|);
    }
  }

  /** The patterns that end at the first runs are those that end at the places up to there. */
  lemma {:induction false} ByRuns(line: seq<bool>, m: nat)
    requires m < |Bordered(RunsOf(line), |line|)|
    ensures m <= |RunsOf(line)|
      && PatternSum(Bordered(RunsOf(line), |line|), m + 1) == FinderLikes(line, StartOf(line, m))
    decreases m
  {
    hide RunsOf, Bordered, FinderLikeAt, PatternsAt;
    var h := Bordered(RunsOf(line), |line|);
    if m == 0 {
      NoneAt(line, 0, |line|);
      NoPatternFirst(h);
    } else {
      ByRuns(line, m - 1);
      BorderLength(line, m);
      var a, b := StartOf(line, m - 1), StartOf(line, m);
      RunLength(line, m);
      RunColour(line, m - 1, a, b);
      if DarkRun(m) {
        NoneBetween(line, a, b);
      } else {
        NoneBetween(line, a, b - 1);
        AtLightRun(line, m);
      }
    }
  }

  lemma NoPatternFirst(h: seq<nat>)
    requires |h| >= 1
    ensures PatternSum(h, 1) == 0
  {
    assert PatternSum(h, 0) == 0;
  }

  lemma BorderLength(line: seq<bool>, m: nat)
    requires m < |Bordered(RunsOf(line), |line|)|
    ensures m <= |RunsOf(line)|
    ensures m == |Bordered(RunsOf(line), |line|)| - 1 ==>
      m == if DarkRun(|RunsOf(line)| - 1) then |RunsOf(line)| else |RunsOf(line)| - 1
  {
    hide RunsOf;
  }

  lemma PatternsByPlace(line: seq<bool>)
    ensures var h := Bordered(RunsOf(line), |line|); PatternSum(h, |h|) == FinderLikes(line, |line|)
  {
    hide RunsOf, Bordered, PatternSum, FinderLikes;
    var h, r := Bordered(RunsOf(line), |line|), RunsOf(line);
    var m := |h| - 1;
    BorderNotEmpty(line);
    BorderLength(line, m);
    ByRuns(line, m);
    TotalIsLength(line);
    if !DarkRun(|r| - 1) {
      RunColour(line, m, StartOf(line, m), |line|);
      NoneBetween(line, StartOf(line, m), |line|);
    }
  }

  lemma BorderNotEmpty(line: seq<bool>)
    ensures |Bordered(RunsOf(line), |line|)| >= 1
  {
    hide RunsOf;
  }

  /**
   The points of a line: one for every place that ends five modules of one colour, two more for the first five, and
   forty for every finder-like pattern.
   */
  lemma LineIsStandard(line: seq<bool>)
    ensures LinePenalty(line, |line|) ==
      Fives(line, |line|) + 2 * FirstFives(line, |line|) + 40 * FinderLikes(line, |line|)
  {
    hide RunsOf, Bordered, PatternSum, FinderLikes, Fives, FirstFives;
    RunsCountFives(line);
    PatternsByPlace(line);
  }

  // ----- squares

  /** The module and those to the right, below and across have one colour. */
  predicate FourEqual(size: nat, g: Modules, x: nat, y: nat)
    requires |g| == size * size && x + 1 < size && y + 1 < size
  {
    g[Index(size, x, y)] == g[Index(size, x + 1, y)] == g[Index(size, x, y + 1)] == g[Index(size, x + 1, y + 1)]
  }

  /** How many such squares begin in row y, in the first n columns. */
  function SquaresInRow(size: nat, g: Modules, y: nat, n: nat): nat
    requires |g| == size * size && n < size && y + 1 < size
  {
    if n == 0 then 0 else SquaresInRow(size, g, y, n - 1) + if FourEqual(size, g, n - 1, y) then 1 else 0
  }

  function SquaresAbove(size: nat, g: Modules, n: nat): nat
    requires |g| == size * size && n < size
  {
    if n == 0 then 0 else SquaresAbove(size, g, n - 1) + SquaresInRow(size, g, n - 1, size - 1)
  }

  lemma SquareCounted(size: nat, g: Modules, x: nat, y: nat)
    requires |g| == size * size && x + 1 < size && y + 1 < size
    ensures y * size + x < |Squares(size, g)| && 0 <= y * size
    ensures Squares(size, g)[y * size + x] <==> FourEqual(size, g, x, y)
  {
    hide Squares, Index;
    SquareHere(size, g, x, y);
    MulMonotone(size, 0, y);
  }

  lemma {:induction false} RowCounted(size: nat, g: Modules, y: nat, n: nat, start: nat)
    requires |g| == size * size && n < size && y + 1 < size && start == y * size <= |Squares(size, g)|
    ensures start + n <= |Squares(size, g)|
    ensures CountTrue(Squares(size, g)[..start + n]) ==
      CountTrue(Squares(size, g)[..start]) + SquaresInRow(size, g, y, n)
  {
    hide Squares, CountTrue, FourEqual;
    if n > 0 {
      RowCounted(size, g, y, n - 1, start);
      SquareCounted(size, g, n - 1, y);
      CountNext(Squares(size, g), start + n - 1);
    }
  }

  lemma {:induction false} RowsCounted(size: nat, g: Modules, n: nat)
    requires |g| == size * size && n < size
    ensures 0 <= n * size <= |Squares(size, g)|
    ensures CountTrue(Squares(size, g)[..n * size]) == SquaresAbove(size, g, n)
  {
    hide Squares, CountTrue, Index, SquaresInRow;
    MulMonotone(size, 0, n);
    MulMonotone(size, n, size);
    if n == 0 {
      NothingCounted(Squares(size, g));
    } else {
      RowsCounted(size, g, n - 1);
      RowCounted(size, g, n - 1, size - 1, (n - 1) * size);
      SquareAtEdge(size, g, size - 1, n - 1);
      CountNext(Squares(size, g), (n - 1) * size + size - 1);
    }
  }

  lemma SquaresCounted(size: nat, g: Modules)
    requires |g| == size * size && size >= 1
    ensures CountTrue(Squares(size, g)) == SquaresAbove(size, g, size - 1)
  {
    hide Squares, CountTrue, SquaresAbove;
    RowsCounted(size, g, size - 1);
    MulMonotone(size, size - 1, size);
    LastRow(size, g, (size - 1) * size);
  }

  // ----- the score

  function RowAt(size: nat, g: Modules, y: nat): (r: seq<bool>)
    requires |g| == size * size && y < size
    ensures |r| == size
  {
    seq(size, x requires 0 <= x < size => g[Index(size, x, y)])
  }

  function ColumnAt(size: nat, g: Modules, x: nat): (r: seq<bool>)
    requires |g| == size * size && x < size
    ensures |r| == size
  {
    seq(size, y requires 0 <= y < size => g[Index(size, x, y)])
  }

  /** Places in the first n rows and columns that end five modules of one colour. */
  function AllFives(size: nat, g: Modules, n: nat): nat
    requires |g| == size * size && n <= size
  {
    if n == 0 then 0
    else AllFives(size, g, n - 1) + Fives(RowAt(size, g, n - 1), size) + Fives(ColumnAt(size, g, n - 1), size)
  }

  function AllFirstFives(size: nat, g: Modules, n: nat): nat
    requires |g| == size * size && n <= size
  {
    if n == 0 then 0
    else
      AllFirstFives(size, g, n - 1) + FirstFives(RowAt(size, g, n - 1), size)
      + FirstFives(ColumnAt(size, g, n - 1), size)
  }

  function AllFinderLikes(size: nat, g: Modules, n: nat): nat
    requires |g| == size * size && n <= size
  {
    if n == 0 then 0
    else
      AllFinderLikes(size, g, n - 1) + FinderLikes(RowAt(size, g, n - 1), size)
      + FinderLikes(ColumnAt(size, g, n - 1), size)
  }

  lemma LinesAre(size: nat, g: Modules, k: nat)
    requires |g| == size * size && k < size
    ensures Line(size, g, k, false) == RowAt(size, g, k) && Line(size, g, k, true) == ColumnAt(size, g, k)
  {
    hide Index;
  }

  lemma {:induction false} LinesAreStandard(size: nat, g: Modules, n: nat)
    requires |g| == size * size && n <= size
    ensures LinePoints(size, g, false, n) + LinePoints(size, g, true, n) ==
      AllFives(size, g, n) + 2 * AllFirstFives(size, g, n) + 40 * AllFinderLikes(size, g, n)
  {
    hide LinePenalty, Line, RowAt, ColumnAt, Fives, FirstFives, FinderLikes;
    if n > 0 {
      LinesAreStandard(size, g, n - 1);
      LinesAre(size, g, n - 1);
      LineIsStandard(RowAt(size, g, n - 1));
      LineIsStandard(ColumnAt(size, g, n - 1));
    }
  }

  /**
   The score, with all weights: 1 for five modules of one colour in a row or column and for each further one, 2 more
   for the first five, 40 for a finder-like pattern, 3 for a square of one colour, and 10 for each step of five percent
   by which the share of dark modules is off 45 to 55 percent.
   */
  lemma ScoreIsStandard(size: nat, g: Modules, k: nat)
    requires size % 2 == 1 && |g| == size * size
    requires var dark, total := CountTrue(g), size * size;
             && (45 - 5 * k) * total <= 100 * dark <= (55 + 5 * k) * total
             && (k > 0 ==> !((50 - 5 * k) * total <= 100 * dark <= (50 + 5 * k) * total))
    ensures Score(size, g) ==
      AllFives(size, g, size) + 2 * AllFirstFives(size, g, size) + 40 * AllFinderLikes(size, g, size)
      + 3 * SquaresAbove(size, g, size - 1) + 10 * k
  {
    hide LinePoints, CountTrue, Squares, AllFives, AllFirstFives, AllFinderLikes, SquaresAbove, Imbalance;
    LinesAreStandard(size, g, size);
    SquaresCounted(size, g);
    LeastStep(CountTrue(g), size, k);
  }

  lemma LeastStep(dark: nat, size: nat, k: nat)
    requires size % 2 == 1 && dark <= size * size
    requires var total := size * size;
             && (45 - 5 * k) * total <= 100 * dark <= (55 + 5 * k) * total
             && (k > 0 ==> !((50 - 5 * k) * total <= 100 * dark <= (50 + 5 * k) * total))
    ensures size * size > 0 && Imbalance(dark, size * size) == k
  {
    hide Imbalance;
    MulMonotone(size, 1, size);
    OddSquare(size, dark);
    ImbalanceIsLeast(dark, size * size, k);
    if k > 0 {
      ImbalanceIsLeast(dark, size * size, k - 1);
      assert 45 - 5 * (k - 1) == 50 - 5 * k && 55 + 5 * (k - 1) == 50 + 5 * k;
    }
  }

  // ----- the light grid

  lemma {:induction false} LightRun(line: seq<bool>)
    requires forall k :: 0 <= k < |line| ==> !line[k]
    ensures RunsOf(line) == [|line|]
    decreases |line|
  {
    if line != [] {
      LightRun(line[..|line| - 1]);
    }
  }

  lemma LightLine(line: seq<bool>)
    requires |line| >= 5 && forall k :: 0 <= k < |line| ==> !line[k]
    ensures LinePenalty(line, |line|) == |line| - 2
  {
    hide RunsOf, PatternsAt;
    LightRun(line);
    var h := Bordered([|line|], |line|);
    assert RunSum([|line|], 1) == RunSum([|line|], 0) + RunPoints(|line|);
    NoPatternFirst(h);
  }

  lemma {:induction false} LightLines(size: nat, g: Modules, vertical: bool, n: nat)
    requires |g| == size * size && size >= 5 && n <= size && forall p :: 0 <= p < |g| ==> !g[p]
    ensures LinePoints(size, g, vertical, n) == n * (size - 2)
  {
    hide LinePenalty, Index;
    if n > 0 {
      LightLines(size, g, vertical, n - 1);
      LightLine(Line(size, g, n - 1, vertical));
      assert n * (size - 2) == (n - 1) * (size - 2) + (size - 2);
    }
  }

  lemma {:induction false} LightRow(size: nat, g: Modules, y: nat, n: nat)
    requires |g| == size * size && n < size && y + 1 < size && forall p :: 0 <= p < |g| ==> !g[p]
    ensures SquaresInRow(size, g, y, n) == n
  {
    hide Index;
    if n > 0 {
      LightRow(size, g, y, n - 1);
    }
  }

  lemma {:induction false} LightSquares(size: nat, g: Modules, n: nat)
    requires |g| == size * size && n < size && forall p :: 0 <= p < |g| ==> !g[p]
    ensures SquaresAbove(size, g, n) == n * (size - 1)
  {
    hide SquaresInRow;
    if n > 0 {
      LightSquares(size, g, n - 1);
      LightRow(size, g, n - 1, size - 1);
      assert n * (size - 1) == (n - 1) * (size - 1) + (size - 1);
    }
  }

  lemma {:induction false} NoneDark(s: seq<bool>)
    requires forall p :: 0 <= p < |s| ==> !s[p]
    ensures CountTrue(s) == 0
    decreases |s|
  {
    if s != [] {
      NoneDark(s[..|s| - 1]);
    }
  }

  /** A light grid costs n - 2 points a row and column, 3 a square, and 90 for having no dark modules. */
  lemma LightGridScore(size: nat, g: Modules)
    requires size % 2 == 1 && size >= 5 && |g| == size * size && forall p :: 0 <= p < |g| ==> !g[p]
    ensures Score(size, g) == 2 * size * (size - 2) + 3 * (size - 1) * (size - 1) + 90
  {
    hide LinePoints, CountTrue, Squares, SquaresAbove, Imbalance;
    LightLines(size, g, false, size);
    LightLines(size, g, true, size);
    LightSquares(size, g, size - 1);
    SquaresCounted(size, g);
    NoneDark(g);
    MulMonotone(size, 1, size);
    LeastStep(0, size, 9);
    assert 3 * ((size - 1) * (size - 1)) == 3 * (size - 1) * (size - 1);
    assert 2 * (size * (size - 2)) == 2 * size * (size - 2);
  }
}
