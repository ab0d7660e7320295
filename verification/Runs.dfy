/** Runs of equal modules along one row or column, and the points they cost. */
module Runs {
  // ----- the runs of a line

  /** Lengths of the maximal runs, beginning with a light one that may be empty; light and dark alternate. */
  function RunsOf(line: seq<bool>): (r: seq<nat>)
    ensures |r| >= 1
    decreases |line|
  {
    if line == [] then [0]
    else
      var n := |line| - 1;
      WithModule(RunsOf(line[..n]), line[n])
  }

  /** One more module lengthens the last run or starts a new one. */
  function WithModule(r: seq<nat>, color: bool): (s: seq<nat>)
    requires |r| >= 1
    ensures |s| >= 1
  {
    if color == DarkRun(|r| - 1) then r[|r| - 1 := r[|r| - 1] + 1] else r + [1]
  }

  predicate DarkRun(i: int) {
    i % 2 == 1
  }

  /** The line made of the first m runs. */
  function Expanded(runs: seq<nat>, m: nat): seq<bool>
    requires m <= |runs|
  {
    if m == 0 then [] else Expanded(runs, m - 1) + seq(runs[m - 1], _ => DarkRun(m - 1))
  }

  lemma RunsStep(line: seq<bool>, color: bool)
    ensures RunsOf(line + [color]) == WithModule(RunsOf(line), color)
  {
    hide WithModule;
    assert (line + [color])[..|line|] == line;
  }

  /** The runs put together are the line, and none but the first is empty: they are maximal. */
  lemma {:induction false} RunsOfExact(line: seq<bool>)
    ensures var r := RunsOf(line); Expanded(r, |r|) == line && forall i :: 1 <= i < |r| ==> r[i] >= 1
    decreases |line|
  {
    hide RunsOf, Expanded;
    if line == [] {
      NoRuns();
    } else {
      var n := |line| - 1;
      var color := line[n];
      assert line == line[..n] + [color];
      RunsOfExact(line[..n]);
      RunsStep(line[..n], color);
      var r, s := RunsOf(line[..n]), RunsOf(line);
      var m := |r| - 1;
      SameExpanded(r, s, m);
      ExpandedStep(r, m + 1);
      ExpandedStep(s, m + 1);
      if color == DarkRun(m) {
        assert seq(r[m] + 1, _ => color) == seq(r[m], _ => color) + [color];
      } else {
        ExpandedStep(s, m + 2);
        assert seq(1, _ => color) == [color];
      }
    }
  }

  lemma NoRuns()
    ensures RunsOf([]) == [0] && Expanded([0], 1) == []
  {}

  lemma ExpandedStep(runs: seq<nat>, m: nat)
    requires 1 <= m <= |runs|
    ensures Expanded(runs, m) == Expanded(runs, m - 1) + seq(runs[m - 1], _ => DarkRun(m - 1))
  {}

  lemma {:induction false} SameExpanded(r: seq<nat>, s: seq<nat>, m: nat)
    requires m <= |r| && m <= |s| && r[..m] == s[..m]
    ensures Expanded(r, m) == Expanded(s, m)
  {
    if m > 0 {
      assert r[..m - 1] == r[..m][..m - 1] == s[..m - 1];
      assert r[m - 1] == r[..m][m - 1] == s[m - 1];
      SameExpanded(r, s, m - 1);
    }
  }

  /** The length of the first m runs. */
  function Total(runs: seq<nat>, m: nat): nat
    requires m <= |runs|
  {
    if m == 0 then 0 else Total(runs, m - 1) + runs[m - 1]
  }

  lemma {:induction false} ExpandedLength(runs: seq<nat>, m: nat)
    requires m <= |runs|
    ensures |Expanded(runs, m)| == Total(runs, m)
  {
    if m > 0 {
      ExpandedLength(runs, m - 1);
    }
  }

  // ----- points for long runs

  function RunPoints(length: nat): nat {
    if length >= 5 then length - 2 else 0
  }

  function RunSum(runs: seq<nat>, m: nat): nat
    requires m <= |runs|
  {
    if m == 0 then 0 else RunSum(runs, m - 1) + RunPoints(runs[m - 1])
  }

  lemma {:induction false} SameRunSum(r: seq<nat>, s: seq<nat>, m: nat)
    requires m <= |r| && m <= |s| && forall i :: 0 <= i < m ==> r[i] == s[i]
    ensures RunSum(r, m) == RunSum(s, m)
  {
    if m > 0 {
      SameRunSum(r, s, m - 1);
    }
  }

  // ----- finder-like patterns

  /**
   How many finder-like patterns end at light run i: runs in the ratio 1:1:3:1:1, with at least four units of light
   on one side and one unit on the other.
   */
  function PatternsAt(h: seq<nat>, i: nat): nat
    requires i < |h|
  {
    if i < 6 then 0
    else
      var n := h[i - 1];
      if n > 0 && h[i - 2] == n && h[i - 3] == n * 3 && h[i - 4] == n && h[i - 5] == n then
        (if h[i - 6] >= n && h[i] >= n * 4 then 1 else 0) + (if h[i - 6] >= n * 4 && h[i] >= n then 1 else 0)
      else 0
  }

  /** Patterns that end among the first m runs. */
  function PatternSum(h: seq<nat>, m: nat): nat
    requires m <= |h|
  {
    if m == 0 then 0 else PatternSum(h, m - 1) + if DarkRun(m - 1) then 0 else PatternsAt(h, m - 1)
  }

  lemma {:induction false} SamePatternSum(g: seq<nat>, h: seq<nat>, m: nat)
    requires m <= |g| && m <= |h| && forall i :: 0 <= i < m ==> g[i] == h[i]
    ensures PatternSum(g, m) == PatternSum(h, m)
  {
    if m > 0 {
      SamePatternSum(g, h, m - 1);
    }
  }

  /** The light border in front of the first run. */
  function Fronted(runs: seq<nat>, size: nat): (h: seq<nat>)
    requires |runs| >= 1
    ensures |h| == |runs|
  {
    runs[0 := runs[0] + size]
  }

  /** The line ends with a light run, and a light border follows it. */
  function Bordered(runs: seq<nat>, size: nat): (h: seq<nat>)
    requires |runs| >= 1
  {
    var h := Fronted(runs, size);
    if DarkRun(|runs| - 1) then h + [size] else h[|h| - 1 := h[|h| - 1] + size]
  }

  /** Points of one row or column. */
  function LinePenalty(line: seq<bool>, size: nat): nat {
    var runs := RunsOf(line);
    var h := Bordered(runs, size);
    RunSum(runs, |runs|) + 40 * PatternSum(h, |h|)
  }

  // ----- the scan

  /** The seven latest of the first i entries, latest first, with zeros where there are none. */
  function History(h: seq<nat>, i: nat): (r: seq<nat>)
    requires i <= |h|
    ensures |r| == 7
  {
    seq(7, k requires 0 <= k => if k < i then h[i - 1 - k] else 0)
  }

  function CountPatterns(history: seq<nat>): nat
    requires |history| == 7
  {
    var n := history[1];
    var core := n > 0 && history[2] == n && history[3] == n * 3 && history[4] == n && history[5] == n;
    (if core && history[0] >= n * 4 && history[6] >= n then 1 else 0) +
    (if core && history[6] >= n * 4 && history[0] >= n then 1 else 0)
  }

  /** What the history counts at a light run is what the runs show there. */
  lemma CountsPatterns(h: seq<nat>, i: nat)
    requires i < |h| && !DarkRun(i)
    ensures CountPatterns(History(h, i + 1)) == PatternsAt(h, i)
  {}

  /** The new entry goes to the front; the very first one brings the border. */
  method AddHistory(currentRunLength: nat, runHistory: array<nat>, qrsize: nat)
    requires runHistory.Length == 7
    modifies runHistory
    ensures runHistory[..] ==
      [if old(runHistory[0]) == 0 then currentRunLength + qrsize else currentRunLength] + old(runHistory[..6])
  {
    var length := if runHistory[0] == 0 then currentRunLength + qrsize else currentRunLength;
    for k := 0 to 6
      invariant forall j :: 0 <= j < 7 ==> runHistory[j] == old(runHistory[if j > 6 - k then j - 1 else j])
    {
      runHistory[6 - k] := runHistory[5 - k];
    }
    runHistory[0] := length;
  }

  lemma HistoryNext(h: seq<nat>, i: nat)
    requires i < |h|
    ensures History(h, i + 1) == [h[i]] + History(h, i)[..6]
  {}

  lemma SameHistory(g: seq<nat>, h: seq<nat>, i: nat)
    requires i <= |g| && i <= |h| && g[..i] == h[..i]
    ensures History(g, i) == History(h, i)
  {
    forall k | 0 <= k < i
      ensures g[k] == h[k]
    {
      assert g[k] == g[..i][k] == h[..i][k];
    }
  }

  /** The scan of a line so far: current run, earlier runs, points. */
  ghost predicate ScanState(line: seq<bool>, size: nat, runColor: bool, run: nat, history: seq<nat>, points: nat) {
    var runs := RunsOf(line);
    var m := |runs| - 1;
    && runColor == DarkRun(m) && run == runs[m]
    && history == History(Fronted(runs, size), m)
    && points == RunSum(runs, m + 1) + 40 * PatternSum(Fronted(runs, size), m)
  }

  lemma ScanStart(size: nat)
    ensures ScanState([], size, false, 0, [0, 0, 0, 0, 0, 0, 0], 0)
  {
    var h := Fronted([0], size);
    assert RunsOf([]) == [0] && RunSum([0], 1) == 0;
  }

  lemma ScanSame(line: seq<bool>, size: nat, color: bool, run: nat, history: seq<nat>, points: nat)
    requires ScanState(line, size, color, run, history, points)
    ensures ScanState(line + [color], size, color, run + 1, history,
                      points + if run + 1 == 5 then 3 else if run + 1 > 5 then 1 else 0)
  {
    var r, s := RunsOf(line), RunsOf(line + [color]);
    var m := |r| - 1;
    assert (line + [color])[..|line|] == line;
    assert s == r[m := r[m] + 1];
    SameRunSum(r, s, m);
    var g, h := Fronted(r, size), Fronted(s, size);
    SamePatternSum(g, h, m);
    assert History(g, m) == History(h, m);
  }

  lemma ScanChange(line: seq<bool>, size: nat, color: bool, run: nat, history: seq<nat>, points: nat)
    requires size >= 1 && ScanState(line, size, color, run, history, points)
    ensures |history| == 7
    ensures var length := if history[0] == 0 then run + size else run;
            var history' := [length] + history[..6];
            ScanState(line + [!color], size, !color, 1, history',
                      points + if color then 0 else CountPatterns(history') * 40)
  {
    hide RunsOf, PatternsAt, CountPatterns, History;
    var r, s := RunsOf(line), RunsOf(line + [!color]);
    var m := |r| - 1;
    RunsStep(line, !color);
    SameRunSum(r, s, m + 1);
    var g, h := Fronted(r, size), Fronted(s, size);
    FirstEntry(line, size);
    assert g == h[..m + 1];
    SamePatternSum(g, h, m);
    HistoryNext(h, m);
    SameHistory(g, h, m);
    if !color {
      CountsPatterns(h, m);
    }
  }

  /** The history is empty exactly while the first run lasts. */
  lemma FirstEntry(line: seq<bool>, size: nat)
    requires size >= 1
    ensures var h := Fronted(RunsOf(line), size);
            var m := |h| - 1;
            History(h, m)[0] == 0 <==> m == 0
  {
    RunsOfExact(line);
  }

  function Pushed(length: nat, history: seq<nat>, size: nat): (r: seq<nat>)
    requires |history| == 7
    ensures |r| == 7
  {
    [if history[0] == 0 then length + size else length] + history[..6]
  }

  /** The border after the last run, and the patterns that end there. */
  lemma ScanEnd(line: seq<bool>, size: nat, color: bool, run: nat, history: seq<nat>, points: nat)
    requires size >= 1 && ScanState(line, size, color, run, history, points)
    ensures |history| == 7
    ensures var last := if color then Pushed(size, Pushed(run, history, size), size)
      else Pushed(run + size, history, size);
            points + CountPatterns(last) * 40 == LinePenalty(line, size)
  {
    hide RunsOf, PatternsAt, CountPatterns, History;
    var runs := RunsOf(line);
    var m := |runs| - 1;
    var g, h := Fronted(runs, size), Bordered(runs, size);
    FirstEntry(line, size);
    SamePatternSum(g, h, m);
    SameHistory(g, h, m);
    HistoryNext(h, m);
    if color {
      LastRunNotEmpty(line);
      HistoryNext(h, m + 1);
      CountsPatterns(h, m + 1);
      assert Pushed(run, history, size) == History(h, m + 1);
      assert Pushed(size, Pushed(run, history, size), size) == History(h, m + 2);
      assert PatternSum(h, m + 2) == PatternSum(h, m + 1) + PatternsAt(h, m + 1);
    } else {
      CountsPatterns(h, m);
      assert Pushed(run + size, history, size) == History(h, m + 1);
    }
  }

  lemma LastRunNotEmpty(line: seq<bool>)
    ensures var r := RunsOf(line); |r| > 1 ==> r[|r| - 1] >= 1
  {
    RunsOfExact(line);
  }

  /** At the end of a line: the border counts as light. */
  method TerminateAndCount(currentRunColor: bool, currentRunLength: nat, runHistory: array<nat>, qrsize: nat)
      returns (count: nat)
    requires runHistory.Length == 7
    modifies runHistory
    ensures var history := old(runHistory[..]);
            var last := if currentRunColor then Pushed(qrsize, Pushed(currentRunLength, history, qrsize), qrsize)
                        else Pushed(currentRunLength + qrsize, history, qrsize);
            count == CountPatterns(last)
  {
    hide CountPatterns;
    var length := currentRunLength;
    if currentRunColor {
      AddHistory(length, runHistory, qrsize);
      length := 0;
    }
    length := length + qrsize;
    AddHistory(length, runHistory, qrsize);
    count := CountPatterns(runHistory[..]);
  }
}
