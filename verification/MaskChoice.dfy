/** The encoder's choice of the mask pattern: eight trials on one grid, each of them undone. */
module MaskChoice {
  import opened Bits
  import opened Grid
  import opened Masks
  import opened Runs
  import opened Penalty
  import opened FormatCode
  import opened FormatInformation

  const LONG_MAX: nat := 0x7FFF_FFFF

  // ----- the score is always below the initial minimum

  lemma {:induction false} RunSumBounded(runs: seq<nat>, m: nat)
    requires m <= |runs|
    ensures RunSum(runs, m) <= Total(runs, m)
  {
    if m > 0 {
      RunSumBounded(runs, m - 1);
    }
  }

  /** Of two neighbouring light runs, at most one ends a pattern: its unit would be nine times itself. */
  lemma NeighboursExclude(h: seq<nat>, i: nat)
    requires i + 2 < |h|
    ensures PatternsAt(h, i) == 0 || PatternsAt(h, i + 2) == 0
    ensures PatternsAt(h, i) <= 2 && PatternsAt(h, i + 2) <= 2
  {}

  lemma PatternSumStep(h: seq<nat>, m: nat)
    requires 4 <= m <= |h|
    ensures PatternSum(h, m) <= PatternSum(h, m - 4) + 2
  {
    hide PatternsAt;
    NextPattern(h, m - 1);
    NextPattern(h, m - 2);
    NextPattern(h, m - 3);
    NextPattern(h, m - 4);
    NeighboursExclude(h, if DarkRun(m - 1) then m - 4 else m - 3);
  }

  lemma NextPattern(h: seq<nat>, m: nat)
    requires m < |h|
    ensures PatternSum(h, m + 1) == PatternSum(h, m) + if DarkRun(m) then 0 else PatternsAt(h, m)
  {}

  lemma {:induction false} PatternSumBounded(h: seq<nat>, m: nat)
    requires m <= |h|
    ensures 2 * PatternSum(h, m) <= m
    decreases m
  {
    hide PatternSum;
    if m < 4 {
      FewPatterns(h, m);
    } else {
      PatternSumBounded(h, m - 4);
      PatternSumStep(h, m);
    }
  }

  lemma {:induction false} FewPatterns(h: seq<nat>, m: nat)
    requires m <= |h| && m < 4
    ensures PatternSum(h, m) == 0
  {
    if m > 0 {
      FewPatterns(h, m - 1);
    }
  }

  lemma {:induction false} FewRuns(line: seq<bool>)
    ensures |RunsOf(line)| <= |line| + 1
    decreases |line|
  {
    if line != [] {
      FewRuns(line[..|line| - 1]);
    }
  }

  lemma LineBounded(line: seq<bool>, size: nat)
    ensures LinePenalty(line, size) <= 21 * |line| + 40
  {
    hide RunsOf;
    var runs := RunsOf(line);
    RunsOfExact(line);
    ExpandedLength(runs, |runs|);
    RunSumBounded(runs, |runs|);
    FewRuns(line);
    PatternSumBounded(Bordered(runs, size), |Bordered(runs, size)|);
  }

  lemma {:induction false} LinesBounded(size: nat, g: Modules, vertical: bool, n: nat)
    requires |g| == size * size && n <= size
    ensures LinePoints(size, g, vertical, n) <= n * (21 * size + 40)
  {
    hide LinePenalty, Line;
    if n > 0 {
      LinesBounded(size, g, vertical, n - 1);
      LineBounded(Line(size, g, n - 1, vertical), size);
      OneMore(n, 21 * size + 40);
    }
  }

  lemma OneMore(n: nat, m: nat)
    requires n > 0
    ensures n * m == (n - 1) * m + m
  {}

  /** What the encoder asserts of every score; so it lies below the starting value of the minimum. */
  const HIGHEST_SCORE: nat := 2568888

  lemma ScoreBounded(size: nat, g: Modules)
    requires 0 < size <= 177 && size % 2 == 1 && |g| == size * size
    ensures 0 <= Score(size, g) <= HIGHEST_SCORE < LONG_MAX
  {
    hide LinePoints, CountTrue, Squares, Imbalance;
    LinesBounded(size, g, false, size);
    LinesBounded(size, g, true, size);
    MulMonotone(21 * size + 40, size, 177);
    OddSquare(size, CountTrue(g));
    ImbalanceIsLeast(CountTrue(g), size * size, 0);
    MulMonotone(size, size, 177);
  }

  // ----- the format modules do not matter to a trial

  function CellIndex(size: nat, k: nat): nat
    requires size >= 21 && k < 31
  {
    CellInGrid(size, 0, k);
    Index(size, CellAt(size, 0, k).x, CellAt(size, 0, k).y)
  }

  predicate IsFormat(size: nat, p: nat)
    requires size >= 21
  {
    exists k :: 0 <= k < 31 && CellIndex(size, k) == p
  }

  /** The grids agree outside the format modules. */
  ghost predicate SameOutside(size: nat, g: Modules, h: Modules)
    requires size >= 21
  {
    |g| == |h| == size * size && forall p :: 0 <= p < |g| && !IsFormat(size, p) ==> g[p] == h[p]
  }

  lemma CellPosition(size: nat, bits: nat, k: nat)
    requires size >= 21 && k < 31
    ensures var c := CellAt(size, bits, k); InGrid(size, c.x, c.y) && Index(size, c.x, c.y) == CellIndex(size, k)
  {
    hide Bit;
    CellInGrid(size, bits, k);
  }

  lemma {:induction false} PaintedOutside(size: nat, g: Modules, bits: nat, n: nat, p: nat)
    requires |g| == size * size && size >= 21 && n <= 31 && p < |g| && !IsFormat(size, p)
    ensures Painted(size, g, bits, n)[p] == g[p]
  {
    hide CellAt, Index, CellIndex;
    if n > 0 {
      PaintedOutside(size, g, bits, n - 1, p);
      CellPosition(size, bits, n - 1);
      assert CellIndex(size, n - 1) != p;
    }
  }

  /** Drawing the format bits makes grids equal that agree everywhere else. */
  lemma PaintedSame(size: nat, g: Modules, h: Modules, bits: nat)
    requires size >= 21 && SameOutside(size, g, h)
    ensures Painted(size, g, bits, 31) == Painted(size, h, bits, 31)
  {
    hide CellAt, Index, CellIndex, Painted;
    forall p | 0 <= p < |g|
      ensures Painted(size, g, bits, 31)[p] == Painted(size, h, bits, 31)[p]
    {
      if IsFormat(size, p) {
        var k :| 0 <= k < 31 && CellIndex(size, k) == p;
        CellPosition(size, bits, k);
        PaintedAt(size, g, bits, k, 31);
        PaintedAt(size, h, bits, k, 31);
      } else {
        PaintedOutside(size, g, bits, 31, p);
        PaintedOutside(size, h, bits, 31, p);
      }
    }
  }

  lemma PaintedIsSame(size: nat, g: Modules, bits: nat)
    requires size >= 21 && |g| == size * size
    ensures SameOutside(size, Painted(size, g, bits, 31), g)
  {
    hide IsFormat, Painted;
    forall p | 0 <= p < |g| && !IsFormat(size, p)
      ensures Painted(size, g, bits, 31)[p] == g[p]
    {
      PaintedOutside(size, g, bits, 31, p);
    }
  }

  lemma MaskedOutside(size: nat, g: Modules, h: Modules, func: Modules, mask: nat)
    requires size >= 21 && SameOutside(size, g, h) && |func| == size * size && mask < 8
    ensures SameOutside(size, Masked(size, g, func, mask), Masked(size, h, func, mask))
  {
    hide EncoderInverts, IsFormat;
  }

  // ----- the choice

  /** The symbol with one of the masks and its format bits. */
  function Trial(size: nat, g: Modules, func: Modules, mask: nat, bits: seq<nat>): (r: Modules)
    requires size >= 21 && |g| == |func| == size * size && mask < 8 && |bits| == 8
    ensures |r| == |g|
  {
    Painted(size, Masked(size, g, func, mask), bits[mask], 31)
  }

  /** No mask scores less than this one, and none before it scores as little. */
  ghost predicate Best(size: nat, g: Modules, func: Modules, bits: seq<nat>, mask: nat)
    requires size >= 21 && |g| == |func| == size * size && mask < 8 && |bits| == 8
  {
    forall m :: 0 <= m < 8 ==>
      var here, there := Score(size, Trial(size, g, func, mask, bits)), Score(size, Trial(size, g, func, m, bits));
      here <= there && (m < mask ==> here < there)
  }

  /** Size byte and room are right, and the modules are g except perhaps for the format modules. */
  ghost predicate Holds(q: seq<byte>, size: nat, g: Modules)
    requires size >= 21
  {
    Packed(q, size) && SameOutside(size, View(q, size), g)
  }

  /** One trial: the score under the mask; the grid is as before except for the format modules. */
  method TryMask(functionModules: array<byte>, qrcode: array<byte>, mask: nat, ecl: nat,
                 ghost size: nat, ghost g: Modules) returns (penalty: int)
    requires functionModules != qrcode && mask < 8 && ecl < 4 && size >= 21
    requires Packed(functionModules[..], size) && Holds(qrcode[..], size, g)
    modifies qrcode
    ensures penalty == Score(size, Trial(size, g, View(functionModules[..], size), mask, FormatWords(ecl)))
    ensures Holds(qrcode[..], size, g)
  {
    hide View, Masked, Score, Painted, SameOutside;
    ghost var func, before := View(functionModules[..], size), View(qrcode[..], size);
    assert functionModules[0] == functionModules[..][0] && qrcode[0] == qrcode[..][0];
    SameLengths(size, before, g);
    ApplyMask(functionModules, qrcode, mask);
    ghost var masked := View(qrcode[..], size);
    DrawFormatBits(ecl, mask, qrcode);
    MaskedOutside(size, before, g, func, mask);
    PaintedSame(size, masked, Masked(size, g, func, mask), FormatWords(ecl)[mask]);
    penalty := GetPenaltyScore(qrcode);
    PaintedIsSame(size, masked, FormatWords(ecl)[mask]);
    MaskedOutside(size, View(qrcode[..], size), masked, func, mask);
    MaskedTwice(size, before, func, mask);
    ApplyMask(functionModules, qrcode, mask);
    SameOutsideTwice(size, View(qrcode[..], size), before, g);
  }

  lemma SameLengths(size: nat, g: Modules, h: Modules)
    requires size >= 21 && SameOutside(size, g, h)
    ensures |g| == |h| == size * size
  {}

  lemma SameOutsideTwice(size: nat, g: Modules, h: Modules, r: Modules)
    requires size >= 21 && SameOutside(size, g, h) && SameOutside(size, h, r)
    ensures SameOutside(size, g, r)
  {
    hide IsFormat;
  }

  /**
   Tries all masks if none is asked for, then applies the chosen one: the symbol is the original grid under the first
   mask of least penalty, whatever the trials did to the format modules.
   */
  method ChooseMask(functionModules: array<byte>, qrcode: array<byte>, mask: int, ecl: nat) returns (chosen: nat)
    requires functionModules != qrcode && -1 <= mask < 8 && ecl < 4
    requires qrcode.Length >= 1 && 21 <= qrcode[0] <= 177 && qrcode[0] % 2 == 1 && Packed(qrcode[..], qrcode[0])
    requires functionModules.Length >= 1 && functionModules[0] == qrcode[0]
    requires Packed(functionModules[..], functionModules[0])
    modifies qrcode
    ensures chosen < 8 && (mask >= 0 ==> chosen == mask)
    ensures var size := old(qrcode[0]);
            var g, func := old(View(qrcode[..], qrcode[0])), old(View(functionModules[..], functionModules[0]));
            && Packed(qrcode[..], size) && qrcode[0] == size
            && (mask == -1 ==> Best(size, g, func, FormatWords(ecl), chosen))
            && View(qrcode[..], size) == Trial(size, g, func, chosen, FormatWords(ecl))
  {
    hide View, Masked, Score, Painted, SameOutside, Packed, Trial;
    ghost var size: nat := qrcode[0];
    ghost var g, func := View(qrcode[..], size), View(functionModules[..], size);
    HoldsFirst(qrcode[..], size);
    chosen := 0;
    if mask >= 0 {
      chosen := mask;
    } else {
      var minPenalty: int := LONG_MAX;
      for i := 0 to 8
        invariant Holds(qrcode[..], size, g) && View(functionModules[..], size) == func
        invariant i == 0 ==> minPenalty == LONG_MAX
        invariant i > 0 ==> chosen < i && minPenalty == Score(size, Trial(size, g, func, chosen, FormatWords(ecl)))
        invariant forall m :: 0 <= m < i ==> minPenalty <= Score(size, Trial(size, g, func, m, FormatWords(ecl)))
        invariant forall m :: 0 <= m < i && m < chosen ==>
          minPenalty < Score(size, Trial(size, g, func, m, FormatWords(ecl)))
      {
        var penalty := TryMask(functionModules, qrcode, i, ecl, size, g);
        ScoreBounded(size, Trial(size, g, func, i, FormatWords(ecl)));
        if penalty < minPenalty {
          chosen, minPenalty := i, penalty;
        }
      }
    }
    FinishMask(functionModules, qrcode, chosen, ecl, size, g);
  }

  lemma HoldsFirst(q: seq<byte>, size: nat)
    requires size >= 21 && Packed(q, size)
    ensures Holds(q, size, View(q, size))
  {
    hide View, IsFormat;
  }

  method FinishMask(functionModules: array<byte>, qrcode: array<byte>, mask: nat, ecl: nat,
                    ghost size: nat, ghost g: Modules)
    requires functionModules != qrcode && mask < 8 && ecl < 4 && size >= 21
    requires Packed(functionModules[..], size) && Holds(qrcode[..], size, g)
    modifies qrcode
    ensures qrcode.Length >= 1 && qrcode[0] == size && Packed(qrcode[..], size) && |g| == size * size
    ensures View(qrcode[..], size) == Trial(size, g, View(functionModules[..], size), mask, FormatWords(ecl))
  {
    hide View, Masked, Painted, SameOutside;
    ghost var before := View(qrcode[..], size);
    assert functionModules[0] == functionModules[..][0] && qrcode[0] == qrcode[..][0];
    SameLengths(size, before, g);
    MaskedOutside(size, before, g, View(functionModules[..], size), mask);
    ApplyMask(functionModules, qrcode, mask);
    PaintedSame(size, View(qrcode[..], size), Masked(size, g, View(functionModules[..], size), mask),
                FormatWords(ecl)[mask]);
    DrawFormatBits(ecl, mask, qrcode);
  }
}
