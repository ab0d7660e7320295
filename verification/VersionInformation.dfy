/** The version of a symbol: from its size, or from two copies of the version bits and the decoder's words. */
module VersionInformation {
  import opened Bits
  import opened Options
  import opened Distances
  import opened VersionCode
  import opened Grid
  import opened SymbolReader
  import opened FormatInformation

  // ----- the table

  /** The entry is a version's word; the first six versions have none. */
  predicate HasWord(k: nat) {
    6 <= k < 40
  }

  /** The entry is a version's word and equals one of the copies. */
  predicate Equals(first: nat, second: nat, k: nat)
    requires k < 40
  {
    HasWord(k) && (VERSION_INFO_TABLE[k] == first || VERSION_INFO_TABLE[k] == second)
  }

  /**
   The first version whose word equals one of the copies, or else the first of those that differ least if that is in
   at most three bits; a version without a word counts as zero there.
   */
  ghost predicate VersionFits(first: nat, second: nat, r: Option<nat>) {
    if exists k :: 0 <= k < 40 && Equals(first, second, k) then
      && r.Some? && 1 <= r.value <= 40 && Equals(first, second, r.value - 1)
      && forall k :: 0 <= k < r.value - 1 ==> !Equals(first, second, k)
    else
      match r
      case None => forall k :: 0 <= k < 40 ==> Difference(first, second, VERSION_INFO_TABLE[k]) > 3
      case Some(v) =>
        1 <= v <= 40 && Leads(VERSION_INFO_TABLE, 40, first, second, v - 1)
        && Difference(first, second, VERSION_INFO_TABLE[v - 1]) <= 3
  }

  /** The search after n entries: none of them equals a copy, and `best` leads. */
  ghost predicate VersionSearch(n: nat, first: nat, second: nat, best: Option<nat>, difference: nat)
    requires n <= 40
  {
    && (forall k :: 0 <= k < n ==> !Equals(first, second, k))
    && (best.None? ==> n == 0)
    && (best.Some? ==>
          Leads(VERSION_INFO_TABLE, n, first, second, best.value)
          && difference == Difference(first, second, VERSION_INFO_TABLE[best.value]))
  }

  /** The version that fits the two copies. */
  method MatchVersion(first: nat, second: nat) returns (r: Option<nat>)
    ensures VersionFits(first, second, r)
  {
    hide Distance, VERSION_INFO_TABLE;
    TableSize();
    var best: Option<nat>, bestDifference := None, 0;
    for i := 0 to 40
      invariant VersionSearch(i, first, second, best, bestDifference)
    {
      if HasWord(i) && (VERSION_INFO_TABLE[i] == first || VERSION_INFO_TABLE[i] == second) {
        assert Equals(first, second, i);
        return Some(i + 1);
      }
      var difference := NumBitsDiffering(first, VERSION_INFO_TABLE[i]);
      if best.None? || difference < bestDifference {
        best, bestDifference := Some(i), difference;
      }
      difference := NumBitsDiffering(second, VERSION_INFO_TABLE[i]);
      if difference < bestDifference {
        best, bestDifference := Some(i), difference;
      }
    }
    r := if bestDifference <= 3 then Some(best.value + 1) else None;
  }

  lemma TableSize()
    ensures |VERSION_INFO_TABLE| == 40
  {}

  /** An entry near one copy, when both are near the word of a version, is that word. */
  lemma NearWord(version: nat, word: nat, k: nat)
    requires 7 <= version <= 40 && k < 40
    requires Distance(word, VersionWord(version)) <= 3 && Distance(word, VERSION_INFO_TABLE[k]) <= 3
    ensures k == version - 1
  {
    hide Distance, VERSION_INFO_TABLE;
    TableSize();
    if k != version - 1 {
      VersionWordsApart(version, k);
      DistanceSymmetric(word, VERSION_INFO_TABLE[version - 1]);
      DistanceTriangle(VERSION_INFO_TABLE[version - 1], word, VERSION_INFO_TABLE[k]);
    }
  }

  /** No version is found exactly when both copies differ from every entry in more than three bits. */
  lemma VersionUnlessFar(first: nat, second: nat, r: Option<nat>)
    requires VersionFits(first, second, r)
    ensures |VERSION_INFO_TABLE| == 40
    ensures r == None <==> forall k :: 0 <= k < 40 ==>
      Distance(first, VERSION_INFO_TABLE[k]) > 3 && Distance(second, VERSION_INFO_TABLE[k]) > 3
  {
    hide Distance, VERSION_INFO_TABLE;
    TableSize();
    DistanceOfSame(first);
    DistanceOfSame(second);
    if r == None {
      forall k | 0 <= k < 40
        ensures Distance(first, VERSION_INFO_TABLE[k]) > 3 && Distance(second, VERSION_INFO_TABLE[k]) > 3
      {
        assert Difference(first, second, VERSION_INFO_TABLE[k]) > 3;
      }
    }
  }

  /** With at most three wrong bits in each copy, the version is found. */
  lemma VersionMatches(first: nat, second: nat, r: Option<nat>, version: nat)
    requires 7 <= version <= 40 && VersionFits(first, second, r)
    requires Distance(first, VersionWord(version)) <= 3 && Distance(second, VersionWord(version)) <= 3
    ensures r == Some(version)
  {
    hide Distance, VERSION_INFO_TABLE;
    TableSize();
    DistanceOfSame(first);
    DistanceOfSame(second);
    assert Difference(first, second, VERSION_INFO_TABLE[version - 1]) <= 3;
    var k := r.value - 1;
    if Distance(first, VERSION_INFO_TABLE[k]) <= 3 {
      NearWord(version, first, k);
    } else {
      NearWord(version, second, k);
    }
  }

  // ----- where the bits are

  /** Coordinates of bit i: three columns at the top, three rows at the left. */
  function VersionCell(size: nat, second: bool, i: nat): (int, int)
    requires i < 18
  {
    if second then (i / 3, size - 11 + i % 3) else (size - 11 + i % 3, i / 3)
  }

  /** The highest k of the eighteen bits, as the decoder collects them from one copy. */
  function VersionCollected(size: nat, g: Modules, second: bool, k: nat): nat
    requires |g| == size * size && size >= 21 && k <= 18
  {
    if k == 0 then 0
    else
      var c := VersionCell(size, second, 18 - k);
      PushBit(g[Index(size, c.0, c.1)], VersionCollected(size, g, second, k - 1))
  }

  /** In how many of the highest k bits of one copy two grids differ. */
  function VersionErrors(size: nat, g: Modules, h: Modules, second: bool, k: nat): nat
    requires |g| == |h| == size * size && size >= 21 && k <= 18
  {
    if k == 0 then 0
    else
      var c := VersionCell(size, second, 18 - k);
      var p := Index(size, c.0, c.1);
      VersionErrors(size, g, h, second, k - 1) + if g[p] == h[p] then 0 else 1
  }

  lemma {:induction false} VersionDistance(size: nat, g: Modules, h: Modules, second: bool, k: nat)
    requires |g| == |h| == size * size && size >= 21 && k <= 18
    ensures Distance(VersionCollected(size, g, second, k), VersionCollected(size, h, second, k))
         == VersionErrors(size, g, h, second, k)
  {
    hide Index, Weight, Xor, VersionCell;
    var x, y := VersionCollected(size, g, second, k), VersionCollected(size, h, second, k);
    if k == 0 {
      DistanceOfSame(0);
    } else {
      VersionDistance(size, g, h, second, k - 1);
      XorStep(x, y);
      WeightStep(Xor(x, y));
    }
  }

  /** The grid shows the word at the modules of one copy. */
  ghost predicate ShowsWord(size: nat, g: Modules, word: nat, second: bool)
    requires |g| == size * size && size >= 21
  {
    forall i :: 0 <= i < 18 ==>
      var c := VersionCell(size, second, i);
      g[Index(size, c.0, c.1)] == Bit(word, i)
  }

  lemma {:induction false} VersionReadsBack(size: nat, g: Modules, word: nat, second: bool, k: nat)
    requires |g| == size * size && size >= 21 && k <= 18 && word < Pow2(18) && ShowsWord(size, g, word, second)
    ensures VersionCollected(size, g, second, k) == Shr(word, 18 - k)
  {
    hide Index, Pow2, Bit, Shr;
    if k == 0 {
      ShrSmall(word, 18);
    } else {
      VersionReadsBack(size, g, word, second, k - 1);
      ShrStep(word, 18 - k);
      ShrBit(word, 18 - k);
    }
  }

  // ----- reading

  /** The bit collected after 3 a + b others. */
  lemma NextCollected(size: nat, g: Modules, second: bool, a: nat, b: nat)
    requires |g| == size * size && size >= 21 && a < 6 && b < 3
    ensures var x, y := if second then 5 - a else size - 9 - b, if second then size - 9 - b else 5 - a;
            && InGrid(size, x, y)
            && VersionCollected(size, g, second, 3 * a + b + 1)
               == PushBit(g[Index(size, x, y)], VersionCollected(size, g, second, 3 * a + b))
  {
    hide Index, PushBit;
    var i := 17 - (3 * a + b);
    assert i / 3 == 5 - a && i % 3 == 2 - b;
  }

  lemma NothingCollected(size: nat, g: Modules, second: bool)
    requires |g| == size * size && size >= 21
    ensures VersionCollected(size, g, second, 0) == 0
  {}

  /** Collects the bits of both copies. */
  method ReadVersionBits(matrix: BitMatrix) returns (first: nat, second: nat)
    requires matrix.Valid() && matrix.width >= 21
    ensures first == VersionCollected(matrix.width, matrix.Contents(), false, 18)
    ensures second == VersionCollected(matrix.width, matrix.Contents(), true, 18)
  {
    hide Index, PushBit, VersionCollected, VersionCell;
    ghost var size, g := matrix.width, matrix.Contents();
    var dimension: int := matrix.height;
    first, second := 0, 0;
    NothingCollected(size, g, false);
    NothingCollected(size, g, true);
    for a := 0 to 6
      invariant first == VersionCollected(size, g, false, 3 * a)
    {
      for b := 0 to 3
        invariant first == VersionCollected(size, g, false, 3 * a + b)
      {
        NextCollected(size, g, false, a, b);
        var v := matrix.Get(dimension - 9 - b, 5 - a);
        first := PushBit(v, first);
      }
    }
    for a := 0 to 6
      invariant second == VersionCollected(size, g, true, 3 * a)
    {
      for b := 0 to 3
        invariant second == VersionCollected(size, g, true, 3 * a + b)
      {
        NextCollected(size, g, true, a, b);
        var v := matrix.Get(5 - a, dimension - 9 - b);
        second := PushBit(v, second);
      }
    }
  }

  /** Up to version 6 the size alone decides; a matrix smaller than the smallest symbol has no version. */
  ghost predicate VersionIs(size: nat, g: Modules, r: Option<nat>)
    requires |g| == size * size
  {
    if size < 21 then r == None
    else if (size - 17) / 4 <= 6 then r == Some((size - 17) / 4)
    else VersionFits(VersionCollected(size, g, false, 18), VersionCollected(size, g, true, 18), r)
  }

  method ReadVersion(matrix: BitMatrix) returns (r: Option<nat>)
    requires matrix.Valid()
    ensures VersionIs(matrix.width, matrix.Contents(), r)
  {
    hide VersionFits, VersionCollected;
    var dimension: int := matrix.height;
    if dimension < 21 {
      return None;
    }
    var provisionalVersion := (dimension - 17) / 4;
    if provisionalVersion <= 6 {
      return Some(provisionalVersion);
    }
    var first, second := ReadVersionBits(matrix);
    r := MatchVersion(first, second);
  }
}
