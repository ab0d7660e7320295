/** The format bits: two copies drawn by the encoder, read and matched against a table by the decoder. */
module FormatInformation {
  import opened Bits
  import opened Options
  import opened Distances
  import opened FormatCode
  import opened Grid
  import opened Regions
  import opened FunctionPatterns
  import opened FunctionDrawing
  import opened SymbolReader

  // ----- the table

  /** Any two words of the table differ in at least seven bits. */
  predicate FarApart(table: seq<nat>) {
    forall i, j :: 0 <= i < j < |table| ==> Distance(table[i], table[j]) >= 7
  }

  /** In how many bits a word of the table differs from the nearer of the two copies. */
  function Difference(first: nat, second: nat, word: nat): nat {
    var a, b := Distance(first, word), Distance(second, word);
    if b < a then b else a
  }

  /** The first of the entries that differ least from a copy, if that is in at most three bits. */
  ghost predicate IsNearest(table: seq<nat>, first: nat, second: nat, r: Option<nat>) {
    match r
    case None => forall i :: 0 <= i < |table| ==> Difference(first, second, table[i]) > 3
    case Some(k) => Leads(table, |table|, first, second, k) && Difference(first, second, table[k]) <= 3
  }

  /** Entry k differs least among the first n entries, and more than it do those before it. */
  ghost predicate Leads(table: seq<nat>, n: nat, first: nat, second: nat, k: nat)
    requires n <= |table|
  {
    k < n && forall i :: 0 <= i < n ==>
      var here, there := Difference(first, second, table[k]), Difference(first, second, table[i]);
      here <= there && (i < k ==> here < there)
  }

  /** The state of the search after n entries: none equals a copy, and `best` leads. */
  ghost predicate SearchState(table: seq<nat>, n: nat, first: nat, second: nat, best: Option<nat>, difference: nat)
    requires n <= |table|
  {
    && (forall i :: 0 <= i < n ==> Difference(first, second, table[i]) > 0)
    && (best.None? ==> n == 0)
    && (best.Some? ==>
          Leads(table, n, first, second, best.value) && difference == Difference(first, second, table[best.value]))
  }

  lemma FormatsFarApart()
    ensures FarApart(FORMAT_INFO_TABLE)
  {
    hide Distance;
    forall i, j | 0 <= i < j < |FORMAT_INFO_TABLE|
      ensures Distance(FORMAT_INFO_TABLE[i], FORMAT_INFO_TABLE[j]) >= 7
    {
      TableFarApart(i, j);
    }
  }

  /** No word is near two entries. */
  lemma NearestIsUnique(table: seq<nat>, k: nat, i: nat, word: nat)
    requires FarApart(table) && k < |table| && i < |table|
    requires Distance(word, table[k]) <= 3 && Distance(word, table[i]) <= 3
    ensures i == k
  {
    hide Distance;
    DistanceSymmetric(word, table[i]);
    DistanceSymmetric(word, table[k]);
    DistanceTriangle(table[i], word, table[k]);
    DistanceTriangle(table[k], word, table[i]);
  }

  /** When the words of the table are far apart and both copies are near one of them, that one is the nearest. */
  lemma NearestMatches(table: seq<nat>, first: nat, second: nat, r: Option<nat>, k: nat)
    requires FarApart(table) && IsNearest(table, first, second, r)
    requires k < |table| && Distance(first, table[k]) <= 3 && Distance(second, table[k]) <= 3
    ensures r == Some(k)
  {
    hide Distance, FarApart;
    assert Difference(first, second, table[k]) <= 3;
    var i := r.value;
    if Distance(first, table[i]) <= 3 {
      NearestIsUnique(table, k, i, first);
    } else {
      NearestIsUnique(table, k, i, second);
    }
  }

  /** Nothing is found exactly when both copies differ from every entry in more than three bits. */
  lemma FoundUnlessFar(table: seq<nat>, first: nat, second: nat, r: Option<nat>)
    requires IsNearest(table, first, second, r)
    ensures r == None <==> forall i :: 0 <= i < |table| ==>
      Distance(first, table[i]) > 3 && Distance(second, table[i]) > 3
  {
    hide Distance;
    if r == None {
      forall i | 0 <= i < |table|
        ensures Distance(first, table[i]) > 3 && Distance(second, table[i]) > 3
      {
        assert Difference(first, second, table[i]) > 3;
      }
    }
  }

  /**
   The number of the first entry equal to one of the copies, or else of a nearest entry if it is near enough. An equal
   entry differs in no bit, so both are the first of the nearest entries.
   */
  method MatchFormat(table: seq<nat>, first: nat, second: nat) returns (r: Option<nat>)
    ensures IsNearest(table, first, second, r)
  {
    hide Distance;
    var best: Option<nat>, bestDifference := None, 0;
    for i := 0 to |table|
      invariant SearchState(table, i, first, second, best, bestDifference)
    {
      var bits := table[i];
      if bits == first || bits == second {
        DistanceOfSame(bits);
        return Some(i);
      }
      DistanceOfOther(first, bits);
      DistanceOfOther(second, bits);
      var difference := NumBitsDiffering(first, bits);
      if best.None? || difference < bestDifference {
        best, bestDifference := Some(i), difference;
      }
      if first != second {
        difference := NumBitsDiffering(second, bits);
        if difference < bestDifference {
          best, bestDifference := Some(i), difference;
        }
      }
    }
    if best.Some? && bestDifference <= 3 {
      return best;
    }
    r := None;
  }

  // ----- where the bits are

  /** Coordinates of bit i next to the top left finder pattern. */
  function First(i: nat): (int, int)
    requires i < 15
  {
    if i <= 5 then (8, i) else if i == 6 then (8, 7) else if i == 7 then (8, 8) else if i == 8 then (7, 8)
      else (14 - i, 8)
  }

  /** Coordinates of bit i next to the two other finder patterns. */
  function Second(size: nat, i: nat): (int, int)
    requires i < 15
  {
    if i < 8 then (size - 1 - i, 8) else (8, size - 15 + i)
  }

  datatype Cell = Cell(x: int, y: int, on: bool)

  /** The modules in the order in which they are drawn: both copies, then one that is always dark. */
  function CellAt(size: nat, bits: nat, k: nat): Cell
    requires k < 31
  {
    if k < 15 then Cell(First(k).0, First(k).1, Bit(bits, k))
    else if k < 30 then Cell(Second(size, k - 15).0, Second(size, k - 15).1, Bit(bits, k - 15))
    else Cell(8, size - 8, true)
  }

  lemma CellInGrid(size: nat, bits: nat, k: nat)
    requires size >= 21 && k < 31
    ensures var c := CellAt(size, bits, k);
            InGrid(size, c.x, c.y)
            && ((c.x < 9 && c.y < 9) || (c.x >= size - 8 && c.y < 9) || (c.x < 9 && c.y >= size - 8))
  {}

  /** No module is drawn twice. */
  lemma CellsApart(size: nat, bits: nat, j: nat, k: nat)
    requires size >= 21 && j < k < 31
    ensures CellAt(size, bits, j).x != CellAt(size, bits, k).x || CellAt(size, bits, j).y != CellAt(size, bits, k).y
  {
    hide Bit;
  }

  /** The grid after drawing the first n of the modules. */
  function Painted(size: nat, g: Modules, bits: nat, n: nat): (r: Modules)
    requires |g| == size * size && size >= 21 && n <= 31
    ensures |r| == |g|
  {
    if n == 0 then g
    else
      CellInGrid(size, bits, n - 1);
      var c := CellAt(size, bits, n - 1);
      Painted(size, g, bits, n - 1)[Index(size, c.x, c.y) := c.on]
  }

  lemma {:induction false} PaintedAt(size: nat, g: Modules, bits: nat, k: nat, n: nat)
    requires |g| == size * size && size >= 21 && k < n <= 31
    ensures var c := CellAt(size, bits, k);
            InGrid(size, c.x, c.y) && Painted(size, g, bits, n)[Index(size, c.x, c.y)] == c.on
  {
    hide CellAt, Index;
    CellInGrid(size, bits, k);
    CellInGrid(size, bits, n - 1);
    if k < n - 1 {
      PaintedAt(size, g, bits, k, n - 1);
      CellsApart(size, bits, k, n - 1);
      var c, d := CellAt(size, bits, k), CellAt(size, bits, n - 1);
      if Index(size, c.x, c.y) == Index(size, d.x, d.y) {
        IndexInjective(size, c.x, c.y, d.x, d.y);
      }
    }
  }

  method DrawCell(qrcode: array<byte>, x: int, y: int, on: bool,
                  ghost bits: nat, ghost k: nat, ghost size: nat, ghost g: Modules)
    requires size >= 21 && |g| == size * size && k < 31 && CellAt(size, bits, k) == Cell(x, y, on)
    requires Packed(qrcode[..], size) && View(qrcode[..], size) == Painted(size, g, bits, k)
    modifies qrcode
    ensures Packed(qrcode[..], size) && View(qrcode[..], size) == Painted(size, g, bits, k + 1)
  {
    hide View, CellAt, Index;
    assert qrcode[0] == qrcode[..][0];
    CellInGrid(size, bits, k);
    SetModuleBounded(qrcode, x, y, on);
  }

  /** Draws the fifteen bits twice and the module that is always dark. */
  method DrawWord(bits: nat, qrcode: array<byte>)
    requires qrcode.Length >= 1 && qrcode[0] >= 21 && Packed(qrcode[..], qrcode[0])
    modifies qrcode
    ensures qrcode[0] == old(qrcode[0]) && Packed(qrcode[..], qrcode[0])
    ensures View(qrcode[..], qrcode[0]) == Painted(qrcode[0], old(View(qrcode[..], qrcode[0])), bits, 31)
  {
    hide View, Painted, Bit;
    var qrsize: int := qrcode[0];
    ghost var g := View(qrcode[..], qrsize);
    NothingPainted(qrsize, g, bits);
    for i := 0 to 6
      invariant Packed(qrcode[..], qrsize) && View(qrcode[..], qrsize) == Painted(qrsize, g, bits, i)
    {
      DrawCell(qrcode, 8, i, Bit(bits, i), bits, i, qrsize, g);
    }
    DrawCell(qrcode, 8, 7, Bit(bits, 6), bits, 6, qrsize, g);
    DrawCell(qrcode, 8, 8, Bit(bits, 7), bits, 7, qrsize, g);
    DrawCell(qrcode, 7, 8, Bit(bits, 8), bits, 8, qrsize, g);
    for i := 9 to 15
      invariant Packed(qrcode[..], qrsize) && View(qrcode[..], qrsize) == Painted(qrsize, g, bits, i)
    {
      DrawCell(qrcode, 14 - i, 8, Bit(bits, i), bits, i, qrsize, g);
    }
    for i := 0 to 8
      invariant Packed(qrcode[..], qrsize) && View(qrcode[..], qrsize) == Painted(qrsize, g, bits, 15 + i)
    {
      DrawCell(qrcode, qrsize - 1 - i, 8, Bit(bits, i), bits, 15 + i, qrsize, g);
    }
    for i := 8 to 15
      invariant Packed(qrcode[..], qrsize) && View(qrcode[..], qrsize) == Painted(qrsize, g, bits, 15 + i)
    {
      DrawCell(qrcode, 8, qrsize - 15 + i, Bit(bits, i), bits, 15 + i, qrsize, g);
    }
    DrawCell(qrcode, 8, qrsize - 8, true, bits, 30, qrsize, g);
    assert qrcode[0] == qrcode[..][0];
  }

  /** Computes the format bits of a level and a mask and draws them. */
  method DrawFormatBits(ecl: nat, mask: nat, qrcode: array<byte>)
    requires ecl < 4 && mask < 8
    requires qrcode.Length >= 1 && qrcode[0] >= 21 && Packed(qrcode[..], qrcode[0])
    modifies qrcode
    ensures qrcode[0] == old(qrcode[0]) && Packed(qrcode[..], qrcode[0])
    ensures View(qrcode[..], qrcode[0]) ==
      Painted(qrcode[0], old(View(qrcode[..], qrcode[0])), FormatWords(ecl)[mask], 31)
  {
    hide View, Painted, EntryOf;
    var bits := FormatBits(ecl, mask);
    DrawWord(bits, qrcode);
  }

  lemma NothingPainted(size: nat, g: Modules, bits: nat)
    requires |g| == size * size && size >= 21
    ensures Painted(size, g, bits, 0) == g
  {}

  /** Only function modules are drawn. */
  lemma {:induction false} PaintedKeepsFree(size: nat, g: Modules, bits: nat, n: nat, version: nat, align: seq<nat>,
                                            p: nat)
    requires |g| == size * size && size >= 21 && n <= 31
    requires p < |g| && !Dark(size, EncoderRects(size, version, align))[p]
    ensures Painted(size, g, bits, n)[p] == g[p]
  {
    hide CellAt, Index, Dark, EncoderRects, Covered;
    if n > 0 {
      PaintedKeepsFree(size, g, bits, n - 1, version, align, p);
      CellInGrid(size, bits, n - 1);
      var c := CellAt(size, bits, n - 1);
      FinderIsCovered(size, version, align, c.x, c.y);
      DarkAt(size, EncoderRects(size, version, align), c.x, c.y);
    }
  }

  // ----- reading

  /** The highest k of the fifteen bits, as the decoder collects them from one copy. */
  function Collected(size: nat, g: Modules, second: bool, k: nat): nat
    requires |g| == size * size && size >= 21 && k <= 15
  {
    if k == 0 then 0
    else
      var i := 15 - k;
      var c := if second then Second(size, i) else First(i);
      PushBit(g[Index(size, c.0, c.1)], Collected(size, g, second, k - 1))
  }

  /** Either copy gives back the word that was drawn. */
  lemma {:induction false} FormatReadsBack(size: nat, g: Modules, bits: nat, second: bool, k: nat)
    requires |g| == size * size && size >= 21 && k <= 15 && bits < Pow2(15)
    ensures Collected(size, Painted(size, g, bits, 31), second, k) == Shr(bits, 15 - k)
  {
    hide Painted, Index, Pow2, Bit, Shr;
    if k == 0 {
      ShrSmall(bits, 15);
    } else {
      var i := 15 - k;
      FormatReadsBack(size, g, bits, second, k - 1);
      PaintedAt(size, g, bits, if second then 15 + i else i, 31);
      ShrStep(bits, i);
      ShrBit(bits, i);
    }
  }

  /** Collects the bits of both copies. */
  method ReadFormatBits(matrix: BitMatrix) returns (first: nat, second: nat)
    requires matrix.Valid() && matrix.width >= 21
    ensures first == Collected(matrix.width, matrix.Contents(), false, 15)
    ensures second == Collected(matrix.width, matrix.Contents(), true, 15)
  {
    hide Index, PushBit;
    ghost var size, g := matrix.width, matrix.Contents();
    first := 0;
    for x := 0 to 9
      invariant first == Collected(size, g, false, if x <= 6 then x else x - 1)
    {
      if x != 6 {
        var v := matrix.Get(x, 8);
        first := PushBit(v, first);
      }
    }
    for n := 0 to 8
      invariant first == Collected(size, g, false, if n <= 1 then 8 + n else 7 + n)
    {
      var y := 7 - n;
      if y != 6 {
        var v := matrix.Get(8, y);
        first := PushBit(v, first);
      }
    }
    var dimension: int := matrix.height;
    second := 0;
    for n := 0 to 7
      invariant second == Collected(size, g, true, n)
    {
      var v := matrix.Get(8, dimension - 1 - n);
      second := PushBit(v, second);
    }
    for n := 0 to 8
      invariant second == Collected(size, g, true, 7 + n)
    {
      var v := matrix.Get(dimension - 8 + n, 8);
      second := PushBit(v, second);
    }
  }

  /** The decoder's choice of the entry of its table. */
  method ReadFormatInformation(matrix: BitMatrix) returns (r: Option<nat>)
    requires matrix.Valid() && matrix.width >= 21
    ensures IsNearest(FORMAT_INFO_TABLE, Collected(matrix.width, matrix.Contents(), false, 15),
                      Collected(matrix.width, matrix.Contents(), true, 15), r)
  {
    hide IsNearest, Collected;
    var first, second := ReadFormatBits(matrix);
    r := MatchFormat(FORMAT_INFO_TABLE, first, second);
  }

  /** In how many of the highest k bits of one copy two grids differ. */
  function CopyErrors(size: nat, g: Modules, h: Modules, second: bool, k: nat): nat
    requires |g| == |h| == size * size && size >= 21 && k <= 15
  {
    if k == 0 then 0
    else
      var i := 15 - k;
      var c := if second then Second(size, i) else First(i);
      var p := Index(size, c.0, c.1);
      CopyErrors(size, g, h, second, k - 1) + if g[p] == h[p] then 0 else 1
  }

  lemma {:induction false} CopyDistance(size: nat, g: Modules, h: Modules, second: bool, k: nat)
    requires |g| == |h| == size * size && size >= 21 && k <= 15
    ensures Distance(Collected(size, g, second, k), Collected(size, h, second, k)) == CopyErrors(size, g, h, second, k)
  {
    hide Index, Weight, Xor;
    var x, y := Collected(size, g, second, k), Collected(size, h, second, k);
    if k == 0 {
      DistanceOfSame(0);
    } else {
      CopyDistance(size, g, h, second, k - 1);
      XorStep(x, y);
      WeightStep(Xor(x, y));
    }
  }
}
