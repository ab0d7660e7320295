/** The format words read backwards, as a mirrored picture shows them: six of them are near no word of the table. */
module MirroredFormats {
  import opened Bits
  import opened Distances
  import opened BinaryDigits
  import opened Grid
  import opened FormatCode
  import opened FormatInformation

  // ----- words read backwards

  function Backwards(w: seq<bit>): (r: seq<bit>)
    ensures |r| == |w|
  {
    seq<bit>(|w|, i requires 0 <= i < |w| => w[|w| - 1 - i])
  }

  lemma {:induction false} NumInjective(v: seq<bit>, w: seq<bit>)
    requires |v| == |w| && Num(v) == Num(w)
    ensures v == w
    decreases |v|
  {
    hide Num;
    if v != [] {
      NumFirst(v);
      NumFirst(w);
      NumInjective(v[1..], w[1..]);
      assert v == [v[0]] + v[1..] && w == [w[0]] + w[1..];
    }
  }

  // ----- six words that no entry is near

  lemma OnesOfXor(v: seq<bit>, w: seq<bit>)
    requires |v| == |w| == 15
    ensures Ones(XorDigits(v, w)) ==
      Apart(v, w, 0) + Apart(v, w, 3) + Apart(v, w, 6) + Apart(v, w, 9) + Apart(v, w, 12)
  {
    hide Ones, Sum;
    OnesOfWord(XorDigits(v, w));
  }

  function Apart(v: seq<bit>, w: seq<bit>, k: nat): nat
    requires k + 3 <= |v| == |w|
  {
    var a: nat, b: nat, c: nat := Sum(v[k], w[k]), Sum(v[k + 1], w[k + 1]), Sum(v[k + 2], w[k + 2]);
    a + b + c
  }

  lemma Unlisted8(e0: bit, e1: bit, e2: bit, e3: bit, e4: bit)
    ensures Ones(XorDigits(Backwards(EntryDigits(0, 0, 0, 1, 0)), EntryDigits(e0, e1, e2, e3, e4))) >= 4
    ensures Backwards(EntryDigits(0, 0, 0, 1, 0))[7] == 1
  {
    hide Ones, XorDigits, OnesAt;
    var v: seq<bit> := [1, 1, 1, 0, 1, 1, 1, 1, 1, 0, 0, 0, 1, 0, 0];
    assert Backwards(EntryDigits(0, 0, 0, 1, 0)) == v;
    OnesOfXor(v, EntryDigits(e0, e1, e2, e3, e4));
  }

  lemma Unlisted11(e0: bit, e1: bit, e2: bit, e3: bit, e4: bit)
    ensures Ones(XorDigits(Backwards(EntryDigits(1, 1, 0, 1, 0)), EntryDigits(e0, e1, e2, e3, e4))) >= 4
    ensures Backwards(EntryDigits(1, 1, 0, 1, 0))[7] == 1
  {
    hide Ones, XorDigits, OnesAt;
    var v: seq<bit> := [1, 1, 1, 1, 0, 0, 0, 1, 0, 0, 1, 1, 1, 0, 1];
    assert Backwards(EntryDigits(1, 1, 0, 1, 0)) == v;
    OnesOfXor(v, EntryDigits(e0, e1, e2, e3, e4));
  }

  lemma Unlisted14(e0: bit, e1: bit, e2: bit, e3: bit, e4: bit)
    ensures Ones(XorDigits(Backwards(EntryDigits(0, 1, 1, 1, 0)), EntryDigits(e0, e1, e2, e3, e4))) >= 4
  {
    hide Ones, XorDigits, OnesAt;
    var v: seq<bit> := [1, 1, 0, 1, 1, 0, 0, 0, 1, 0, 0, 0, 0, 0, 1];
    assert Backwards(EntryDigits(0, 1, 1, 1, 0)) == v;
    OnesOfXor(v, EntryDigits(e0, e1, e2, e3, e4));
  }

  lemma Unlisted14Filled(e0: bit, e1: bit, e2: bit, e3: bit, e4: bit)
    ensures Ones(XorDigits(Backwards(EntryDigits(0, 1, 1, 1, 0))[7 := 1], EntryDigits(e0, e1, e2, e3, e4))) >= 4
  {
    hide Ones, XorDigits, OnesAt;
    var v: seq<bit> := [1, 1, 0, 1, 1, 0, 0, 1, 1, 0, 0, 0, 0, 0, 1];
    assert Backwards(EntryDigits(0, 1, 1, 1, 0))[7 := 1] == v;
    OnesOfXor(v, EntryDigits(e0, e1, e2, e3, e4));
  }

  lemma Unlisted17(e0: bit, e1: bit, e2: bit, e3: bit, e4: bit)
    ensures Ones(XorDigits(Backwards(EntryDigits(1, 0, 0, 0, 1)), EntryDigits(e0, e1, e2, e3, e4))) >= 4
    ensures Backwards(EntryDigits(1, 0, 0, 0, 1))[7] == 1
  {
    hide Ones, XorDigits, OnesAt;
    var v: seq<bit> := [0, 0, 1, 0, 0, 1, 1, 1, 0, 1, 1, 1, 1, 1, 0];
    assert Backwards(EntryDigits(1, 0, 0, 0, 1)) == v;
    OnesOfXor(v, EntryDigits(e0, e1, e2, e3, e4));
  }

  lemma Unlisted20(e0: bit, e1: bit, e2: bit, e3: bit, e4: bit)
    ensures Ones(XorDigits(Backwards(EntryDigits(0, 0, 1, 0, 1)), EntryDigits(e0, e1, e2, e3, e4))) >= 4
  {
    hide Ones, XorDigits, OnesAt;
    var v: seq<bit> := [0, 0, 0, 0, 1, 1, 1, 0, 1, 1, 0, 0, 0, 1, 0];
    assert Backwards(EntryDigits(0, 0, 1, 0, 1)) == v;
    OnesOfXor(v, EntryDigits(e0, e1, e2, e3, e4));
  }

  lemma Unlisted20Filled(e0: bit, e1: bit, e2: bit, e3: bit, e4: bit)
    ensures Ones(XorDigits(Backwards(EntryDigits(0, 0, 1, 0, 1))[7 := 1], EntryDigits(e0, e1, e2, e3, e4))) >= 4
  {
    hide Ones, XorDigits, OnesAt;
    var v: seq<bit> := [0, 0, 0, 0, 1, 1, 1, 1, 1, 1, 0, 0, 0, 1, 0];
    assert Backwards(EntryDigits(0, 0, 1, 0, 1))[7 := 1] == v;
    OnesOfXor(v, EntryDigits(e0, e1, e2, e3, e4));
  }

  lemma Unlisted23(e0: bit, e1: bit, e2: bit, e3: bit, e4: bit)
    ensures Ones(XorDigits(Backwards(EntryDigits(1, 1, 1, 0, 1)), EntryDigits(e0, e1, e2, e3, e4))) >= 4
  {
    hide Ones, XorDigits, OnesAt;
    var v: seq<bit> := [0, 0, 0, 1, 0, 0, 0, 0, 0, 1, 1, 1, 0, 1, 1];
    assert Backwards(EntryDigits(1, 1, 1, 0, 1)) == v;
    OnesOfXor(v, EntryDigits(e0, e1, e2, e3, e4));
  }

  lemma Unlisted23Filled(e0: bit, e1: bit, e2: bit, e3: bit, e4: bit)
    ensures Ones(XorDigits(Backwards(EntryDigits(1, 1, 1, 0, 1))[7 := 1], EntryDigits(e0, e1, e2, e3, e4))) >= 4
  {
    hide Ones, XorDigits, OnesAt;
    var v: seq<bit> := [0, 0, 0, 1, 0, 0, 0, 1, 0, 1, 1, 1, 0, 1, 1];
    assert Backwards(EntryDigits(1, 1, 1, 0, 1))[7 := 1] == v;
    OnesOfXor(v, EntryDigits(e0, e1, e2, e3, e4));
  }

  /** The six entries: level LOW with mask 0, 3 or 6, and level HIGH with mask 1, 4 or 7. */
  predicate Unreadable(level: nat, mask: nat) {
    (level == 0 && (mask == 0 || mask == 3 || mask == 6)) || (level == 3 && (mask == 1 || mask == 4 || mask == 7))
  }

  lemma UnreadableEntry(level: nat, mask: nat, d0: bit, d1: bit, d2: bit, d3: bit, d4: bit,
                        e0: bit, e1: bit, e2: bit, e3: bit, e4: bit)
    requires level < 4 && mask < 8 && Unreadable(level, mask) && Data(d0, d1, d2, d3, d4) == EntryOf(level, mask)
    ensures var v, w := Backwards(EntryDigits(d0, d1, d2, d3, d4)), EntryDigits(e0, e1, e2, e3, e4);
            Ones(XorDigits(v, w)) >= 4 && Ones(XorDigits(v[7 := 1], w)) >= 4
  {
    hide Ones, XorDigits, Backwards, EntryDigits;
    Unlisted8(e0, e1, e2, e3, e4);
    Unlisted11(e0, e1, e2, e3, e4);
    Unlisted14(e0, e1, e2, e3, e4);
    Unlisted14Filled(e0, e1, e2, e3, e4);
    Unlisted17(e0, e1, e2, e3, e4);
    Unlisted20(e0, e1, e2, e3, e4);
    Unlisted20Filled(e0, e1, e2, e3, e4);
    Unlisted23(e0, e1, e2, e3, e4);
    Unlisted23Filled(e0, e1, e2, e3, e4);
    var v := Backwards(EntryDigits(d0, d1, d2, d3, d4));
    assert v[7] == 1 ==> v[7 := 1] == v;
  }

  /** Backwards, with any digit or a one in the middle, such a word differs from every entry in at least four bits. */
  lemma BackwardsIsFar(level: nat, mask: nat, w: seq<bit>, k: nat)
    requires level < 4 && mask < 8 && Unreadable(level, mask) && k < 32
    requires |w| == 15 && Num(w) == FORMAT_INFO_TABLE[EntryOf(level, mask)]
    ensures Distance(Num(Backwards(w)), FORMAT_INFO_TABLE[k]) > 3
    ensures Distance(Num(Backwards(w)[7 := 1]), FORMAT_INFO_TABLE[k]) > 3
  {
    hide Num, Ones, Weight, Xor, XorDigits, Data, EntryDigits, Backwards, EntryOf, Unreadable;
    var d0, d1, d2, d3, d4 := DataDigits(EntryOf(level, mask));
    var e0, e1, e2, e3, e4 := DataDigits(k);
    EntryOfDigits(d0, d1, d2, d3, d4);
    EntryOfDigits(e0, e1, e2, e3, e4);
    NumInjective(w, EntryDigits(d0, d1, d2, d3, d4));
    UnreadableEntry(level, mask, d0, d1, d2, d3, d4, e0, e1, e2, e3, e4);
    var v, u := Backwards(w), EntryDigits(e0, e1, e2, e3, e4);
    XorNum(v, u);
    WeightNum(XorDigits(v, u));
    XorNum(v[7 := 1], u);
    WeightNum(XorDigits(v[7 := 1], u));
  }

  lemma EntryOfDigits(d0: bit, d1: bit, d2: bit, d3: bit, d4: bit)
    ensures Num(EntryDigits(d0, d1, d2, d3, d4)) == FORMAT_INFO_TABLE[Data(d0, d1, d2, d3, d4)]
  {
    hide *;
    EntrySumIsNum(d0, d1, d2, d3, d4);
    EntrySumIsListed(d0, d1, d2, d3, d4);
  }

  // ----- the digits of a copy

  function DigitOf(b: bool): bit {
    if b then 1 else 0
  }

  function FormatCell(size: nat, second: bool, i: nat): (int, int)
    requires i < 15
  {
    if second then Second(size, i) else First(i)
  }

  lemma FormatCellInGrid(size: nat, second: bool, i: nat)
    requires size >= 21 && i < 15
    ensures InGrid(size, FormatCell(size, second, i).0, FormatCell(size, second, i).1)
  {}

  /** The digits of one copy, the lowest first. */
  function CopyDigits(size: nat, g: Modules, second: bool): (w: seq<bit>)
    requires |g| == size * size && size >= 21
    ensures |w| == 15
  {
    seq<bit>(15, i requires 0 <= i < 15 =>
      FormatCellInGrid(size, second, i);
      DigitOf(g[Index(size, FormatCell(size, second, i).0, FormatCell(size, second, i).1)]))
  }

  lemma {:induction false} CollectedIsNum(size: nat, g: Modules, second: bool, k: nat)
    requires |g| == size * size && size >= 21 && k <= 15
    ensures Collected(size, g, second, k) == Num(CopyDigits(size, g, second)[15 - k..])
  {
    hide Num, Index;
    var w := CopyDigits(size, g, second);
    if k == 0 {
      NumOfNone(w[15..]);
    } else {
      CollectedIsNum(size, g, second, k - 1);
      NumTail(w, 15 - k);
    }
  }

  lemma CollectedDigits(size: nat, g: Modules, second: bool)
    requires |g| == size * size && size >= 21
    ensures Collected(size, g, second, 15) == Num(CopyDigits(size, g, second))
  {
    hide Num, Collected, CopyDigits;
    CollectedIsNum(size, g, second, 15);
    assert CopyDigits(size, g, second)[0..] == CopyDigits(size, g, second);
  }
}
