/**
 The format words: the encoder computes their ten check bits by polynomial division, the decoder lists all 32 of them.
 */
module FormatCode {
  import opened Bits
  import opened Distances
  import opened BinaryDigits

  // ----- the check bits

  const GENERATOR: nat := 0x537

  const HALF: nat := 0x200

  /** The digits of the generator below the highest. */
  function LowDigits(): (r: seq<bit>)
    ensures |r| == 10
  {
    [1, 1, 1, 0, 1, 1, 0, 0, 1, 0]
  }

  /** The 10 check bits of the data, by 10 steps of division. */
  function CheckBits(data: nat): nat {
    Divided(data, 10, HALF, GENERATOR)
  }

  lemma GeneratorNum()
    ensures Num(LowDigits()) + Pow2(10) == GENERATOR && Pow2(9) == HALF && Pow2(10) == 1024
  {
    hide Num;
    var g := LowDigits();
    assert Pow2(9) == HALF && Pow2(10) == 1024;
    NumFive(g, 0);
    NumFive(g, 5);
    NumOfNone(g[10..]);
    assert g[0..] == g;
  }

  lemma NextStep(data: nat, n: nat, w: seq<bit>)
    requires |w| == 10 && Divided(data, n, HALF, GENERATOR) == Num(w)
    ensures Divided(data, n + 1, HALF, GENERATOR) == Num(ShiftedDigits(w, LowDigits()))
  {
    hide Num, Shifted, ShiftedDigits, LowDigits, Pow2;
    GeneratorNum();
    ShiftedNum(w, LowDigits(), HALF, GENERATOR);
  }

  lemma ShiftedTen(b0: bit, b1: bit, b2: bit, b3: bit, b4: bit, b5: bit, b6: bit, b7: bit, b8: bit, b9: bit)
    ensures ShiftedDigits([b0, b1, b2, b3, b4, b5, b6, b7, b8, b9], LowDigits()) ==
      [b9, Sum(b0, b9), Sum(b1, b9), b2, Sum(b3, b9), Sum(b4, b9), b5, b6, Sum(b7, b9), b8]
  {
    hide Num;
    var w: seq<bit> := [b0, b1, b2, b3, b4, b5, b6, b7, b8, b9];
    var s := ShiftedDigits(w, LowDigits());
    assert b9 == if b9 == 1 then 1 else 0;
    assert s[0] == b9 && s[1] == Sum(b0, b9) && s[2] == Sum(b1, b9) && s[3] == b2 && s[4] == Sum(b3, b9);
    assert s[5] == Sum(b4, b9) && s[6] == b5 && s[7] == b6 && s[8] == Sum(b7, b9) && s[9] == b8;
  }

  /** The check digits: each is the sum of some data digits. */
  function Check(d0: bit, d1: bit, d2: bit, d3: bit, d4: bit): (r: seq<bit>)
    ensures |r| == 10
  {
    [Sum(d0, Sum(d2, d4)), Sum(d0, Sum(d1, Sum(d2, Sum(d3, d4)))), Sum(d0, Sum(d1, d3)), Sum(d1, Sum(d2, d4)),
     Sum(d0, Sum(d3, d4)), Sum(d0, Sum(d1, d2)), Sum(d1, Sum(d2, d3)), Sum(d2, Sum(d3, d4)), Sum(d0, Sum(d2, d3)),
     Sum(d1, Sum(d3, d4))]
  }

  /** In the first 5 steps the data move up. */
  lemma FirstSteps(d0: bit, d1: bit, d2: bit, d3: bit, d4: bit)
    ensures Divided(Num([d0, d1, d2, d3, d4, 0, 0, 0, 0, 0]), 5, HALF, GENERATOR)
         == Num([0, 0, 0, 0, 0, d0, d1, d2, d3, d4])
  {
    hide Num, Divided, Shifted, ShiftedDigits, LowDigits;
    var data := Num([d0, d1, d2, d3, d4, 0, 0, 0, 0, 0]);
    NotDivided(data, HALF, GENERATOR);
    NoSum();
    NextStep(data, 0, [d0, d1, d2, d3, d4, 0, 0, 0, 0, 0]);
    ShiftedTen(d0, d1, d2, d3, d4, 0, 0, 0, 0, 0);
    NextStep(data, 1, [0, d0, d1, d2, d3, d4, 0, 0, 0, 0]);
    ShiftedTen(0, d0, d1, d2, d3, d4, 0, 0, 0, 0);
    NextStep(data, 2, [0, 0, d0, d1, d2, d3, d4, 0, 0, 0]);
    ShiftedTen(0, 0, d0, d1, d2, d3, d4, 0, 0, 0);
    NextStep(data, 3, [0, 0, 0, d0, d1, d2, d3, d4, 0, 0]);
    ShiftedTen(0, 0, 0, d0, d1, d2, d3, d4, 0, 0);
    NextStep(data, 4, [0, 0, 0, 0, d0, d1, d2, d3, d4, 0]);
    ShiftedTen(0, 0, 0, 0, d0, d1, d2, d3, d4, 0);
  }

  /** In the last 5, the generator is subtracted where a data digit has reached the top. */
  lemma LastSteps(d0: bit, d1: bit, d2: bit, d3: bit, d4: bit, data: nat)
    requires Divided(data, 5, HALF, GENERATOR) == Num([0, 0, 0, 0, 0, d0, d1, d2, d3, d4])
    ensures CheckBits(data) == Num(Check(d0, d1, d2, d3, d4))
  {
    hide Num, Divided, Shifted, ShiftedDigits, LowDigits;
    var d13 := Sum(d1, d3);
    var d14 := Sum(d1, d4);
    var d23 := Sum(d2, d3);
    var d24 := Sum(d2, d4);
    var d34 := Sum(d3, d4);
    var d024 := Sum(d0, Sum(d2, d4));
    var d123 := Sum(d1, Sum(d2, d3));
    var d124 := Sum(d1, Sum(d2, d4));
    var d134 := Sum(d1, Sum(d3, d4));
    var d234 := Sum(d2, Sum(d3, d4));
    var d1234 := Sum(d1, Sum(d2, Sum(d3, d4)));
    NextStep(data, 5, [0, 0, 0, 0, 0, d0, d1, d2, d3, d4]);
    ShiftedTen(0, 0, 0, 0, 0, d0, d1, d2, d3, d4);
    NextStep(data, 6, [d4, d4, d4, 0, d4, d4, d0, d1, d24, d3]);
    ShiftedTen(d4, d4, d4, 0, d4, d4, d0, d1, d24, d3);
    NextStep(data, 7, [d3, d34, d34, d4, d3, d34, d4, d0, d13, d24]);
    ShiftedTen(d3, d34, d34, d4, d3, d34, d4, d0, d13, d24);
    NextStep(data, 8, [d24, d234, d23, d34, d2, d234, d34, d4, d024, d13]);
    ShiftedTen(d24, d234, d23, d34, d2, d234, d34, d4, d024, d13);
    NextStep(data, 9, [d13, d1234, d124, d23, d14, d123, d234, d34, d134, d024]);
    ShiftedTen(d13, d1234, d124, d23, d14, d123, d234, d34, d134, d024);
  }

  // ----- the words

  /** The two bits that stand for each error correction level. */
  const LEVEL_BITS: seq<nat> := [1, 0, 3, 2]

  /** The decoder's table, in the order of the five data bits. */
  const FORMAT_INFO_TABLE: seq<nat> :=
    [0x5412, 0x5125, 0x5E7C, 0x5B4B, 0x45F9, 0x40CE, 0x4F97, 0x4AA0,
     0x77C4, 0x72F3, 0x7DAA, 0x789D, 0x662F, 0x6318, 0x6C41, 0x6976,
     0x1689, 0x13BE, 0x1CE7, 0x19D0, 0x0762, 0x0255, 0x0D0C, 0x083B,
     0x355F, 0x3068, 0x3F31, 0x3A06, 0x24B4, 0x2183, 0x2EDA, 0x2BED]

  /** The levels that the decoder's table names, eight entries each. */
  const TABLE_LEVELS: seq<nat> := [1, 0, 3, 2]

  /** The level of entry k of the table. */
  function EntryLevel(k: nat): nat
    requires k < 32
  {
    TABLE_LEVELS[k / 8]
  }

  function EntryMask(k: nat): nat {
    k % 8
  }

  function EntryOf(level: nat, mask: nat): (k: nat)
    requires level < 4 && mask < 8
    ensures k < 32 && EntryLevel(k) == level && EntryMask(k) == mask
  {
    LEVEL_BITS[level] * 8 + mask
  }

  /** The words of the levels low, medium, quartile and high, with mask 0. */
  lemma FirstWords(level: nat)
    requires level < 4
    ensures EntryOf(level, 0) == [8, 0, 24, 16][level]
    ensures |FORMAT_INFO_TABLE| == 32 && FORMAT_INFO_TABLE[EntryOf(level, 0)] == [0x77C4, 0x5412, 0x355F, 0x1689][level]
  {
    assert level == 0 || level == 1 || level == 2 || level == 3;
  }

  const FORMAT_MASK: nat := 0x5412

  function MaskDigits(): (r: seq<bit>)
    ensures |r| == 15
  {
    [0, 1, 0, 0, 1, 0, 0, 0, 0, 0, 1, 0, 1, 0, 1]
  }

  function Data(d0: bit, d1: bit, d2: bit, d3: bit, d4: bit): (r: nat)
    ensures r < 32
  {
    var a: nat, b: nat, c: nat, d: nat, e: nat := d0, d1, d2, d3, d4;
    a + 2 * b + 4 * c + 8 * d + 16 * e
  }

  /** The digits of a code word: check digits below, data above. */
  function CodeDigits(d0: bit, d1: bit, d2: bit, d3: bit, d4: bit): (r: seq<bit>)
    ensures |r| == 15
  {
    Check(d0, d1, d2, d3, d4) + [d0, d1, d2, d3, d4]
  }

  lemma DataNum(d0: bit, d1: bit, d2: bit, d3: bit, d4: bit)
    ensures Num([d0, d1, d2, d3, d4]) == Num([d0, d1, d2, d3, d4, 0, 0, 0, 0, 0]) == Data(d0, d1, d2, d3, d4)
  {
    hide Num;
    var w: seq<bit>, z: seq<bit> := [d0, d1, d2, d3, d4], [0, 0, 0, 0, 0];
    NumFive(w, 0);
    NumOfNone(w[5..]);
    NumFive(z, 0);
    NumOfNone(z[5..]);
    assert w[0..] == w && z[0..] == z;
    NumConcat(w, z);
    assert w + z == [d0, d1, d2, d3, d4, 0, 0, 0, 0, 0];
  }

  lemma CodeNum(d0: bit, d1: bit, d2: bit, d3: bit, d4: bit)
    ensures Num(CodeDigits(d0, d1, d2, d3, d4)) == Data(d0, d1, d2, d3, d4) * 1024 + CheckBits(Data(d0, d1, d2, d3, d4))
    ensures CheckBits(Data(d0, d1, d2, d3, d4)) < 1024
  {
    hide Num, CheckBits, Pow2, Check, Data;
    GeneratorNum();
    DataNum(d0, d1, d2, d3, d4);
    FirstSteps(d0, d1, d2, d3, d4);
    LastSteps(d0, d1, d2, d3, d4, Data(d0, d1, d2, d3, d4));
    NumConcat(Check(d0, d1, d2, d3, d4), [d0, d1, d2, d3, d4]);
    NumBound(Check(d0, d1, d2, d3, d4));
  }

  lemma DataDigits(n: nat) returns (d0: bit, d1: bit, d2: bit, d3: bit, d4: bit)
    requires n < 32
    ensures n == Data(d0, d1, d2, d3, d4)
  {
    var h: nat := n;
    d0, h := h % 2, h / 2;
    d1, h := h % 2, h / 2;
    d2, h := h % 2, h / 2;
    d3, h := h % 2, h / 2;
    d4, h := h % 2, h / 2;
  }

  lemma NumOfWord(w: seq<bit>)
    requires |w| == 15
    ensures Num(w) ==
      ThreeAt(w, 0) + 8 * ThreeAt(w, 3) + 64 * ThreeAt(w, 6) + 512 * ThreeAt(w, 9) + 4096 * ThreeAt(w, 12)
  {
    hide Num, ThreeAt;
    NumThree(w, 0);
    NumThree(w, 3);
    NumThree(w, 6);
    NumThree(w, 9);
    NumThree(w, 12);
    assert w[0..] == w;
    NumOfNone(w[15..]);
  }

  // ----- the table lists the words

  /** The word drawn for some data, digit by digit. */
  function EntryDigits(d0: bit, d1: bit, d2: bit, d3: bit, d4: bit): (r: seq<bit>)
    ensures |r| == 15
  {
    [Sum(d0, Sum(d2, d4)), Sum(Sum(d0, Sum(d1, Sum(d2, Sum(d3, d4)))), 1), Sum(d0, Sum(d1, d3)),
     Sum(d1, Sum(d2, d4)), Sum(Sum(d0, Sum(d3, d4)), 1), Sum(d0, Sum(d1, d2)), Sum(d1, Sum(d2, d3)),
     Sum(d2, Sum(d3, d4)), Sum(d0, Sum(d2, d3)), Sum(d1, Sum(d3, d4)), Sum(d0, 1), d1, Sum(d2, 1), d3, Sum(d4, 1)]
  }

  lemma EntryIsMasked(d0: bit, d1: bit, d2: bit, d3: bit, d4: bit)
    ensures XorDigits(CodeDigits(d0, d1, d2, d3, d4), MaskDigits()) == EntryDigits(d0, d1, d2, d3, d4)
  {
    hide Sum, Num;
    NoSum();
    var code, w := CodeDigits(d0, d1, d2, d3, d4), XorDigits(CodeDigits(d0, d1, d2, d3, d4), MaskDigits());
    assert forall k :: 0 <= k < 15 ==> w[k] == Sum(code[k], MaskDigits()[k]);
    assert w == EntryDigits(d0, d1, d2, d3, d4);
  }

  function EntrySum(d0: bit, d1: bit, d2: bit, d3: bit, d4: bit): nat {
    var x0: nat, x1: nat, x2: nat, x3: nat, x4: nat, x5: nat, x6: nat, x7: nat, x8: nat, x9: nat, x10: nat,
        x11: nat, x12: nat, x13: nat, x14: nat :=
      Sum(d0, Sum(d2, d4)), Sum(Sum(d0, Sum(d1, Sum(d2, Sum(d3, d4)))), 1), Sum(d0, Sum(d1, d3)),
      Sum(d1, Sum(d2, d4)), Sum(Sum(d0, Sum(d3, d4)), 1), Sum(d0, Sum(d1, d2)), Sum(d1, Sum(d2, d3)),
      Sum(d2, Sum(d3, d4)), Sum(d0, Sum(d2, d3)), Sum(d1, Sum(d3, d4)), Sum(d0, 1), d1, Sum(d2, 1), d3, Sum(d4, 1);
    x0 + 2 * x1 + 4 * x2 + 8 * x3 + 16 * x4 + 32 * x5 + 64 * x6 + 128 * x7 + 256 * x8 + 512 * x9 + 1024 * x10
      + 2048 * x11
    + 4096 * x12 + 8192 * x13 + 16384 * x14
  }

  lemma Entries0(d0: bit, d1: bit, d2: bit)
    ensures EntrySum(d0, d1, d2, 0, 0) == FORMAT_INFO_TABLE[Data(d0, d1, d2, 0, 0)]
  {}

  lemma Entries1(d0: bit, d1: bit, d2: bit)
    ensures EntrySum(d0, d1, d2, 1, 0) == FORMAT_INFO_TABLE[Data(d0, d1, d2, 1, 0)]
  {}

  lemma Entries2(d0: bit, d1: bit, d2: bit)
    ensures EntrySum(d0, d1, d2, 0, 1) == FORMAT_INFO_TABLE[Data(d0, d1, d2, 0, 1)]
  {}

  lemma Entries3(d0: bit, d1: bit, d2: bit)
    ensures EntrySum(d0, d1, d2, 1, 1) == FORMAT_INFO_TABLE[Data(d0, d1, d2, 1, 1)]
  {}

  lemma EntrySumIsListed(d0: bit, d1: bit, d2: bit, d3: bit, d4: bit)
    ensures EntrySum(d0, d1, d2, d3, d4) == FORMAT_INFO_TABLE[Data(d0, d1, d2, d3, d4)]
  {
    hide EntrySum, Data;
    if d4 == 0 && d3 == 0 {
      Entries0(d0, d1, d2);
    } else if d4 == 0 && d3 == 1 {
      Entries1(d0, d1, d2);
    } else if d4 == 1 && d3 == 0 {
      Entries2(d0, d1, d2);
    } else {
      Entries3(d0, d1, d2);
    }
  }

  lemma EntrySumIsNum(d0: bit, d1: bit, d2: bit, d3: bit, d4: bit)
    ensures Num(EntryDigits(d0, d1, d2, d3, d4)) == EntrySum(d0, d1, d2, d3, d4)
  {
    hide Num, Sum;
    NumOfWord(EntryDigits(d0, d1, d2, d3, d4));
  }

  lemma MaskNum()
    ensures Num(MaskDigits()) == FORMAT_MASK
  {
    hide Num;
    NumOfWord(MaskDigits());
  }

  lemma EntryNum(d0: bit, d1: bit, d2: bit, d3: bit, d4: bit)
    ensures FORMAT_INFO_TABLE[Data(d0, d1, d2, d3, d4)] == Num(XorDigits(CodeDigits(d0, d1, d2, d3, d4), MaskDigits()))
  {
    hide Num, Sum, Data, EntrySum, EntryDigits;
    EntryIsMasked(d0, d1, d2, d3, d4);
    EntrySumIsNum(d0, d1, d2, d3, d4);
    EntrySumIsListed(d0, d1, d2, d3, d4);
  }

  /** The table lists the masked code words: check bits by division under the five data bits. */
  lemma TableListsCode(data: nat)
    requires data < 32
    ensures FORMAT_INFO_TABLE[data] == Xor(data * 1024 + CheckBits(data), FORMAT_MASK)
    ensures CheckBits(data) < 1024
  {
    hide Num, CheckBits, Xor, Sum, Data, Check;
    var d0, d1, d2, d3, d4 := DataDigits(data);
    CodeNum(d0, d1, d2, d3, d4);
    MaskNum();
    EntryNum(d0, d1, d2, d3, d4);
    XorNum(CodeDigits(d0, d1, d2, d3, d4), MaskDigits());
  }

  // ----- the words are far apart

  lemma OnesOfWord(w: seq<bit>)
    requires |w| == 15
    ensures Ones(w) == OnesAt(w, 0) + OnesAt(w, 3) + OnesAt(w, 6) + OnesAt(w, 9) + OnesAt(w, 12)
  {
    hide Ones, OnesAt;
    OnesThree(w, 0);
    OnesThree(w, 3);
    OnesThree(w, 6);
    OnesThree(w, 9);
    OnesThree(w, 12);
    assert w[0..] == w;
    NoOnes(w[15..]);
  }

  /** Every code word but zero has at least seven ones. */
  lemma CodeIsHeavy(d0: bit, d1: bit, d2: bit, d3: bit, d4: bit)
    requires Data(d0, d1, d2, d3, d4) != 0
    ensures Ones(CodeDigits(d0, d1, d2, d3, d4)) >= 7
  {
    hide Ones;
    OnesOfWord(CodeDigits(d0, d1, d2, d3, d4));
  }

  /** Code words form a group. */
  lemma CodeIsLinear(d0: bit, d1: bit, d2: bit, d3: bit, d4: bit,
                     e0: bit, e1: bit, e2: bit, e3: bit, e4: bit)
    ensures XorDigits(CodeDigits(d0, d1, d2, d3, d4), CodeDigits(e0, e1, e2, e3, e4)) ==
            CodeDigits(Sum(d0, e0), Sum(d1, e1), Sum(d2, e2), Sum(d3, e3), Sum(d4, e4))
  {
    hide Sum, Num;
    SumMixes(d0, Sum(d2, d4), e0, Sum(e2, e4));
    SumMixes(d2, d4, e2, e4);
    SumMixes(d0, Sum(d1, Sum(d2, Sum(d3, d4))), e0, Sum(e1, Sum(e2, Sum(e3, e4))));
    SumMixes(d1, Sum(d2, Sum(d3, d4)), e1, Sum(e2, Sum(e3, e4)));
    SumMixes(d2, Sum(d3, d4), e2, Sum(e3, e4));
    SumMixes(d3, d4, e3, e4);
    SumMixes(d0, Sum(d1, d3), e0, Sum(e1, e3));
    SumMixes(d1, d3, e1, e3);
    SumMixes(d1, Sum(d2, d4), e1, Sum(e2, e4));
    SumMixes(d0, Sum(d3, d4), e0, Sum(e3, e4));
    SumMixes(d0, Sum(d1, d2), e0, Sum(e1, e2));
    SumMixes(d1, d2, e1, e2);
    SumMixes(d1, Sum(d2, d3), e1, Sum(e2, e3));
    SumMixes(d2, d3, e2, e3);
    SumMixes(d0, Sum(d2, d3), e0, Sum(e2, e3));
    SumMixes(d1, Sum(d3, d4), e1, Sum(e3, e4));
    var w := XorDigits(CodeDigits(d0, d1, d2, d3, d4), CodeDigits(e0, e1, e2, e3, e4));
    assert w == CodeDigits(Sum(d0, e0), Sum(d1, e1), Sum(d2, e2), Sum(d3, e3), Sum(d4, e4));
  }

  lemma EntriesApart(d0: bit, d1: bit, d2: bit, d3: bit, d4: bit,
                     e0: bit, e1: bit, e2: bit, e3: bit, e4: bit)
    requires Data(d0, d1, d2, d3, d4) != Data(e0, e1, e2, e3, e4)
    ensures Distance(FORMAT_INFO_TABLE[Data(d0, d1, d2, d3, d4)], FORMAT_INFO_TABLE[Data(e0, e1, e2, e3, e4)]) >= 7
  {
    hide Num, Weight, Xor, Check, Ones, CodeDigits, MaskDigits;
    EntryNum(d0, d1, d2, d3, d4);
    EntryNum(e0, e1, e2, e3, e4);
    var v, w, m := CodeDigits(d0, d1, d2, d3, d4), CodeDigits(e0, e1, e2, e3, e4), MaskDigits();
    XorNum(XorDigits(v, m), XorDigits(w, m));
    MaskCancels(v, w, m);
    WeightNum(XorDigits(v, w));
    CodeIsLinear(d0, d1, d2, d3, d4, e0, e1, e2, e3, e4);
    CodeIsHeavy(Sum(d0, e0), Sum(d1, e1), Sum(d2, e2), Sum(d3, e3), Sum(d4, e4));
  }

  /** Any two words of the table differ in at least seven bits. */
  lemma TableFarApart(i: nat, j: nat)
    requires i < 32 && j < 32 && i != j
    ensures Distance(FORMAT_INFO_TABLE[i], FORMAT_INFO_TABLE[j]) >= 7
  {
    hide Data, Distance;
    var d0, d1, d2, d3, d4 := DataDigits(i);
    var e0, e1, e2, e3, e4 := DataDigits(j);
    EntriesApart(d0, d1, d2, d3, d4, e0, e1, e2, e3, e4);
  }

  /** The words of one level, by mask. */
  function FormatWords(ecl: nat): (r: seq<nat>)
    requires ecl < 4
    ensures |r| == 8 && forall mask :: 0 <= mask < 8 ==> r[mask] == FORMAT_INFO_TABLE[EntryOf(ecl, mask)] < 0x8000
  {
    seq(8, mask requires 0 <= mask < 8 => EntryBound(EntryOf(ecl, mask)); FORMAT_INFO_TABLE[EntryOf(ecl, mask)])
  }

  lemma EntryBound(k: nat)
    requires k < 32
    ensures FORMAT_INFO_TABLE[k] < 0x8000
  {}

  // ----- what the encoder computes

  /** The format bits of a level and a mask, as the encoder computes them. */
  method FormatBits(ecl: nat, mask: nat) returns (bits: nat)
    requires ecl < 4 && mask < 8
    ensures bits == FORMAT_INFO_TABLE[EntryOf(ecl, mask)] < 0x8000
  {
    hide Xor, Or, Divided, Pow2, FORMAT_INFO_TABLE;
    var data := LEVEL_BITS[ecl] * 8 + mask;
    var rem := data;
    assert data == EntryOf(ecl, mask);
    NotDivided(data, HALF, GENERATOR);
    for i := 0 to 10
      invariant rem == Divided(data, i, HALF, GENERATOR)
    {
      DividedNext(data, i, HALF, GENERATOR);
      rem := Xor(rem * 2, rem / 512 * GENERATOR);
    }
    TableListsCode(data);
    GeneratorNum();
    OrDisjoint(data, rem, 10);
    EntryBound(data);
    bits := Xor(Or(data * 1024, rem), FORMAT_MASK);
  }
}
