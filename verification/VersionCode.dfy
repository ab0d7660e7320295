/** The version words: twelve check bits computed by the encoder, a list of words in the decoder. */
module VersionCode {
  import opened Bits
  import opened Distances
  import opened BinaryDigits

  // ----- the check bits

  const GENERATOR: nat := 0x1F25

  const HALF: nat := 0x800

  /** The digits of the generator below the highest. */
  function LowDigits(): (r: seq<bit>)
    ensures |r| == 12
  {
    [1, 0, 1, 0, 0, 1, 0, 0, 1, 1, 1, 1]
  }

  /** The 12 check bits of the data, by 12 steps of division. */
  function CheckBits(data: nat): nat {
    Divided(data, 12, HALF, GENERATOR)
  }

  lemma GeneratorNum()
    ensures Num(LowDigits()) + Pow2(12) == GENERATOR && Pow2(11) == HALF && Pow2(12) == 4096
  {
    hide Num;
    var g := LowDigits();
    assert Pow2(11) == HALF && Pow2(12) == 4096;
    NumFive(g, 0);
    NumFive(g, 5);
    NumTail(g, 10);
    NumTail(g, 11);
    NumOfNone(g[12..]);
    assert g[0..] == g;
  }

  lemma NextStep(data: nat, n: nat, w: seq<bit>)
    requires |w| == 12 && Divided(data, n, HALF, GENERATOR) == Num(w)
    ensures Divided(data, n + 1, HALF, GENERATOR) == Num(ShiftedDigits(w, LowDigits()))
  {
    hide Num, Shifted, ShiftedDigits, LowDigits, Pow2;
    GeneratorNum();
    ShiftedNum(w, LowDigits(), HALF, GENERATOR);
  }

  lemma ShiftedTwelve(b0: bit, b1: bit, b2: bit, b3: bit, b4: bit, b5: bit, b6: bit, b7: bit, b8: bit,
                              b9: bit, b10: bit, b11: bit)
    ensures ShiftedDigits([b0, b1, b2, b3, b4, b5, b6, b7, b8, b9, b10, b11], LowDigits()) ==
      [b11, b0, Sum(b1, b11), b2, b3, Sum(b4, b11), b5, b6, Sum(b7, b11), Sum(b8, b11), Sum(b9, b11), Sum(b10, b11)]
  {
    hide Num;
    var w: seq<bit> := [b0, b1, b2, b3, b4, b5, b6, b7, b8, b9, b10, b11];
    var s := ShiftedDigits(w, LowDigits());
    assert b11 == if b11 == 1 then 1 else 0;
    assert s[0] == b11 && s[1] == b0 && s[2] == Sum(b1, b11) && s[3] == b2 && s[4] == b3;
    assert s[5] == Sum(b4, b11) && s[6] == b5 && s[7] == b6 && s[8] == Sum(b7, b11) && s[9] == Sum(b8, b11);
    assert s[10] == Sum(b9, b11) && s[11] == Sum(b10, b11);
  }

  /** The check digits: each is the sum of some data digits. */
  function Check(d0: bit, d1: bit, d2: bit, d3: bit, d4: bit, d5: bit): (r: seq<bit>)
    ensures |r| == 12
  {
    [Sum(d0, Sum(d1, d5)), Sum(d1, d2), Sum(d0, Sum(d1, Sum(d2, Sum(d3, d5)))), Sum(d1, Sum(d2, Sum(d3, d4))),
     Sum(d2, Sum(d3, Sum(d4, d5))), Sum(d0, Sum(d1, Sum(d3, d4))), Sum(d1, Sum(d2, Sum(d4, d5))),
     Sum(d2, Sum(d3, d5)), Sum(d0, Sum(d1, Sum(d3, Sum(d4, d5)))), Sum(d0, Sum(d2, d4)), Sum(d0, d3),
     Sum(d0, Sum(d4, d5))]
  }

  /** In the first 6 steps the data move up. */
  lemma FirstSteps(d0: bit, d1: bit, d2: bit, d3: bit, d4: bit, d5: bit)
    ensures Divided(Num([d0, d1, d2, d3, d4, d5, 0, 0, 0, 0, 0, 0]), 6, HALF, GENERATOR)
         == Num([0, 0, 0, 0, 0, 0, d0, d1, d2, d3, d4, d5])
  {
    hide Num, Divided, Shifted, ShiftedDigits, LowDigits;
    var data := Num([d0, d1, d2, d3, d4, d5, 0, 0, 0, 0, 0, 0]);
    NotDivided(data, HALF, GENERATOR);
    NoSum();
    NextStep(data, 0, [d0, d1, d2, d3, d4, d5, 0, 0, 0, 0, 0, 0]);
    ShiftedTwelve(d0, d1, d2, d3, d4, d5, 0, 0, 0, 0, 0, 0);
    NextStep(data, 1, [0, d0, d1, d2, d3, d4, d5, 0, 0, 0, 0, 0]);
    ShiftedTwelve(0, d0, d1, d2, d3, d4, d5, 0, 0, 0, 0, 0);
    NextStep(data, 2, [0, 0, d0, d1, d2, d3, d4, d5, 0, 0, 0, 0]);
    ShiftedTwelve(0, 0, d0, d1, d2, d3, d4, d5, 0, 0, 0, 0);
    NextStep(data, 3, [0, 0, 0, d0, d1, d2, d3, d4, d5, 0, 0, 0]);
    ShiftedTwelve(0, 0, 0, d0, d1, d2, d3, d4, d5, 0, 0, 0);
    NextStep(data, 4, [0, 0, 0, 0, d0, d1, d2, d3, d4, d5, 0, 0]);
    ShiftedTwelve(0, 0, 0, 0, d0, d1, d2, d3, d4, d5, 0, 0);
    NextStep(data, 5, [0, 0, 0, 0, 0, d0, d1, d2, d3, d4, d5, 0]);
    ShiftedTwelve(0, 0, 0, 0, 0, d0, d1, d2, d3, d4, d5, 0);
  }

  /** In the last 6, the generator is subtracted where a data digit has reached the top. */
  lemma LastSteps(d0: bit, d1: bit, d2: bit, d3: bit, d4: bit, d5: bit, data: nat)
    requires Divided(data, 6, HALF, GENERATOR) == Num([0, 0, 0, 0, 0, 0, d0, d1, d2, d3, d4, d5])
    ensures Divided(data, 9, HALF, GENERATOR) ==
            Num([Sum(d3, d4), Sum(d4, d5), Sum(d3, Sum(d4, d5)), Sum(d4, d5), d5, Sum(d3, d4), Sum(d4, d5), d5,
                 Sum(d3, d4), Sum(d0, Sum(d3, d5)), Sum(d1, d3), Sum(d2, d3)])
  {
    hide Num, Divided, Shifted, ShiftedDigits, LowDigits;
    var d14 := Sum(d1, d4);
    var d15 := Sum(d1, d5);
    var d24 := Sum(d2, d4);
    var d25 := Sum(d2, d5);
    var d34 := Sum(d3, d4);
    var d35 := Sum(d3, d5);
    var d45 := Sum(d4, d5);
    var d045 := Sum(d0, Sum(d4, d5));
    NextStep(data, 6, [0, 0, 0, 0, 0, 0, d0, d1, d2, d3, d4, d5]);
    ShiftedTwelve(0, 0, 0, 0, 0, 0, d0, d1, d2, d3, d4, d5);
    NextStep(data, 7, [d5, 0, d5, 0, 0, d5, 0, d0, d15, d25, d35, d45]);
    ShiftedTwelve(d5, 0, d5, 0, 0, d5, 0, d0, d15, d25, d35, d45);
    NextStep(data, 8, [d45, d5, d45, d5, 0, d45, d5, 0, d045, d14, d24, d34]);
    ShiftedTwelve(d45, d5, d45, d5, 0, d45, d5, 0, d045, d14, d24, d34);
  }

  lemma FinalSteps(d0: bit, d1: bit, d2: bit, d3: bit, d4: bit, d5: bit, data: nat)
    requires Divided(data, 9, HALF, GENERATOR) ==
             Num([Sum(d3, d4), Sum(d4, d5), Sum(d3, Sum(d4, d5)), Sum(d4, d5), d5, Sum(d3, d4), Sum(d4, d5), d5,
                  Sum(d3, d4), Sum(d0, Sum(d3, d5)), Sum(d1, d3), Sum(d2, d3)])
    ensures CheckBits(data) == Num(Check(d0, d1, d2, d3, d4, d5))
  {
    hide Num, Divided, Shifted, ShiftedDigits, LowDigits;
    var d12 := Sum(d1, d2);
    var d13 := Sum(d1, d3);
    var d14 := Sum(d1, d4);
    var d23 := Sum(d2, d3);
    var d24 := Sum(d2, d4);
    var d34 := Sum(d3, d4);
    var d45 := Sum(d4, d5);
    var d015 := Sum(d0, Sum(d1, d5));
    var d025 := Sum(d0, Sum(d2, d5));
    var d035 := Sum(d0, Sum(d3, d5));
    var d135 := Sum(d1, Sum(d3, d5));
    var d235 := Sum(d2, Sum(d3, d5));
    var d345 := Sum(d3, Sum(d4, d5));
    var d1234 := Sum(d1, Sum(d2, Sum(d3, d4)));
    var d1245 := Sum(d1, Sum(d2, Sum(d4, d5)));
    var d2345 := Sum(d2, Sum(d3, Sum(d4, d5)));
    NextStep(data, 9, [d34, d45, d345, d45, d5, d34, d45, d5, d34, d035, d13, d23]);
    ShiftedTwelve(d34, d45, d345, d45, d5, d34, d45, d5, d34, d035, d13, d23);
    NextStep(data, 10, [d23, d34, d2345, d345, d45, d235, d34, d45, d235, d24, d025, d12]);
    ShiftedTwelve(d23, d34, d2345, d345, d45, d235, d34, d45, d235, d24, d025, d12);
    NextStep(data, 11, [d12, d23, d1234, d2345, d345, d1245, d235, d34, d1245, d135, d14, d015]);
    ShiftedTwelve(d12, d23, d1234, d2345, d345, d1245, d235, d34, d1245, d135, d14, d015);
  }

  // ----- the words

  /** The decoder's words by version; the first six versions have none. */
  const VERSION_INFO_TABLE: seq<nat> :=
    [0, 0, 0, 0, 0, 0, 0x07C94, 0x085BC,
     0x09A99, 0x0A4D3, 0x0BBF6, 0x0C762, 0x0D847, 0x0E60D, 0x0F928, 0x10B78,
     0x1145D, 0x12A17, 0x13532, 0x149A6, 0x15683, 0x168C9, 0x177EC, 0x18EC4,
     0x191E1, 0x1AFAB, 0x1B08E, 0x1CC1A, 0x1D33F, 0x1ED75, 0x1F250, 0x209D5,
     0x216F0, 0x228BA, 0x2379F, 0x24B0B, 0x2542E, 0x26A64, 0x27541, 0x28C69]

  function Data(d0: bit, d1: bit, d2: bit, d3: bit, d4: bit, d5: bit): (r: nat)
    ensures r < 64
  {
    var a: nat, b: nat, c: nat, d: nat, e: nat, f: nat := d0, d1, d2, d3, d4, d5;
    a + 2 * b + 4 * c + 8 * d + 16 * e + 32 * f
  }

  /** The digits of a code word: check digits below, data above. */
  function CodeDigits(d0: bit, d1: bit, d2: bit, d3: bit, d4: bit, d5: bit): (r: seq<bit>)
    ensures |r| == 18
  {
    Check(d0, d1, d2, d3, d4, d5) + [d0, d1, d2, d3, d4, d5]
  }

  lemma DataNum(d0: bit, d1: bit, d2: bit, d3: bit, d4: bit, d5: bit)
    ensures Num([d0, d1, d2, d3, d4, d5]) == Num([d0, d1, d2, d3, d4, d5, 0, 0, 0, 0, 0, 0]) ==
      Data(d0, d1, d2, d3, d4, d5)
  {
    hide Num;
    var w: seq<bit>, z: seq<bit> := [d0, d1, d2, d3, d4, d5], [0, 0, 0, 0, 0, 0];
    NumFive(w, 0);
    NumTail(w, 5);
    NumOfNone(w[6..]);
    NumFive(z, 0);
    NumTail(z, 5);
    NumOfNone(z[6..]);
    assert w[0..] == w && z[0..] == z;
    NumConcat(w, z);
    assert w + z == [d0, d1, d2, d3, d4, d5, 0, 0, 0, 0, 0, 0];
  }

  lemma CodeNum(d0: bit, d1: bit, d2: bit, d3: bit, d4: bit, d5: bit)
    ensures Num(CodeDigits(d0, d1, d2, d3, d4, d5))
         == Data(d0, d1, d2, d3, d4, d5) * 4096 + CheckBits(Data(d0, d1, d2, d3, d4, d5))
    ensures CheckBits(Data(d0, d1, d2, d3, d4, d5)) < 4096
  {
    hide Num, CheckBits, Pow2, Check, Data;
    GeneratorNum();
    DataNum(d0, d1, d2, d3, d4, d5);
    FirstSteps(d0, d1, d2, d3, d4, d5);
    LastSteps(d0, d1, d2, d3, d4, d5, Data(d0, d1, d2, d3, d4, d5));
    FinalSteps(d0, d1, d2, d3, d4, d5, Data(d0, d1, d2, d3, d4, d5));
    NumConcat(Check(d0, d1, d2, d3, d4, d5), [d0, d1, d2, d3, d4, d5]);
    NumBound(Check(d0, d1, d2, d3, d4, d5));
  }

  lemma DataDigits(n: nat) returns (d0: bit, d1: bit, d2: bit, d3: bit, d4: bit, d5: bit)
    requires n < 64
    ensures n == Data(d0, d1, d2, d3, d4, d5)
  {
    var h: nat := n;
    d0, h := h % 2, h / 2;
    d1, h := h % 2, h / 2;
    d2, h := h % 2, h / 2;
    d3, h := h % 2, h / 2;
    d4, h := h % 2, h / 2;
    d5, h := h % 2, h / 2;
  }

  lemma NumOfWord(w: seq<bit>)
    requires |w| == 18
    ensures Num(w) == ThreeAt(w, 0) + 8 * ThreeAt(w, 3) + 64 * ThreeAt(w, 6) + 512 * ThreeAt(w, 9)
                      + 4096 * ThreeAt(w, 12) + 32768 * ThreeAt(w, 15)
  {
    hide Num, ThreeAt;
    NumThree(w, 0);
    NumThree(w, 3);
    NumThree(w, 6);
    NumThree(w, 9);
    NumThree(w, 12);
    NumThree(w, 15);
    assert w[0..] == w;
    NumOfNone(w[18..]);
  }

  // ----- the table lists the words

  /** The word of a version, digit by digit. */
  function EntryDigits(d0: bit, d1: bit, d2: bit, d3: bit, d4: bit, d5: bit): (r: seq<bit>)
    ensures |r| == 18
  {
    [Sum(d0, Sum(d1, d5)), Sum(d1, d2), Sum(d0, Sum(d1, Sum(d2, Sum(d3, d5)))), Sum(d1, Sum(d2, Sum(d3, d4))),
     Sum(d2, Sum(d3, Sum(d4, d5))), Sum(d0, Sum(d1, Sum(d3, d4))), Sum(d1, Sum(d2, Sum(d4, d5))),
     Sum(d2, Sum(d3, d5)), Sum(d0, Sum(d1, Sum(d3, Sum(d4, d5)))), Sum(d0, Sum(d2, d4)), Sum(d0, d3),
     Sum(d0, Sum(d4, d5)), d0, d1, d2, d3, d4, d5]
  }

  lemma EntryIsCode(d0: bit, d1: bit, d2: bit, d3: bit, d4: bit, d5: bit)
    ensures CodeDigits(d0, d1, d2, d3, d4, d5) == EntryDigits(d0, d1, d2, d3, d4, d5)
  {
    hide Sum, Num;
  }

  function EntrySum(d0: bit, d1: bit, d2: bit, d3: bit, d4: bit, d5: bit): nat {
    var x0: nat, x1: nat, x2: nat, x3: nat, x4: nat, x5: nat, x6: nat, x7: nat, x8: nat, x9: nat, x10: nat,
        x11: nat, x12: nat, x13: nat, x14: nat, x15: nat, x16: nat, x17: nat :=
      Sum(d0, Sum(d1, d5)), Sum(d1, d2), Sum(d0, Sum(d1, Sum(d2, Sum(d3, d5)))), Sum(d1, Sum(d2, Sum(d3, d4))),
      Sum(d2, Sum(d3, Sum(d4, d5))), Sum(d0, Sum(d1, Sum(d3, d4))), Sum(d1, Sum(d2, Sum(d4, d5))),
      Sum(d2, Sum(d3, d5)), Sum(d0, Sum(d1, Sum(d3, Sum(d4, d5)))), Sum(d0, Sum(d2, d4)), Sum(d0, d3),
      Sum(d0, Sum(d4, d5)), d0, d1, d2, d3, d4, d5;
    x0 + 2 * x1 + 4 * x2 + 8 * x3 + 16 * x4 + 32 * x5 + 64 * x6 + 128 * x7 + 256 * x8 + 512 * x9 + 1024 * x10
      + 2048 * x11
    + 4096 * x12 + 8192 * x13 + 16384 * x14 + 32768 * x15 + 65536 * x16 + 131072 * x17
  }

  lemma Entries0(d0: bit, d1: bit, d2: bit)
    requires d0 == 1 && d1 == 1 && d2 == 1
    ensures EntrySum(d0, d1, d2, 0, 0, 0) == VERSION_INFO_TABLE[Data(d0, d1, d2, 0, 0, 0) - 1]
  {}

  lemma Entries1(d0: bit, d1: bit, d2: bit)
    ensures EntrySum(d0, d1, d2, 1, 0, 0) == VERSION_INFO_TABLE[Data(d0, d1, d2, 1, 0, 0) - 1]
  {}

  lemma Entries2(d0: bit, d1: bit, d2: bit)
    ensures EntrySum(d0, d1, d2, 0, 1, 0) == VERSION_INFO_TABLE[Data(d0, d1, d2, 0, 1, 0) - 1]
  {}

  lemma Entries3(d0: bit, d1: bit, d2: bit)
    ensures EntrySum(d0, d1, d2, 1, 1, 0) == VERSION_INFO_TABLE[Data(d0, d1, d2, 1, 1, 0) - 1]
  {}

  lemma Entries4(d0: bit, d1: bit, d2: bit)
    ensures EntrySum(d0, d1, d2, 0, 0, 1) == VERSION_INFO_TABLE[Data(d0, d1, d2, 0, 0, 1) - 1]
  {}

  lemma Entries5(d0: bit, d1: bit, d2: bit)
    requires d0 == 0 && d1 == 0 && d2 == 0
    ensures EntrySum(d0, d1, d2, 1, 0, 1) == VERSION_INFO_TABLE[Data(d0, d1, d2, 1, 0, 1) - 1]
  {}

  lemma EntrySumIsListed(d0: bit, d1: bit, d2: bit, d3: bit, d4: bit, d5: bit)
    requires 7 <= Data(d0, d1, d2, d3, d4, d5) <= 40
    ensures EntrySum(d0, d1, d2, d3, d4, d5) == VERSION_INFO_TABLE[Data(d0, d1, d2, d3, d4, d5) - 1]
  {
    hide EntrySum, VERSION_INFO_TABLE;
    if d5 == 0 && d4 == 0 && d3 == 0 {
      Entries0(d0, d1, d2);
    } else if d5 == 0 && d4 == 0 && d3 == 1 {
      Entries1(d0, d1, d2);
    } else if d5 == 0 && d4 == 1 && d3 == 0 {
      Entries2(d0, d1, d2);
    } else if d5 == 0 && d4 == 1 && d3 == 1 {
      Entries3(d0, d1, d2);
    } else if d5 == 1 && d4 == 0 && d3 == 0 {
      Entries4(d0, d1, d2);
    } else {
      Entries5(d0, d1, d2);
    }
  }

  lemma EntrySumIsNum(d0: bit, d1: bit, d2: bit, d3: bit, d4: bit, d5: bit)
    ensures Num(EntryDigits(d0, d1, d2, d3, d4, d5)) == EntrySum(d0, d1, d2, d3, d4, d5)
  {
    hide Num, Sum;
    NumOfWord(EntryDigits(d0, d1, d2, d3, d4, d5));
  }

  lemma EntryNum(d0: bit, d1: bit, d2: bit, d3: bit, d4: bit, d5: bit)
    requires 7 <= Data(d0, d1, d2, d3, d4, d5) <= 40
    ensures VERSION_INFO_TABLE[Data(d0, d1, d2, d3, d4, d5) - 1] == Num(CodeDigits(d0, d1, d2, d3, d4, d5))
  {
    hide Num, Sum, Data, EntrySum, EntryDigits;
    EntryIsCode(d0, d1, d2, d3, d4, d5);
    EntrySumIsNum(d0, d1, d2, d3, d4, d5);
    EntrySumIsListed(d0, d1, d2, d3, d4, d5);
  }

  /** The table lists the code words: check bits by division under the version number. */
  lemma TableListsCode(version: nat)
    requires 7 <= version <= 40
    ensures VERSION_INFO_TABLE[version - 1] == version * 4096 + CheckBits(version)
    ensures CheckBits(version) < 4096
  {
    hide Num, CheckBits, Sum, Data, Check;
    var d0, d1, d2, d3, d4, d5 := DataDigits(version);
    CodeNum(d0, d1, d2, d3, d4, d5);
    EntryNum(d0, d1, d2, d3, d4, d5);
  }

  // ----- the words are far apart

  lemma OnesOfWord(w: seq<bit>)
    requires |w| == 18
    ensures Ones(w) == OnesAt(w, 0) + OnesAt(w, 3) + OnesAt(w, 6) + OnesAt(w, 9) + OnesAt(w, 12) + OnesAt(w, 15)
  {
    hide Ones, OnesAt;
    OnesThree(w, 0);
    OnesThree(w, 3);
    OnesThree(w, 6);
    OnesThree(w, 9);
    OnesThree(w, 12);
    OnesThree(w, 15);
    assert w[0..] == w;
    NoOnes(w[18..]);
  }

  lemma CodeIsHeavyWithout(d0: bit, d1: bit, d2: bit, d3: bit, d4: bit, d5: bit)
    requires d5 == 0 && Data(d0, d1, d2, d3, d4, d5) != 0
    ensures Ones(CodeDigits(d0, d1, d2, d3, d4, d5)) >= 8
  {
    hide Ones;
    OnesOfWord(CodeDigits(d0, d1, d2, d3, d4, d5));
  }

  lemma CodeIsHeavyWith(d0: bit, d1: bit, d2: bit, d3: bit, d4: bit, d5: bit)
    requires d5 == 1
    ensures Ones(CodeDigits(d0, d1, d2, d3, d4, d5)) >= 8
  {
    hide Ones;
    OnesOfWord(CodeDigits(d0, d1, d2, d3, d4, d5));
  }

  /** Every code word but zero has at least eight ones. */
  lemma CodeIsHeavy(d0: bit, d1: bit, d2: bit, d3: bit, d4: bit, d5: bit)
    requires Data(d0, d1, d2, d3, d4, d5) != 0
    ensures Ones(CodeDigits(d0, d1, d2, d3, d4, d5)) >= 8
  {
    hide Ones, Check, Data;
    if d5 == 0 {
      CodeIsHeavyWithout(d0, d1, d2, d3, d4, d5);
    } else {
      CodeIsHeavyWith(d0, d1, d2, d3, d4, d5);
    }
  }

  /** Code words form a group. */
  lemma CodeIsLinear(d0: bit, d1: bit, d2: bit, d3: bit, d4: bit, d5: bit,
                     e0: bit, e1: bit, e2: bit, e3: bit, e4: bit, e5: bit)
    ensures XorDigits(CodeDigits(d0, d1, d2, d3, d4, d5), CodeDigits(e0, e1, e2, e3, e4, e5)) ==
            CodeDigits(Sum(d0, e0), Sum(d1, e1), Sum(d2, e2), Sum(d3, e3), Sum(d4, e4), Sum(d5, e5))
  {
    hide Sum, Num;
    SumMixes(d0, Sum(d1, d5), e0, Sum(e1, e5));
    SumMixes(d1, d5, e1, e5);
    SumMixes(d1, d2, e1, e2);
    SumMixes(d0, Sum(d1, Sum(d2, Sum(d3, d5))), e0, Sum(e1, Sum(e2, Sum(e3, e5))));
    SumMixes(d1, Sum(d2, Sum(d3, d5)), e1, Sum(e2, Sum(e3, e5)));
    SumMixes(d2, Sum(d3, d5), e2, Sum(e3, e5));
    SumMixes(d3, d5, e3, e5);
    SumMixes(d1, Sum(d2, Sum(d3, d4)), e1, Sum(e2, Sum(e3, e4)));
    SumMixes(d2, Sum(d3, d4), e2, Sum(e3, e4));
    SumMixes(d3, d4, e3, e4);
    SumMixes(d2, Sum(d3, Sum(d4, d5)), e2, Sum(e3, Sum(e4, e5)));
    SumMixes(d3, Sum(d4, d5), e3, Sum(e4, e5));
    SumMixes(d4, d5, e4, e5);
    SumMixes(d0, Sum(d1, Sum(d3, d4)), e0, Sum(e1, Sum(e3, e4)));
    SumMixes(d1, Sum(d3, d4), e1, Sum(e3, e4));
    SumMixes(d1, Sum(d2, Sum(d4, d5)), e1, Sum(e2, Sum(e4, e5)));
    SumMixes(d2, Sum(d4, d5), e2, Sum(e4, e5));
    SumMixes(d0, Sum(d1, Sum(d3, Sum(d4, d5))), e0, Sum(e1, Sum(e3, Sum(e4, e5))));
    SumMixes(d1, Sum(d3, Sum(d4, d5)), e1, Sum(e3, Sum(e4, e5)));
    SumMixes(d0, Sum(d2, d4), e0, Sum(e2, e4));
    SumMixes(d2, d4, e2, e4);
    SumMixes(d0, d3, e0, e3);
    SumMixes(d0, Sum(d4, d5), e0, Sum(e4, e5));
    var w := XorDigits(CodeDigits(d0, d1, d2, d3, d4, d5), CodeDigits(e0, e1, e2, e3, e4, e5));
    assert w == CodeDigits(Sum(d0, e0), Sum(d1, e1), Sum(d2, e2), Sum(d3, e3), Sum(d4, e4), Sum(d5, e5));
  }

  lemma WordsApart(d0: bit, d1: bit, d2: bit, d3: bit, d4: bit, d5: bit,
                   e0: bit, e1: bit, e2: bit, e3: bit, e4: bit, e5: bit)
    requires Data(d0, d1, d2, d3, d4, d5) != Data(e0, e1, e2, e3, e4, e5)
    ensures Distance(Num(CodeDigits(d0, d1, d2, d3, d4, d5)), Num(CodeDigits(e0, e1, e2, e3, e4, e5))) >= 8
  {
    hide Num, Weight, Xor, Check, Ones, CodeDigits;
    var v, w := CodeDigits(d0, d1, d2, d3, d4, d5), CodeDigits(e0, e1, e2, e3, e4, e5);
    XorNum(v, w);
    WeightNum(XorDigits(v, w));
    CodeIsLinear(d0, d1, d2, d3, d4, d5, e0, e1, e2, e3, e4, e5);
    CodeIsHeavy(Sum(d0, e0), Sum(d1, e1), Sum(d2, e2), Sum(d3, e3), Sum(d4, e4), Sum(d5, e5));
  }

  lemma NoData()
    ensures Data(0, 0, 0, 0, 0, 0) == 0 && Num(CodeDigits(0, 0, 0, 0, 0, 0)) == 0
  {
    hide Num;
    NumOfWord(CodeDigits(0, 0, 0, 0, 0, 0));
  }

  lemma NoWord(k: nat)
    requires k < 6
    ensures |VERSION_INFO_TABLE| == 40 && VERSION_INFO_TABLE[k] == 0
  {}

  /** The word of a version differs in at least eight bits from every other entry, and from those that are none. */
  lemma VersionWordsApart(version: nat, k: nat)
    requires 7 <= version <= 40 && k < 40 && k != version - 1
    ensures Distance(VERSION_INFO_TABLE[version - 1], VERSION_INFO_TABLE[k]) >= 8
  {
    hide Data, Distance, Num, CodeDigits, VERSION_INFO_TABLE;
    var d0, d1, d2, d3, d4, d5 := DataDigits(version);
    EntryNum(d0, d1, d2, d3, d4, d5);
    if k < 6 {
      NoWord(k);
      NoData();
      WordsApart(d0, d1, d2, d3, d4, d5, 0, 0, 0, 0, 0, 0);
    } else {
      var e0, e1, e2, e3, e4, e5 := DataDigits(k + 1);
      EntryNum(e0, e1, e2, e3, e4, e5);
      WordsApart(d0, d1, d2, d3, d4, d5, e0, e1, e2, e3, e4, e5);
    }
  }

  /** The word of a version, if it has one. */
  function VersionWord(version: nat): (r: nat)
    ensures r < 0x40000
  {
    if 7 <= version <= 40 then VERSION_INFO_TABLE[version - 1] else 0
  }

  // ----- what the encoder computes

  /** The version bits, as the encoder computes them. */
  method VersionBits(version: nat) returns (bits: nat)
    requires 7 <= version <= 40
    ensures bits == VersionWord(version)
  {
    hide Xor, Or, Divided, Pow2, VERSION_INFO_TABLE;
    var rem := version;
    NotDivided(version, HALF, GENERATOR);
    for i := 0 to 12
      invariant rem == Divided(version, i, HALF, GENERATOR)
    {
      DividedNext(version, i, HALF, GENERATOR);
      rem := Xor(rem * 2, rem / 2048 * GENERATOR);
    }
    TableListsCode(version);
    GeneratorNum();
    OrDisjoint(version, rem, 12);
    bits := Or(version * 4096, rem);
    assert bits == VersionWord(version);
  }
}
