/** How flipped modules spread: each one damages at most one codeword, each codeword lies in one block. */
module Damage {
  import opened Bits
  import opened Grid
  import opened Zigzag
  import opened Placement
  import opened Blocks
  import opened Interleaver
  import opened Repair
  import opened Symbol

  // ----- sizes of sets

  /** Distinct entries of a sequence at the positions in d. */
  lemma {:induction false} ImageSize(d: set<int>, f: seq<int>, image: set<int>)
    requires forall k :: k in d ==> 0 <= k < |f| && f[k] in image
    requires forall j, k :: j in d && k in d && j != k ==> f[j] != f[k]
    ensures |d| <= |image|
    decreases d
  {
    if d == {} {
    } else {
      var k := Member(d);
      ImageSize(d - {k}, f, image - {f[k]});
    }
  }

  /** Every element of a is some k / 8 with k in d. */
  lemma {:induction false} EighthsSize(a: set<int>, d: set<int>)
    requires forall i :: i in a ==> exists k :: k in d && k / 8 == i
    ensures |a| <= |d|
    decreases a
  {
    if a == {} {
    } else {
      var i := Member(a);
      var k :| k in d && k / 8 == i;
      var a', d' := a - {i}, d - {k};
      forall j | j in a'
        ensures exists m :: m in d' && m / 8 == j
      {
        var m :| m in d && m / 8 == j;
        assert m in d';
      }
      EighthsSize(a', d');
    }
  }

  // ----- modules to bits

  lemma {:induction false} ReadBitsAt(g: Modules, func: Modules, walk: seq<nat>, k: nat)
    requires |g| == |func| && Inside(walk, |g|) && k < |FreeModules(func, walk)|
    ensures var p := FreeModules(func, walk)[k];
            p in walk && p < |g| && !func[p] && ReadBits(g, func, walk)[k] == g[p]
    decreases |walk|
  {
    var n := |walk| - 1;
    if k < |FreeModules(func, walk[..n])| {
      ReadBitsAt(g, func, walk[..n], k);
    } else {
      assert walk[n] in walk;
    }
  }

  lemma {:induction false} FreeDistinct(func: Modules, walk: seq<nat>)
    requires Inside(walk, |func|) && Distinct(walk)
    ensures Distinct(FreeModules(func, walk))
    decreases |walk|
  {
    if walk != [] {
      var n := |walk| - 1;
      FreeDistinct(func, walk[..n]);
      forall k | 0 <= k < |FreeModules(func, walk[..n])|
        ensures FreeModules(func, walk[..n])[k] != walk[n]
      {
        ReadBitsAt(func, func, walk[..n], k);
        var i :| 0 <= i < n && walk[i] == FreeModules(func, walk[..n])[k];
      }
    }
  }

  /** Free modules in which the two grids differ. */
  ghost function Flipped(func: Modules, g: Modules, h: Modules): set<int>
    requires |g| == |h| == |func|
  {
    set p | 0 <= p < |func| && !func[p] && g[p] != h[p]
  }

  ghost function DifferentBits(a: seq<bool>, b: seq<bool>, n: nat): set<int>
    requires n <= |a| && n <= |b|
  {
    set k | 0 <= k < n && a[k] != b[k]
  }

  /** No more bits differ than free modules. */
  lemma BitsDamaged(g: Modules, h: Modules, func: Modules, walk: seq<nat>, n: nat)
    requires |g| == |h| == |func| && Inside(walk, |g|) && Distinct(walk) && n <= |FreeModules(func, walk)|
    ensures |DifferentBits(ReadBits(g, func, walk), ReadBits(h, func, walk), n)| <= |Flipped(func, g, h)|
  {
    hide ReadBits, FreeModules;
    FreeDistinct(func, walk);
    var free := FreeModules(func, walk);
    var d := DifferentBits(ReadBits(g, func, walk), ReadBits(h, func, walk), n);
    forall k | k in d
      ensures free[k] in Flipped(func, g, h)
    {
      ReadBitsAt(g, func, walk, k);
      ReadBitsAt(h, func, walk, k);
    }
    ImageSize(d, free, Flipped(func, g, h));
  }

  // ----- bits to codewords

  lemma CodewordBits(codewords: seq<byte>, i: nat)
    requires i < |codewords|
    ensures BytesToBits(codewords)[8 * i..8 * i + 8] == BitsMsb(codewords[i], 8)
  {
    hide BitsMsb, BytesToBits, Bit;
    forall j | 0 <= j < 8
      ensures BytesToBits(codewords)[8 * i + j] == BitsMsb(codewords[i], 8)[j]
    {
      BytesToBitsAt(codewords, 8 * i + j);
      BitsMsbAt(codewords[i], 8, j);
      assert (8 * i + j) / 8 == i && (8 * i + j) % 8 == j;
    }
  }

  /** Codewords that differ have a differing bit. */
  lemma DifferentCodeword(a: seq<byte>, b: seq<byte>, i: nat) returns (k: nat)
    requires i < |a| && i < |b| && a[i] != b[i]
    ensures k / 8 == i && k < 8 * |a| && k < 8 * |b| && BytesToBits(a)[k] != BytesToBits(b)[k]
  {
    hide BitsMsb, BytesToBits;
    CodewordBits(a, i);
    CodewordBits(b, i);
    assert Pow2(8) == 256;
    if BitsMsb(a[i], 8) == BitsMsb(b[i], 8) {
      BitsMsbInjective(a[i], b[i], 8);
    }
    var j := FirstDifference(BitsMsb(a[i], 8), BitsMsb(b[i], 8));
    k := 8 * i + j;
    assert BytesToBits(a)[8 * i..8 * i + 8][j] == BytesToBits(a)[k];
    assert BytesToBits(b)[8 * i..8 * i + 8][j] == BytesToBits(b)[k];
  }

  lemma FirstDifference(a: seq<bool>, b: seq<bool>) returns (j: nat)
    requires |a| == |b| && a != b
    ensures j < |a| && a[j] != b[j]
  {
    j :| 0 <= j < |a| && a[j] != b[j];
  }

  /** Codewords among the first |raw| that are wrong. */
  ghost function Wrong(raw: seq<byte>, codewords: seq<byte>): set<int>
    requires |codewords| >= |raw|
  {
    set i | 0 <= i < |raw| && codewords[i] != raw[i]
  }

  lemma CodewordsDamaged(raw: seq<byte>, codewords: seq<byte>)
    requires |codewords| >= |raw|
    ensures |Wrong(raw, codewords)| <= |DifferentBits(BytesToBits(codewords), BytesToBits(raw), 8 * |raw|)|
  {
    hide BytesToBits;
    var d := DifferentBits(BytesToBits(codewords), BytesToBits(raw), 8 * |raw|);
    forall i | i in Wrong(raw, codewords)
      ensures exists k :: k in d && k / 8 == i
    {
      var k := DifferentCodeword(codewords, raw, i);
      assert k in d;
    }
    EighthsSize(Wrong(raw, codewords), d);
  }

  // ----- codewords to blocks

  lemma BlockDamaged(s: Shape, data: seq<byte>, raw: seq<byte>, codewords: seq<byte>, b: nat)
    requires s.Valid() && |data| == s.DataLen() && |raw| == s.RawLen() <= |codewords| && b < s.numBlocks
    requires FirstBlocksPlaced(s, data, raw, s.numBlocks)
    ensures |Differences(BlockBytes(s, data, b), ReadBack(s, codewords, b, s.BlockLen(b) + s.eccLen))|
         <= |Wrong(raw, codewords)|
  {
    hide FirstBlocksPlaced, BlockBytes, Shape.RawLen, Shape.DataLen, Shape.Slot;
    var m := s.BlockLen(b) + s.eccLen;
    var d := Differences(BlockBytes(s, data, b), ReadBack(s, codewords, b, m));
    var slots := seq(m, j requires 0 <= j < m => s.Slot(b, j));
    Deinterleaves(s, data, raw, b);
    forall j | j in d
      ensures slots[j] in Wrong(raw, codewords)
    {
      SlotRange(s, b, j);
    }
    forall j, k | j in d && k in d && j != k
      ensures slots[j] != slots[k]
    {
      if slots[j] == slots[k] {
        SlotInjective(s, b, j, b, k);
      }
    }
    ImageSize(d, slots, Wrong(raw, codewords));
  }

  /** If at most half as many codewords are wrong as there are check bytes in a block, every block can be repaired. */
  lemma FewWrongIsRepairable(s: Shape, data: seq<byte>, raw: seq<byte>, codewords: seq<byte>)
    requires s.Valid() && |data| == s.DataLen() && |raw| == s.RawLen() <= |codewords|
    requires FirstBlocksPlaced(s, data, raw, s.numBlocks)
    requires 2 * |Wrong(raw, codewords)| <= s.eccLen
    ensures Repairable(s, data, codewords)
  {
    hide FirstBlocksPlaced, BlockBytes, ReadBack, Differences, Wrong, Shape.RawLen, Shape.DataLen;
    forall b | 0 <= b < s.numBlocks
      ensures 2 * |Differences(BlockBytes(s, data, b), ReadBack(s, codewords, b, s.BlockLen(b) + s.eccLen))| <= s.eccLen
    {
      BlockDamaged(s, data, raw, codewords, b);
    }
  }
}
