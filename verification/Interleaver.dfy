/** The encoder's interleaving of data and check bytes, and the decoder's inverse. */
module Interleaver {
  import opened Bits
  import opened Options
  import opened Blocks
  import opened RsEncoder

  /** Block b of the data followed by its check bytes. */
  function BlockBytes(s: Shape, data: seq<byte>, b: nat): (r: seq<byte>)
    requires s.Valid() && |data| == s.DataLen() && b < s.numBlocks
    ensures |r| == s.BlockLen(b) + s.eccLen
  {
    BlockInside(s, b);
    var part := data[s.Start(b)..s.Start(b) + s.BlockLen(b)];
    part + Remainder(part, Divisor(s.eccLen))
  }

  lemma BlockInside(s: Shape, b: nat)
    requires s.Valid() && b < s.numBlocks
    ensures s.Start(b + 1) == s.Start(b) + s.BlockLen(b) <= s.DataLen()
  {
    assert (b + 1) * s.shortLen == b * s.shortLen + s.shortLen;
    MulMonotone(s.shortLen, b + 1, s.numBlocks);
  }

  // ----- encoder

  /** No other byte shares the slot of byte j of block i. */
  lemma SlotFresh(s: Shape, i: nat, j: nat)
    requires s.Valid() && s.IsByte(i, j)
    ensures 0 <= s.Slot(i, j) < s.RawLen()
    ensures forall b: nat, c: nat :: s.IsByte(b, c) && (b != i || c != j) ==>
      0 <= s.Slot(b, c) < s.RawLen() && s.Slot(b, c) != s.Slot(i, j)
  {
    SlotRange(s, i, j);
    forall b: nat, c: nat | s.IsByte(b, c) && (b != i || c != j)
      ensures 0 <= s.Slot(b, c) < s.RawLen() && s.Slot(b, c) != s.Slot(i, j)
    {
      SlotRange(s, b, c);
      if s.Slot(b, c) == s.Slot(i, j) {
        SlotInjective(s, b, c, i, j);
      }
    }
  }

  lemma DataSlot(s: Shape, i: nat, j: nat)
    requires s.Valid() && i < s.numBlocks && j < s.BlockLen(i)
    ensures s.Slot(i, j) == j * s.numBlocks + i - if j == s.shortLen then s.numShort else 0
    ensures (j + 1) * s.numBlocks == j * s.numBlocks + s.numBlocks
  {}

  lemma EccSlot(s: Shape, i: nat, j: nat)
    requires s.Valid() && i < s.numBlocks && j < s.eccLen
    ensures s.Slot(i, s.BlockLen(i) + j) == s.DataLen() + i + j * s.numBlocks
    ensures (j + 1) * s.numBlocks == j * s.numBlocks + s.numBlocks
  {}

  /** The loop that copies the data bytes of block i. */
  method CopyData(s: Shape, i: nat, dat: array<byte>, datAt: nat, result: array<byte>)
    requires s.Valid() && i < s.numBlocks && s.RawLen() <= result.Length
    requires dat != result && datAt + s.BlockLen(i) <= dat.Length
    modifies result
    ensures forall c: nat :: c < s.BlockLen(i) ==> At(s, result[..], i, c) == dat[datAt + c]
    ensures forall b: nat, c: nat :: s.IsByte(b, c) && (b != i || c >= s.BlockLen(i)) ==>
      At(s, result[..], b, c) == old(At(s, result[..], b, c))
    ensures result[s.RawLen()..] == old(result[s.RawLen()..])
  {
    hide Shape.Slot, At;
    var datLen := s.BlockLen(i);
    var j, k := 0, i;
    while j < datLen
      invariant 0 <= j <= datLen
      invariant k == j * s.numBlocks + i - if j > s.shortLen then s.numShort else 0
      invariant forall c: nat :: c < j ==> At(s, result[..], i, c) == dat[datAt + c]
      invariant forall b: nat, c: nat :: s.IsByte(b, c) && (b != i || c >= j) ==>
        At(s, result[..], b, c) == old(At(s, result[..], b, c))
      invariant result[s.RawLen()..] == old(result[s.RawLen()..])
    {
      if j == s.shortLen {
        k := k - s.numShort;
      }
      DataSlot(s, i, j);
      ghost var before := result[..];
      WriteSlot(s, before, i, j, dat[datAt + j]);
      result[k] := dat[datAt + j];
      assert k == s.Slot(i, j) && result[..] == before[k := dat[datAt + j]];
      assert At(s, result[..], i, j) == dat[datAt + j];
      assert forall c: nat :: c < j ==> s.IsByte(i, c) && At(s, before, i, c) == dat[datAt + c];
      assert forall c: nat :: c < j ==> s.IsByte(i, c) && At(s, result[..], i, c) == At(s, before, i, c);
      j, k := j + 1, k + s.numBlocks;
    }
  }

  /** The byte in the slot of byte j of block b. */
  ghost function At(s: Shape, raw: seq<byte>, b: nat, j: nat): byte
    requires s.Valid() && s.IsByte(b, j) && |raw| >= s.RawLen()
  {
    SlotRange(s, b, j);
    raw[s.Slot(b, j)]
  }

  lemma WriteSlot(s: Shape, raw: seq<byte>, i: nat, j: nat, v: byte)
    requires s.Valid() && s.IsByte(i, j) && |raw| >= s.RawLen()
    ensures 0 <= s.Slot(i, j) < s.RawLen()
    ensures At(s, raw[s.Slot(i, j) := v], i, j) == v
    ensures forall b: nat, c: nat :: s.IsByte(b, c) && (b != i || c != j) ==>
      At(s, raw[s.Slot(i, j) := v], b, c) == At(s, raw, b, c)
  {
    SlotFresh(s, i, j);
  }

  /** The loop that copies the check bytes of block i. */
  method CopyEcc(s: Shape, i: nat, ecc: array<byte>, eccAt: nat, result: array<byte>)
    requires s.Valid() && i < s.numBlocks && s.RawLen() <= result.Length
    requires ecc != result && eccAt + s.eccLen <= ecc.Length
    modifies result
    ensures forall c: nat :: s.BlockLen(i) <= c < s.BlockLen(i) + s.eccLen ==>
      At(s, result[..], i, c) == ecc[eccAt + (c - s.BlockLen(i))]
    ensures forall b: nat, c: nat :: s.IsByte(b, c) && (b != i || c < s.BlockLen(i)) ==>
      At(s, result[..], b, c) == old(At(s, result[..], b, c))
    ensures result[s.RawLen()..] == old(result[s.RawLen()..])
  {
    hide Shape.Slot, At;
    ghost var len := s.BlockLen(i);
    var j, k := 0, s.DataLen() + i;
    while j < s.eccLen
      invariant 0 <= j <= s.eccLen
      invariant k == s.DataLen() + i + j * s.numBlocks
      invariant forall c: nat :: len <= c < len + j ==> At(s, result[..], i, c) == ecc[eccAt + (c - len)]
      invariant forall b: nat, c: nat :: s.IsByte(b, c) && (b != i || c < len || c >= len + j) ==>
        At(s, result[..], b, c) == old(At(s, result[..], b, c))
      invariant result[s.RawLen()..] == old(result[s.RawLen()..])
    {
      EccSlot(s, i, j);
      ghost var before := result[..];
      WriteSlot(s, before, i, len + j, ecc[eccAt + j]);
      result[k] := ecc[eccAt + j];
      assert k == s.Slot(i, len + j) && result[..] == before[k := ecc[eccAt + j]];
      assert At(s, result[..], i, len + j) == ecc[eccAt + j];
      assert forall c: nat :: len <= c < len + j ==> s.IsByte(i, c) && At(s, before, i, c) == ecc[eccAt + (c - len)];
      assert forall c: nat :: len <= c < len + j ==> s.IsByte(i, c) && At(s, result[..], i, c) == At(s, before, i, c);
      j, k := j + 1, k + s.numBlocks;
    }
  }

  /** Byte c of every block before block i is in its slot. */
  ghost predicate FirstBlocksPlaced(s: Shape, data: seq<byte>, raw: seq<byte>, i: nat)
    requires s.Valid() && |data| == s.DataLen() && |raw| >= s.RawLen()
  {
    forall b: nat, c: nat :: b < i && s.IsByte(b, c) ==> At(s, raw, b, c) == BlockBytes(s, data, b)[c]
  }

  /**
   Appends check bytes to each block of `data[..dataLen]` and stores the interleaved blocks in `result`;
   `data[dataLen..]` serves as scratch space.
   */
  method AddEccAndInterleave(data: array<byte>, s: Shape, result: array<byte>)
    requires s.Valid() && data != result
    requires s.RawLen() <= data.Length && s.RawLen() <= result.Length
    modifies data, result
    ensures data[..s.DataLen()] == old(data[..s.DataLen()])
    ensures FirstBlocksPlaced(s, old(data[..s.DataLen()]), result[..], s.numBlocks)
    ensures result[s.RawLen()..] == old(result[s.RawLen()..])
  {
    var dataLen := s.DataLen();
    ghost var dat := data[..dataLen];
    ScratchFits(s);
    var rsdiv := new byte[s.eccLen];
    ReedSolomonComputeDivisor(s.eccLen, rsdiv);
    assert rsdiv[..] == Divisor(s.eccLen);
    var datAt := 0;
    hide Shape.Slot, At, FirstBlocksPlaced, Remainder, Divisor, BlockBytes;
    NothingPlaced(s, dat, result[..]);
    for i := 0 to s.numBlocks
      invariant datAt == s.Start(i) && data[..dataLen] == dat
      invariant rsdiv[..] == Divisor(s.eccLen)
      invariant FirstBlocksPlaced(s, dat, result[..], i)
      invariant result[s.RawLen()..] == old(result[s.RawLen()..])
    {
      datAt := EncodeBlock(data, datAt, s, i, rsdiv, result, dat);
    }
  }

  lemma ScratchFits(s: Shape)
    requires s.Valid()
    ensures s.DataLen() + s.eccLen <= s.RawLen()
  {
    MulMonotone(s.eccLen, 1, s.numBlocks);
  }

  lemma NothingPlaced(s: Shape, data: seq<byte>, raw: seq<byte>)
    requires s.Valid() && |data| == s.DataLen() && |raw| >= s.RawLen()
    ensures FirstBlocksPlaced(s, data, raw, 0)
  {}

  /** The body of the block loop. */
  method EncodeBlock(data: array<byte>, datAt: nat, s: Shape, i: nat, rsdiv: array<byte>, result: array<byte>,
                     ghost dat: seq<byte>)
      returns (next: nat)
    requires s.Valid() && data != result && rsdiv != data && rsdiv != result && i < s.numBlocks
    requires s.RawLen() <= data.Length && s.RawLen() <= result.Length && datAt == s.Start(i)
    requires dat == data[..s.DataLen()] && rsdiv[..] == Divisor(s.eccLen)
    requires FirstBlocksPlaced(s, dat, result[..], i)
    modifies data, result
    ensures next == s.Start(i + 1) && data[..s.DataLen()] == dat && rsdiv[..] == old(rsdiv[..])
    ensures FirstBlocksPlaced(s, dat, result[..], i + 1)
    ensures result[s.RawLen()..] == old(result[s.RawLen()..])
  {
    hide Shape.Slot, At, Remainder, Divisor;
    var datLen, dataLen := s.BlockLen(i), s.DataLen();
    ScratchFits(s);
    BlockInside(s, i);
    assert rsdiv[..s.eccLen] == rsdiv[..];
    assert data[datAt..datAt + datLen] == dat[datAt..datAt + datLen];
    ReedSolomonComputeRemainder(data, datAt, datLen, rsdiv, s.eccLen, data, dataLen);
    assert data[..dataLen] == dat;
    ghost var part, raw := dat[datAt..datAt + datLen], result[..];
    ghost var ecc := data[dataLen..dataLen + s.eccLen];
    CopyData(s, i, data, datAt, result);
    CopyEcc(s, i, data, dataLen, result);
    assert data[..dataLen] == dat && data[dataLen..dataLen + s.eccLen] == ecc;
    hide FirstBlocksPlaced;
    BlockPlaced(s, dat, i, part, ecc, raw, result[..]);
    next := datAt + datLen;
  }

  lemma BlockPlaced(s: Shape, dat: seq<byte>, i: nat, part: seq<byte>, ecc: seq<byte>, before: seq<byte>,
                    after: seq<byte>)
    requires s.Valid() && |dat| == s.DataLen() && i < s.numBlocks && |before| == |after| >= s.RawLen()
    requires s.Start(i) + s.BlockLen(i) <= s.DataLen()
    requires part == dat[s.Start(i)..s.Start(i) + s.BlockLen(i)] && ecc == Remainder(part, Divisor(s.eccLen))
    requires FirstBlocksPlaced(s, dat, before, i)
    requires forall b: nat, c: nat :: s.IsByte(b, c) && b != i ==> At(s, after, b, c) == At(s, before, b, c)
    requires forall c: nat :: c < s.BlockLen(i) ==> At(s, after, i, c) == part[c]
    requires forall c: nat :: s.BlockLen(i) <= c < s.BlockLen(i) + s.eccLen ==>
      At(s, after, i, c) == ecc[c - s.BlockLen(i)]
    ensures FirstBlocksPlaced(s, dat, after, i + 1)
  {
    hide Shape.Slot, At, Remainder, Divisor;
  }

  // ----- decoder

  datatype DataBlock = DataBlock(numDataCodewords: nat, codewords: seq<byte>)

  /** The first m bytes of block b of an interleaved sequence. */
  ghost function ReadBack(s: Shape, raw: seq<byte>, b: nat, m: nat): (r: seq<byte>)
    requires s.Valid() && |raw| >= s.RawLen() && b < s.numBlocks && m <= s.BlockLen(b) + s.eccLen
    ensures |r| == m
    ensures forall c :: 0 <= c < m ==> r[c] == At(s, raw, b, c)
  {
    seq(m, c requires 0 <= c < m => At(s, raw, b, c))
  }

  /** One pass over the blocks from number `first` on: each takes the next codeword of the queue. */
  method PullRow(blocks: seq<DataBlock>, first: nat, queue: seq<byte>) returns (pulled: seq<DataBlock>, rest: seq<byte>)
    requires first <= |blocks| && |queue| >= |blocks| - first
    ensures |pulled| == |blocks| && rest == queue[|blocks| - first..]
    ensures forall b :: 0 <= b < |blocks| ==> pulled[b].numDataCodewords == blocks[b].numDataCodewords
    ensures forall b :: 0 <= b < first ==> pulled[b] == blocks[b]
    ensures forall b :: first <= b < |blocks| ==> pulled[b].codewords == blocks[b].codewords + [queue[b - first]]
  {
    pulled, rest := blocks, queue;
    for b := first to |blocks|
      invariant |pulled| == |blocks| && rest == queue[b - first..]
      invariant forall c :: 0 <= c < |blocks| ==> pulled[c].numDataCodewords == blocks[c].numDataCodewords
      invariant forall c :: 0 <= c < first || b <= c < |blocks| ==> pulled[c] == blocks[c]
      invariant forall c :: first <= c < b ==> pulled[c].codewords == blocks[c].codewords + [queue[c - first]]
    {
      pulled := pulled[b := pulled[b].(codewords := pulled[b].codewords + [rest[0]])];
      rest := rest[1..];
    }
  }

  /** Undoes the interleaving: fills the blocks row by row from the front of the codewords. */
  method GetDataBlocks(codewords: seq<byte>, s: Shape) returns (result: Option<seq<DataBlock>>)
    requires s.Valid()
    ensures result.None? <==> |codewords| < s.RawLen()
    ensures result.Some? ==>
      && |result.value| == s.numBlocks
      && forall b :: 0 <= b < s.numBlocks ==>
           result.value[b] == DataBlock(s.BlockLen(b), ReadBack(s, codewords, b, s.BlockLen(b) + s.eccLen))
  {
    var n := s.numBlocks;
    if |codewords| < s.RawLen() {
      return None;
    }
    FirstRow(s);
    hide Shape.Slot, At, Shape.RawLen, Shape.DataLen, Shape.DataRowAt, Shape.EccRowAt;
    var blocks := seq(n, b requires 0 <= b < n => DataBlock(s.BlockLen(b), []));
    var queue := codewords[..s.RawLen()];
    for i := 0 to s.shortLen
      invariant |blocks| == n
      invariant s.DataRowAt(i) <= s.RawLen() && queue == codewords[s.DataRowAt(i)..s.RawLen()]
      invariant forall b :: 0 <= b < n ==> blocks[b] == DataBlock(s.BlockLen(b), ReadBack(s, codewords, b, i))
    {
      DataRow(s, codewords, i);
      blocks, queue := PullRow(blocks, 0, queue);
    }
    LongRow(s, codewords);
    if s.numShort < n {
      blocks, queue := PullRow(blocks, s.numShort, queue);
    }
    blocks := PullCheckBytes(blocks, queue, codewords, s);
    result := Some(blocks);
  }

  /** The final loop: the rest of the queue are check bytes. */
  method PullCheckBytes(blocks0: seq<DataBlock>, queue0: seq<byte>, ghost codewords: seq<byte>, ghost s: Shape)
      returns (blocks: seq<DataBlock>)
    requires s.Valid() && |codewords| >= s.RawLen() && |blocks0| == s.numBlocks
    requires s.EccRowAt(0) <= s.RawLen() && queue0 == codewords[s.EccRowAt(0)..s.RawLen()]
    requires forall b :: 0 <= b < s.numBlocks ==>
      blocks0[b] == DataBlock(s.BlockLen(b), ReadBack(s, codewords, b, s.BlockLen(b)))
    ensures |blocks| == s.numBlocks
    ensures forall b :: 0 <= b < s.numBlocks ==>
      blocks[b] == DataBlock(s.BlockLen(b), ReadBack(s, codewords, b, s.BlockLen(b) + s.eccLen))
  {
    hide Shape.Slot, At, Shape.RawLen, Shape.DataLen, Shape.DataRowAt, Shape.EccRowAt;
    var queue := queue0;
    blocks := blocks0;
    ghost var e := 0;
    while |queue| > 0
      invariant 0 <= e <= s.eccLen && |blocks| == s.numBlocks
      invariant s.EccRowAt(e) <= s.RawLen() && queue == codewords[s.EccRowAt(e)..s.RawLen()]
      invariant forall b :: 0 <= b < s.numBlocks ==>
        blocks[b] == DataBlock(s.BlockLen(b), ReadBack(s, codewords, b, s.BlockLen(b) + e))
      decreases |queue|
    {
      EccRow(s, codewords, e);
      blocks, queue := PullRow(blocks, 0, queue);
      e := e + 1;
    }
    EccRow(s, codewords, e);
  }

  lemma DataRow(s: Shape, raw: seq<byte>, i: nat)
    requires s.Valid() && |raw| >= s.RawLen() && i < s.shortLen
    ensures s.DataRowAt(i + 1) == s.DataRowAt(i) + s.numBlocks <= s.RawLen()
    ensures forall b: nat :: b < s.numBlocks ==> At(s, raw, b, i) == raw[s.DataRowAt(i)..s.RawLen()][b]
  {
    MulMonotone(s.numBlocks, i + 1, s.shortLen);
    assert s.DataLen() == s.numBlocks * s.shortLen + s.numBlocks - s.numShort;
  }

  lemma LongRow(s: Shape, raw: seq<byte>)
    requires s.Valid() && |raw| >= s.RawLen()
    ensures s.EccRowAt(0) == s.DataRowAt(s.shortLen) + (s.numBlocks - s.numShort) <= s.RawLen()
    ensures forall b: nat :: s.numShort <= b < s.numBlocks ==>
      At(s, raw, b, s.shortLen) == raw[s.DataRowAt(s.shortLen)..s.RawLen()][b - s.numShort]
  {
    assert s.DataLen() == s.numBlocks * s.shortLen + s.numBlocks - s.numShort;
  }

  lemma EccRow(s: Shape, raw: seq<byte>, e: nat)
    requires s.Valid() && |raw| >= s.RawLen() && e <= s.eccLen
    ensures s.EccRowAt(e) <= s.RawLen()
    ensures s.EccRowAt(e) == s.RawLen() <==> e == s.eccLen
    ensures e < s.eccLen ==> s.EccRowAt(e + 1) == s.EccRowAt(e) + s.numBlocks <= s.RawLen()
    ensures e < s.eccLen ==> forall b: nat :: b < s.numBlocks ==>
      At(s, raw, b, s.BlockLen(b) + e) == raw[s.EccRowAt(e)..s.RawLen()][b]
  {
    MulMonotone(s.numBlocks, e, s.eccLen);
    if e < s.eccLen {
      MulMonotone(s.numBlocks, e + 1, s.eccLen);
    }
  }

  lemma FirstRow(s: Shape)
    requires s.Valid()
    ensures s.DataRowAt(0) == 0
  {}

  // ----- the two are inverse

  /** De-interleaving what the encoder interleaved gives back every block: its data, then its check bytes. */
  lemma Deinterleaves(s: Shape, data: seq<byte>, raw: seq<byte>, b: nat)
    requires s.Valid() && |data| == s.DataLen() && |raw| >= s.RawLen() && b < s.numBlocks
    requires FirstBlocksPlaced(s, data, raw, s.numBlocks)
    ensures ReadBack(s, raw, b, s.BlockLen(b) + s.eccLen) == BlockBytes(s, data, b)
  {
    hide At, Remainder, Divisor;
    assert forall c: nat :: c < s.BlockLen(b) + s.eccLen ==> s.IsByte(b, c);
  }

  /** The data parts of the first m blocks, in order, are the first data bytes. */
  function Joined(s: Shape, blocks: seq<seq<byte>>, m: nat): (r: seq<byte>)
    requires m <= |blocks| && forall b :: 0 <= b < |blocks| ==> |blocks[b]| >= s.BlockLen(b)
  {
    if m == 0 then [] else Joined(s, blocks, m - 1) + blocks[m - 1][..s.BlockLen(m - 1)]
  }

  lemma {:induction false} JoinedIsData(s: Shape, data: seq<byte>, blocks: seq<seq<byte>>, m: nat)
    requires s.Valid() && |data| == s.DataLen() && m <= s.numBlocks == |blocks|
    requires forall b :: 0 <= b < |blocks| ==> |blocks[b]| >= s.BlockLen(b)
    requires forall b :: 0 <= b < s.numBlocks ==> blocks[b] == BlockBytes(s, data, b)
    ensures s.Start(m) <= |data| && Joined(s, blocks, m) == data[..s.Start(m)]
    decreases m
  {
    hide Remainder, Divisor, Shape.Start;
    if m > 0 {
      JoinedIsData(s, data, blocks, m - 1);
      BlockInside(s, m - 1);
    } else {
      StartOfFirst(s);
    }
  }

  lemma StartOfFirst(s: Shape)
    requires s.Valid()
    ensures s.Start(0) == 0
  {}
}
