/**
 From data codewords to a masked symbol and back: the encoder's and the decoder's stages put together, including
 damage that the error correction can repair.
 */
module Symbol {
  import opened Bits
  import opened Options
  import opened Grid
  import opened Zigzag
  import opened Placement
  import opened Masks
  import opened Blocks
  import opened Interleaver
  import opened RsEncoder
  import opened Decoding
  import opened Repair
  import opened JsReedSolomon

  // ----- decoder: from codewords to data

  /** The corrected data of the first m blocks, or nothing if some block is beyond repair. */
  ghost function Collect(s: Shape, codewords: seq<byte>, m: nat): Option<seq<byte>>
    requires s.Valid() && |codewords| >= s.RawLen() && m <= s.numBlocks
  {
    if m == 0 then Some([])
    else
      match Collect(s, codewords, m - 1)
      case None => None
      case Some(rest) =>
        match Decode(ReadBack(s, codewords, m - 1, s.BlockLen(m - 1) + s.eccLen), s.eccLen)
        case None => None
        case Some(corrected) => Some(rest + corrected[..s.BlockLen(m - 1)])
  }

  ghost function DecodeCodewords(s: Shape, codewords: seq<byte>): Option<seq<byte>>
    requires s.Valid()
  {
    if |codewords| < s.RawLen() then None else Collect(s, codewords, s.numBlocks)
  }

  /** De-interleaves, corrects every block and joins the data parts. */
  method DecodeBlocks(codewords: seq<byte>, s: Shape) returns (result: Option<seq<byte>>)
    requires s.Valid() && s.eccLen <= 256
    ensures result == DecodeCodewords(s, codewords)
  {
    hide Decode, ReadBack, Shape.RawLen;
    var dataBlocks := GetDataBlocks(codewords, s);
    if dataBlocks.None? {
      return None;
    }
    var resultBytes := [];
    for b := 0 to s.numBlocks
      invariant Collect(s, codewords, b) == Some(resultBytes)
    {
      var dataBlock := dataBlocks.value[b];
      var correctedBytes := DecodeBlock(dataBlock.codewords, |dataBlock.codewords| - dataBlock.numDataCodewords);
      if correctedBytes.None? {
        CollectStaysNone(s, codewords, b + 1, s.numBlocks);
        return None;
      }
      resultBytes := resultBytes + correctedBytes.value[..dataBlock.numDataCodewords];
    }
    result := Some(resultBytes);
  }

  lemma {:induction false} CollectStaysNone(s: Shape, codewords: seq<byte>, m: nat, n: nat)
    requires s.Valid() && |codewords| >= s.RawLen() && m <= n <= s.numBlocks
    requires Collect(s, codewords, m) == None
    ensures Collect(s, codewords, n) == None
    decreases n
  {
    hide Collect;
    if m < n {
      CollectStaysNone(s, codewords, m, n - 1);
      CollectStopped(s, codewords, n);
    }
  }

  lemma CollectStopped(s: Shape, codewords: seq<byte>, n: nat)
    requires s.Valid() && |codewords| >= s.RawLen() && 1 <= n <= s.numBlocks
    requires Collect(s, codewords, n - 1) == None
    ensures Collect(s, codewords, n) == None
  {
    hide Decode, ReadBack, Shape.BlockLen;
  }

  // ----- the symbol

  /** The encoder's symbol: codewords drawn over the function modules, then masked. */
  function MaskedSymbol(size: nat, func: Modules, raw: seq<byte>, mask: nat): (g: Modules)
    requires size >= 1 && |func| == size * size && mask < 8
    ensures |g| == |func|
  {
    Masked(size, Drawn(func, EncoderScan(size, size - 1), BytesToBits(raw)).0, func, mask)
  }

  /** Agreement on everything but function modules. */
  predicate SameFree(func: Modules, g: Modules, h: Modules)
    requires |g| == |h| == |func|
  {
    forall p :: 0 <= p < |func| && !func[p] ==> g[p] == h[p]
  }

  lemma {:induction false} ReadBitsSame(g: Modules, h: Modules, func: Modules, walk: seq<nat>)
    requires |g| == |h| == |func| && Inside(walk, |func|) && SameFree(func, g, h)
    ensures ReadBits(g, func, walk) == ReadBits(h, func, walk)
    decreases |walk|
  {
    if walk != [] {
      ReadBitsSame(g, h, func, walk[..|walk| - 1]);
    }
  }

  lemma MaskedSame(size: nat, g: Modules, h: Modules, func: Modules, mask: nat)
    requires |g| == |h| == |func| == size * size && mask < 8 && SameFree(func, g, h)
    ensures SameFree(func, Masked(size, g, func, mask), Masked(size, h, func, mask))
  {
    hide EncoderInverts;
  }

  /**
   Reading undoes drawing and masking: whatever is drawn over the function modules afterwards, the decoder's bits
   begin with the bits of the codewords.
   */
  lemma ReadsBack(size: nat, func: Modules, raw: seq<byte>, mask: nat, seen: Modules)
    requires size % 4 == 1 && size >= 7 && |func| == |seen| == size * size && mask < 8
    requires 8 * |raw| <= |FreeModules(func, Scan(size, size - 1, true))|
    requires SameFree(func, seen, MaskedSymbol(size, func, raw, mask))
    ensures var bits := ReadBits(Masked(size, seen, func, mask), func, Scan(size, size - 1, true));
            |bits| >= 8 * |raw| && bits[..8 * |raw|] == BytesToBits(raw)
  {
    hide Scan, EncoderScan, Masked, Drawn, ReadBits, FreeModules, BytesToBits, Index, Distinct, SameFree;
    var walk, bits := Scan(size, size - 1, true), BytesToBits(raw);
    ScansAgree(size);
    var g := Drawn(func, walk, bits).0;
    MaskedTwice(size, g, func, mask);
    MaskedSame(size, seen, Masked(size, g, func, mask), func, mask);
    ReadBitsSame(Masked(size, seen, func, mask), g, func, walk);
    DrawnBits(size, func, bits);
  }

  lemma DrawnBits(size: nat, func: Modules, bits: seq<bool>)
    requires size % 2 == 1 && size >= 7 && |func| == size * size
    requires |bits| <= |FreeModules(func, Scan(size, size - 1, true))|
    ensures var walk := Scan(size, size - 1, true);
            var read := ReadBits(Drawn(func, walk, bits).0, func, walk);
            |read| >= |bits| && read[..|bits|] == bits
  {
    hide Scan, Drawn, ReadBits, FreeModules, Index, Distinct;
    ScanVisitsOnce(size, 0, 0);
    DrawnReadsBack(func, Scan(size, size - 1, true), bits);
    assert bits[..|bits|] == bits;
  }

  /** The codewords the decoder reads from an undamaged symbol begin with the codewords drawn. */
  lemma CodewordsReadBack(size: nat, func: Modules, raw: seq<byte>, mask: nat, seen: Modules, codewords: seq<byte>)
    requires size % 4 == 1 && size >= 7 && |func| == |seen| == size * size && mask < 8
    requires 8 * |raw| <= |FreeModules(func, Scan(size, size - 1, true))|
    requires SameFree(func, seen, MaskedSymbol(size, func, raw, mask))
    requires var bits := ReadBits(Masked(size, seen, func, mask), func, Scan(size, size - 1, true));
             |codewords| == |bits| / 8 && BytesToBits(codewords) == bits[..8 * |codewords|]
    ensures |codewords| >= |raw| && codewords[..|raw|] == raw
  {
    hide Scan, EncoderScan, Masked, Drawn, ReadBits, FreeModules, BytesToBits, Index, SameFree, MaskedSymbol;
    ReadsBack(size, func, raw, mask, seen);
    BytesToBitsPrefix(codewords, |raw|);
    BytesToBitsInjective(codewords[..|raw|], raw);
  }

  // ----- the whole way

  /** At most half as many bytes of each block differ as it has check bytes. */
  ghost predicate Repairable(s: Shape, data: seq<byte>, codewords: seq<byte>)
    requires s.Valid() && |data| == s.DataLen() && |codewords| >= s.RawLen()
  {
    forall b :: 0 <= b < s.numBlocks ==>
      2 * |Differences(BlockBytes(s, data, b), ReadBack(s, codewords, b, s.BlockLen(b) + s.eccLen))| <= s.eccLen
  }

  lemma {:induction false} CollectIsData(s: Shape, data: seq<byte>, codewords: seq<byte>, m: nat)
    requires s.Valid() && |data| == s.DataLen() && |codewords| >= s.RawLen() && m <= s.numBlocks
    requires s.shortLen + 1 + s.eccLen <= 255
    requires Repairable(s, data, codewords)
    ensures s.Start(m) <= |data| && Collect(s, codewords, m) == Some(data[..s.Start(m)])
    decreases m
  {
    hide Decode, ReadBack, Shape.RawLen, Shape.Start, Shape.DataLen, BlockBytes, Differences;
    if m == 0 {
      StartOfFirst(s);
    } else {
      CollectIsData(s, data, codewords, m - 1);
      BlockRepaired(s, data, codewords, m - 1);
      BlockInside(s, m - 1);
      BlockDataPart(s, data, m - 1);
      assert s.Start(m) <= s.DataLen();
      assert data[..s.Start(m)] == data[..s.Start(m - 1)] + data[s.Start(m - 1)..s.Start(m)];
    }
  }

  lemma BlockDataPart(s: Shape, data: seq<byte>, b: nat)
    requires s.Valid() && |data| == s.DataLen() && b < s.numBlocks
    ensures s.Start(b) + s.BlockLen(b) == s.Start(b + 1) <= |data|
    ensures BlockBytes(s, data, b)[..s.BlockLen(b)] == data[s.Start(b)..s.Start(b + 1)]
  {
    hide Remainder, Divisor;
    BlockInside(s, b);
  }

  lemma BlockRepaired(s: Shape, data: seq<byte>, codewords: seq<byte>, b: nat)
    requires s.Valid() && |data| == s.DataLen() && |codewords| >= s.RawLen() && b < s.numBlocks
    requires s.shortLen + 1 + s.eccLen <= 255 && Repairable(s, data, codewords)
    ensures Decode(ReadBack(s, codewords, b, s.BlockLen(b) + s.eccLen), s.eccLen) == Some(BlockBytes(s, data, b))
  {
    hide Decode, ReadBack, Remainder, Divisor, Shape.Start, Shape.RawLen, Shape.DataLen, Differences, IsCodeword;
    BlockInside(s, b);
    EncodedIsCodeword(data[s.Start(b)..s.Start(b) + s.BlockLen(b)], s.eccLen);
    DecodeRepairs(BlockBytes(s, data, b), ReadBack(s, codewords, b, s.BlockLen(b) + s.eccLen), s.eccLen);
  }

  /**
   Whatever happened to the codewords, as long as every block stays repairable the decoder returns exactly the
   data codewords, in order.
   */
  lemma DamagedCodewordsDecode(s: Shape, data: seq<byte>, codewords: seq<byte>)
    requires s.Valid() && |data| == s.DataLen() && |codewords| >= s.RawLen()
    requires s.shortLen + 1 + s.eccLen <= 255
    requires Repairable(s, data, codewords)
    ensures DecodeCodewords(s, codewords) == Some(data)
  {
    hide Collect, Shape.RawLen;
    CollectIsData(s, data, codewords, s.numBlocks);
    assert data[..|data|] == data;
  }

  lemma UndamagedIsRepairable(s: Shape, data: seq<byte>, codewords: seq<byte>)
    requires s.Valid() && |data| == s.DataLen() && |codewords| >= s.RawLen()
    requires FirstBlocksPlaced(s, data, codewords, s.numBlocks)
    ensures Repairable(s, data, codewords)
  {
    hide BlockBytes, ReadBack, FirstBlocksPlaced;
    forall b | 0 <= b < s.numBlocks
      ensures 2 * |Differences(BlockBytes(s, data, b), ReadBack(s, codewords, b, s.BlockLen(b) + s.eccLen))| <= s.eccLen
    {
      Deinterleaves(s, data, codewords, b);
      assert Differences(BlockBytes(s, data, b), BlockBytes(s, data, b)) == {};
    }
  }

  lemma PlacedPrefix(s: Shape, data: seq<byte>, raw: seq<byte>, codewords: seq<byte>)
    requires s.Valid() && |data| == s.DataLen() && |codewords| >= s.RawLen() && raw == codewords[..s.RawLen()]
    ensures FirstBlocksPlaced(s, data, raw, s.numBlocks) <==> FirstBlocksPlaced(s, data, codewords, s.numBlocks)
  {
    hide BlockBytes, Shape.Slot, Shape.RawLen, Shape.DataLen;
    forall b: nat, c: nat | s.IsByte(b, c)
      ensures At(s, raw, b, c) == At(s, codewords, b, c)
    {
      SlotRange(s, b, c);
    }
  }

  /**
   The whole codec on codewords. For every data sequence, block shape, function mask and mask number: interleaving,
   drawing and masking are undone by unmasking, reading, de-interleaving and correcting, whatever is drawn over the
   function modules in between.
   */
  lemma CodecReadsBack(size: nat, func: Modules, s: Shape, data: seq<byte>, raw: seq<byte>, mask: nat, seen: Modules,
                       codewords: seq<byte>)
    requires s.Valid() && |data| == s.DataLen() && |raw| == s.RawLen() && s.shortLen + 1 + s.eccLen <= 255
    requires FirstBlocksPlaced(s, data, raw, s.numBlocks)
    requires size % 4 == 1 && size >= 7 && |func| == |seen| == size * size && mask < 8
    requires 8 * |raw| <= |FreeModules(func, Scan(size, size - 1, true))|
    requires SameFree(func, seen, MaskedSymbol(size, func, raw, mask))
    requires var bits := ReadBits(Masked(size, seen, func, mask), func, Scan(size, size - 1, true));
             |codewords| == |bits| / 8 && BytesToBits(codewords) == bits[..8 * |codewords|]
    ensures |codewords| >= s.RawLen() && DecodeCodewords(s, codewords) == Some(data)
  {
    hide *;
    CodewordsReadBack(size, func, raw, mask, seen, codewords);
    PlacedPrefix(s, data, raw, codewords);
    UndamagedIsRepairable(s, data, codewords);
    DamagedCodewordsDecode(s, data, codewords);
  }
}
