/** From segments to data codewords: version choice, the bit string, terminator and padding. */
module DataCodewords {
  import opened Bits
  import opened Options
  import opened Placement
  import opened BitStrings
  import opened Segments
  import opened CodewordTables

  /** Width of the character count field. */
  function NumCharCountBits(mode: nat, version: nat): (r: nat)
    requires 1 <= version <= 40
    ensures 8 <= r <= 16
  {
    var i := (version + 7) / 17;
    match mode
    case 1 => [10, 12, 14][i]
    case 2 => [9, 11, 13][i]
    case 4 => [8, 16, 16][i]
    case _ => [8, 10, 12][i]
  }

  /** Number of bits of the segments from number i on, or -1 on overflow. */
  function TotalBitsFrom(segs: seq<Segment>, version: nat, i: nat, result: nat): int
    requires 1 <= version <= 40 && i <= |segs|
    decreases |segs| - i
  {
    if i == |segs| then result
    else
      var ccbits := NumCharCountBits(segs[i].mode, version);
      if segs[i].numChars >= Pow2(ccbits) then -1
      else
        var sum := result + 4 + ccbits + segs[i].bitLength;
        if sum > 32767 then -1 else TotalBitsFrom(segs, version, i + 1, sum)
  }

  method GetTotalBits(segs: seq<Segment>, version: nat) returns (r: int)
    requires 1 <= version <= 40
    ensures r == TotalBitsFrom(segs, version, 0, 0)
  {
    hide NumCharCountBits, Pow2;
    var result := 0;
    for i := 0 to |segs|
      invariant result >= 0 && TotalBitsFrom(segs, version, i, result) == TotalBitsFrom(segs, version, 0, 0)
    {
      var ccbits := NumCharCountBits(segs[i].mode, version);
      if segs[i].numChars >= Pow2(ccbits) {
        return -1;
      }
      result := result + 4 + ccbits + segs[i].bitLength;
      if result > 32767 {
        return -1;
      }
    }
    r := result;
  }

  // ----- version and error correction level

  /** The segments fit the version at the level. */
  predicate Fits(segs: seq<Segment>, version: nat, ecl: nat)
    requires 1 <= version <= 40 && ecl < 4
  {
    var used := TotalBitsFrom(segs, version, 0, 0);
    used != -1 && used <= GetNumDataCodewords(version, ecl) * 8
  }

  /**
   The smallest version in the range that fits at the requested level, then the highest level that still fits;
   nothing if no version fits.
   */
  method ChooseVersion(segs: seq<Segment>, ecl: nat, minVersion: nat, maxVersion: nat, boostEcl: bool)
      returns (r: Option<(nat, nat)>)
    requires 1 <= minVersion <= maxVersion <= 40 && ecl < 4
    ensures r.None? <==> forall v :: minVersion <= v <= maxVersion ==> !Fits(segs, v, ecl)
    ensures r.Some? ==>
      var (version, level) := r.value;
      && minVersion <= version <= maxVersion && Fits(segs, version, ecl)
      && (forall v :: minVersion <= v < version ==> !Fits(segs, v, ecl))
      && level < 4 && Fits(segs, version, level)
      && (!boostEcl ==> level == ecl)
      && (boostEcl ==> ecl <= level && forall i :: level < i < 4 ==> !Fits(segs, version, i))
  {
    hide TotalBitsFrom, GetNumDataCodewords;
    var version := minVersion;
    var dataUsedBits := 0;
    while true
      invariant minVersion <= version <= maxVersion
      invariant forall v :: minVersion <= v < version ==> !Fits(segs, v, ecl)
      decreases maxVersion - version
    {
      var dataCapacityBits := GetNumDataCodewords(version, ecl) * 8;
      dataUsedBits := GetTotalBits(segs, version);
      if dataUsedBits != -1 && dataUsedBits <= dataCapacityBits {
        break;
      }
      if version >= maxVersion {
        return None;
      }
      version := version + 1;
    }
    var level := ecl;
    for i := 1 to 4
      invariant level < 4 && Fits(segs, version, level)
      invariant !boostEcl ==> level == ecl
      invariant boostEcl ==> forall j :: level < j < i ==> !Fits(segs, version, j)
      invariant boostEcl ==> (level == ecl || level < i) && (ecl < i ==> ecl <= level)
    {
      if boostEcl && dataUsedBits <= GetNumDataCodewords(version, i) * 8 {
        level := i;
      }
    }
    r := Some((version, level));
  }

  // ----- the bit string

  function SegmentBits(c: Chunk, version: nat): seq<bool>
    requires c.Valid() && 1 <= version <= 40
  {
    BitsMsb(c.Mode(), 4) + BitsMsb(|c.text|, NumCharCountBits(c.Mode(), version)) + c.Payload()
  }

  predicate AllValid(chunks: seq<Chunk>) {
    forall i :: 0 <= i < |chunks| ==> chunks[i].Valid()
  }

  ghost predicate AllRepresent(segs: seq<Segment>, chunks: seq<Chunk>) {
    |segs| == |chunks| && forall i :: 0 <= i < |segs| ==> Represents(segs[i], chunks[i])
  }

  function AllBits(chunks: seq<Chunk>, version: nat): seq<bool>
    requires 1 <= version <= 40 && AllValid(chunks)
    decreases |chunks|
  {
    if chunks == [] then []
    else AllBits(chunks[..|chunks| - 1], version) + SegmentBits(chunks[|chunks| - 1], version)
  }

  /** n alternating pad bytes, the first one being `pad`. */
  function PadBits(n: nat, pad: byte): (r: seq<bool>)
    ensures |r| == 8 * n
  {
    if n == 0 then [] else BitsMsb(pad, 8) + PadBits(n - 1, OtherPad(pad))
  }

  function OtherPad(pad: byte): byte {
    if pad == 0xEC then 0x11 else 0xEC
  }

  function Terminator(length: nat, capacity: nat): nat
    requires length <= capacity
  {
    if capacity - length > 4 then 4 else capacity - length
  }

  /** Zeros up to the next whole byte. */
  function Alignment(length: nat): nat {
    (8 - length % 8) % 8
  }

  /** Up to four zeros, zeros up to a whole byte, and pad bytes up to the capacity. */
  function Padded(bits: seq<bool>, capacity: nat): (r: seq<bool>)
    requires |bits| <= capacity && capacity % 8 == 0
    ensures |r| == capacity
  {
    var t := Terminator(|bits|, capacity);
    var a := Alignment(|bits| + t);
    AlignmentFits(|bits| + t, capacity);
    bits + BitsMsb(0, t) + BitsMsb(0, a) + PadBits((capacity - |bits| - t - a) / 8, 0xEC)
  }

  lemma AlignmentFits(length: nat, capacity: nat)
    requires length <= capacity && capacity % 8 == 0
    ensures var end := length + Alignment(length);
            Alignment(length) < 8 && end % 8 == 0 && end <= capacity && (capacity - end) / 8 * 8 == capacity - end
  {
    var q, r := length / 8, length % 8;
    assert length == 8 * q + r;
    if r > 0 {
      assert Alignment(length) == 8 - r;
      assert length + Alignment(length) == 8 * (q + 1);
      assert capacity / 8 > q;
    }
  }

  /** The exclusive or with both pad bytes leads from each to the other. */
  lemma PadValues(pad: byte)
    requires pad == 0xEC || pad == 0x11
    ensures XorByte(pad, XorByte(0xEC, 0x11)) == OtherPad(pad)
    ensures OtherPad(pad) == 0xEC || OtherPad(pad) == 0x11
  {
    hide Xor;
    XorCancels(0x11, 0xEC);
    XorCommutes(0xEC, 0x11);
    XorCancels(0xEC, 0x11);
    XorAssociates(0xEC, 0xEC, 0x11);
  }

  /** Writes indicator, count and payload of one segment. */
  method WriteSegment(s: Segment, version: nat, qrcode: array<byte>, bitLen0: nat, ghost c: Chunk,
                      ghost bits: seq<bool>)
      returns (bitLen: nat)
    requires 1 <= version <= 40 && Represents(s, c) && |c.text| < Pow2(NumCharCountBits(c.Mode(), version))
    requires bitLen0 == |bits| && |bits| + |SegmentBits(c, version)| <= 8 * qrcode.Length
    requires Filled(qrcode[..], bits)
    modifies qrcode
    ensures bitLen == |bits| + |SegmentBits(c, version)|
    ensures Filled(qrcode[..], bits + SegmentBits(c, version))
  {
    hide BytesToBits, BitsMsb, Filled, NumCharCountBits, Pow2, Chunk.Payload, Chunk.Valid;
    ghost var head := BitsMsb(c.Mode(), 4);
    ghost var count := BitsMsb(|c.text|, NumCharCountBits(c.Mode(), version));
    ModeFits(c);
    bitLen := Append(s.mode, 4, qrcode, bitLen0, bits);
    bitLen := Append(s.numChars, NumCharCountBits(s.mode, version), qrcode, bitLen, bits + head);
    ghost var start := bits + head + count;
    ghost var payload := c.Payload();
    assert start + payload[..0] == start;
    for j := 0 to s.bitLength
      invariant bitLen == |start| + j
      invariant Filled(qrcode[..], start + payload[..j])
    {
      PayloadBit(s, payload, j);
      var bit := Shr(s.data[j / 8], 7 - j % 8) % 2;
      bitLen := Append(bit, 1, qrcode, bitLen, start + payload[..j]);
      assert start + payload[..j] + [payload[j]] == start + payload[..j + 1];
    }
    assert start + payload[..s.bitLength] == bits + (head + count + payload);
  }

  lemma ModeFits(c: Chunk)
    ensures c.Mode() < Pow2(4)
  {
    SmallPowers();
  }

  lemma PayloadBit(s: Segment, payload: seq<bool>, j: nat)
    requires j < |payload| == s.bitLength <= 8 * |s.data|
    requires BytesToBits(s.data)[..s.bitLength] == payload
    ensures var bit := Shr(s.data[j / 8], 7 - j % 8) % 2;
            bit < Pow2(1) && BitsMsb(bit, 1) == [payload[j]]
  {
    hide BytesToBits, Shr;
    BytesToBitsAt(s.data, j);
    ShrBit(s.data[j / 8], 7 - j % 8);
    var bit := Shr(s.data[j / 8], 7 - j % 8) % 2;
    assert BitsMsb(bit, 1) == BitsMsb(0, 0) + [bit == 1];
  }

  /** The bits of the first i segments. */
  function FirstBits(chunks: seq<Chunk>, version: nat, i: nat): seq<bool>
    requires 1 <= version <= 40 && AllValid(chunks) && i <= |chunks|
  {
    AllBits(chunks[..i], version)
  }

  lemma FirstBitsNext(chunks: seq<Chunk>, version: nat, i: nat)
    requires 1 <= version <= 40 && i < |chunks| && AllValid(chunks)
    ensures chunks[i].Valid()
    ensures FirstBits(chunks, version, i + 1) == FirstBits(chunks, version, i) + SegmentBits(chunks[i], version)
    ensures |SegmentBits(chunks[i], version)| ==
      4 + NumCharCountBits(chunks[i].Mode(), version) + |chunks[i].Payload()|
  {
    assert chunks[..i + 1][..i] == chunks[..i];
  }

  lemma FirstBitsEnds(chunks: seq<Chunk>, version: nat)
    requires 1 <= version <= 40 && AllValid(chunks)
    ensures FirstBits(chunks, version, 0) == []
    ensures FirstBits(chunks, version, |chunks|) == AllBits(chunks, version)
  {
    assert chunks[..|chunks|] == chunks;
  }

  lemma RepresentValid(segs: seq<Segment>, chunks: seq<Chunk>)
    requires AllRepresent(segs, chunks)
    ensures |segs| == |chunks| && AllValid(chunks)
  {}

  lemma RepresentsOne(segs: seq<Segment>, chunks: seq<Chunk>, i: nat)
    requires AllRepresent(segs, chunks) && i < |segs|
    ensures i < |chunks| && chunks[i].Valid() && Represents(segs[i], chunks[i])
    ensures segs[i].mode == chunks[i].Mode() && segs[i].numChars == |chunks[i].text|
    ensures segs[i].bitLength == |chunks[i].Payload()|
  {}

  /** The number of bits is what the encoder counted, and every count fits its field. */
  lemma {:induction false} TotalBitsExact(segs: seq<Segment>, chunks: seq<Chunk>, version: nat, i: nat)
    requires 1 <= version <= 40 && AllRepresent(segs, chunks) && AllValid(chunks) && i <= |segs| == |chunks|
    requires TotalBitsFrom(segs, version, i, |FirstBits(chunks, version, i)|) != -1
    ensures TotalBitsFrom(segs, version, i, |FirstBits(chunks, version, i)|) == |AllBits(chunks, version)|
    ensures |FirstBits(chunks, version, i)| <= |AllBits(chunks, version)|
    decreases |segs| - i
  {
    hide NumCharCountBits, Pow2, AllRepresent, AllValid, FirstBits, SegmentBits, AllBits, Represents, Chunk.Payload;
    FirstBitsEnds(chunks, version);
    if i < |segs| {
      RepresentsOne(segs, chunks, i);
      FirstBitsNext(chunks, version, i);
      TotalBitsExact(segs, chunks, version, i + 1);
    }
  }

  lemma {:induction false} CountFits(segs: seq<Segment>, version: nat, i: nat, result: nat, k: nat)
    requires 1 <= version <= 40 && i <= k < |segs| && TotalBitsFrom(segs, version, i, result) != -1
    ensures segs[k].numChars < Pow2(NumCharCountBits(segs[k].mode, version))
    ensures var next := result + 4 + NumCharCountBits(segs[i].mode, version) + segs[i].bitLength;
            k == i ==> TotalBitsFrom(segs, version, i + 1, next) == TotalBitsFrom(segs, version, i, result)
    decreases k - i
  {
    hide NumCharCountBits, Pow2;
    if i < k {
      CountFits(segs, version, i + 1, result + 4 + NumCharCountBits(segs[i].mode, version) + segs[i].bitLength, k);
    }
  }

  /** Concatenates the segments, adds the terminator, aligns and pads up to the capacity. */
  method WriteDataCodewords(segs: seq<Segment>, version: nat, dataCapacityBits: nat, qrcode: array<byte>,
                            ghost chunks: seq<Chunk>)
    requires 1 <= version <= 40 && AllRepresent(segs, chunks)
    requires 0 <= TotalBitsFrom(segs, version, 0, 0) <= dataCapacityBits <= 8 * qrcode.Length
      && dataCapacityBits % 8 == 0
    modifies qrcode
    ensures AllValid(chunks) && |AllBits(chunks, version)| == TotalBitsFrom(segs, version, 0, 0)
    ensures Filled(qrcode[..], Padded(AllBits(chunks, version), dataCapacityBits))
  {
    hide BytesToBits, Filled, AllBits, FirstBits, SegmentBits, TotalBitsFrom, Padded, Represents, AllValid;
    hide AllRepresent;
    hide NumCharCountBits, Pow2, Chunk.Valid, Chunk.Mode, Chunk.Payload;
    forall k | 0 <= k < qrcode.Length {
      qrcode[k] := 0;
    }
    ZerosFilled(qrcode[..]);
    RepresentValid(segs, chunks);
    FirstBitsEnds(chunks, version);
    TotalBitsExact(segs, chunks, version, 0);
    var bitLen := 0;
    for i := 0 to |segs|
      invariant bitLen == |FirstBits(chunks, version, i)|
      invariant TotalBitsFrom(segs, version, i, bitLen) == TotalBitsFrom(segs, version, 0, 0)
      invariant Filled(qrcode[..], FirstBits(chunks, version, i))
    {
      RepresentsOne(segs, chunks, i);
      FirstBitsNext(chunks, version, i);
      CountFits(segs, version, i, bitLen, i);
      TotalBitsExact(segs, chunks, version, i + 1);
      bitLen := WriteSegment(segs[i], version, qrcode, bitLen, chunks[i], FirstBits(chunks, version, i));
    }
    WritePadding(dataCapacityBits, qrcode, bitLen, AllBits(chunks, version));
  }

  method WritePadding(dataCapacityBits: nat, qrcode: array<byte>, bitLen0: nat, ghost bits: seq<bool>)
    requires bitLen0 == |bits| <= dataCapacityBits <= 8 * qrcode.Length && dataCapacityBits % 8 == 0
    requires Filled(qrcode[..], bits)
    modifies qrcode
    ensures Filled(qrcode[..], Padded(bits, dataCapacityBits))
  {
    hide BytesToBits, BitsMsb, Filled, PadBits, Pow2, XorByte;
    var terminatorBits := dataCapacityBits - bitLen0;
    if terminatorBits > 4 {
      terminatorBits := 4;
    }
    AlignmentFits(|bits| + terminatorBits, dataCapacityBits);
    var bitLen := Append(0, terminatorBits, qrcode, bitLen0, bits);
    ghost var terminated := bits + BitsMsb(0, terminatorBits);
    var alignment := (8 - bitLen % 8) % 8;
    bitLen := Append(0, alignment, qrcode, bitLen, terminated);
    ghost var aligned := terminated + BitsMsb(0, alignment);
    WritePadBytes(dataCapacityBits, qrcode, bitLen, 0xEC, aligned, (dataCapacityBits - bitLen) / 8);
  }

  /** Alternating pad bytes up to the capacity. */
  method WritePadBytes(dataCapacityBits: nat, qrcode: array<byte>, bitLen0: nat, first: byte,
                       ghost aligned: seq<bool>, ghost pads: nat)
    requires bitLen0 == |aligned| && bitLen0 + 8 * pads == dataCapacityBits <= 8 * qrcode.Length
    requires (first == 0xEC || first == 0x11) && Filled(qrcode[..], aligned)
    modifies qrcode
    ensures Filled(qrcode[..], aligned + PadBits(pads, first))
  {
    hide *;
    var bitLen, padByte := bitLen0, first;
    ghost var done, n := aligned, pads;
    Pow2Of8();
    while bitLen < dataCapacityBits
      invariant bitLen == |done| <= dataCapacityBits && dataCapacityBits - bitLen == 8 * n
      invariant padByte == 0xEC || padByte == 0x11
      invariant Filled(qrcode[..], done)
      invariant done + PadBits(n, padByte) == aligned + PadBits(pads, first)
      decreases n
    {
      PadStep(done, n, padByte);
      bitLen := Append(padByte, 8, qrcode, bitLen, done);
      done := done + BitsMsb(padByte, 8);
      PadValues(padByte);
      padByte := XorByte(padByte, XorByte(0xEC, 0x11));
      n := n - 1;
    }
    PadEnd(done, padByte);
  }

  lemma PadStep(done: seq<bool>, n: nat, pad: byte)
    requires n >= 1
    ensures done + PadBits(n, pad) == done + BitsMsb(pad, 8) + PadBits(n - 1, OtherPad(pad))
  {
    hide OtherPad, BitsMsb;
  }

  lemma PadEnd(done: seq<bool>, pad: byte)
    ensures done + PadBits(0, pad) == done
  {}
}
