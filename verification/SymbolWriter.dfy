/** The encoder's drawing of the codewords into the packed grid. */
module SymbolWriter {
  import opened Bits
  import opened Grid
  import opened Zigzag
  import opened Placement

  /** The buffer holds what drawing along `walk` makes of the grid `g`, and `i` bits have been used. */
  ghost predicate DrawState(q: seq<byte>, size: nat, g: Modules, walk: seq<nat>, bits: seq<bool>, i: nat) {
    && Packed(q, size)
    && |g| == size * size && Inside(walk, |g|)
    && Drawn(g, walk, bits) == (View(q, size), i)
  }

  /** Draws `data[..dataLen]` along the zigzag into the modules that are still light. */
  method DrawCodewords(data: array<byte>, dataLen: nat, qrcode: array<byte>)
    requires data != qrcode && dataLen <= data.Length
    requires qrcode.Length >= 1 && qrcode[0] >= 1 && Packed(qrcode[..], qrcode[0])
    requires var size: nat := qrcode[0];
             Drawn(View(qrcode[..], size), EncoderScan(size, size - 1), BytesToBits(data[..dataLen])).1 == 8 * dataLen
    modifies qrcode
    ensures var size: nat := old(qrcode[0]);
            DrawState(qrcode[..], size, old(View(qrcode[..], qrcode[0])), EncoderScan(size, size - 1),
                      BytesToBits(old(data[..dataLen])), 8 * dataLen)
  {
    hide DrawState, View, Packed, Drawn, BytesToBits, EncoderScan, Column, Upward, Inside, Index;
    var qrsize: nat := qrcode[0];
    ghost var g, bits := View(qrcode[..], qrsize), BytesToBits(data[..dataLen]);
    ghost var walk, done := EncoderScan(qrsize, qrsize - 1), [];
    NothingDrawn(qrcode[..], qrsize, bits);
    var i := 0;
    var right := qrsize - 1;
    while right >= 1
      invariant -1 <= right < qrsize
      invariant done + EncoderScan(qrsize, right) == walk
      invariant data[..dataLen] == old(data[..dataLen])
      invariant DrawState(qrcode[..], qrsize, g, done, bits, i)
    {
      EncoderScanStep(qrsize, right);
      if right == 6 {
        right := 5;
      }
      i := DrawColumn(data, dataLen, qrcode, right, i, qrsize, g, done);
      done := done + Column(qrsize, right, Upward(right));
      right := right - 2;
    }
    EncoderScanEnd(qrsize, right);
    assert done == walk;
    SameCount(qrcode[..], qrsize, g, walk, bits, i);
    assert i == 8 * dataLen;
  }

  lemma NothingDrawn(q: seq<byte>, size: nat, bits: seq<bool>)
    requires Packed(q, size)
    ensures DrawState(q, size, View(q, size), [], bits, 0)
  {}

  lemma SizeByte(q: seq<byte>, size: nat, g: Modules, walk: seq<nat>, bits: seq<bool>, i: nat)
    requires DrawState(q, size, g, walk, bits, i)
    ensures |q| >= 1 && q[0] == size && Packed(q, size) && i <= |bits|
  {}

  lemma SameCount(q: seq<byte>, size: nat, g: Modules, walk: seq<nat>, bits: seq<bool>, i: nat)
    requires DrawState(q, size, g, walk, bits, i)
    ensures Inside(walk, |g|) && i == Drawn(g, walk, bits).1
  {}

  lemma EncoderScanStep(size: nat, right: int)
    requires 1 <= right < size
    ensures var r := SkipTiming(right);
            EncoderScan(size, right) == Column(size, r, Upward(r)) + EncoderScan(size, r - 2)
  {}

  lemma EncoderScanEnd(size: nat, right: int)
    requires right < 1 && right < size
    ensures EncoderScan(size, right) == []
  {}

  /** The two inner loops: one column pair. */
  method DrawColumn(data: array<byte>, dataLen: nat, qrcode: array<byte>, right: nat, i0: nat,
                    ghost size: nat, ghost g: Modules, ghost done: seq<nat>)
      returns (i: nat)
    requires data != qrcode && dataLen <= data.Length && 1 <= right < size
    requires DrawState(qrcode[..], size, g, done, BytesToBits(data[..dataLen]), i0)
    modifies qrcode
    ensures DrawState(qrcode[..], size, g, done + Column(size, right, Upward(right)), BytesToBits(data[..dataLen]), i)
  {
    hide DrawState, View, Packed, Drawn, BytesToBits, EncoderScan, Column, Upward, Inside, Index;
    ghost var bits, column := BytesToBits(data[..dataLen]), Column(size, right, Upward(right));
    SizeByte(qrcode[..], size, g, done, bits, i0);
    i := i0;
    var qrsize: nat := qrcode[0];
    assert done + column[..0] == done;
    for vert := 0 to qrsize
      invariant bits == BytesToBits(data[..dataLen])
      invariant DrawState(qrcode[..], size, g, done + column[..2 * vert], bits, i)
    {
      for j := 0 to 2
        invariant bits == BytesToBits(data[..dataLen])
        invariant DrawState(qrcode[..], size, g, done + column[..2 * vert + j], bits, i)
      {
        ColumnWalk(size, right, Upward(right), vert, j);
        var x := right - j;
        var upward := Upward(right);
        var y := if upward then qrsize - 1 - vert else vert;
        i := DrawModule(data, dataLen, qrcode, x, y, i, size, g, done + column[..2 * vert + j]);
        SliceStep(done, column, 2 * vert + j);
      }
    }
    assert column[..2 * size] == column;
  }

  lemma SliceStep(done: seq<nat>, column: seq<nat>, k: nat)
    requires k < |column|
    ensures done + column[..k] + [column[k]] == done + column[..k + 1]
  {}

  /** One module: a light one takes the next bit. */
  method DrawModule(data: array<byte>, dataLen: nat, qrcode: array<byte>, x: nat, y: nat, i0: nat,
                    ghost size: nat, ghost g: Modules, ghost walk: seq<nat>)
      returns (i: nat)
    requires data != qrcode && dataLen <= data.Length && InGrid(size, x, y)
    requires DrawState(qrcode[..], size, g, walk, BytesToBits(data[..dataLen]), i0)
    modifies qrcode
    ensures DrawState(qrcode[..], size, g, walk + [Index(size, x, y)], BytesToBits(data[..dataLen]), i)
  {
    hide View, BytesToBits, Index, Drawn, Inside, Packed;
    ghost var bits, p := BytesToBits(data[..dataLen]), Index(size, x, y);
    SizeByte(qrcode[..], size, g, walk, bits, i0);
    DrawnStep(g, walk, p, bits);
    i := i0;
    var taken := GetModuleBounded(qrcode, x, y);
    if !taken && i < dataLen * 8 {
      BytesToBitsAt(data[..dataLen], i);
      var dark := Bit(data[i / 8], 7 - i % 8);
      SetModuleBounded(qrcode, x, y, dark);
      i := i + 1;
    }
    assert bits == BytesToBits(data[..dataLen]);
  }

  lemma DrawnStep(g: Modules, walk: seq<nat>, p: nat, bits: seq<bool>)
    requires Inside(walk, |g|) && p < |g|
    ensures Inside(walk + [p], |g|)
    ensures var (h, i) := Drawn(g, walk, bits); Drawn(g, walk + [p], bits) == DrawStep(h, i, p, bits)
  {
    assert (walk + [p])[..|walk|] == walk;
  }
}
