/**
 The module grid of a symbol. The encoder packs it into bytes behind a size byte, the decoder keeps one entry per
 module; both number the modules row by row.
 */
module Grid {
  import opened Bits

  /** The modules in row-major order, true for dark. */
  type Modules = seq<bool>

  predicate InGrid(size: nat, x: int, y: int) {
    0 <= x < size && 0 <= y < size
  }

  function Index(size: nat, x: int, y: int): (r: nat)
    requires InGrid(size, x, y)
    ensures r < size * size
  {
    IndexBound(size, x, y);
    y * size + x
  }

  lemma IndexBound(size: nat, x: int, y: int)
    requires InGrid(size, x, y)
    ensures 0 <= y * size + x < size * size
  {
    MulMonotone(size, y + 1, size);
    MulMonotone(size, 0, y);
  }

  lemma IndexInjective(size: nat, x: int, y: int, x': int, y': int)
    requires InGrid(size, x, y) && InGrid(size, x', y')
    requires Index(size, x, y) == Index(size, x', y')
    ensures x == x' && y == y'
  {
    if y < y' {
      RowBelow(size, x, y, y');
    } else if y' < y {
      RowBelow(size, x', y', y);
    }
  }

  /** Every position belongs to a column and a row. */
  lemma PositionInGrid(size: nat, p: nat)
    requires p < size * size
    ensures InGrid(size, p % size, p / size) && Index(size, p % size, p / size) == p
  {
    var q := p / size;
    assert p == size * q + p % size;
    if q >= size {
      MulMonotone(size, size, q);
    }
  }

  lemma IndexParts(size: nat, x: int, y: int)
    requires InGrid(size, x, y)
    ensures Index(size, x, y) % size == x && Index(size, x, y) / size == y
  {
    var p := Index(size, x, y);
    PositionInGrid(size, p);
    IndexInjective(size, x, y, p % size, p / size);
  }

  /** A module lies before every later row. */
  lemma RowBelow(size: nat, x: int, y: int, y': int)
    requires InGrid(size, x, y) && y < y'
    ensures y * size + x < y' * size
  {
    MulMonotone(size, y + 1, y');
  }

  /** Room for all modules behind the size byte. */
  predicate Packed(q: seq<byte>, size: nat) {
    size < 256 && |q| >= 1 && q[0] == size && |q| >= 1 + (size * size + 7) / 8
  }

  function PackedBit(q: seq<byte>, k: nat): bool
    requires 1 + k / 8 < |q|
  {
    Bit(q[k / 8 + 1], k % 8)
  }

  function View(q: seq<byte>, size: nat): (g: Modules)
    requires Packed(q, size)
    ensures |g| == size * size
  {
    seq(size * size, k requires 0 <= k < size * size => PackedBit(q, k))
  }

  lemma SameByte(k: nat, k': nat)
    requires k / 8 == k' / 8 && k % 8 == k' % 8
    ensures k == k'
  {}

  /** Writing one digit of the right byte writes one module. */
  lemma ViewUpdate(q: seq<byte>, size: nat, k: nat, on: bool)
    requires Packed(q, size) && k < size * size
    ensures var q' := q[k / 8 + 1 := SetBit(q[k / 8 + 1], k % 8, on)];
            Packed(q', size) && View(q', size) == View(q, size)[k := on]
  {
    hide Bit;
    var b := SetBit(q[k / 8 + 1], k % 8, on);
    var q' := q[k / 8 + 1 := b];
    forall j | 0 <= j < size * size
      ensures PackedBit(q', j) == if j == k then on else PackedBit(q, j)
    {
      if j / 8 == k / 8 && j % 8 == k % 8 {
        SameByte(j, k);
      }
    }
    assert View(q', size) == View(q, size)[k := on];
  }

  method GetModuleBounded(qrcode: array<byte>, x: nat, y: nat) returns (dark: bool)
    requires qrcode.Length >= 1 && Packed(qrcode[..], qrcode[0]) && InGrid(qrcode[0], x, y)
    ensures dark == View(qrcode[..], qrcode[0])[Index(qrcode[0], x, y)]
  {
    var qrsize: nat := qrcode[0];
    var index := Index(qrsize, x, y);
    assert View(qrcode[..], qrsize)[index] == PackedBit(qrcode[..], index);
    dark := Bit(qrcode[index / 8 + 1], index % 8);
  }

  method SetModuleBounded(qrcode: array<byte>, x: nat, y: nat, isDark: bool)
    requires qrcode.Length >= 1 && Packed(qrcode[..], qrcode[0]) && InGrid(qrcode[0], x, y)
    modifies qrcode
    ensures qrcode[0] == old(qrcode[0]) && Packed(qrcode[..], qrcode[0])
    ensures View(qrcode[..], qrcode[0]) == old(View(qrcode[..], qrcode[0]))[Index(qrcode[0], x, y) := isDark]
  {
    var qrsize: nat := qrcode[0];
    var index := Index(qrsize, x, y);
    var bitIndex, byteIndex := index % 8, index / 8 + 1;
    ghost var q := qrcode[..];
    ViewUpdate(q, qrsize, index, isDark);
    qrcode[byteIndex] := SetBit(qrcode[byteIndex], bitIndex, isDark);
    assert qrcode[..] == q[byteIndex := SetBit(q[byteIndex], bitIndex, isDark)];
  }
}
