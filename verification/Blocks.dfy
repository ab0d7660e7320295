/**
 How the codewords of a symbol are split into blocks and interleaved. The first `numShort` blocks hold `shortLen`
 data bytes each, the others one more; every block has `eccLen` check bytes.
 */
module Blocks {
  import opened Bits

  datatype Shape = Shape(numBlocks: nat, numShort: nat, shortLen: nat, eccLen: nat) {

    predicate Valid() {
      1 <= numShort <= numBlocks && eccLen >= 1
    }

    function BlockLen(b: nat): nat {
      shortLen + if b < numShort then 0 else 1
    }

    /** Where the data of block b starts in the data sequence. */
    function Start(b: nat): nat {
      b * shortLen + if b < numShort then 0 else b - numShort
    }

    function DataLen(): nat {
      Start(numBlocks)
    }

    function RawLen(): nat {
      DataLen() + numBlocks * eccLen
    }

    /** Place of byte j of block b in the interleaved sequence; the data bytes come first. */
    function Slot(b: nat, j: nat): int {
      if j < shortLen then j * numBlocks + b
      else if j < BlockLen(b) then shortLen * numBlocks + b - numShort
      else DataLen() + (j - BlockLen(b)) * numBlocks + b
    }

    /** Start of row i of the data part of the interleaved sequence. */
    function DataRowAt(i: nat): nat {
      i * numBlocks
    }

    /** Start of row e of its check part. */
    function EccRowAt(e: nat): nat {
      DataLen() + e * numBlocks
    }

    predicate IsByte(b: nat, j: nat) {
      b < numBlocks && j < BlockLen(b) + eccLen
    }
  }

  /** The shape the encoder derives from the number of raw codewords. */
  function ShapeOf(numBlocks: nat, eccLen: nat, rawCodewords: nat): Shape
    requires numBlocks >= 1 && rawCodewords / numBlocks >= eccLen
  {
    Shape(numBlocks, numBlocks - rawCodewords % numBlocks, rawCodewords / numBlocks - eccLen, eccLen)
  }

  lemma ShapeOfExact(numBlocks: nat, eccLen: nat, rawCodewords: nat)
    requires numBlocks >= 1 && eccLen >= 1 && rawCodewords / numBlocks >= eccLen
    ensures var s := ShapeOf(numBlocks, eccLen, rawCodewords);
            s.Valid() && s.RawLen() == rawCodewords && s.DataLen() == rawCodewords - numBlocks * eccLen
  {
    var q, r := rawCodewords / numBlocks, rawCodewords % numBlocks;
    assert rawCodewords == numBlocks * q + r;
    assert numBlocks * (q - eccLen) == numBlocks * q - numBlocks * eccLen;
  }

  // ----- the slots are a numbering of all bytes

  lemma RowBound(j: nat, rows: nat, n: nat, b: nat)
    requires j < rows && b < n
    ensures j * n + b < rows * n && j * n >= 0
  {
    assert (j + 1) * n <= rows * n;
    assert (j + 1) * n == j * n + n;
  }

  lemma RowsApart(j: nat, j': nat, n: nat, b: nat, b': nat)
    requires b < n && b' < n && j * n + b == j' * n + b'
    ensures j == j' && b == b'
  {
    if j < j' {
      RowBound(j, j', n, b);
    } else if j' < j {
      RowBound(j', j, n, b');
    }
  }

  lemma SlotRange(s: Shape, b: nat, j: nat)
    requires s.Valid() && s.IsByte(b, j)
    ensures 0 <= s.Slot(b, j) < s.RawLen()
    ensures s.Slot(b, j) < s.DataLen() <==> j < s.BlockLen(b)
    ensures s.Slot(b, j) < s.shortLen * s.numBlocks <==> j < s.shortLen
  {
    hide Shape.DataLen, Shape.RawLen, Shape.Slot;
    Lengths(s);
    if j < s.shortLen {
      ShortSlot(s, b, j);
    } else if j < s.BlockLen(b) {
      LongSlot(s, b, j);
    } else {
      CheckSlot(s, b, j);
    }
  }

  lemma ShortSlot(s: Shape, b: nat, j: nat)
    requires s.Valid() && s.IsByte(b, j) && j < s.shortLen
    ensures 0 <= s.Slot(b, j) < s.shortLen * s.numBlocks
  {
    RowBound(j, s.shortLen, s.numBlocks, b);
  }

  lemma LongSlot(s: Shape, b: nat, j: nat)
    requires s.Valid() && s.IsByte(b, j) && s.shortLen <= j < s.BlockLen(b)
    ensures s.numShort <= b && s.Slot(b, j) == s.shortLen * s.numBlocks + b - s.numShort
  {}

  lemma CheckSlot(s: Shape, b: nat, j: nat)
    requires s.Valid() && s.IsByte(b, j) && s.BlockLen(b) <= j
    ensures s.DataLen() <= s.Slot(b, j) < s.DataLen() + s.eccLen * s.numBlocks
  {
    hide Shape.DataLen;
    RowBound(j - s.BlockLen(b), s.eccLen, s.numBlocks, b);
  }

  lemma Lengths(s: Shape)
    requires s.Valid()
    ensures s.DataLen() == s.shortLen * s.numBlocks + s.numBlocks - s.numShort
    ensures s.RawLen() == s.DataLen() + s.eccLen * s.numBlocks
  {
    assert s.numBlocks * s.shortLen == s.shortLen * s.numBlocks;
    assert s.numBlocks * s.eccLen == s.eccLen * s.numBlocks;
  }

  /** No two bytes share a slot. */
  lemma SlotInjective(s: Shape, b: nat, j: nat, b': nat, j': nat)
    requires s.Valid() && s.IsByte(b, j) && s.IsByte(b', j')
    requires s.Slot(b, j) == s.Slot(b', j')
    ensures b == b' && j == j'
  {
    SlotRange(s, b, j);
    SlotRange(s, b', j');
    if j < s.shortLen {
      RowsApart(j, j', s.numBlocks, b, b');
    } else if j >= s.BlockLen(b) {
      RowsApart(j - s.BlockLen(b), j' - s.BlockLen(b'), s.numBlocks, b, b');
    }
  }

  lemma RowsInOrder(j: nat, j': nat, n: nat, b: nat, b': nat)
    requires b < n && b' < n
    ensures j * n + b < j' * n + b' <==> j < j' || (j == j' && b < b')
  {
    if j < j' {
      RowBound(j, j', n, b);
    } else if j' < j {
      RowBound(j', j, n, b');
    }
  }

  /**
   Data comes before check bytes, both row by row and a row from the first block to the last; the long blocks, which are
   the last ones, have a data row more.
   */
  lemma SlotOrder(s: Shape, b: nat, j: nat, b': nat, j': nat)
    requires s.Valid() && s.IsByte(b, j) && s.IsByte(b', j')
    ensures var n := s.shortLen + (if b < s.numShort then 0 else 1);
            var n' := s.shortLen + (if b' < s.numShort then 0 else 1);
            s.Slot(b, j) < s.Slot(b', j') <==>
              if j < n && j' < n' then j < j' || (j == j' && b < b')
              else if j >= n && j' >= n' then j - n < j' - n' || (j - n == j' - n' && b < b')
              else j < n
  {
    hide Shape.DataLen, Shape.RawLen, Shape.Slot;
    SlotRange(s, b, j);
    SlotRange(s, b', j');
    if j < s.BlockLen(b) && j' < s.BlockLen(b') {
      DataInOrder(s, b, j, b', j');
    } else if j >= s.BlockLen(b) && j' >= s.BlockLen(b') {
      ChecksInOrder(s, b, j, b', j');
    }
  }

  lemma DataInOrder(s: Shape, b: nat, j: nat, b': nat, j': nat)
    requires s.Valid() && s.IsByte(b, j) && s.IsByte(b', j') && j < s.BlockLen(b) && j' < s.BlockLen(b')
    ensures s.Slot(b, j) < s.Slot(b', j') <==> j < j' || (j == j' && b < b')
  {
    hide Shape.DataLen, Shape.RawLen, Shape.Slot;
    SlotRange(s, b, j);
    SlotRange(s, b', j');
    if j < s.shortLen && j' < s.shortLen {
      SlotIsRow(s, b, j);
      SlotIsRow(s, b', j');
      RowsInOrder(j, j', s.numBlocks, b, b');
    } else if j >= s.shortLen && j' >= s.shortLen {
      LongSlot(s, b, j);
      LongSlot(s, b', j');
    }
  }

  lemma SlotIsRow(s: Shape, b: nat, j: nat)
    ensures j < s.shortLen ==> s.Slot(b, j) == j * s.numBlocks + b
    ensures j >= s.BlockLen(b) ==> s.Slot(b, j) == s.DataLen() + (j - s.BlockLen(b)) * s.numBlocks + b
  {}

  lemma ChecksInOrder(s: Shape, b: nat, j: nat, b': nat, j': nat)
    requires s.Valid() && s.IsByte(b, j) && s.IsByte(b', j') && j >= s.BlockLen(b) && j' >= s.BlockLen(b')
    ensures var e, e' := j - s.BlockLen(b), j' - s.BlockLen(b');
            s.Slot(b, j) < s.Slot(b', j') <==> e < e' || (e == e' && b < b')
  {
    hide Shape.DataLen, Shape.RawLen, Shape.Slot;
    SlotIsRow(s, b, j);
    SlotIsRow(s, b', j');
    RowsInOrder(j - s.BlockLen(b), j' - s.BlockLen(b'), s.numBlocks, b, b');
  }

  /** Every slot belongs to a byte. */
  lemma SlotSurjective(s: Shape, k: nat) returns (b: nat, j: nat)
    requires s.Valid() && k < s.RawLen()
    ensures s.IsByte(b, j) && s.Slot(b, j) == k
  {
    var n := s.numBlocks;
    assert s.DataLen() == n * s.shortLen + n - s.numShort;
    if k < s.shortLen * n {
      b, j := RowAndColumn(k, n, s.shortLen);
    } else if k < s.DataLen() {
      b, j := s.numShort + k - s.shortLen * n, s.shortLen;
    } else {
      b, j := RowAndColumn(k - s.DataLen(), n, s.eccLen);
      j := s.BlockLen(b) + j;
    }
  }

  lemma RowAndColumn(k: nat, n: nat, rows: nat) returns (column: nat, row: nat)
    requires n >= 1 && k < rows * n
    ensures column < n && row < rows && k == row * n + column
  {
    row, column := k / n, k % n;
    assert k == n * row + column;
    if row >= rows {
      MulMonotone(n, rows, row);
    }
  }
}
