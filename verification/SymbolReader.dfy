/** The decoder's matrix and its reading of the codewords. */
module SymbolReader {
  import opened Bits
  import opened Grid
  import opened Zigzag
  import opened Placement
  import opened Masks
  import opened Regions

  class BitMatrix {
    const width: nat
    const height: nat
    const data: array<nat>

    ghost predicate Valid()
      reads data
    {
      width == height && data.Length == width * height
    }

    /** The modules, true for a nonzero entry. */
    ghost function Contents(): (g: Modules)
      requires Valid()
      reads data
      ensures |g| == width * width
    {
      seq(width * width, k requires 0 <= k < width * width reads data => data[k] != 0)
    }

    constructor CreateEmpty(size: nat)
      ensures Valid() && width == size && fresh(data)
      ensures Contents() == seq(size * size, _ => false)
    {
      width, height := size, size;
      data := new nat[size * size](_ => 0);
    }

    /** Anything outside the matrix counts as light. */
    method Get(x: int, y: int) returns (v: bool)
      requires Valid()
      ensures v == (InGrid(width, x, y) && Contents()[Index(width, x, y)])
    {
      if x < 0 || x >= width || y < 0 || y >= height {
        return false;
      }
      IndexBound(width, x, y);
      v := data[y * width + x] != 0;
      assert Contents()[Index(width, x, y)] == (data[Index(width, x, y)] != 0);
    }

    method Set(x: int, y: int, v: bool)
      requires Valid() && InGrid(width, x, y)
      modifies data
      ensures Valid() && Contents() == old(Contents())[Index(width, x, y) := v]
    {
      IndexBound(width, x, y);
      data[y * width + x] := if v then 1 else 0;
    }

    method SetRegion(left: nat, top: nat, w: nat, h: nat, v: bool)
      requires Valid() && Rect(left, top, w, h).Within(width)
      modifies data
      ensures Valid() && Contents() == Region(width, old(Contents()), Rect(left, top, w, h), v)
    {
      hide Region, Index;
      ghost var g := Contents();
      RegionEmpty(width, g, Rect(left, top, w, 0), v);
      for y := top to top + h
        invariant Contents() == Region(width, g, Rect(left, top, w, y - top), v)
      {
        ghost var above := Contents();
        RegionEmpty(width, above, Rect(left, y, 0, 1), v);
        for x := left to left + w
          invariant Contents() == Region(width, above, Rect(left, y, x - left, 1), v)
        {
          RegionCell(width, above, left, y, x - left, v);
          Set(x, y, v);
        }
        RegionRow(width, g, left, top, w, y - top, v);
      }
    }
  }

  /** What a matrix of one width shows at the coordinates of a grid of another size: light outside of it. */
  function Stretched(width: nat, g: Modules, size: nat): (h: Modules)
    requires |g| == width * width
    ensures |h| == size * size
  {
    seq(size * size, p requires 0 <= p < size * size => ShownAt(width, g, p % size, p / size))
  }

  predicate ShownAt(width: nat, g: Modules, x: int, y: int)
    requires |g| == width * width
  {
    InGrid(width, x, y) && g[Index(width, x, y)]
  }

  lemma StretchedAt(width: nat, g: Modules, size: nat, x: int, y: int)
    requires |g| == width * width && InGrid(size, x, y)
    ensures Stretched(width, g, size)[Index(size, x, y)] == ShownAt(width, g, x, y)
  {
    hide Index, ShownAt;
    IndexParts(size, x, y);
  }

  lemma StretchedSame(size: nat, g: Modules)
    requires |g| == size * size
    ensures Stretched(size, g, size) == g
  {
    hide Index, Stretched;
    forall x: int, y: int | InGrid(size, x, y)
      ensures Stretched(size, g, size)[Index(size, x, y)] == g[Index(size, x, y)]
    {
      StretchedAt(size, g, size, x, y);
    }
    SameModules(size, Stretched(size, g, size), g);
  }

  /** What has been read: whole codewords, then the bits of the unfinished one. */
  ghost predicate ReadState(codewords: seq<byte>, currentByte: nat, bitsRead: nat, bits: seq<bool>) {
    && bitsRead < 8 && currentByte < Pow2(bitsRead)
    && bits == BytesToBits(codewords) + BitsMsb(currentByte, bitsRead)
  }

  function PushBit(bit: bool, b: nat): nat {
    2 * b + if bit then 1 else 0
  }

  /** Reads along the decoder's walk, undoing the mask: the free modules in groups of eight bits. */
  method ReadCodewords(matrix: BitMatrix, functionPatternMask: BitMatrix, mask: nat) returns (codewords: seq<byte>)
    requires matrix.Valid() && functionPatternMask.Valid() && matrix.width >= 1
    requires mask < 8
    ensures var size := matrix.width;
            var func := Stretched(functionPatternMask.width, functionPatternMask.Contents(), size);
            var bits := ReadBits(Masked(size, matrix.Contents(), func, mask), func, Scan(size, size - 1, true));
            |codewords| == |bits| / 8 && BytesToBits(codewords) == bits[..8 * |codewords|]
  {
    hide ReadState, ReadBits, Masked, BytesToBits, BitsMsb, Scan, Column, Inside, Index, Stretched;
    var dimension := matrix.height;
    ghost var func := Stretched(functionPatternMask.width, functionPatternMask.Contents(), matrix.width);
    ghost var g := Masked(dimension, matrix.Contents(), func, mask);
    ghost var walk, done := Scan(dimension, dimension - 1, true), [];
    codewords := [];
    var currentByte, bitsRead := 0, 0;
    NothingRead(g, func);
    var readingUp := true;
    var columnIndex: int := dimension - 1;
    while columnIndex > 0
      invariant -1 <= columnIndex < dimension
      invariant done + Scan(dimension, columnIndex, readingUp) == walk && Inside(done, |g|)
      invariant ReadState(codewords, currentByte, bitsRead, ReadBits(g, func, done))
    {
      ScanStep(dimension, columnIndex, readingUp);
      if columnIndex == 6 {
        columnIndex := columnIndex - 1;
      }
      codewords, currentByte, bitsRead :=
        ReadColumn(matrix, functionPatternMask, mask, columnIndex, readingUp, codewords, currentByte, bitsRead, done);
      done := done + Column(dimension, columnIndex, readingUp);
      readingUp := !readingUp;
      columnIndex := columnIndex - 2;
    }
    ScanEnd(dimension, columnIndex, readingUp);
    assert done == walk;
    WholeCodewords(codewords, currentByte, bitsRead, ReadBits(g, func, walk));
  }

  lemma NothingRead(g: Modules, func: Modules)
    requires |g| == |func|
    ensures Inside([], |g|) && ReadState([], 0, 0, ReadBits(g, func, []))
  {}

  lemma ScanStep(size: nat, right: int, up: bool)
    requires 1 <= right < size
    ensures var r := SkipTiming(right);
            Scan(size, right, up) == Column(size, r, up) + Scan(size, r - 2, !up)
  {}

  lemma ScanEnd(size: nat, right: int, up: bool)
    requires right < 1 && right < size
    ensures Scan(size, right, up) == []
  {}

  lemma WholeCodewords(codewords: seq<byte>, currentByte: nat, bitsRead: nat, bits: seq<bool>)
    requires ReadState(codewords, currentByte, bitsRead, bits)
    ensures |codewords| == |bits| / 8 && BytesToBits(codewords) == bits[..8 * |codewords|]
  {}

  /** The two inner loops: one column pair. */
  method ReadColumn(matrix: BitMatrix, functionPatternMask: BitMatrix, mask: nat, columnIndex: nat, readingUp: bool,
                    codewords0: seq<byte>, currentByte0: nat, bitsRead0: nat, ghost done: seq<nat>)
      returns (codewords: seq<byte>, currentByte: nat, bitsRead: nat)
    requires matrix.Valid() && functionPatternMask.Valid()
    requires mask < 8 && 1 <= columnIndex < matrix.width && Inside(done, matrix.width * matrix.width)
    requires var func := Stretched(functionPatternMask.width, functionPatternMask.Contents(), matrix.width);
             ReadState(codewords0, currentByte0, bitsRead0,
                       ReadBits(Masked(matrix.width, matrix.Contents(), func, mask), func, done))
    ensures var func := Stretched(functionPatternMask.width, functionPatternMask.Contents(), matrix.width);
            var walk := done + Column(matrix.width, columnIndex, readingUp);
            && Inside(walk, matrix.width * matrix.width)
            && ReadState(codewords, currentByte, bitsRead,
                         ReadBits(Masked(matrix.width, matrix.Contents(), func, mask), func, walk))
  {
    hide ReadState, ReadBits, Masked, BytesToBits, BitsMsb, Column, Inside, Index, Stretched;
    var dimension := matrix.height;
    ghost var func := Stretched(functionPatternMask.width, functionPatternMask.Contents(), matrix.width);
    ghost var g, column := Masked(dimension, matrix.Contents(), func, mask), Column(dimension, columnIndex, readingUp);
    codewords, currentByte, bitsRead := codewords0, currentByte0, bitsRead0;
    assert done + column[..0] == done;
    for i := 0 to dimension
      invariant Inside(done + column[..2 * i], |g|)
      invariant ReadState(codewords, currentByte, bitsRead, ReadBits(g, func, done + column[..2 * i]))
    {
      var y := if readingUp then dimension - 1 - i else i;
      for columnOffset := 0 to 2
        invariant Inside(done + column[..2 * i + columnOffset], |g|)
        invariant ReadState(codewords, currentByte, bitsRead, ReadBits(g, func, done + column[..2 * i + columnOffset]))
      {
        var x := columnIndex - columnOffset;
        ColumnWalk(dimension, columnIndex, readingUp, i, columnOffset);
        ReadBitsStep(g, func, done, column, 2 * i + columnOffset);
        codewords, currentByte, bitsRead :=
          ReadModule(matrix, functionPatternMask, mask, x, y, codewords, currentByte, bitsRead,
                     ReadBits(g, func, done + column[..2 * i + columnOffset]));
      }
    }
    assert column[..2 * dimension] == column;
  }

  lemma ReadBitsStep(g: Modules, func: Modules, done: seq<nat>, column: seq<nat>, k: nat)
    requires |g| == |func| && k < |column| && column[k] < |g| && Inside(done + column[..k], |g|)
    ensures Inside(done + column[..k + 1], |g|)
    ensures ReadBits(g, func, done + column[..k + 1]) ==
      ReadBits(g, func, done + column[..k]) + if func[column[k]] then [] else [g[column[k]]]
  {
    hide *;
    ReadBitsSnoc(g, func, done + column[..k], column[k]);
    assert column[..k + 1] == column[..k] + [column[k]];
    assert done + column[..k + 1] == (done + column[..k]) + [column[k]];
  }

  lemma ReadBitsSnoc(g: Modules, func: Modules, walk: seq<nat>, p: nat)
    requires |g| == |func| && p < |g| && Inside(walk, |g|)
    ensures Inside(walk + [p], |g|)
    ensures ReadBits(g, func, walk + [p]) == ReadBits(g, func, walk) + if func[p] then [] else [g[p]]
  {
    assert (walk + [p])[..|walk|] == walk;
  }

  /** One module: a free one contributes its unmasked bit. */
  method ReadModule(matrix: BitMatrix, functionPatternMask: BitMatrix, mask: nat, x: nat, y: nat,
                    codewords0: seq<byte>, currentByte0: nat, bitsRead0: nat, ghost bits: seq<bool>)
      returns (codewords: seq<byte>, currentByte: nat, bitsRead: nat)
    requires matrix.Valid() && functionPatternMask.Valid()
    requires mask < 8 && InGrid(matrix.width, x, y)
    requires ReadState(codewords0, currentByte0, bitsRead0, bits)
    ensures var func := Stretched(functionPatternMask.width, functionPatternMask.Contents(), matrix.width);
            var p := Index(matrix.width, x, y);
            ReadState(codewords, currentByte, bitsRead,
                      bits + if func[p] then [] else [Masked(matrix.width, matrix.Contents(), func, mask)[p]])
  {
    hide ReadState, Masked, BytesToBits, BitsMsb, Index, EncoderInverts, DecoderInverts, Stretched;
    codewords, currentByte, bitsRead := codewords0, currentByte0, bitsRead0;
    ghost var func := Stretched(functionPatternMask.width, functionPatternMask.Contents(), matrix.width);
    StretchedAt(functionPatternMask.width, functionPatternMask.Contents(), matrix.width, x, y);
    MaskedAt(matrix.width, matrix.Contents(), func, mask, x, y);
    InvertsAgree(mask, x, y);
    var isFunction := functionPatternMask.Get(x, y);
    if !isFunction {
      bitsRead := bitsRead + 1;
      var bit := matrix.Get(x, y);
      if DecoderInverts(mask, x, y) {
        bit := !bit;
      }
      currentByte := PushBit(bit, currentByte);
      PushedBit(codewords, currentByte0, bitsRead0, bits, bit);
      if bitsRead == 8 {
        codewords := codewords + [currentByte];
        bitsRead := 0;
        currentByte := 0;
      }
    } else {
      assert bits + [] == bits;
    }
  }

  lemma PushedBit(codewords: seq<byte>, currentByte: nat, bitsRead: nat, bits: seq<bool>, bit: bool)
    requires ReadState(codewords, currentByte, bitsRead, bits)
    ensures bitsRead < 8
    ensures bitsRead + 1 < 8 ==> ReadState(codewords, PushBit(bit, currentByte), bitsRead + 1, bits + [bit])
    ensures bitsRead + 1 == 8 ==>
      PushBit(bit, currentByte) < 256 && ReadState(codewords + [PushBit(bit, currentByte)], 0, 0, bits + [bit])
  {
    hide BitsMsb, BytesToBits, Pow2, PushBit;
    var b := PushBit(bit, currentByte);
    OneMoreBit(currentByte, bitsRead, bit);
    OneMoreBitFits(currentByte, bitsRead, bit);
    assert bits + [bit] == BytesToBits(codewords) + BitsMsb(b, bitsRead + 1);
    if bitsRead + 1 == 8 {
      WholeByte(codewords, b);
    }
  }

  lemma OneMoreBit(n: nat, k: nat, bit: bool)
    ensures BitsMsb(PushBit(bit, n), k + 1) == BitsMsb(n, k) + [bit]
  {
    hide Pow2;
    var m := PushBit(bit, n);
    assert m / 2 == n && (m % 2 == 1) == bit;
  }

  lemma OneMoreBitFits(n: nat, k: nat, bit: bool)
    requires n < Pow2(k)
    ensures PushBit(bit, n) < Pow2(k + 1) && Pow2(8) == 256
  {
    hide BitsMsb;
  }

  lemma WholeByte(codewords: seq<byte>, b: byte)
    ensures BytesToBits(codewords + [b]) + BitsMsb(0, 0) == BytesToBits(codewords) + BitsMsb(b, 8)
    ensures 0 < Pow2(0)
  {
    assert (codewords + [b])[..|codewords|] == codewords;
  }
}
