/** The decoder's segment parser. Only the byte values of the result are modelled. */
module JsDecodeData {
  import opened Bits
  import opened Options
  import opened Placement
  import opened BitStrings
  import opened JsBitStream

  // ----- what the parser computes, on the bit string

  /** What reading n bits at p gives. */
  function ReadAt(bits: seq<bool>, p: nat, n: nat): (r: Option<nat>)
    requires 1 <= n <= 21
    ensures r.Some? ==> p + n <= |bits| && r.value < Pow2(n)
  {
    if p + n <= |bits| then
      ValueBound(bits[p..p + n]);
      Some(Value(bits[p..p + n]))
    else None
  }

  /** The decoder's list of the 45 characters of alphanumeric mode, by their codes. */
  const CHARACTER_CODES: seq<byte> :=
    [48, 49, 50, 51, 52, 53, 54, 55, 56]
    + [57, 65, 66, 67, 68, 69, 70, 71, 72]
    + [73, 74, 75, 76, 77, 78, 79, 80, 81]
    + [82, 83, 84, 85, 86, 87, 88, 89, 90]
    + [32, 36, 37, 42, 43, 45, 46, 47, 58]

  function CountBits(mode: nat, size: nat): (r: nat)
    requires size < 3
    ensures 8 <= r <= 16
  {
    match mode
    case 1 => [10, 12, 14][size]
    case 2 => [9, 11, 13][size]
    case 4 => [8, 16, 16][size]
    case _ => [8, 10, 12][size]
  }

  /** Bytes, and the position behind the bits they were read from. */
  type Parsed = Option<(seq<byte>, nat)>

  function Prefixed(chunk: seq<byte>, rest: Parsed): Parsed {
    match rest
    case None => None
    case Some((bytes, p)) => Some((chunk + bytes, p))
  }

  function NumericChunk(num: nat, digits: nat): Option<seq<byte>>
    requires 1 <= digits <= 3
  {
    if digits == 3 then
      if num >= 1000 then None else Some([48 + num / 100, 48 + num / 10 % 10, 48 + num % 10])
    else if digits == 2 then
      if num >= 100 then None else Some([48 + num / 10, 48 + num % 10])
    else
      if num >= 10 then None else Some([48 + num])
  }

  /** `length` digits: groups of three in ten bits, then two in seven or one in four. */
  function NumericFrom(bits: seq<bool>, p: nat, length: nat): (r: Parsed)
    ensures r.Some? ==> r.value.1 >= p
    decreases length
  {
    if length == 0 then Some(([], p))
    else
      var digits := if length >= 3 then 3 else length;
      match ReadAt(bits, p, digits * 3 + 1)
      case None => None
      case Some(num) =>
        match NumericChunk(num, digits)
        case None => None
        case Some(chunk) => Prefixed(chunk, NumericFrom(bits, p + (digits * 3 + 1), length - digits))
  }

  /** `length` characters: pairs in eleven bits, a last single one in six. */
  function AlphanumericFrom(bits: seq<bool>, p: nat, length: nat): (r: Parsed)
    ensures r.Some? ==> r.value.1 >= p
    decreases length
  {
    if length == 0 then Some(([], p))
    else if length == 1 then
      match ReadAt(bits, p, 6)
      case None => None
      case Some(a) => if a < 45 then Some(([CHARACTER_CODES[a]], p + 6)) else None
    else
      match ReadAt(bits, p, 11)
      case None => None
      case Some(v) =>
        if v / 45 < 45 then
          Prefixed([CHARACTER_CODES[v / 45], CHARACTER_CODES[v % 45]], AlphanumericFrom(bits, p + 11, length - 2))
        else None
  }

  function BytesFrom(bits: seq<bool>, p: nat, length: nat): (r: Parsed)
    ensures r.Some? ==> r.value.1 >= p
    decreases length
  {
    if length == 0 then Some(([], p))
    else
      match ReadAt(bits, p, 8)
      case None => None
      case Some(b) =>
        Pow2Of8();
        Prefixed([b], BytesFrom(bits, p + 8, length - 1))
  }

  /** The two bytes of a kanji character. */
  function KanjiBytes(k: nat): (r: seq<byte>)
    requires k < Pow2(13)
    ensures |r| == 2
  {
    assert Pow2(13) == 8192;
    var c := k / 0xC0 * 256 + k % 0xC0;
    var d := if c < 0x1F00 then c + 0x8140 else c + 0xC140;
    [d / 256, d % 256]
  }

  function KanjiFrom(bits: seq<bool>, p: nat, length: nat): (r: Parsed)
    ensures r.Some? ==> r.value.1 >= p
    decreases length
  {
    if length == 0 then Some(([], p))
    else
      match ReadAt(bits, p, 13)
      case None => None
      case Some(k) => Prefixed(KanjiBytes(k), KanjiFrom(bits, p + 13, length - 1))
  }

  /** An ECI designator carries no bytes; only its length matters. */
  function EciFrom(bits: seq<bool>, p: nat): (r: Parsed)
    ensures r.Some? ==> r.value.1 >= p
  {
    match ReadAt(bits, p, 1)
    case None => None
    case Some(b0) =>
      if b0 == 0 then Skipped(bits, p + 1, 7)
      else
        match ReadAt(bits, p + 1, 1)
        case None => None
        case Some(b1) =>
          if b1 == 0 then Skipped(bits, p + 2, 14)
          else
            match ReadAt(bits, p + 2, 1)
            case None => None
            case Some(b2) => if b2 == 0 then Skipped(bits, p + 3, 21) else Some(([], p + 3))
  }

  function Skipped(bits: seq<bool>, p: nat, n: nat): (r: Parsed)
    requires 1 <= n <= 21
    ensures r.Some? ==> r.value.1 >= p
  {
    if ReadAt(bits, p, n).None? then None else Some(([], p + n))
  }

  /** A segment with a count field. */
  function CountedFrom(bits: seq<bool>, p: nat, mode: nat, size: nat): (r: Parsed)
    requires size < 3
    ensures r.Some? ==> r.value.1 >= p
  {
    match ReadAt(bits, p, CountBits(mode, size))
    case None => None
    case Some(length) =>
      var q := p + CountBits(mode, size);
      if mode == 1 then NumericFrom(bits, q, length)
      else if mode == 2 then AlphanumericFrom(bits, q, length)
      else if mode == 4 then BytesFrom(bits, q, length)
      else KanjiFrom(bits, q, length)
  }

  /** One segment body; indicators without a meaning are passed over. */
  function SegmentFrom(bits: seq<bool>, p: nat, mode: nat, size: nat): (r: Parsed)
    requires size < 3
    ensures r.Some? ==> r.value.1 >= p
  {
    if mode == 7 then EciFrom(bits, p)
    else if mode == 1 || mode == 2 || mode == 4 || mode == 8 then CountedFrom(bits, p, mode, size)
    else Some(([], p))
  }

  /** The whole bit string from p on. */
  function DecodeFrom(bits: seq<bool>, p: nat, size: nat): Option<seq<byte>>
    requires size < 3
    decreases |bits| - p
  {
    match ReadAt(bits, p, 4)
    case None => if p >= |bits| || Value(bits[p..]) == 0 then Some([]) else None
    case Some(mode) =>
      if mode == 0 then Some([])
      else
        match SegmentFrom(bits, p + 4, mode, size)
        case None => None
        case Some((bytes, q)) =>
          match DecodeFrom(bits, q, size)
          case None => None
          case Some(rest) => Some(bytes + rest)
  }

  // ----- the parser

  /** One read: the number, or nothing at the end of the stream. */
  method Read(stream: BitStream, n: nat) returns (r: Option<nat>)
    requires stream.Valid() && 1 <= n <= 21
    modifies stream
    ensures stream.Valid()
    ensures r == ReadAt(BytesToBits(stream.bytes), old(stream.Position()), n)
    ensures r.Some? ==> stream.Position() == old(stream.Position()) + n
  {
    hide BytesToBits, Value, ToInt32;
    ghost var bits, p := BytesToBits(stream.bytes), stream.Position();
    var v := stream.ReadBits(n);
    match v
    case None => r := None;
    case Some(x) =>
      FewBits(bits[p..p + n]);
      r := Some(x);
  }

  lemma NumericStep(bits: seq<bool>, p: nat, length: nat, bytes: seq<byte>)
    requires length >= 1
    ensures var digits := if length >= 3 then 3 else length;
            var whole := Prefixed(bytes, NumericFrom(bits, p, length));
            match ReadAt(bits, p, digits * 3 + 1)
            case None => whole == None
            case Some(num) =>
              match NumericChunk(num, digits)
              case None => whole == None
              case Some(chunk) =>
                whole == Prefixed(bytes + chunk, NumericFrom(bits, p + (digits * 3 + 1), length - digits))
  {
    hide ReadAt, NumericChunk;
    var digits := if length >= 3 then 3 else length;
    var num := ReadAt(bits, p, digits * 3 + 1);
    if num.Some? && NumericChunk(num.value, digits).Some? {
      PrefixedTwice(bytes, NumericChunk(num.value, digits).value,
                    NumericFrom(bits, p + (digits * 3 + 1), length - digits));
    }
  }

  lemma PrefixedTwice(a: seq<byte>, b: seq<byte>, rest: Parsed)
    ensures Prefixed(a, Prefixed(b, rest)) == Prefixed(a + b, rest)
    ensures Prefixed([], rest) == rest
  {
    if rest.Some? {
      assert a + (b + rest.value.0) == a + b + rest.value.0;
      assert [] + rest.value.0 == rest.value.0;
    }
  }

  method DecodeNumeric(stream: BitStream, count: nat) returns (r: Option<seq<byte>>)
    requires stream.Valid()
    modifies stream
    ensures stream.Valid()
    ensures var expected := NumericFrom(BytesToBits(stream.bytes), old(stream.Position()), count);
            if r.None? then expected == None else expected == Some((r.value, stream.Position()))
  {
    hide BytesToBits, Value, ReadAt, NumericFrom, Prefixed;
    ghost var bits := BytesToBits(stream.bytes);
    ghost var expected := NumericFrom(bits, stream.Position(), count);
    PrefixedTwice([], [], expected);
    var bytes: seq<byte>, length := [], count;
    while length >= 3
      invariant stream.Valid() && 0 <= length <= count
      invariant expected == Prefixed(bytes, NumericFrom(bits, stream.Position(), length))
    {
      NumericStep(bits, stream.Position(), length, bytes);
      var num := Read(stream, 10);
      if num.None? || num.value >= 1000 {
        return None;
      }
      bytes := bytes + [48 + num.value / 100, 48 + num.value / 10 % 10, 48 + num.value % 10];
      length := length - 3;
    }
    if length == 2 {
      NumericStep(bits, stream.Position(), length, bytes);
      var num := Read(stream, 7);
      if num.None? || num.value >= 100 {
        return None;
      }
      bytes := bytes + [48 + num.value / 10, 48 + num.value % 10];
    } else if length == 1 {
      NumericStep(bits, stream.Position(), length, bytes);
      var num := Read(stream, 4);
      if num.None? || num.value >= 10 {
        return None;
      }
      bytes := bytes + [48 + num.value];
    }
    NumericEnd(bits, stream.Position(), bytes);
    r := Some(bytes);
  }

  lemma NumericEnd(bits: seq<bool>, p: nat, bytes: seq<byte>)
    ensures Prefixed(bytes, NumericFrom(bits, p, 0)) == Some((bytes, p))
    ensures Prefixed(bytes, AlphanumericFrom(bits, p, 0)) == Some((bytes, p))
    ensures Prefixed(bytes, BytesFrom(bits, p, 0)) == Some((bytes, p))
    ensures Prefixed(bytes, KanjiFrom(bits, p, 0)) == Some((bytes, p))
  {
    assert bytes + [] == bytes;
  }

  lemma AlphanumericStep(bits: seq<bool>, p: nat, length: nat, bytes: seq<byte>)
    ensures var whole := Prefixed(bytes, AlphanumericFrom(bits, p, length));
            && (length >= 2 ==>
                  match ReadAt(bits, p, 11)
                  case None => whole == None
                  case Some(v) =>
                    if v / 45 < 45 then
                      whole == Prefixed(bytes + [CHARACTER_CODES[v / 45], CHARACTER_CODES[v % 45]],
                                        AlphanumericFrom(bits, p + 11, length - 2))
                    else whole == None)
            && (length == 1 ==>
                  match ReadAt(bits, p, 6)
                  case None => whole == None
                  case Some(a) =>
                    whole == if a < 45 then Some((bytes + [CHARACTER_CODES[a]], p + 6)) else None)
  {
    hide ReadAt;
    var pair := ReadAt(bits, p, 11);
    if length >= 2 && pair.Some? && pair.value / 45 < 45 {
      PrefixedTwice(bytes, [CHARACTER_CODES[pair.value / 45], CHARACTER_CODES[pair.value % 45]],
                    AlphanumericFrom(bits, p + 11, length - 2));
    }
  }

  lemma CodesCount()
    ensures |CHARACTER_CODES| == 45
  {}

  method DecodeAlphanumeric(stream: BitStream, count: nat) returns (r: Option<seq<byte>>)
    requires stream.Valid()
    modifies stream
    ensures stream.Valid()
    ensures var expected := AlphanumericFrom(BytesToBits(stream.bytes), old(stream.Position()), count);
            if r.None? then expected == None else expected == Some((r.value, stream.Position()))
  {
    hide BytesToBits, Value, ReadAt, AlphanumericFrom, Prefixed, CHARACTER_CODES;
    CodesCount();
    ghost var bits := BytesToBits(stream.bytes);
    ghost var expected := AlphanumericFrom(bits, stream.Position(), count);
    PrefixedTwice([], [], expected);
    var bytes: seq<byte>, length := [], count;
    while length >= 2
      invariant stream.Valid() && 0 <= length <= count
      invariant expected == Prefixed(bytes, AlphanumericFrom(bits, stream.Position(), length))
    {
      AlphanumericStep(bits, stream.Position(), length, bytes);
      var v := Read(stream, 11);
      if v.None? || v.value / 45 >= 45 {
        return None;
      }
      bytes := bytes + [CHARACTER_CODES[v.value / 45], CHARACTER_CODES[v.value % 45]];
      length := length - 2;
    }
    AlphanumericStep(bits, stream.Position(), length, bytes);
    if length == 1 {
      var a := Read(stream, 6);
      if a.None? || a.value >= 45 {
        return None;
      }
      bytes := bytes + [CHARACTER_CODES[a.value]];
    } else {
      NumericEnd(bits, stream.Position(), bytes);
    }
    r := Some(bytes);
  }

  lemma ByteStep(bits: seq<bool>, p: nat, length: nat, bytes: seq<byte>)
    requires length >= 1
    ensures var whole := Prefixed(bytes, BytesFrom(bits, p, length));
            match ReadAt(bits, p, 8)
            case None => whole == None
            case Some(b) => b < 256 && whole == Prefixed(bytes + [b], BytesFrom(bits, p + 8, length - 1))
    ensures var whole := Prefixed(bytes, KanjiFrom(bits, p, length));
            match ReadAt(bits, p, 13)
            case None => whole == None
            case Some(k) => whole == Prefixed(bytes + KanjiBytes(k), KanjiFrom(bits, p + 13, length - 1))
  {
    hide ReadAt, KanjiBytes, Pow2;
    Pow2Of8();
    var b, k := ReadAt(bits, p, 8), ReadAt(bits, p, 13);
    if b.Some? {
      PrefixedTwice(bytes, [b.value], BytesFrom(bits, p + 8, length - 1));
    }
    if k.Some? {
      PrefixedTwice(bytes, KanjiBytes(k.value), KanjiFrom(bits, p + 13, length - 1));
    }
  }

  method DecodeByte(stream: BitStream, count: nat) returns (r: Option<seq<byte>>)
    requires stream.Valid()
    modifies stream
    ensures stream.Valid()
    ensures var expected := BytesFrom(BytesToBits(stream.bytes), old(stream.Position()), count);
            if r.None? then expected == None else expected == Some((r.value, stream.Position()))
  {
    hide BytesToBits, Value, ReadAt, BytesFrom, Prefixed;
    ghost var bits := BytesToBits(stream.bytes);
    ghost var expected := BytesFrom(bits, stream.Position(), count);
    PrefixedTwice([], [], expected);
    var bytes: seq<byte> := [];
    for i := 0 to count
      invariant stream.Valid()
      invariant expected == Prefixed(bytes, BytesFrom(bits, stream.Position(), count - i))
    {
      ByteStep(bits, stream.Position(), count - i, bytes);
      var b := Read(stream, 8);
      if b.None? {
        return None;
      }
      bytes := bytes + [b.value];
    }
    NumericEnd(bits, stream.Position(), bytes);
    r := Some(bytes);
  }

  method DecodeKanji(stream: BitStream, count: nat) returns (r: Option<seq<byte>>)
    requires stream.Valid()
    modifies stream
    ensures stream.Valid()
    ensures var expected := KanjiFrom(BytesToBits(stream.bytes), old(stream.Position()), count);
            if r.None? then expected == None else expected == Some((r.value, stream.Position()))
  {
    hide BytesToBits, Value, ReadAt, KanjiFrom, Prefixed, KanjiBytes;
    ghost var bits := BytesToBits(stream.bytes);
    ghost var expected := KanjiFrom(bits, stream.Position(), count);
    PrefixedTwice([], [], expected);
    var bytes: seq<byte> := [];
    for i := 0 to count
      invariant stream.Valid()
      invariant expected == Prefixed(bytes, KanjiFrom(bits, stream.Position(), count - i))
    {
      ByteStep(bits, stream.Position(), count - i, bytes);
      var k := Read(stream, 13);
      if k.None? {
        return None;
      }
      bytes := bytes + KanjiBytes(k.value);
    }
    NumericEnd(bits, stream.Position(), bytes);
    r := Some(bytes);
  }

  /** The three lengths of an ECI designator. */
  method SkipEci(stream: BitStream) returns (r: Option<seq<byte>>)
    requires stream.Valid()
    modifies stream
    ensures stream.Valid()
    ensures var expected := EciFrom(BytesToBits(stream.bytes), old(stream.Position()));
            if r.None? then expected == None else expected == Some((r.value, stream.Position()))
  {
    hide BytesToBits, Value, ReadAt;
    var width := 7;
    var b := Read(stream, 1);
    if b.None? {
      return None;
    }
    if b.value != 0 {
      width := 14;
      b := Read(stream, 1);
      if b.None? {
        return None;
      }
      if b.value != 0 {
        width := 21;
        b := Read(stream, 1);
        if b.None? {
          return None;
        }
        if b.value != 0 {
          return Some([]);
        }
      }
    }
    b := Read(stream, width);
    r := if b.None? then None else Some([]);
  }

  method DecodeSegment(stream: BitStream, mode: nat, size: nat) returns (r: Option<seq<byte>>)
    requires stream.Valid() && size < 3
    modifies stream
    ensures stream.Valid()
    ensures var expected := SegmentFrom(BytesToBits(stream.bytes), old(stream.Position()), mode, size);
            if r.None? then expected == None else expected == Some((r.value, stream.Position()))
  {
    hide BytesToBits, ReadAt, NumericFrom, AlphanumericFrom, BytesFrom, KanjiFrom, EciFrom, CountBits;
    if mode == 7 {
      r := SkipEci(stream);
    } else if mode == 1 || mode == 2 || mode == 4 || mode == 8 {
      var length := Read(stream, CountBits(mode, size));
      if length.None? {
        return None;
      }
      if mode == 1 {
        r := DecodeNumeric(stream, length.value);
      } else if mode == 2 {
        r := DecodeAlphanumeric(stream, length.value);
      } else if mode == 4 {
        r := DecodeByte(stream, length.value);
      } else {
        r := DecodeKanji(stream, length.value);
      }
    } else {
      r := Some([]);
    }
  }

  /** Count fields have one of three sizes, depending on the version. */
  function SizeClass(version: nat): nat {
    if version <= 9 then 0 else if version <= 26 then 1 else 2
  }

  function Joined(bytes: seq<byte>, rest: Option<seq<byte>>): Option<seq<byte>> {
    match rest
    case None => None
    case Some(more) => Some(bytes + more)
  }

  lemma DecodeStep(bits: seq<bool>, p: nat, size: nat, bytes: seq<byte>)
    requires size < 3 && p <= |bits|
    ensures var whole := Joined(bytes, DecodeFrom(bits, p, size));
            && (p + 4 <= |bits| ==>
                  && ReadAt(bits, p, 4).Some?
                  && var mode := ReadAt(bits, p, 4).value;
                     if mode == 0 then whole == Some(bytes)
                     else
                       match SegmentFrom(bits, p + 4, mode, size)
                       case None => whole == None
                       case Some((chunk, q)) => whole == Joined(bytes + chunk, DecodeFrom(bits, q, size)))
            && (p + 4 > |bits| ==>
                  (p < |bits| ==> ReadAt(bits, p, |bits| - p).Some?)
                  && whole == if p == |bits| || ReadAt(bits, p, |bits| - p).value == 0 then Some(bytes) else None)
  {
    hide Value, SegmentFrom;
    assert bytes + [] == bytes;
    if p + 4 > |bits| {
      assert bits[p..|bits|] == bits[p..];
    } else {
      var mode := ReadAt(bits, p, 4).value;
      if mode != 0 && SegmentFrom(bits, p + 4, mode, size).Some? {
        var (chunk, q) := SegmentFrom(bits, p + 4, mode, size).value;
        JoinedTwice(bytes, chunk, DecodeFrom(bits, q, size));
      }
    }
  }

  lemma JoinedTwice(a: seq<byte>, b: seq<byte>, rest: Option<seq<byte>>)
    ensures Joined(a, Joined(b, rest)) == Joined(a + b, rest)
    ensures Joined([], rest) == rest
  {
    if rest.Some? {
      assert a + (b + rest.value) == a + b + rest.value;
      assert [] + rest.value == rest.value;
    }
  }

  /** Parses all segments; a failed read or trailing bits that are not zero make the symbol undecodable. */
  method DecodeData(data: seq<byte>, version: nat) returns (r: Option<seq<byte>>)
    ensures r == DecodeFrom(BytesToBits(data), 0, SizeClass(version))
  {
    hide BytesToBits, Value, ReadAt, SegmentFrom, DecodeFrom, Joined;
    var stream := new BitStream(data);
    var size := SizeClass(version);
    ghost var bits := BytesToBits(data);
    var bytes: seq<byte> := [];
    JoinedTwice([], [], DecodeFrom(bits, 0, size));
    while stream.Available() >= 4
      invariant fresh(stream) && stream.Valid()
      invariant DecodeFrom(bits, 0, size) == Joined(bytes, DecodeFrom(bits, stream.Position(), size))
      decreases stream.Available()
    {
      DecodeStep(bits, stream.Position(), size, bytes);
      var mode := Read(stream, 4);
      if mode.value == 0 {
        return Some(bytes);
      }
      var chunk := DecodeSegment(stream, mode.value, size);
      if chunk.None? {
        return None;
      }
      bytes := bytes + chunk.value;
    }
    DecodeStep(bits, stream.Position(), size, bytes);
    if stream.Available() == 0 {
      return Some(bytes);
    }
    var last := Read(stream, stream.Available());
    r := if last.value == 0 then Some(bytes) else None;
  }
}
