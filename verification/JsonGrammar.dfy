/** What the recursive-descent parser reads from a terminated text. */
module JsonGrammar {
  import opened Bits
  import opened Options
  import opened JsonStrings
  import opened JsonParseString
  import opened JsonText

  /** The library's number conversion: the integer part and the number of bytes used, at least one. */
  type Reader = seq<byte> -> Option<(int, nat)>

  // ----- white space

  /** The first byte above 32, or the end. */
  function SkipFrom(c: seq<byte>, o: nat): (r: nat)
    requires o <= |c|
    ensures o <= r <= |c|
    ensures r < |c| ==> c[r] > 32
    ensures forall k :: o <= k < r ==> c[k] <= 32
    decreases |c| - o
  {
    if o < |c| && c[o] <= 32 then SkipFrom(c, o + 1) else o
  }

  /** A skip to the end steps back onto the last byte. */
  function Skip(c: seq<byte>, o: nat): (r: nat)
    requires o < |c|
    ensures o <= r < |c|
  {
    if SkipFrom(c, o) == |c| then |c| - 1 else SkipFrom(c, o)
  }

  // ----- numbers

  predicate IsNumberByte(b: byte) {
    48 <= b <= 57 || b == 43 || b == 45 || b == 101 || b == 69 || b == 46
  }

  /** The bytes that may belong to a number, at most n of them. */
  function NumberText(c: seq<byte>, o: nat, n: nat): (r: seq<byte>)
    requires o <= |c|
    ensures |r| <= n && o + |r| <= |c|
    ensures forall k :: 0 <= k < |r| ==> r[k] == c[o + k] && IsNumberByte(r[k])
    decreases n
  {
    if n == 0 || o == |c| || !IsNumberByte(c[o]) then [] else [c[o]] + NumberText(c, o + 1, n - 1)
  }

  /** What the conversion is given: the source's buffer has room for 63 bytes. */
  function NumberBytes(c: seq<byte>, o: nat): (r: seq<byte>)
    requires o <= |c|
    ensures |r| <= 63 && o + |r| <= |c|
    ensures forall k :: 0 <= k < |r| ==> r[k] == c[o + k] && IsNumberByte(r[k])
  {
    NumberText(c, o, 63)
  }

  function Saturated(n: int): int {
    if n >= 0x7FFF_FFFF then 0x7FFF_FFFF else if n <= -0x8000_0000 then -0x8000_0000 else n
  }

  function NumberAt(c: seq<byte>, o: nat, reader: Reader): (r: Option<(Json, nat)>)
    requires Terminated(c) && o < |c|
    ensures r.Some? ==> o < r.value.1 < |c|
  {
    hide NumberBytes, Terminated, Saturated;
    var text := NumberBytes(c, o);
    match reader(text)
    case None => None
    case Some((n, used)) =>
      if 0 < used <= |text| then
        NumberEnds(c, o, used);
        Some((Number(Saturated(n)), o + used))
      else None
  }

  /** The last byte of a text belongs to no number. */
  lemma NumberEnds(c: seq<byte>, o: nat, used: nat)
    requires Terminated(c) && o < |c| && used <= |NumberBytes(c, o)|
    ensures o + used < |c|
  {
    hide NumberBytes;
    if used > 0 {
      assert IsNumberByte(NumberBytes(c, o)[used - 1]);
    }
  }

  // ----- values

  predicate Reads(c: seq<byte>, o: nat, word: seq<byte>) {
    o + |word| <= |c| && c[o..o + |word|] == word
  }

  const NULL: seq<byte> := [110, 117, 108, 108]
  const FALSE: seq<byte> := [102, 97, 108, 115, 101]
  const TRUE: seq<byte> := [116, 114, 117, 101]

  lemma WordInside(c: seq<byte>, o: nat, word: seq<byte>)
    requires Terminated(c) && Reads(c, o, word) && word != [] && word[|word| - 1] != 0
    ensures o + |word| < |c|
  {
    assert c[o + |word| - 1] == c[o..o + |word|][|word| - 1];
  }

  lemma StringInside(c: seq<byte>, o: nat)
    requires Terminated(c) && o < |c| && StringAt(c, o).Some?
    ensures o < StringAt(c, o).value.1 < |c|
  {
    ClosingBounds(c, o + 1);
  }

  /** The value at o inside `depth` arrays and objects, and the position behind it. */
  function ValueAt(c: seq<byte>, o: nat, depth: nat, reader: Reader): (r: Option<(Json, nat)>)
    requires Terminated(c) && o < |c|
    ensures r.Some? ==> o < r.value.1 < |c|
    decreases |c| - o, 3
  {
    if Reads(c, o, NULL) then WordInside(c, o, NULL); Some((Null, o + 4))
    else if Reads(c, o, FALSE) then WordInside(c, o, FALSE); Some((False, o + 5))
    else if Reads(c, o, TRUE) then WordInside(c, o, TRUE); Some((True, o + 4))
    else if c[o] == QUOTE then
      match StringAt(c, o)
      case None => None
      case Some((s, next)) => StringInside(c, o); Some((String(s), next))
    else if c[o] == 45 || 48 <= c[o] <= 57 then NumberAt(c, o, reader)
    else if c[o] == 91 then ArrayAt(c, o, depth, reader)
    else if c[o] == 123 then ObjectAt(c, o, depth, reader)
    else None
  }

  function ArrayAt(c: seq<byte>, o: nat, depth: nat, reader: Reader): (r: Option<(Json, nat)>)
    requires Terminated(c) && o < |c| && c[o] == 91
    ensures r.Some? ==> o < r.value.1 < |c|
    decreases |c| - o, 2
  {
    if depth >= NESTING_LIMIT then None
    else
      var first := Skip(c, o + 1);
      if c[first] == 93 then Some((Array([]), first + 1))
      else
        match ItemsAt(c, first - 1, depth + 1, reader)
        case None => None
        case Some((items, end)) => if c[end] == 93 then Some((Array(items), end + 1)) else None
  }

  /** Values separated by commas, the first one behind o; the position is that of the byte that is no comma. */
  function ItemsAt(c: seq<byte>, o: nat, depth: nat, reader: Reader): (r: Option<(seq<Json>, nat)>)
    requires Terminated(c) && o + 1 < |c|
    ensures r.Some? ==> o < r.value.1 < |c|
    decreases |c| - o, 1
  {
    match ValueAt(c, Skip(c, o + 1), depth, reader)
    case None => None
    case Some((v, next)) =>
      var end := Skip(c, next);
      if c[end] == 44 then
        match ItemsAt(c, end, depth, reader)
        case None => None
        case Some((items, last)) => Some(([v] + items, last))
      else Some(([v], end))
  }

  function ObjectAt(c: seq<byte>, o: nat, depth: nat, reader: Reader): (r: Option<(Json, nat)>)
    requires Terminated(c) && o < |c| && c[o] == 123
    ensures r.Some? ==> o < r.value.1 < |c|
    decreases |c| - o, 2
  {
    if depth >= NESTING_LIMIT then None
    else
      var first := Skip(c, o + 1);
      if c[first] == 125 then Some((Object([]), first + 1))
      else
        match MembersAt(c, first - 1, depth + 1, reader)
        case None => None
        case Some((members, end)) => if c[end] == 125 then Some((Object(members), end + 1)) else None
  }

  /** Members separated by commas, the first one behind o. */
  function MembersAt(c: seq<byte>, o: nat, depth: nat, reader: Reader): (r: Option<(seq<Member>, nat)>)
    requires Terminated(c) && o + 1 < |c|
    ensures r.Some? ==> o < r.value.1 < |c|
    decreases |c| - o, 1
  {
    match MemberAt(c, o, depth, reader)
    case None => None
    case Some((m, end)) =>
      if c[end] == 44 then
        match MembersAt(c, end, depth, reader)
        case None => None
        case Some((members, last)) => Some(([m] + members, last))
      else Some(([m], end))
  }

  /** One member behind o and the white space behind it. */
  function MemberAt(c: seq<byte>, o: nat, depth: nat, reader: Reader): (r: Option<(Member, nat)>)
    requires Terminated(c) && o + 1 < |c|
    ensures r.Some? ==> o < r.value.1 < |c|
    decreases |c| - o, 0
  {
    var start := Skip(c, o + 1);
    match StringAt(c, start)
    case None => None
    case Some((key, next)) =>
      StringInside(c, start);
      var colon := Skip(c, next);
      if c[colon] != 58 then None
      else
        match ValueAt(c, Skip(c, colon + 1), depth, reader)
        case None => None
        case Some((v, end)) => Some((Member(key, v), Skip(c, end)))
  }

  /** The whole text: a byte order mark in front of enough bytes is skipped, white space too. */
  function Parsed(c: seq<byte>, reader: Reader): Option<(Json, nat)>
    requires Terminated(c)
  {
    ValueAt(c, Skip(c, if 4 < |c| && Reads(c, 0, [0xEF, 0xBB, 0xBF]) then 3 else 0), 0, reader)
  }

  // ----- one step of the loops

  function Onto<T>(done: seq<T>, rest: Option<(seq<T>, nat)>): Option<(seq<T>, nat)> {
    match rest
    case None => None
    case Some((items, end)) => Some((done + items, end))
  }

  lemma OntoTwice<T>(a: seq<T>, b: seq<T>, rest: Option<(seq<T>, nat)>)
    ensures Onto(a, Onto(b, rest)) == Onto(a + b, rest) && Onto([], rest) == rest
  {
    if rest.Some? {
      assert a + (b + rest.value.0) == a + b + rest.value.0;
      assert [] + rest.value.0 == rest.value.0;
    }
  }

  lemma OntoSome<T>(a: seq<T>, b: seq<T>, end: nat)
    ensures Onto(a, Some((b, end))) == Some((a + b, end))
  {}

  lemma ItemsStep(c: seq<byte>, o: nat, depth: nat, reader: Reader)
    requires Terminated(c) && o + 1 < |c|
    ensures ItemsAt(c, o, depth, reader) ==
      match ValueAt(c, Skip(c, o + 1), depth, reader) {
        case None => None
        case Some((v, next)) =>
          if c[Skip(c, next)] == 44 then Onto([v], ItemsAt(c, Skip(c, next), depth, reader))
          else Some(([v], Skip(c, next)))
      }
  {
    hide ValueAt, Skip;
  }

  lemma MembersStep(c: seq<byte>, o: nat, depth: nat, reader: Reader)
    requires Terminated(c) && o + 1 < |c|
    ensures MembersAt(c, o, depth, reader) ==
      match MemberAt(c, o, depth, reader) {
        case None => None
        case Some((m, end)) => if c[end] == 44 then Onto([m], MembersAt(c, end, depth, reader)) else Some(([m], end))
      }
  {
    hide MemberAt;
  }
}
