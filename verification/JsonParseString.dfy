/** The parser's cursor and its reading of strings. */
module JsonParseString {
  import opened Bits
  import opened Options
  import opened JsonStrings
  import opened JsonUnescape

  /** The text is terminated by a zero byte, which belongs to the content. */
  predicate Terminated(content: seq<byte>) {
    |content| >= 1 && content[|content| - 1] == 0
  }

  class ParseBuffer {
    const content: seq<byte>
    var offset: nat
    var depth: nat

    /** The cursor is on a byte of the text, at the latest on the terminator; after a failure it may be behind it. */
    ghost predicate Valid()
      reads this
    {
      Terminated(content) && offset < |content|
    }

    constructor (text: seq<byte>)
      requires Terminated(text)
      ensures Valid() && content == text && offset == 0 && depth == 0
    {
      content, offset, depth := text, 0, 0;
    }
  }

  /** A C string ends at its first zero byte. */
  function UntilNul(s: seq<byte>): (r: seq<byte>) {
    if s == [] || s[0] == 0 then [] else [s[0]] + UntilNul(s[1..])
  }

  /** The string at o, and the position behind its closing quote. */
  function StringAt(c: seq<byte>, o: nat): (r: Option<(seq<byte>, nat)>)
    requires o < |c|
  {
    if c[o] != QUOTE then None
    else
      match Closing(c, o + 1)
      case None => None
      case Some((end, _)) =>
        ClosingBounds(c, o + 1);
        match Unescaped(c, o + 1, end)
        case None => None
        case Some(bytes) => Some((UntilNul(bytes), end + 1))
  }

  /** The first pass. */
  method FindEnd(c: seq<byte>, start: nat) returns (r: Option<(nat, nat)>)
    requires start <= |c|
    ensures r == Closing(c, start)
  {
    var inputEnd, skippedBytes := start, 0;
    while inputEnd < |c| && c[inputEnd] != QUOTE
      invariant start <= inputEnd <= |c|
      invariant Closing(c, start) == match Closing(c, inputEnd) {
                                       case None => None
                                       case Some((end, skipped)) => Some((end, skipped + skippedBytes))
                                     }
    {
      if c[inputEnd] == BACKSLASH {
        if inputEnd + 1 >= |c| {
          return None;
        }
        skippedBytes := skippedBytes + 1;
        inputEnd := inputEnd + 1;
      }
      inputEnd := inputEnd + 1;
    }
    if inputEnd >= |c| {
      return None;
    }
    r := Some((inputEnd, skippedBytes));
  }

  /** What has been written is what has been read, and there is room for it. */
  ghost predicate SecondPass(c: seq<byte>, a: nat, i: nat, end: nat, written: seq<byte>)
    requires a <= end < |c|
  {
    && a <= i <= end + 1
    && Prepended(written, Unescaped(c, i, end)) == Unescaped(c, a, end)
    && |written| <= Room(c, a, if i <= end then i else end)
  }

  lemma NothingRead(c: seq<byte>, a: nat, end: nat)
    requires a <= end < |c|
    ensures SecondPass(c, a, a, end, [])
  {
    PrependedTwice([], [], Unescaped(c, a, end));
  }

  /** The end of the second pass. */
  lemma AllRead(c: seq<byte>, a: nat, i: nat, end: nat, written: seq<byte>)
    requires a <= end < |c| && SecondPass(c, a, i, end, written) && i >= end
    ensures Unescaped(c, a, end) == Some(written)
    ensures |written| <= Room(c, a, end)
  {
    assert written + [] == written;
  }

  lemma PlainByte(c: seq<byte>, a: nat, i: nat, end: nat, written: seq<byte>)
    requires a <= end < |c| && SecondPass(c, a, i, end, written) && i < end && c[i] != BACKSLASH
    ensures |written| + 1 <= Room(c, a, end)
    ensures SecondPass(c, a, i + 1, end, written + [c[i]])
  {
    PrependedTwice(written, [c[i]], Unescaped(c, i + 1, end));
    RoomMonotone(c, a, i + 1, end);
  }

  lemma ShortByte(c: seq<byte>, a: nat, i: nat, end: nat, written: seq<byte>)
    requires a <= end < |c| && !Hidden(c, a, end) && SecondPass(c, a, i, end, written)
    requires i < end && c[i] == BACKSLASH && ShortUnescape(c[i + 1]) != 0
    ensures |written| + 1 <= Room(c, a, end)
    ensures SecondPass(c, a, i + 2, end, written + [ShortUnescape(c[i + 1])])
  {
    hide Room, Hidden;
    PrependedTwice(written, [ShortUnescape(c[i + 1])], Unescaped(c, i + 2, end));
    RoomForShort(c, a, i, end);
    RoomMonotone(c, a, if i + 2 <= end then i + 2 else end, end);
  }

  lemma LiteralBytes(c: seq<byte>, a: nat, i: nat, end: nat, written: seq<byte>)
    requires a <= end < |c| && !Hidden(c, a, end) && SecondPass(c, a, i, end, written)
    requires i < end && c[i] == BACKSLASH && c[i + 1] == LETTER_U && LiteralAt(c, i, end).Some?
    ensures var (p, length) := LiteralAt(c, i, end).value;
            && |written| + |Utf8(p)| <= Room(c, a, end)
            && SecondPass(c, a, i + length, end, written + Utf8(p))
  {
    hide Room, Hidden, LiteralAt, Utf8;
    var (p, length) := LiteralAt(c, i, end).value;
    PrependedTwice(written, Utf8(p), Unescaped(c, i + length, end));
    RoomForLiteral(c, a, i, end);
    RoomMonotone(c, a, i + length, end);
  }

  lemma BadEscape(c: seq<byte>, a: nat, i: nat, end: nat, written: seq<byte>)
    requires a <= end < |c| && SecondPass(c, a, i, end, written)
    requires i < end && c[i] == BACKSLASH && ShortUnescape(c[i + 1]) == 0
    requires c[i + 1] == LETTER_U ==> LiteralAt(c, i, end).None?
    ensures Unescaped(c, a, end) == None
  {}

  /**
   The second pass: writes the bytes between the quotes with all escapes resolved. The text may make the passes
   disagree about which backslashes start escapes, as shown for the two passes elsewhere; the buffer is large enough
   all the same.
   */
  method Unescape(c: seq<byte>, start: nat, inputEnd: nat, output: array<byte>)
      returns (written: Option<nat>, inputPointer: nat)
    requires start <= inputEnd < |c| && !Hidden(c, start, inputEnd) && Room(c, start, inputEnd) <= output.Length
    modifies output
    ensures inputPointer <= |c|
    ensures Unescaped(c, start, inputEnd).None? ==> written == None
    ensures Unescaped(c, start, inputEnd).Some? ==>
      var bytes := Unescaped(c, start, inputEnd).value;
      |bytes| <= Room(c, start, inputEnd) && written == Some(|bytes|) && output[..|bytes|] == bytes
  {
    hide Room, Hidden, LiteralAt, Utf8, Unescaped, Prepended, SecondPass;
    inputPointer := start;
    var o := 0;
    ghost var done := [];
    NothingRead(c, start, inputEnd);
    while inputPointer < inputEnd
      invariant start <= inputPointer <= inputEnd + 1
      invariant o == |done| <= output.Length && output[..o] == done
      invariant SecondPass(c, start, inputPointer, inputEnd, done)
      decreases inputEnd - inputPointer
    {
      if c[inputPointer] != BACKSLASH {
        PlainByte(c, start, inputPointer, inputEnd, done);
        output[o] := c[inputPointer];
        done := done + [c[inputPointer]];
        o, inputPointer := o + 1, inputPointer + 1;
      } else {
        var letter := c[inputPointer + 1];
        if letter == LETTER_U {
          var sequenceLength, next := Literal(c, start, inputPointer, inputEnd, output, o, done);
          if sequenceLength == 0 {
            BadEscape(c, start, inputPointer, inputEnd, done);
            return None, inputPointer;
          }
          LiteralBytes(c, start, inputPointer, inputEnd, done);
          done := done + Utf8(LiteralAt(c, inputPointer, inputEnd).value.0);
          o, inputPointer := next, inputPointer + sequenceLength;
        } else if ShortUnescape(letter) != 0 {
          ShortByte(c, start, inputPointer, inputEnd, done);
          output[o] := ShortUnescape(letter);
          done := done + [ShortUnescape(letter)];
          o, inputPointer := o + 1, inputPointer + 2;
        } else {
          BadEscape(c, start, inputPointer, inputEnd, done);
          return None, inputPointer;
        }
      }
    }
    AllRead(c, start, inputPointer, inputEnd, done);
    written := Some(o);
  }

  method Literal(c: seq<byte>, ghost start: nat, i: nat, end: nat, output: array<byte>, o: nat, ghost done: seq<byte>)
      returns (sequenceLength: nat, next: nat)
    requires start <= i < end < |c| && !Hidden(c, start, end) && Room(c, start, end) <= output.Length
    requires o == |done| <= output.Length && output[..o] == done && SecondPass(c, start, i, end, done)
    requires c[i] == BACKSLASH && c[i + 1] == LETTER_U
    modifies output
    ensures sequenceLength == 0 <==> LiteralAt(c, i, end).None?
    ensures LiteralAt(c, i, end).Some? ==>
      var (p, length) := LiteralAt(c, i, end).value;
      && sequenceLength == length && next == o + |Utf8(p)| <= output.Length
      && output[..next] == done + Utf8(p)
  {
    hide Room, Hidden, Utf8, LiteralAt, SecondPass;
    if LiteralAt(c, i, end).Some? {
      LiteralBytes(c, start, i, end, done);
      LiteralLength(c, i, end);
    }
    sequenceLength, next := Utf16LiteralToUtf8(c, i, end, output, o);
  }

  lemma LiteralLength(c: seq<byte>, i: nat, end: nat)
    requires i < end < |c| && LiteralAt(c, i, end).Some?
    ensures LiteralAt(c, i, end).value.1 > 0
  {}

  lemma {:induction false} UntilNulPrefix(s: seq<byte>, rest: seq<byte>)
    ensures UntilNul(s + [0] + rest) == UntilNul(s)
  {
    if s != [] && s[0] != 0 {
      assert (s + [0] + rest)[1..] == s[1..] + [0] + rest;
      UntilNulPrefix(s[1..], rest);
    }
  }

  /** The string at the cursor, read into a buffer of the size computed by the first pass. */
  method ParseString(buffer: ParseBuffer) returns (r: Option<seq<byte>>)
    requires buffer.Valid()
    modifies buffer`offset
    ensures buffer.offset <= |buffer.content|
    ensures StringAt(buffer.content, old(buffer.offset)).None? ==> r == None
    ensures StringAt(buffer.content, old(buffer.offset)).Some? ==>
      var (bytes, next) := StringAt(buffer.content, old(buffer.offset)).value;
      r == Some(bytes) && buffer.offset == next
  {
    hide Closing, Unescaped, Room;
    var c, at := buffer.content, buffer.offset;
    var start := at + 1;
    if c[at] != QUOTE {
      buffer.offset := start;
      return None;
    }
    var found := FindEnd(c, start);
    ClosingBounds(c, start);
    if found.None? {
      buffer.offset := start;
      return None;
    }
    var (inputEnd, skippedBytes) := found.value;
    AllocationSuffices(c, start);
    var allocationLength := inputEnd - at - skippedBytes;
    var output := new byte[allocationLength + 1](_ => 0);
    var written, inputPointer := Unescape(c, start, inputEnd, output);
    if written.None? {
      buffer.offset := inputPointer;
      return None;
    }
    output[written.value] := 0;
    ghost var bytes := Unescaped(c, start, inputEnd).value;
    assert output[..] == bytes + [0] + output[|bytes| + 1..];
    UntilNulPrefix(bytes, output[|bytes| + 1..]);
    buffer.offset := inputEnd + 1;
    r := Some(UntilNul(output[..]));
  }

  /** The bytes of the second pass and the terminator fit the allocation. */
  lemma AllocationSuffices(c: seq<byte>, start: nat)
    requires start <= |c| && Closing(c, start).Some?
    ensures var (end, skipped) := Closing(c, start).value;
            && start <= end < |c| && !Hidden(c, start, end)
            && skipped <= end - start && Room(c, start, end) == end - start - skipped
  {
    RoomOfClosing(c, start, start);
    ClosingBounds(c, start);
  }

  lemma {:induction false} RestFits(c: seq<byte>, a: nat, i: nat, end: nat)
    requires a <= i <= end + 1 && a <= end < |c| && !Hidden(c, a, end) && Unescaped(c, i, end).Some?
    ensures Room(c, a, if i <= end then i else end) + |Unescaped(c, i, end).value| <= Room(c, a, end)
    decreases end - i
  {
    hide Room, Hidden, Utf8, HexNumber, Hex4;
    if i < end {
      if c[i] != BACKSLASH {
        RestFits(c, a, i + 1, end);
        PlainRoom(c, a, i);
      } else if ShortUnescape(c[i + 1]) != 0 {
        RestFits(c, a, i + 2, end);
        RoomForShort(c, a, i, end);
      } else {
        RestFits(c, a, i + LiteralAt(c, i, end).value.1, end);
        RoomForLiteral(c, a, i, end);
      }
    }
  }

  lemma PlainRoom(c: seq<byte>, a: nat, i: nat)
    requires a <= i < |c| && c[i] != BACKSLASH
    ensures Room(c, a, i + 1) == Room(c, a, i) + 1
  {}

  /**
   For any text, well-formed or not, the unescaped bytes and a terminator fit the size computed by the first pass:
   the distance of the quotes less the escaping backslashes it saw.
   */
  lemma UnescapedFits(c: seq<byte>, start: nat)
    requires 1 <= start <= |c| && Closing(c, start).Some?
    ensures var (end, skipped) := Closing(c, start).value;
            && end < |c|
            && (Unescaped(c, start, end).Some? ==> |Unescaped(c, start, end).value| <= end - start - skipped)
  {
    hide Unescaped, Room, Hidden, Closing;
    AllocationSuffices(c, start);
    var (end, skipped) := Closing(c, start).value;
    if Unescaped(c, start, end).Some? {
      RestFits(c, start, start, end);
    }
  }
}
