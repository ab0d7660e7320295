/** The printer: every call extends the buffer by exactly the text of the value, or fails for lack of room. */
module JsonPrinter {
  import opened Bits
  import opened JsonStrings
  import opened JsonPrintBuffer

  /** Behind the prefix stands the text with a terminator; the offset has not left the text. */
  ghost predicate Printed(p: PrintBuffer, prefix: seq<byte>, text: seq<byte>)
    reads p`buffer, p`offset, p.buffer
  {
    && p.Valid() && |prefix| <= p.offset <= |prefix| + |text|
    && |prefix| <= p.buffer.Length && p.buffer[..|prefix|] == prefix
    && Shows(p.buffer[..], |prefix|, text)
  }

  /** The offset stands behind exactly these bytes. */
  ghost predicate Emitted(p: PrintBuffer, bytes: seq<byte>)
    reads p`buffer, p`offset, p.buffer
  {
    p.Valid() && p.buffer[..p.offset] == bytes
  }

  /** Room for `needed` bytes, a copy of the bytes, and the offset moved on. */
  method Emit(p: PrintBuffer, bytes: seq<byte>, needed: nat) returns (ok: bool)
    requires p.Valid() && |bytes| <= needed
    modifies p`buffer, p`offset, p.buffer
    ensures p.Valid() && (p.buffer == old(p.buffer) || (fresh(p.buffer) && !p.noalloc)) && p.Limit() == old(p.Limit())
    ensures ok <==> old(p.offset) + needed + 1 <= p.Limit()
    ensures ok ==> Emitted(p, old(p.buffer[..p.offset]) + bytes)
  {
    ok := p.Ensure(needed);
    if ok {
      ghost var before := p.buffer[..p.offset];
      ghost var behind := p.buffer[p.offset + |bytes|..];
      p.Put(bytes);
      p.offset := p.offset + |bytes|;
      ghost var b := p.buffer[..];
      EmittedText(b, before, bytes, bytes, behind);
      assert p.buffer[..p.offset] == b[..p.offset];
    }
  }

  /** The same with a terminator behind the bytes. */
  method EmitTerminated(p: PrintBuffer, bytes: seq<byte>) returns (ok: bool)
    requires p.Valid()
    modifies p`buffer, p`offset, p.buffer
    ensures p.Valid() && (p.buffer == old(p.buffer) || (fresh(p.buffer) && !p.noalloc)) && p.Limit() == old(p.Limit())
    ensures ok <==> old(p.offset) + |bytes| + 2 <= p.Limit()
    ensures ok ==> Emitted(p, old(p.buffer[..p.offset]) + bytes)
  {
    ok := p.Ensure(|bytes| + 1);
    if ok {
      ghost var before := p.buffer[..p.offset];
      ghost var behind := p.buffer[p.offset + |bytes| + 1..];
      p.Put(bytes + [0]);
      p.offset := p.offset + |bytes|;
      ghost var b := p.buffer[..];
      EmittedText(b, before, bytes, bytes + [0], behind);
      assert p.buffer[..p.offset] == b[..p.offset];
    }
  }

  lemma EmittedText(b: seq<byte>, before: seq<byte>, bytes: seq<byte>, written: seq<byte>, behind: seq<byte>)
    requires b == before + written + behind && |bytes| <= |written| && written[..|bytes|] == bytes
    ensures |before| + |bytes| <= |b| && b[..|before| + |bytes|] == before + bytes
  {}

  /** The same for the last bytes of a text: the terminator is written and the offset stays. */
  method Finish(p: PrintBuffer, bytes: seq<byte>, needed: nat, ghost prefix: seq<byte>,
                ghost text: seq<byte>) returns (ok: bool)
    requires |bytes| < needed && Emitted(p, prefix + text)
    modifies p`buffer, p.buffer
    ensures p.Valid() && (p.buffer == old(p.buffer) || (fresh(p.buffer) && !p.noalloc)) && p.Limit() == old(p.Limit())
    ensures ok <==> p.offset + needed + 1 <= p.Limit()
    ensures ok ==> Printed(p, prefix, text + bytes)
  {
    ok := p.Ensure(needed);
    if ok {
      ghost var behind := p.buffer[p.offset + |bytes| + 1..];
      p.Put(bytes + [0]);
      ghost var b := p.buffer[..];
      FinishedText(b, prefix, text, bytes, behind);
      assert p.buffer[..|prefix|] == b[..|prefix|];
    }
  }

  lemma FinishedText(b: seq<byte>, prefix: seq<byte>, text: seq<byte>, bytes: seq<byte>, behind: seq<byte>)
    requires b == (prefix + text) + (bytes + [0]) + behind
    ensures |prefix| <= |b| && b[..|prefix|] == prefix && Shows(b, |prefix|, text + bytes)
  {}

  // ----- strings

  lemma {:induction false} EscapedConcat(a: seq<byte>, b: seq<byte>)
    ensures Escaped(a + b) == Escaped(a) + Escaped(b)
    decreases |a|
  {
    hide EscapedChar;
    if a == [] {
      assert a + b == b;
    } else {
      EscapedConcat(a[1..], b);
      assert (a + b)[1..] == a[1..] + b;
    }
  }

  lemma EscapedNext(s: seq<byte>, i: nat)
    requires i < |s|
    ensures Escaped(s[..i + 1]) == Escaped(s[..i]) + EscapedChar(s[i])
  {
    hide EscapedChar;
    assert s[..i + 1] == s[..i] + [s[i]];
    EscapedConcat(s[..i], [s[i]]);
    assert Escaped([s[i]]) == EscapedChar(s[i]) + Escaped([]);
  }

  /** Without additional characters nothing is escaped. */
  lemma {:induction false} NothingEscaped(s: seq<byte>)
    ensures |Escaped(s)| >= |s|
    ensures |Escaped(s)| == |s| ==> Escaped(s) == s
    decreases |s|
  {
    hide ShortEscape;
    if s != [] {
      NothingEscaped(s[1..]);
      assert s == [s[0]] + s[1..];
    }
  }

  /** Counts the additional characters. */
  method CountEscapes(input: seq<byte>) returns (escapeCharacters: nat)
    ensures |input| + escapeCharacters == |Escaped(input)|
  {
    hide Escaped, ShortEscape, EscapedChar;
    escapeCharacters := 0;
    NoText(input);
    for i := 0 to |input|
      invariant i + escapeCharacters == |Escaped(input[..i])|
    {
      EscapedNext(input, i);
      EscapedLength(input[i]);
      var c := input[i];
      if c == QUOTE || c == BACKSLASH || c == 8 || c == 12 || c == 10 || c == 13 || c == 9 {
        escapeCharacters := escapeCharacters + 1;
      } else if c < 32 {
        escapeCharacters := escapeCharacters + 5;
      }
    }
    assert input[..|input|] == input;
  }

  lemma NoText(s: seq<byte>)
    ensures Escaped(s[..0]) == []
  {}

  lemma EscapedLength(c: byte)
    ensures |EscapedChar(c)| == 1 +
      if c == QUOTE || c == BACKSLASH || c == 8 || c == 12 || c == 10 || c == 13 || c == 9 then 1
        else if c < 32 then 5 else 0
  {}

  /** One byte of the string, escaped if necessary. */
  method WriteChar(buffer: array<byte>, at: nat, c: byte) returns (next: nat)
    requires at + |EscapedChar(c)| <= buffer.Length
    modifies buffer
    ensures next == at + |EscapedChar(c)|
    ensures buffer[..] == old(buffer[..at]) + EscapedChar(c) + old(buffer[next..])
  {
    hide HexDigit, ShortEscape, EscapedChar;
    PlainChar(c);
    next := at;
    if c > 31 && c != QUOTE && c != BACKSLASH {
      buffer[next] := c;
      next := next + 1;
    } else {
      var letter := ShortEscape(c);
      if letter != 0 {
        buffer[next], buffer[next + 1] := BACKSLASH, letter;
        next := next + 2;
      } else {
        WriteCode(buffer, next, c);
        next := next + 6;
      }
    }
  }

  lemma PlainChar(c: byte)
    ensures c > 31 && c != QUOTE && c != BACKSLASH <==> EscapedChar(c) == [c]
    ensures ShortEscape(c) != 0 ==> EscapedChar(c) == [BACKSLASH, ShortEscape(c)]
    ensures c <= 31 && ShortEscape(c) == 0 ==>
      EscapedChar(c) == [BACKSLASH, LETTER_U, 48, 48, HexDigit(c / 16), HexDigit(c % 16)]
    ensures c == QUOTE || c == BACKSLASH ==> ShortEscape(c) != 0
  {
    hide HexDigit;
  }

  /** A backslash, the letter u and four digits. */
  method WriteCode(buffer: array<byte>, at: nat, c: byte)
    requires at + 6 <= buffer.Length
    modifies buffer
    ensures buffer[..] ==
      old(buffer[..at]) + [BACKSLASH, LETTER_U, 48, 48, HexDigit(c / 16), HexDigit(c % 16)] + old(buffer[at + 6..])
  {
    hide HexDigit;
    buffer[at], buffer[at + 1], buffer[at + 2], buffer[at + 3] := BACKSLASH, LETTER_U, 48, 48;
    buffer[at + 4], buffer[at + 5] := HexDigit(c / 16), HexDigit(c % 16);
  }

  /** The whole string, escaped. */
  method WriteEscaped(buffer: array<byte>, at: nat, input: seq<byte>)
    requires at + |Escaped(input)| <= buffer.Length
    modifies buffer
    ensures buffer[..] == old(buffer[..at]) + Escaped(input) + old(buffer[at + |Escaped(input)|..])
  {
    hide Escaped, EscapedChar;
    var next := at;
    ghost var before := buffer[..];
    NoText(input);
    for i := 0 to |input|
      invariant next == at + |Escaped(input[..i])| <= buffer.Length
      invariant buffer[..] == before[..at] + Escaped(input[..i]) + before[next..]
    {
      EscapedNext(input, i);
      EscapedPart(input, i + 1);
      ghost var done, e := before[..at] + Escaped(input[..i]), EscapedChar(input[i]);
      var start := next;
      next := WriteChar(buffer, start, input[i]);
      Appended(before[start..], done, e, before[next..]);
    }
    assert input[..|input|] == input;
  }

  /** Writing behind what is done. */
  lemma Appended(rest: seq<byte>, done: seq<byte>, e: seq<byte>, behind: seq<byte>)
    requires |e| <= |rest| && behind == rest[|e|..]
    ensures (done + rest)[..|done|] == done && (done + rest)[|done| + |e|..] == behind
  {}

  lemma EscapedPart(s: seq<byte>, i: nat)
    requires i <= |s|
    ensures |Escaped(s[..i])| <= |Escaped(s)|
  {
    hide Escaped;
    assert s == s[..i] + s[i..];
    EscapedConcat(s[..i], s[i..]);
  }

  /** Between quotes, and a terminator behind them. */
  ghost predicate Stored(b: seq<byte>, before: seq<byte>, text: seq<byte>) {
    |before| + |text| + 3 <= |b| && b[..|before| + |text| + 3] == before + [QUOTE] + text + [QUOTE, 0]
  }

  lemma StoredShows(b: seq<byte>, before: seq<byte>, text: seq<byte>)
    requires Stored(b, before, text)
    ensures b[..|before|] == before && Shows(b, |before|, [QUOTE] + text + [QUOTE])
  {
    var n, whole := |text|, before + [QUOTE] + text + [QUOTE, 0];
    assert b[..|before|] == b[..|before| + n + 3][..|before|];
    assert b[|before|..|before| + n + 2] == b[..|before| + n + 3][|before|..|before| + n + 2];
    assert whole[|before|..|before| + n + 2] == [QUOTE] + text + [QUOTE];
    assert b[|before| + n + 2] == b[..|before| + n + 3][|before| + n + 2];
  }

  /** Writes exactly the quoted and escaped string and a terminator. */
  method PrintStringPtr(input: seq<byte>, p: PrintBuffer) returns (ok: bool)
    requires p.Valid() && NulFree(input)
    modifies p`buffer, p.buffer
    ensures p.Valid() && (p.buffer == old(p.buffer) || (fresh(p.buffer) && !p.noalloc)) && p.Limit() == old(p.Limit())
    ensures ok <==> p.offset + |Quoted(input)| + 2 <= p.Limit()
    ensures ok ==> Printed(p, old(p.buffer[..p.offset]), Quoted(input))
  {
    hide Escaped, Stored, Shows;
    var escapeCharacters := CountEscapes(input);
    var outputLength := |input| + escapeCharacters;
    ok := p.Ensure(outputLength + 3);
    if ok {
      ghost var before := p.buffer[..p.offset];
      NothingEscaped(input);
      if escapeCharacters == 0 {
        WriteUnescaped(p.buffer, p.offset, input);
      } else {
        WriteQuoted(p.buffer, p.offset, input);
      }
      ghost var b := p.buffer[..];
      StoredShows(b, before, Escaped(input));
      assert p.buffer[..p.offset] == b[..p.offset];
    }
  }

  method WriteQuoted(output: array<byte>, o: nat, input: seq<byte>)
    requires o + |Escaped(input)| + 3 <= output.Length
    modifies output
    ensures Stored(output[..], old(output[..o]), Escaped(input))
  {
    hide Escaped;
    var n := |Escaped(input)|;
    ghost var before := output[..o];
    output[o] := QUOTE;
    assert output[..o + 1] == before + [QUOTE];
    WriteEscaped(output, o + 1, input);
    ghost var b := output[..];
    output[o + n + 1], output[o + n + 2] := QUOTE, 0;
    assert output[..] == b[o + n + 1 := QUOTE][o + n + 2 := 0];
    assert output[..o + n + 3] == b[..o + n + 1] + [QUOTE, 0];
  }

  /** No byte needs escaping. */
  method WriteUnescaped(output: array<byte>, o: nat, input: seq<byte>)
    requires o + |input| + 3 <= output.Length
    modifies output
    ensures Stored(output[..], old(output[..o]), input)
  {
    ghost var before := output[..o];
    output[o] := QUOTE;
    for i := 0 to |input|
      invariant output[..o + 1 + i] == before + [QUOTE] + input[..i]
    {
      ghost var done := output[..o + 1 + i];
      output[o + 1 + i] := input[i];
      assert output[..o + 2 + i] == done + [input[i]];
    }
    ghost var done := output[..o + 1 + |input|];
    output[o + |input| + 1], output[o + |input| + 2] := QUOTE, 0;
    assert output[..o + |input| + 3] == done + [QUOTE, 0];
  }
}
