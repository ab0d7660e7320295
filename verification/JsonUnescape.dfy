/** The parser's string reader: two passes over the text, bytes written into a buffer of precomputed size. */
module JsonUnescape {
  import opened Bits
  import opened JsonStrings

  // ----- bit arithmetic of the encoder for UTF-8

  /** One step of a masked or. */
  lemma MaskStep(a: nat, b: nat, m: nat)
    ensures And(Or(a, b), m) == 2 * And(Or(a / 2, b / 2), m / 2)
      + if (a % 2 == 1 || b % 2 == 1) && m % 2 == 1 then 1 else 0
  {
    hide And, Or;
    var x, y := Or(a, b), Or(a / 2, b / 2);
    OrStep(a, b);
    assert x / 2 == y && x % 2 == x - 2 * y;
    AndStep(x, m);
  }

  /** k digits behind the marker 10. */
  lemma {:induction false} Continuation(p: nat, k: nat)
    ensures And(Or(p, 2 * Pow2(k)), 3 * Pow2(k) - 1) == 2 * Pow2(k) + p % Pow2(k)
    decreases k
  {
    hide And, Or;
    if k == 0 {
      MaskStep(p, 2, 2);
      MaskStep(p / 2, 1, 1);
      AndZero(Or(p / 2 / 2, 0));
    } else {
      Continuation(p / 2, k - 1);
      ContinuationStep(p, Pow2(k - 1));
    }
  }

  lemma ContinuationStep(p: nat, h: nat)
    requires h > 0 && And(Or(p / 2, 2 * h), 3 * h - 1) == 2 * h + p / 2 % h
    ensures And(Or(p, 4 * h), 6 * h - 1) == 4 * h + p % (2 * h)
  {
    hide And, Or;
    MaskStep(p, 4 * h, 6 * h - 1);
    assert (6 * h - 1) / 2 == 3 * h - 1 && 4 * h / 2 == 2 * h;
    HalfRemainder(p, h);
  }

  lemma ContinuationByte(p: nat)
    ensures And(Or(p, 0x80), 0xBF) == 0x80 + p % 64
  {
    hide And, Or;
    assert Pow2(6) == 64;
    Continuation(p, 6);
  }

  lemma {:induction false} OrCommutes(a: nat, b: nat)
    ensures Or(a, b) == Or(b, a)
    decreases a + b
  {
    if a > 0 || b > 0 {
      OrCommutes(a / 2, b / 2);
    }
  }

  /** A first byte: the marker above k digits. */
  lemma FirstByte(p: nat, marker: nat, k: nat, m: nat)
    requires p < Pow2(k) && m == marker * Pow2(k) && m + p < 256
    ensures And(Or(p, m), 0xFF) == m + p
  {
    hide And, Or, Pow2;
    OrCommutes(p, m);
    OrDisjoint(marker, p, k);
    AndByte(m + p);
  }

  lemma AndByte(n: nat)
    requires n < 256
    ensures And(n, 0xFF) == n
  {
    hide And;
    assert Pow2(8) == 256;
    AndOnes(n, 8);
  }

  lemma And10(n: nat)
    ensures And(n, 0x3FF) == n % 0x400
  {
    hide And;
    assert Pow2(10) == 0x400;
    AndOnes(n, 10);
  }

  lemma SurrogatePair(first: nat, second: nat)
    requires HighSurrogate(first) && LowSurrogate(second)
    ensures Or(And(first, 0x3FF) * 0x400, And(second, 0x3FF)) == (first - 0xD800) * 0x400 + (second - 0xDC00)
  {
    hide And, Or;
    And10(first);
    And10(second);
    assert Pow2(10) == 0x400;
    OrDisjoint(first - 0xD800, second - 0xDC00, 10);
  }

  // ----- writing

  /** The buffer with the bytes written at o. */
  function Written(buffer: seq<byte>, o: nat, bytes: seq<byte>): (r: seq<byte>)
    requires o + |bytes| <= |buffer|
    ensures |r| == |buffer|
  {
    buffer[..o] + bytes + buffer[o + |bytes|..]
  }

  /** The code point that is left after n continuation bytes. */
  function Remaining(p: nat, n: nat): nat
    requires n < 4
  {
    if n == 0 then p else if n == 1 then p / 64 else if n == 2 then p / 4096 else p / 262144
  }

  lemma RemainingStep(p: nat, n: nat)
    requires n < 3
    ensures Remaining(p, n) / 64 == Remaining(p, n + 1)
  {}

  /** Byte k of the encoding, counted from the front. */
  lemma Utf8At(p: nat, k: nat)
    requires p < 0x110000 && k < |Utf8(p)|
    ensures k > 0 ==> Utf8(p)[k] == 0x80 + Remaining(p, |Utf8(p)| - 1 - k) % 64
    ensures k == 0 ==> Utf8(p)[0] == Marker(|Utf8(p)|) + Remaining(p, |Utf8(p)| - 1)
  {}

  function Marker(length: nat): nat {
    if length == 2 then 0xC0 else if length == 3 then 0xE0 else if length == 4 then 0xF0 else 0
  }

  lemma LeadByte(p: nat)
    requires 0x80 <= p < 0x110000
    ensures var n := |Utf8(p)|;
            And(Or(Remaining(p, n - 1), Marker(n)), 0xFF) == Marker(n) + Remaining(p, n - 1) == Utf8(p)[0]
  {
    hide And, Or;
    assert Pow2(5) == 32 && Pow2(4) == 16 && Pow2(3) == 8;
    if p < 0x800 {
      FirstByte(p / 64, 6, 5, 0xC0);
    } else if p < 0x10000 {
      FirstByte(p / 4096, 14, 4, 0xE0);
    } else {
      FirstByte(p / 262144, 30, 3, 0xF0);
    }
  }

  method WriteUtf8(codepoint0: nat, utf8Length: nat, firstByteMark: nat, output: array<byte>, o: nat)
    requires codepoint0 < 0x110000 && utf8Length == |Utf8(codepoint0)| && firstByteMark == Marker(utf8Length)
    requires o + utf8Length <= output.Length
    modifies output
    ensures output[..] == Written(old(output[..]), o, Utf8(codepoint0))
  {
    hide And, Or, Utf8, Remaining, Pow2;
    var codepoint := codepoint0;
    var position := utf8Length - 1;
    NothingShifted(codepoint0);
    while position > 0
      invariant 0 <= position < utf8Length
      invariant codepoint == Remaining(codepoint0, utf8Length - 1 - position)
      invariant forall k :: position < k < utf8Length ==> output[o + k] == Utf8(codepoint0)[k]
      invariant forall k :: 0 <= k < output.Length && !(o + position < k < o + utf8Length) ==>
        output[k] == old(output[k])
    {
      ContinuationByte(codepoint);
      Utf8At(codepoint0, position);
      RemainingStep(codepoint0, utf8Length - 1 - position);
      output[o + position] := And(Or(codepoint, 0x80), 0xBF);
      codepoint := codepoint / 64;
      position := position - 1;
    }
    Utf8At(codepoint0, 0);
    if utf8Length > 1 {
      LongCode(codepoint0);
      LeadByte(codepoint0);
      output[o] := And(Or(codepoint, firstByteMark), 0xFF);
    } else {
      ShortCode(codepoint0);
      output[o] := And(codepoint, 0x7F);
    }
    assert output[..] == Written(old(output[..]), o, Utf8(codepoint0));
  }

  lemma NothingShifted(p: nat)
    ensures Remaining(p, 0) == p
  {}

  lemma LongCode(p: nat)
    requires p < 0x110000 && |Utf8(p)| > 1
    ensures p >= 0x80
  {}

  lemma ShortCode(p: nat)
    requires p < 0x110000 && |Utf8(p)| == 1
    ensures And(p, 0x7F) == p == Utf8(p)[0]
  {
    hide And;
    assert Pow2(7) == 0x80;
    AndOnes(p, 7);
  }

  method Utf16LiteralToUtf8(c: seq<byte>, i: nat, end: nat, output: array<byte>, o: nat)
      returns (sequenceLength: nat, next: nat)
    requires i < end < |c| && o <= output.Length
    requires LiteralAt(c, i, end).Some? ==> o + |Utf8(LiteralAt(c, i, end).value.0)| <= output.Length
    modifies output
    ensures LiteralAt(c, i, end).None? ==> sequenceLength == 0 && next == o && output[..] == old(output[..])
    ensures LiteralAt(c, i, end).Some? ==>
      var (p, length) := LiteralAt(c, i, end).value;
      sequenceLength == length && next == o + |Utf8(p)| && output[..] == Written(old(output[..]), o, Utf8(p))
  {
    hide Hex4, And, Or;
    if end - i < 6 {
      return 0, o;
    }
    var firstCode := ParseHex4(c, i + 2);
    if 0xDC00 <= firstCode <= 0xDFFF {
      return 0, o;
    }
    var codepoint := firstCode;
    sequenceLength := 6;
    if 0xD800 <= firstCode <= 0xDBFF {
      sequenceLength := 12;
      if end - (i + 6) < 6 {
        return 0, o;
      }
      if c[i + 6] != BACKSLASH || c[i + 7] != LETTER_U {
        return 0, o;
      }
      var secondCode := ParseHex4(c, i + 8);
      if secondCode < 0xDC00 || secondCode > 0xDFFF {
        return 0, o;
      }
      SurrogatePair(firstCode, secondCode);
      codepoint := 0x10000 + Or(And(firstCode, 0x3FF) * 0x400, And(secondCode, 0x3FF));
    }
    var utf8Length, firstByteMark := 1, 0;
    if codepoint < 0x80 {
    } else if codepoint < 0x800 {
      utf8Length, firstByteMark := 2, 0xC0;
    } else if codepoint < 0x10000 {
      utf8Length, firstByteMark := 3, 0xE0;
    } else {
      utf8Length, firstByteMark := 4, 0xF0;
    }
    WriteUtf8(codepoint, utf8Length, firstByteMark, output, o);
    next := o + utf8Length;
  }
}
