/** Strings in JSON text: how they are escaped, and how the two-pass parser takes them back. */
module JsonStrings {
  import opened Bits
  import opened Options

  const QUOTE: byte := 34
  const BACKSLASH: byte := 92
  const LETTER_U: byte := 117

  // ----- printing

  /** A lower-case hexadecimal digit. */
  function HexDigit(n: nat): byte
    requires n < 16
  {
    if n < 10 then 48 + n else 87 + n
  }

  /** The letter of a two-character escape, or 0 if there is none. */
  function ShortEscape(c: byte): byte {
    if c == QUOTE || c == BACKSLASH then c
    else if c == 8 then 98
    else if c == 12 then 102
    else if c == 10 then 110
    else if c == 13 then 114
    else if c == 9 then 116
    else 0
  }

  function EscapedChar(c: byte): (r: seq<byte>)
    ensures |r| >= 1
  {
    if ShortEscape(c) != 0 then [BACKSLASH, ShortEscape(c)]
    else if c < 32 then [BACKSLASH, LETTER_U, 48, 48, HexDigit(c / 16), HexDigit(c % 16)]
    else [c]
  }

  function Escaped(s: seq<byte>): seq<byte> {
    if s == [] then [] else EscapedChar(s[0]) + Escaped(s[1..])
  }

  /** The text of a string. */
  function Quoted(s: seq<byte>): seq<byte> {
    [QUOTE] + Escaped(s) + [QUOTE]
  }

  predicate NulFree(s: seq<byte>) {
    forall k :: 0 <= k < |s| ==> s[k] != 0
  }

  // ----- the first pass: where the string ends

  /**
   The end of the string literal as the first pass finds it, with the number of backslashes it took for escapes;
   a backslash hides the byte behind it.
   */
  function Closing(c: seq<byte>, i: nat): Option<(nat, nat)>
    requires i <= |c|
    decreases |c| - i
  {
    if i == |c| then None
    else if c[i] == QUOTE then Some((i, 0))
    else if c[i] == BACKSLASH then
      if i + 1 == |c| then None
      else
        match Closing(c, i + 2)
        case None => None
        case Some((end, skipped)) => Some((end, skipped + 1))
    else Closing(c, i + 1)
  }

  lemma {:induction false} ClosingBounds(c: seq<byte>, i: nat)
    requires i <= |c|
    ensures Closing(c, i).Some? ==>
      var (end, skipped) := Closing(c, i).value;
      i <= end < |c| && c[end] == QUOTE && skipped <= end - i
    decreases |c| - i
  {
    if i < |c| && c[i] != QUOTE {
      if c[i] != BACKSLASH {
        ClosingBounds(c, i + 1);
      } else if i + 1 < |c| {
        ClosingBounds(c, i + 2);
      }
    }
  }

  // ----- hexadecimal digits

  function HexValue(c: byte): (r: int)
    ensures -1 <= r < 16
  {
    if 48 <= c <= 57 then c - 48
    else if 65 <= c <= 70 then 10 + c - 65
    else if 97 <= c <= 102 then 10 + c - 97
    else -1
  }

  /** The value of n digits, or -1 if one of them is none. */
  function HexNumber(c: seq<byte>, i: nat, n: nat): (r: int)
    requires i + n <= |c| && n <= 4
    ensures -1 <= r < [1, 16, 0x100, 0x1000, 0x10000][n]
  {
    if n == 0 then 0
    else
      var high, low := HexNumber(c, i, n - 1), HexValue(c[i + n - 1]);
      if high < 0 || low < 0 then -1 else 16 * high + low
  }

  /** Four digits, or 0 if one of them is none. */
  function Hex4(c: seq<byte>, i: nat): (r: nat)
    requires i + 4 <= |c|
    ensures r < 0x10000
  {
    if HexNumber(c, i, 4) < 0 then 0 else HexNumber(c, i, 4)
  }

  lemma {:induction false} HexNumberFails(c: seq<byte>, i: nat, m: nat, n: nat)
    requires i + n <= |c| && m <= n <= 4 && HexNumber(c, i, m) < 0
    ensures HexNumber(c, i, n) < 0
  {
    if m < n {
      HexNumberFails(c, i, m, n - 1);
    }
  }

  method ParseHex4(c: seq<byte>, at: nat) returns (h: nat)
    requires at + 4 <= |c|
    ensures h == Hex4(c, at)
  {
    h := 0;
    for i := 0 to 4
      invariant HexNumber(c, at, i) >= 0
      invariant h == if i < 4 then 16 * HexNumber(c, at, i) else HexNumber(c, at, i)
    {
      var d := c[at + i];
      if 48 <= d <= 57 {
        h := h + d - 48;
      } else if 65 <= d <= 70 {
        h := h + 10 + d - 65;
      } else if 97 <= d <= 102 {
        h := h + 10 + d - 97;
      } else {
        HexNumberFails(c, at, i + 1, 4);
        return 0;
      }
      if i < 3 {
        h := 16 * h;
      }
    }
  }

  // ----- UTF-16 literals

  /** The bytes of a code point, as in section 3 of RFC 3629. */
  function Utf8(p: nat): (r: seq<byte>)
    requires p < 0x110000
    ensures 1 <= |r| <= 4
  {
    if p < 0x80 then [p]
    else if p < 0x800 then [0xC0 + p / 64, 0x80 + p % 64]
    else if p < 0x10000 then [0xE0 + p / 4096, 0x80 + p / 64 % 64, 0x80 + p % 64]
    else [0xF0 + p / 262144, 0x80 + p / 4096 % 64, 0x80 + p / 64 % 64, 0x80 + p % 64]
  }

  predicate HighSurrogate(w: nat) {
    0xD800 <= w <= 0xDBFF
  }

  predicate LowSurrogate(w: nat) {
    0xDC00 <= w <= 0xDFFF
  }

  /** The code point of the escape at i and the number of bytes it takes, as in section 2.2 of RFC 2781. */
  function LiteralAt(c: seq<byte>, i: nat, end: nat): (r: Option<(nat, nat)>)
    requires i < end < |c|
    ensures r.Some? ==> r.value.0 < 0x110000 && (r.value.1 == 6 || r.value.1 == 12) && i + r.value.1 <= end
  {
    if end - i < 6 then None
    else
      var first := Hex4(c, i + 2);
      if LowSurrogate(first) then None
      else if HighSurrogate(first) then
        if end - (i + 6) < 6 || c[i + 6] != BACKSLASH || c[i + 7] != LETTER_U then None
        else
          var second := Hex4(c, i + 8);
          if !LowSurrogate(second) then None
          else Some((0x10000 + (first - 0xD800) * 0x400 + (second - 0xDC00), 12))
      else Some((first, 6))
  }

  // ----- the second pass: what the string contains

  /** The bytes between i and the closing quote with the escapes resolved; the last escape may swallow the quote. */
  function Unescaped(c: seq<byte>, i: nat, end: nat): Option<seq<byte>>
    requires end < |c|
    decreases end - i
  {
    if i >= end then Some([])
    else if c[i] != BACKSLASH then Prepended([c[i]], Unescaped(c, i + 1, end))
    else if ShortUnescape(c[i + 1]) != 0 then Prepended([ShortUnescape(c[i + 1])], Unescaped(c, i + 2, end))
    else if c[i + 1] == LETTER_U then
      match LiteralAt(c, i, end)
      case None => None
      case Some((p, length)) => Prepended(Utf8(p), Unescaped(c, i + length, end))
    else None
  }

  /** The byte a two-character escape stands for, or 0 if it is none. */
  function ShortUnescape(c: byte): byte {
    if c == 98 then 8
    else if c == 102 then 12
    else if c == 110 then 10
    else if c == 114 then 13
    else if c == 116 then 9
    else if c == QUOTE || c == BACKSLASH || c == 47 then c
    else 0
  }

  function Prepended(a: seq<byte>, rest: Option<seq<byte>>): Option<seq<byte>> {
    match rest
    case None => None
    case Some(b) => Some(a + b)
  }

  lemma PrependedTwice(a: seq<byte>, b: seq<byte>, rest: Option<seq<byte>>)
    ensures Prepended(a, Prepended(b, rest)) == Prepended(a + b, rest)
    ensures Prepended([], rest) == rest
  {
    if rest.Some? {
      assert a + (b + rest.value) == a + b + rest.value;
      assert [] + rest.value == rest.value;
    }
  }

  // ----- why the buffer is large enough

  /** Whether the first pass, starting at a, skips byte k because a backslash precedes it. */
  predicate Hidden(c: seq<byte>, a: nat, k: nat)
    requires a <= k <= |c|
    decreases k
  {
    k > a && !Hidden(c, a, k - 1) && c[k - 1] == BACKSLASH
  }

  /** Bytes up to k that are not escaping backslashes of the first pass. */
  function Room(c: seq<byte>, a: nat, k: nat): (r: nat)
    requires a <= k <= |c|
    ensures r <= k - a
    decreases k
  {
    if k == a then 0
    else Room(c, a, k - 1) + if !Hidden(c, a, k - 1) && c[k - 1] == BACKSLASH then 0 else 1
  }

  lemma {:induction false} RoomOfClosing(c: seq<byte>, a: nat, i: nat)
    requires a <= i <= |c| && !Hidden(c, a, i) && Closing(c, i).Some?
    ensures var (end, skipped) := Closing(c, i).value;
            i <= end < |c| && !Hidden(c, a, end) && Room(c, a, end) - Room(c, a, i) == end - i - skipped
    decreases |c| - i
  {
    if c[i] != QUOTE {
      if c[i] == BACKSLASH {
        RoomOfClosing(c, a, i + 2);
      } else {
        RoomOfClosing(c, a, i + 1);
      }
    }
  }

  lemma {:induction false} RoomMonotone(c: seq<byte>, a: nat, j: nat, k: nat)
    requires a <= j <= k <= |c|
    ensures Room(c, a, j) <= Room(c, a, k)
    decreases k
  {
    if j < k {
      RoomMonotone(c, a, j, k - 1);
    }
  }

  /** Wherever an escape of the second pass starts, there is room for one byte. */
  lemma RoomForShort(c: seq<byte>, a: nat, i: nat, end: nat)
    requires a <= i < end <= |c| && c[i] == BACKSLASH && !Hidden(c, a, end)
    ensures Room(c, a, i) + 1 <= Room(c, a, if i + 2 <= end then i + 2 else end)
  {
    if !Hidden(c, a, i) {
      assert Hidden(c, a, i + 1);
      assert i + 1 < end;
      assert Room(c, a, i + 2) == Room(c, a, i + 1) + 1;
    } else {
      assert Room(c, a, i + 1) == Room(c, a, i) + 1;
      if i + 2 <= end {
        RoomMonotone(c, a, i + 1, i + 2);
      }
    }
  }

  /** Digits are no backslashes. */
  lemma {:induction false} RoomForDigits(c: seq<byte>, a: nat, i: nat, n: nat)
    requires a <= i && i + n <= |c| && n <= 4 && HexNumber(c, i, n) >= 0
    ensures Room(c, a, i + n) == Room(c, a, i) + n
  {
    if n > 0 {
      RoomForDigits(c, a, i, n - 1);
      assert HexValue(c[i + n - 1]) >= 0;
    }
  }

  /** Wherever a literal of the second pass starts, there is room for its bytes. */
  lemma RoomForLiteral(c: seq<byte>, a: nat, i: nat, end: nat)
    requires a <= i < end < |c| && c[i] == BACKSLASH && !Hidden(c, a, end) && LiteralAt(c, i, end).Some?
    ensures var (p, length) := LiteralAt(c, i, end).value;
            Room(c, a, i) + |Utf8(p)| <= Room(c, a, i + length)
  {
    hide Room, Hidden, HexValue, HexNumber;
    var (p, length) := LiteralAt(c, i, end).value;
    RoomForShort(c, a, i, end);
    RoomMonotone(c, a, i, i + 2);
    RoomMonotone(c, a, i + 6, i + length);
    if Hex4(c, i + 2) == 0 {
      RoomMonotone(c, a, i + 2, i + length);
    } else {
      RoomForDigits(c, a, i + 2, 4);
    }
  }
}
