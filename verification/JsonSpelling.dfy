/**
 How a string may be spelled in JSON text (RFC 8259, section 7), written down without the reader; the reader takes every
 spelling for the string it spells.
 */
module JsonSpelling {
  import opened Bits
  import opened Options
  import opened JsonStrings
  import opened JsonParseString

  // ----- finding bytes

  /** The bytes are found at position p. */
  predicate FoundAt(c: seq<byte>, p: nat, x: seq<byte>) {
    p + |x| <= |c| && c[p..p + |x|] == x
  }

  lemma FoundSplit(c: seq<byte>, p: nat, x: seq<byte>, y: seq<byte>)
    requires FoundAt(c, p, x + y)
    ensures FoundAt(c, p, x) && FoundAt(c, p + |x|, y)
  {
    assert c[p..p + |x|] == (x + y)[..|x|];
    assert c[p + |x|..p + |x| + |y|] == (x + y)[|x|..];
  }

  lemma FoundInside(c: seq<byte>, p: nat, x: seq<byte>)
    requires FoundAt(c, p, x)
    ensures p + |x| <= |c|
  {}

  lemma FoundByte(c: seq<byte>, p: nat, x: seq<byte>, k: nat)
    requires FoundAt(c, p, x) && k < |x|
    ensures p + k < |c| && c[p + k] == x[k]
  {
    assert c[p..p + |x|][k] == c[p + k];
  }

  // ----- spellings

  /** The letter behind a backslash and the byte that it stands for. */
  predicate IsShort(letter: byte, b: byte) {
    || (letter == 34 && b == 34)
    || (letter == 92 && b == 92)
    || (letter == 47 && b == 47)
    || (letter == 98 && b == 8)
    || (letter == 102 && b == 12)
    || (letter == 110 && b == 10)
    || (letter == 114 && b == 13)
    || (letter == 116 && b == 9)
  }

  predicate IsHexDigit(d: byte, v: nat) {
    (v < 10 && d == 48 + v) || (10 <= v < 16 && (d == 55 + v || d == 87 + v))
  }

  /** Four hexadecimal digits of either case. */
  predicate IsHex(d: seq<byte>, n: nat) {
    && |d| == 4 && n < 65536
    && IsHexDigit(d[0], n / 4096) && IsHexDigit(d[1], n / 256 % 16) && IsHexDigit(d[2], n / 16 % 16)
    && IsHexDigit(d[3], n % 16)
  }

  /** What a byte of an encoding holds besides its marker; all but the first bytes hold six bits. */
  function Held(b: int, marker: nat): int {
    b - marker
  }

  predicate Continues(b: int) {
    0 <= Held(b, 128) < 64
  }

  /** The bytes encode the code point, as in the table of section 3 of RFC 3629. */
  predicate IsUtf8(s: seq<byte>, p: nat) {
    || (|s| == 1 && p < 128 && s[0] == p)
    || (|s| == 2 && 128 <= p < 2048 && Continues(s[1]) && p == Held(s[0], 192) * 64 + Held(s[1], 128))
    || (|s| == 3 && 2048 <= p < 65536 && Continues(s[1]) && Continues(s[2])
        && p == Held(s[0], 224) * 4096 + Held(s[1], 128) * 64 + Held(s[2], 128))
    || (|s| == 4 && 65536 <= p < 1114112 && Continues(s[1]) && Continues(s[2]) && Continues(s[3])
        && p == Held(s[0], 240) * 262144 + Held(s[1], 128) * 4096 + Held(s[2], 128) * 64 + Held(s[3], 128))
  }

  /** A piece of a spelling, with the bytes that it stands for. */
  datatype Piece =
    | Raw(b: byte)
    | Short(letter: byte, meaning: byte)
    | Unit(digits: seq<byte>, code: nat, utf8: seq<byte>)
    | Pair(high: seq<byte>, highCode: nat, low: seq<byte>, lowCode: nat, utf8: seq<byte>)
  {
    predicate Valid() {
      match this
      case Raw(b) => 32 <= b && b != 34 && b != 92
      case Short(letter, b) => IsShort(letter, b)
      case Unit(digits, code, utf8) => IsHex(digits, code) && !(0xD800 <= code <= 0xDFFF) && IsUtf8(utf8, code)
      case Pair(high, highCode, low, lowCode, utf8) =>
        && IsHex(high, highCode) && 0xD800 <= highCode <= 0xDBFF
        && IsHex(low, lowCode) && 0xDC00 <= lowCode <= 0xDFFF
        && IsUtf8(utf8, 65536 + 1024 * (highCode - 0xD800) + (lowCode - 0xDC00))
    }

    function Text(): seq<byte> {
      match this
      case Raw(b) => [b]
      case Short(letter, _) => [92, letter]
      case Unit(digits, _, _) => [92, 117] + digits
      case Pair(high, _, low, _, _) => [92, 117] + high + ([92, 117] + low)
    }

    function Meaning(): seq<byte> {
      match this
      case Raw(b) => [b]
      case Short(_, b) => [b]
      case Unit(_, _, utf8) => utf8
      case Pair(_, _, _, _, utf8) => utf8
    }
  }

  predicate Spelled(pieces: seq<Piece>) {
    forall i :: 0 <= i < |pieces| ==> pieces[i].Valid()
  }

  function Spelling(pieces: seq<Piece>): seq<byte> {
    if pieces == [] then [] else pieces[0].Text() + Spelling(pieces[1..])
  }

  function Meant(pieces: seq<Piece>): seq<byte> {
    if pieces == [] then [] else pieces[0].Meaning() + Meant(pieces[1..])
  }

  // ----- digits and code points

  lemma DigitValue(d: byte, v: nat)
    requires IsHexDigit(d, v)
    ensures HexValue(d) == v && d != 34 && d != 92
  {}

  lemma HexRead(c: seq<byte>, i: nat, d: seq<byte>, n: nat)
    requires IsHex(d, n) && FoundAt(c, i, d)
    ensures i + 4 <= |c| && Hex4(c, i) == n
    ensures forall k :: i <= k < i + 4 ==> c[k] != 34 && c[k] != 92
  {
    hide HexValue, IsHexDigit, HexNumber;
    FoundByte(c, i, d, 0);
    FoundByte(c, i, d, 1);
    FoundByte(c, i, d, 2);
    FoundByte(c, i, d, 3);
    DigitValue(d[0], n / 4096);
    DigitValue(d[1], n / 256 % 16);
    DigitValue(d[2], n / 16 % 16);
    DigitValue(d[3], n % 16);
    HexStart(c, i);
    HexStep(c, i, 1);
    HexStep(c, i, 2);
    HexStep(c, i, 3);
    HexStep(c, i, 4);
    FourDigits(n);
  }

  lemma FourDigits(n: nat)
    ensures 16 * (16 * (16 * (n / 4096) + n / 256 % 16) + n / 16 % 16) + n % 16 == n
  {
    assert n / 16 / 16 == n / 256 && n / 256 / 16 == n / 4096;
  }

  lemma HexStart(c: seq<byte>, i: nat)
    requires i <= |c|
    ensures HexNumber(c, i, 0) == 0
  {}

  lemma HexStep(c: seq<byte>, i: nat, n: nat)
    requires 1 <= n <= 4 && i + n <= |c|
    ensures HexNumber(c, i, n) ==
      if HexNumber(c, i, n - 1) < 0 || HexValue(c[i + n - 1]) < 0 then -1
      else 16 * HexNumber(c, i, n - 1) + HexValue(c[i + n - 1])
  {}

  /** The encoding is the one that the parser writes. */
  lemma Utf8IsUnique(s: seq<byte>, p: nat)
    requires IsUtf8(s, p)
    ensures p < 0x110000 && Utf8(p) == s
  {
    if |s| == 2 {
      SixBits(Held(s[0], 192), Held(s[1], 128));
    } else if |s| == 3 {
      var q := Held(s[0], 224) * 64 + Held(s[1], 128);
      SixBits(q, Held(s[2], 128));
      SixBits(Held(s[0], 224), Held(s[1], 128));
      Quarters(p);
    } else if |s| == 4 {
      var r := Held(s[0], 240) * 64 + Held(s[1], 128);
      var q := r * 64 + Held(s[2], 128);
      SixBits(q, Held(s[3], 128));
      SixBits(r, Held(s[2], 128));
      SixBits(Held(s[0], 240), Held(s[1], 128));
      Quarters(p);
    }
  }

  lemma SixBits(a: int, b: int)
    requires 0 <= b < 64
    ensures (a * 64 + b) / 64 == a && (a * 64 + b) % 64 == b
  {}

  lemma Quarters(p: nat)
    ensures p / 4096 == p / 64 / 64 && p / 262144 == p / 64 / 64 / 64
  {}

  // ----- the first pass

  function Advance(k: nat, r: Option<(nat, nat)>): Option<(nat, nat)> {
    match r
    case None => None
    case Some((end, skipped)) => Some((end, skipped + k))
  }

  /** Both find the same closing quote, or none. */
  predicate SameEnd(a: Option<(nat, nat)>, b: Option<(nat, nat)>) {
    (a.None? <==> b.None?) && (a.Some? && b.Some? ==> a.value.0 == b.value.0)
  }

  lemma ClosingStep(c: seq<byte>, i: nat)
    requires i < |c| && c[i] != QUOTE && (c[i] == BACKSLASH ==> i + 1 < |c|)
    ensures Closing(c, i) == if c[i] == BACKSLASH then Advance(1, Closing(c, i + 2)) else Advance(0, Closing(c, i + 1))
  {}

  /** The first pass goes over four digits. */
  lemma ClosingOfDigits(c: seq<byte>, i: nat)
    requires i + 4 <= |c| && forall k :: i <= k < i + 4 ==> c[k] != 34 && c[k] != 92
    ensures Closing(c, i) == Closing(c, i + 4)
  {
    hide Closing;
    ClosingStep(c, i);
    ClosingStep(c, i + 1);
    ClosingStep(c, i + 2);
    ClosingStep(c, i + 3);
  }

  lemma ClosingOfUnit(c: seq<byte>, i: nat, d: seq<byte>, n: nat)
    requires IsHex(d, n) && FoundAt(c, i, [92, 117] + d)
    ensures i + 6 <= |c| && Closing(c, i) == Advance(1, Closing(c, i + 6))
  {
    hide Closing, IsHex, FoundAt, Hex4;
    FoundSplit(c, i, [92, 117], d);
    FoundByte(c, i, [92, 117], 0);
    HexRead(c, i + 2, d, n);
    ClosingStep(c, i);
    ClosingOfDigits(c, i + 2);
  }

  lemma ClosingOfPiece(c: seq<byte>, i: nat, x: Piece)
    requires x.Valid() && FoundAt(c, i, x.Text())
    ensures i + |x.Text()| <= |c|
    ensures SameEnd(Closing(c, i), Closing(c, i + |x.Text()|))
  {
    hide Closing, IsHex, FoundAt, IsUtf8;
    TextLength(x);
    FoundByte(c, i, x.Text(), 0);
    match x
    case Raw(b) => ClosingStep(c, i);
    case Short(_, _) =>
      FoundByte(c, i, x.Text(), 1);
      ClosingStep(c, i);
    case Unit(digits, code, _) =>
      ClosingOfUnit(c, i, digits, code);
    case Pair(high, highCode, low, lowCode, _) =>
      HexLength(high, highCode);
      FoundSplit(c, i, [92, 117] + high, [92, 117] + low);
      ClosingOfUnit(c, i, high, highCode);
      ClosingOfUnit(c, i + 6, low, lowCode);
  }

  lemma HexLength(d: seq<byte>, n: nat)
    requires IsHex(d, n)
    ensures |d| == 4
  {}

  lemma TextLength(x: Piece)
    requires x.Valid()
    ensures |x.Text()| == match x {
                            case Raw(_) => 1
                            case Short(_, _) => 2
                            case Unit(_, _, _) => 6
                            case Pair(_, _, _, _, _) => 12
                          }
  {}

  lemma {:induction false} ClosingOfSpelling(c: seq<byte>, i: nat, pieces: seq<Piece>)
    requires Spelled(pieces) && FoundAt(c, i, Spelling(pieces) + [QUOTE])
    ensures Closing(c, i).Some? && Closing(c, i).value.0 == i + |Spelling(pieces)|
    decreases |pieces|
  {
    hide FoundAt, Piece.Valid, Piece.Text;
    if pieces == [] {
      FoundByte(c, i, Spelling(pieces) + [QUOTE], 0);
    } else {
      var x, rest := pieces[0], pieces[1..];
      assert Spelling(pieces) + [QUOTE] == x.Text() + (Spelling(rest) + [QUOTE]);
      FoundSplit(c, i, x.Text(), Spelling(rest) + [QUOTE]);
      ClosingOfPiece(c, i, x);
      ClosingOfSpelling(c, i + |x.Text()|, rest);
    }
  }

  // ----- the second pass

  lemma UnescapedStep(c: seq<byte>, i: nat, end: nat)
    requires i < end < |c|
    ensures c[i] != BACKSLASH ==> Unescaped(c, i, end) == Prepended([c[i]], Unescaped(c, i + 1, end))
    ensures c[i] == BACKSLASH && ShortUnescape(c[i + 1]) != 0 ==>
      Unescaped(c, i, end) == Prepended([ShortUnescape(c[i + 1])], Unescaped(c, i + 2, end))
    ensures c[i] == BACKSLASH && c[i + 1] == LETTER_U && LiteralAt(c, i, end).Some? ==>
      var (p, length) := LiteralAt(c, i, end).value;
      Unescaped(c, i, end) == Prepended(Utf8(p), Unescaped(c, i + length, end))
  {}

  lemma ShortMeaning(letter: byte, b: byte)
    requires IsShort(letter, b)
    ensures ShortUnescape(letter) == b != 0
  {}

  lemma UnitRead(c: seq<byte>, i: nat, d: seq<byte>, n: nat)
    requires IsHex(d, n) && FoundAt(c, i, [92, 117] + d)
    ensures i + 6 <= |c| && c[i] == 92 && c[i + 1] == 117 && Hex4(c, i + 2) == n
  {
    hide IsHex, FoundAt, Hex4;
    FoundSplit(c, i, [92, 117], d);
    FoundByte(c, i, [92, 117], 0);
    FoundByte(c, i, [92, 117], 1);
    HexRead(c, i + 2, d, n);
  }

  lemma UnescapedPiece(c: seq<byte>, i: nat, x: Piece, end: nat)
    requires x.Valid() && FoundAt(c, i, x.Text()) && i + |x.Text()| <= end < |c|
    ensures Unescaped(c, i, end) == Prepended(x.Meaning(), Unescaped(c, i + |x.Text()|, end))
  {
    hide Unescaped, Hex4, IsHex, FoundAt, IsUtf8, Utf8, ShortUnescape, IsShort;
    TextLength(x);
    FoundByte(c, i, x.Text(), 0);
    UnescapedStep(c, i, end);
    match x
    case Raw(b) =>
    case Short(letter, b) =>
      FoundByte(c, i, x.Text(), 1);
      ShortMeaning(letter, b);
    case Unit(digits, code, utf8) =>
      UnitRead(c, i, digits, code);
      Utf8IsUnique(utf8, code);
    case Pair(high, highCode, low, lowCode, utf8) =>
      HexLength(high, highCode);
      FoundSplit(c, i, [92, 117] + high, [92, 117] + low);
      UnitRead(c, i, high, highCode);
      UnitRead(c, i + 6, low, lowCode);
      Utf8IsUnique(utf8, 65536 + 1024 * (highCode - 0xD800) + (lowCode - 0xDC00));
  }

  lemma {:induction false} UnescapedSpelling(c: seq<byte>, i: nat, pieces: seq<Piece>, end: nat)
    requires Spelled(pieces) && FoundAt(c, i, Spelling(pieces)) && i + |Spelling(pieces)| <= end < |c|
    ensures Unescaped(c, i, end) == Prepended(Meant(pieces), Unescaped(c, i + |Spelling(pieces)|, end))
    decreases |pieces|
  {
    hide FoundAt, Piece.Valid, Piece.Text, Piece.Meaning, Unescaped;
    if pieces == [] {
      PrependedTwice([], [], Unescaped(c, i, end));
    } else {
      var x, rest := pieces[0], pieces[1..];
      FoundSplit(c, i, x.Text(), Spelling(rest));
      UnescapedPiece(c, i, x, end);
      UnescapedSpelling(c, i + |x.Text()|, rest, end);
      PrependedTwice(x.Meaning(), Meant(rest), Unescaped(c, i + |Spelling(pieces)|, end));
    }
  }

  // ----- the theorems

  /** Every spelling between quotes is read as the string it spells, up to the first zero byte of that string. */
  lemma SpellingReads(c: seq<byte>, o: nat, pieces: seq<Piece>)
    requires Spelled(pieces) && FoundAt(c, o, [34] + Spelling(pieces) + [34])
    ensures o < |c| && StringAt(c, o) == Some((UntilNul(Meant(pieces)), o + |Spelling(pieces)| + 2))
  {
    hide FoundAt, Closing, Unescaped, Spelling, Meant, UntilNul, Spelled;
    var e := Spelling(pieces);
    assert [34] + e + [34] == [34] + (e + [34]);
    FoundSplit(c, o, [34], e + [34]);
    FoundByte(c, o, [34], 0);
    FoundSplit(c, o + 1, e, [34]);
    FoundByte(c, o + 1 + |e|, [34], 0);
    ClosingOfSpelling(c, o + 1, pieces);
    var end := o + 1 + |e|;
    UnescapedSpelling(c, o + 1, pieces, end);
    NothingLeft(c, end);
    assert Meant(pieces) + [] == Meant(pieces);
  }

  lemma NothingLeft(c: seq<byte>, end: nat)
    requires end < |c|
    ensures Unescaped(c, end, end) == Some([])
  {}

  /** The second pass fails if it comes to this place. */
  predicate Stops(c: seq<byte>, i: nat) {
    forall end: nat :: i < end < |c| ==> Unescaped(c, i, end) == None
  }

  /** If the second pass stops at a backslash behind a spelling, the whole literal is refused. */
  lemma RefusedAt(c: seq<byte>, o: nat, pieces: seq<Piece>, x: seq<byte>)
    requires Spelled(pieces) && |x| >= 2 && x[0] == 92 && FoundAt(c, o, [34] + Spelling(pieces) + x)
    requires Stops(c, o + 1 + |Spelling(pieces)|)
    ensures o < |c| && StringAt(c, o) == None
  {
    hide FoundAt, Closing, Unescaped, Spelling, Meant, UntilNul, Spelled, Stops;
    var e := Spelling(pieces);
    var i := o + 1 + |e|;
    assert [34] + e + x == [34] + (e + x);
    FoundSplit(c, o, [34], e + x);
    FoundByte(c, o, [34], 0);
    FoundSplit(c, o + 1, e, x);
    FoundByte(c, i, x, 0);
    FoundByte(c, i, x, 1);
    ClosingPast(c, o + 1, pieces);
    ClosingStep(c, i);
    ClosingBounds(c, i + 2);
    if Closing(c, o + 1).Some? {
      var end := Closing(c, o + 1).value.0;
      StopsHere(c, i, end);
      UnescapedSpelling(c, o + 1, pieces, end);
      NotRead(c, o, end);
    }
  }

  lemma StopsHere(c: seq<byte>, i: nat, end: nat)
    requires Stops(c, i) && i < end < |c|
    ensures Unescaped(c, i, end) == None
  {
    hide Unescaped;
  }

  lemma NotRead(c: seq<byte>, o: nat, end: nat)
    requires o < end < |c| && Closing(c, o + 1).Some? && Closing(c, o + 1).value.0 == end
    requires Unescaped(c, o + 1, end) == None
    ensures StringAt(c, o) == None
  {
    hide Closing, Unescaped;
  }

  lemma BehindSpelling(c: seq<byte>, o: nat, pieces: seq<Piece>, x: seq<byte>)
    requires FoundAt(c, o, [34] + Spelling(pieces) + x)
    ensures FoundAt(c, o + 1 + |Spelling(pieces)|, x)
  {
    hide FoundAt, Spelling;
    FoundSplit(c, o, [34] + Spelling(pieces), x);
  }

  /** Any other letter behind a backslash is refused, whatever stands in front and behind. */
  lemma OtherLetterRefused(c: seq<byte>, o: nat, pieces: seq<Piece>, letter: byte)
    requires Spelled(pieces) && FoundAt(c, o, [34] + Spelling(pieces) + [92, letter])
    requires letter != 117 && forall b: byte :: !IsShort(letter, b)
    ensures o < |c| && StringAt(c, o) == None
  {
    hide FoundAt, Unescaped, Spelling, Spelled, IsShort, StringAt;
    var i := o + 1 + |Spelling(pieces)|;
    BehindSpelling(c, o, pieces, [92, letter]);
    FoundByte(c, i, [92, letter], 0);
    FoundByte(c, i, [92, letter], 1);
    NoLetter(letter);
    forall end: nat | i < end < |c|
      ensures Unescaped(c, i, end) == None
    {
      LetterStops(c, i, end);
    }
    RefusedAt(c, o, pieces, [92, letter]);
  }

  /** So is a low surrogate on its own, and a high one without another escape behind it. */
  lemma LoneSurrogateRefused(c: seq<byte>, o: nat, pieces: seq<Piece>, digits: seq<byte>, code: nat)
    requires Spelled(pieces) && FoundAt(c, o, [34] + Spelling(pieces) + ([92, 117] + digits)) && IsHex(digits, code)
    requires var next := o + |Spelling(pieces)| + 7;
             || 0xDC00 <= code <= 0xDFFF
             || (0xD800 <= code <= 0xDBFF && next + 1 < |c| && !(c[next] == 92 && c[next + 1] == 117))
    ensures o < |c| && StringAt(c, o) == None
  {
    hide FoundAt, Unescaped, Spelling, Spelled, StringAt, IsHex, Hex4;
    var i := o + 1 + |Spelling(pieces)|;
    BehindSpelling(c, o, pieces, [92, 117] + digits);
    UnitRead(c, i, digits, code);
    forall end: nat | i < end < |c|
      ensures Unescaped(c, i, end) == None
    {
      LiteralStops(c, i, end);
    }
    RefusedAt(c, o, pieces, [92, 117] + digits);
  }

  lemma LiteralStops(c: seq<byte>, i: nat, end: nat)
    requires i < end < |c| && c[i] == 92 && c[i + 1] == 117 && LiteralAt(c, i, end) == None
    ensures Unescaped(c, i, end) == None
  {
    hide LiteralAt;
  }

  lemma NoLetter(letter: byte)
    requires forall b: byte :: !IsShort(letter, b)
    ensures ShortUnescape(letter) == 0
  {
    if ShortUnescape(letter) != 0 {
      assert IsShort(letter, ShortUnescape(letter));
    }
  }

  lemma LetterStops(c: seq<byte>, i: nat, end: nat)
    requires i < end < |c| && c[i] == 92 && ShortUnescape(c[i + 1]) == 0 && c[i + 1] != 117
    ensures Unescaped(c, i, end) == None
  {}

  lemma {:induction false} ClosingPast(c: seq<byte>, i: nat, pieces: seq<Piece>)
    requires Spelled(pieces) && FoundAt(c, i, Spelling(pieces))
    ensures i + |Spelling(pieces)| <= |c|
    ensures SameEnd(Closing(c, i), Closing(c, i + |Spelling(pieces)|))
    decreases |pieces|
  {
    hide FoundAt, Piece.Valid, Piece.Text, Closing;
    if pieces == [] {
      FoundInside(c, i, []);
    } else {
      var x, rest := pieces[0], pieces[1..];
      FoundInside(c, i, Spelling(pieces));
      FoundSplit(c, i, x.Text(), Spelling(rest));
      ClosingOfPiece(c, i, x);
      ClosingPast(c, i + |x.Text()|, rest);
    }
  }
}
