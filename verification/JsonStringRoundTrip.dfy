/** Whatever bytes a string holds, its printed form spells it, so parsing that gives the bytes back. */
module JsonStringRoundTrip {
  import opened Bits
  import opened Options
  import opened JsonStrings
  import opened JsonParseString
  import opened JsonSpelling

  /** The spelling of a byte that the printer chooses. */
  function PieceOf(c: byte): Piece {
    if ShortEscape(c) != 0 then Short(ShortEscape(c), c)
    else if c < 32 then Unit([48, 48, HexDigit(c / 16), HexDigit(c % 16)], c, [c])
    else Raw(c)
  }

  lemma PieceIs(c: byte)
    requires c != 0
    ensures PieceOf(c).Valid() && PieceOf(c).Text() == EscapedChar(c) && PieceOf(c).Meaning() == [c]
  {
    if ShortEscape(c) == 0 && c < 32 {
      HexIs(c / 16);
      HexIs(c % 16);
      assert [92, 117] + [48, 48, HexDigit(c / 16), HexDigit(c % 16)] == EscapedChar(c);
    }
  }

  lemma HexIs(n: nat)
    requires n < 16
    ensures IsHexDigit(HexDigit(n), n)
  {}

  function PiecesOf(s: seq<byte>): seq<Piece> {
    if s == [] then [] else [PieceOf(s[0])] + PiecesOf(s[1..])
  }

  /** What is printed for a string is one of its spellings. */
  lemma {:induction false} PrintedIsSpelling(s: seq<byte>)
    requires NulFree(s)
    ensures Spelled(PiecesOf(s)) && Spelling(PiecesOf(s)) == Escaped(s) && Meant(PiecesOf(s)) == s
    decreases |s|
  {
    hide PieceOf, EscapedChar, Piece.Valid, Piece.Text, Piece.Meaning;
    if s != [] {
      PieceIs(s[0]);
      PrintedIsSpelling(s[1..]);
      assert [s[0]] + s[1..] == s;
    }
  }

  lemma {:induction false} UntilNulOfNulFree(s: seq<byte>)
    requires NulFree(s)
    ensures UntilNul(s) == s
    decreases |s|
  {
    if s != [] {
      UntilNulOfNulFree(s[1..]);
    }
  }

  /** Parsing the printed form of any string without zero bytes gives the string and stops behind the closing quote. */
  lemma QuotedReadsBack(c: seq<byte>, o: nat, s: seq<byte>)
    requires NulFree(s) && FoundAt(c, o, Quoted(s))
    ensures o < |c| && StringAt(c, o) == Some((s, o + |Quoted(s)|))
  {
    hide FoundAt, StringAt, Escaped, UntilNul, PiecesOf;
    PrintedIsSpelling(s);
    UntilNulOfNulFree(s);
    SpellingReads(c, o, PiecesOf(s));
  }

  // ----- which of its spellings is printed

  lemma {:induction false} EscapedJoins(a: seq<byte>, b: seq<byte>)
    ensures Escaped(a + b) == Escaped(a) + Escaped(b)
  {
    hide EscapedChar;
    if a == [] {
      assert a + b == b;
    } else {
      EscapedJoins(a[1..], b);
      assert (a + b)[1..] == a[1..] + b;
    }
  }

  /** Bytes that need no escape print as they are. */
  lemma {:induction false} PlainEscaped(a: seq<byte>)
    requires forall k :: 0 <= k < |a| ==> a[k] >= 128
    ensures Escaped(a) == a
  {
    if a != [] {
      PlainEscaped(a[1..]);
      assert [a[0]] + a[1..] == a;
    }
  }

  lemma Utf8High(s: seq<byte>, p: nat)
    requires IsUtf8(s, p) && |s| != 1
    ensures 2 <= |s| <= 4 && forall k :: 0 <= k < |s| ==> s[k] >= 128
  {}

  lemma HexLength(d: seq<byte>, n: nat)
    requires IsHex(d, n)
    ensures |d| == 4
  {}

  lemma PieceIsLonger(p: Piece)
    requires p.Valid()
    ensures |Escaped(p.Meaning())| <= |p.Text()|
  {
    hide IsHex, IsUtf8, Escaped, EscapedChar;
    match p
    case Raw(b) => OneEscaped(b);
    case Short(_, b) => OneEscaped(b);
    case Unit(digits, code, utf8) =>
      HexLength(digits, code);
      EncodingEscaped(utf8, code);
    case Pair(high, highCode, low, lowCode, utf8) =>
      HexLength(high, highCode);
      HexLength(low, lowCode);
      EncodingEscaped(utf8, 65536 + 1024 * (highCode - 0xD800) + (lowCode - 0xDC00));
  }

  lemma EncodingEscaped(s: seq<byte>, p: nat)
    requires IsUtf8(s, p)
    ensures |Escaped(s)| <= 6
  {
    hide IsUtf8, Escaped, EscapedChar;
    if |s| == 1 {
      OneEscaped(s[0]);
      assert s == [s[0]];
    } else {
      Utf8High(s, p);
      PlainEscaped(s);
    }
  }

  lemma OneEscaped(c: byte)
    ensures Escaped([c]) == EscapedChar(c) && |EscapedChar(c)| <= 6
    ensures c >= 32 && c != 34 && c != 92 ==> |EscapedChar(c)| == 1
    ensures (exists letter: byte :: IsShort(letter, c)) ==> |EscapedChar(c)| <= 2
    ensures c >= 32 ==> |EscapedChar(c)| <= 2
  {
    assert [c][1..] == [];
    assert EscapedChar(c) + [] == EscapedChar(c);
  }

  /** No spelling of a string is shorter than the printed one. */
  lemma {:induction false} PrintedIsShortest(pieces: seq<Piece>)
    requires Spelled(pieces)
    ensures |Escaped(Meant(pieces))| <= |Spelling(pieces)|
    decreases |pieces|
  {
    hide EscapedChar, Escaped, Piece.Valid, Piece.Text, Piece.Meaning;
    if pieces == [] {
      NothingEscaped();
    } else {
      PieceIsLonger(pieces[0]);
      PrintedIsShortest(pieces[1..]);
      EscapedJoins(pieces[0].Meaning(), Meant(pieces[1..]));
    }
  }

  lemma NothingEscaped()
    ensures Escaped([]) == []
  {}

  /** Control characters without a letter of their own are printed with lower-case digits. */
  lemma ControlsPrinted(c: byte)
    requires c < 8 || c == 11 || 14 <= c < 32
    ensures Escaped([c]) ==
      [92, 117, 48, 48, if c < 16 then 48 else 49, if c % 16 < 10 then 48 + c % 16 else 97 + (c % 16 - 10)]
  {
    OneEscaped(c);
    assert c / 16 == if c < 16 then 0 else 1;
  }
}
