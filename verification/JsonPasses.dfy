/** Which backslashes the two passes of the string reader take for the start of an escape, and when they agree. */
module JsonPasses {
  import opened Bits
  import opened Options
  import opened JsonStrings

  /** The backslashes that start an escape for the first pass: each hides the byte behind it. */
  function FirstEscapes(c: seq<byte>, i: nat, end: nat): seq<nat>
    requires end < |c|
    decreases end - i
  {
    if i >= end then []
    else if c[i] != BACKSLASH then FirstEscapes(c, i + 1, end)
    else [i] + FirstEscapes(c, i + 2, end)
  }

  /** Those that start an escape for the second pass, which takes the digits of a UTF-16 literal unseen. */
  function SecondEscapes(c: seq<byte>, i: nat, end: nat): seq<nat>
    requires end < |c|
    decreases end - i
  {
    if i >= end then []
    else if c[i] != BACKSLASH then SecondEscapes(c, i + 1, end)
    else if c[i + 1] != LETTER_U then [i] + SecondEscapes(c, i + 2, end)
    else
      match LiteralAt(c, i, end)
      case None => [i]
      case Some((_, length)) => (if length == 12 then [i, i + 6] else [i]) + SecondEscapes(c, i + length, end)
  }

  predicate NoBackslash(c: seq<byte>, i: nat, j: nat)
    requires j <= |c|
  {
    forall k :: i <= k < j ==> c[k] != BACKSLASH
  }

  /** The four bytes behind each \u of the first pass hold no backslash. */
  predicate CleanDigits(c: seq<byte>, i: nat, end: nat)
    requires end < |c|
    decreases end - i
  {
    if i >= end then true
    else if c[i] != BACKSLASH then CleanDigits(c, i + 1, end)
    else
      && (c[i + 1] == LETTER_U ==> NoBackslash(c, i + 2, if i + 6 <= end then i + 6 else end))
      && CleanDigits(c, i + 2, end)
  }

  lemma {:induction false} PlainBytes(c: seq<byte>, i: nat, j: nat, end: nat)
    requires i <= j <= end < |c| && NoBackslash(c, i, j)
    ensures FirstEscapes(c, i, end) == FirstEscapes(c, j, end) && CleanDigits(c, i, end) == CleanDigits(c, j, end)
    decreases j - i
  {
    if i < j {
      PlainBytes(c, i + 1, j, end);
    }
  }

  /** If there is a backslash before j, the first pass finds one there. */
  lemma {:induction false} FirstBackslash(c: seq<byte>, i: nat, j: nat, end: nat)
    requires i <= j <= end < |c| && !NoBackslash(c, i, j)
    ensures FirstEscapes(c, i, end) != [] && FirstEscapes(c, i, end)[0] < j
    decreases j - i
  {
    if c[i] != BACKSLASH {
      FirstBackslash(c, i + 1, j, end);
    }
  }

  lemma {:induction false} SecondBehind(c: seq<byte>, i: nat, end: nat)
    requires end < |c|
    ensures SecondEscapes(c, i, end) != [] ==> SecondEscapes(c, i, end)[0] >= i
    decreases end - i
  {
    if i < end && c[i] != BACKSLASH {
      SecondBehind(c, i + 1, end);
    }
  }

  /** A literal of the second pass, at a place where the passes have agreed so far. */
  lemma LiteralEscapes(c: seq<byte>, i: nat, end: nat)
    requires i < end < |c| && c[i] == BACKSLASH && c[i + 1] == LETTER_U && LiteralAt(c, i, end).Some?
    ensures var next := i + LiteralAt(c, i, end).value.1;
            || (&& FirstEscapes(c, i, end) != SecondEscapes(c, i, end) && !CleanDigits(c, i, end))
            || (&& CleanDigits(c, i, end) == CleanDigits(c, next, end)
                && (FirstEscapes(c, i, end) == SecondEscapes(c, i, end)
                    <==> FirstEscapes(c, next, end) == SecondEscapes(c, next, end)))
  {
    hide Hex4, FirstEscapes, SecondEscapes, NoBackslash, CleanDigits;
    var length := LiteralAt(c, i, end).value.1;
    FirstStep(c, i, end);
    SecondStep(c, i, end);
    SecondBehind(c, i + length, end);
    var rest := SecondEscapes(c, i + length, end);
    if !NoBackslash(c, i + 2, i + 6) {
      FirstBackslash(c, i + 2, i + 6, end);
      assert FirstEscapes(c, i, end)[1] < i + 6;
    } else {
      PlainBytes(c, i + 2, i + 6, end);
      if length == 12 {
        FirstStep(c, i + 6, end);
        if !NoBackslash(c, i + 8, i + 12) {
          FirstBackslash(c, i + 8, i + 12, end);
          assert FirstEscapes(c, i, end)[2] < i + 12;
        } else {
          PlainBytes(c, i + 8, i + 12, end);
          Cancelled([i, i + 6], FirstEscapes(c, i + 12, end), rest);
          assert [i] + ([i + 6] + FirstEscapes(c, i + 12, end)) == [i, i + 6] + FirstEscapes(c, i + 12, end);
        }
      } else {
        Cancelled([i], FirstEscapes(c, i + 6, end), rest);
      }
    }
  }

  lemma Cancelled(a: seq<nat>, x: seq<nat>, y: seq<nat>)
    ensures a + x == a + y <==> x == y
  {
    if a + x == a + y {
      assert (a + x)[|a|..] == x && (a + y)[|a|..] == y;
    }
  }

  lemma FirstStep(c: seq<byte>, i: nat, end: nat)
    requires i < end < |c| && c[i] == BACKSLASH
    ensures FirstEscapes(c, i, end) == [i] + FirstEscapes(c, i + 2, end)
    ensures CleanDigits(c, i, end) ==
      ((c[i + 1] == LETTER_U ==> NoBackslash(c, i + 2, if i + 6 <= end then i + 6 else end))
        && CleanDigits(c, i + 2, end))
  {}

  lemma SecondStep(c: seq<byte>, i: nat, end: nat)
    requires i < end < |c| && c[i] == BACKSLASH && c[i + 1] == LETTER_U && LiteralAt(c, i, end).Some?
    ensures var length := LiteralAt(c, i, end).value.1;
            SecondEscapes(c, i, end) == (if length == 12 then [i, i + 6] else [i]) + SecondEscapes(c, i + length, end)
  {}

  /**
   For every string literal that is accepted, the two passes take the same backslashes for the start of an escape
   exactly when no \u of the first pass has a backslash among the four bytes behind it.
   */
  lemma {:induction false} PassesAgree(c: seq<byte>, i: nat, end: nat)
    requires end < |c| && Unescaped(c, i, end).Some?
    ensures FirstEscapes(c, i, end) == SecondEscapes(c, i, end) <==> CleanDigits(c, i, end)
    decreases end - i
  {
    hide LiteralAt, Utf8;
    if i < end {
      if c[i] != BACKSLASH {
        PassesAgree(c, i + 1, end);
      } else if c[i + 1] == LETTER_U {
        PassesAgree(c, i + LiteralAt(c, i, end).value.1, end);
        LiteralEscapes(c, i, end);
      } else {
        PassesAgree(c, i + 2, end);
        Cancelled([i], FirstEscapes(c, i + 2, end), SecondEscapes(c, i + 2, end));
      }
    }
  }

  /** The literal "\u\"ab" is accepted although the passes disagree: the first sees two escapes, the second one. */
  lemma PassesDisagree()
    ensures var c: seq<byte> := [QUOTE, BACKSLASH, LETTER_U, BACKSLASH, QUOTE, 97, 98, QUOTE, 0];
            && Closing(c, 1) == Some((7, 2)) && Unescaped(c, 1, 7) == Some([0])
            && FirstEscapes(c, 1, 7) == [1, 3] && SecondEscapes(c, 1, 7) == [1]
  {
    var c: seq<byte> := [QUOTE, BACKSLASH, LETTER_U, BACKSLASH, QUOTE, 97, 98, QUOTE, 0];
    assert Closing(c, 7) == Some((7, 0));
    assert Closing(c, 5) == Some((7, 0));
    assert HexNumber(c, 3, 1) == -1;
    HexNumberFails(c, 3, 1, 4);
    assert Hex4(c, 3) == 0;
    assert LiteralAt(c, 1, 7) == Some((0, 6));
    assert Unescaped(c, 7, 7) == Some([]);
    assert Utf8(0) == [0] && Utf8(0) + [] == [0];
    assert c[1] == BACKSLASH && c[2] == LETTER_U && ShortUnescape(c[2]) == 0;
    assert FirstEscapes(c, 5, 7) == [];
    assert FirstEscapes(c, 3, 7) == [3];
    assert SecondEscapes(c, 7, 7) == [];
  }
}
