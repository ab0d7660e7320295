/**
 JSON text as RFC 8259 allows it: any white space between tokens, any spelling of strings, any number that the
 conversion reads. The parser takes every such text for the value that it writes, and takes nothing that has not the
 structure of such a text.
 */
module JsonSyntax {
  import opened Bits
  import opened Options
  import opened JsonStrings
  import opened JsonParseString
  import opened JsonSpelling
  import opened JsonText
  import opened JsonGrammar

  // ----- texts

  /** A text, with all the choices its writer had. */
  datatype Doc =
    | NullDoc
    | FalseDoc
    | TrueDoc
    | NumberDoc(digits: seq<byte>, number: int)
    | StringDoc(literal: seq<byte>, contents: seq<byte>)
    | ArrayDoc(items: seq<ItemDoc>, blank: seq<byte>)
    | ObjectDoc(members: seq<MemberDoc>, blank: seq<byte>)

  datatype ItemDoc = ItemDoc(before: seq<byte>, value: Doc, behind: seq<byte>)

  datatype MemberDoc = MemberDoc(before: seq<byte>, literal: seq<byte>, key: seq<byte>, beforeColon: seq<byte>,
                                 behindColon: seq<byte>, value: Doc, behind: seq<byte>)

  /** Spaces, tabs, line feeds and carriage returns. */
  predicate Blank(w: seq<byte>) {
    forall k :: 0 <= k < |w| ==> w[k] == 32 || w[k] == 9 || w[k] == 10 || w[k] == 13
  }

  /** Digits, signs, the point and the letters of an exponent. */
  predicate NumberChar(b: byte) {
    48 <= b <= 57 || b == 43 || b == 45 || b == 46 || b == 69 || b == 101
  }

  /** Up to 63 characters that begin with a digit or a minus and that the conversion takes as a whole. */
  ghost predicate IsNumber(digits: seq<byte>, number: int, reader: Reader) {
    && 1 <= |digits| <= 63 && (digits[0] == 45 || 48 <= digits[0] <= 57)
    && (forall k :: 0 <= k < |digits| ==> NumberChar(digits[k]))
    && reader(digits) == Some((number, |digits|))
  }

  /** A spelling between quotes, and the string that it spells, which ends at the first zero byte. */
  ghost predicate IsString(literal: seq<byte>, contents: seq<byte>) {
    exists pieces: seq<Piece> ::
      Spelled(pieces) && literal == [34] + Spelling(pieces) + [34] && contents == UntilNul(Meant(pieces))
  }

  /** The text keeps to RFC 8259. */
  ghost predicate ValidDoc(d: Doc, reader: Reader) {
    match d
    case NumberDoc(digits, number) => IsNumber(digits, number, reader)
    case StringDoc(literal, contents) => IsString(literal, contents)
    case ArrayDoc(items, blank) => Blank(blank) && forall i :: 0 <= i < |items| ==> ValidItem(items[i], reader)
    case ObjectDoc(members, blank) =>
      Blank(blank) && forall i :: 0 <= i < |members| ==> ValidMember(members[i], reader)
    case _ => true
  }

  ghost predicate ValidItem(i: ItemDoc, reader: Reader) {
    Blank(i.before) && ValidDoc(i.value, reader) && Blank(i.behind)
  }

  ghost predicate ValidMember(m: MemberDoc, reader: Reader) {
    && Blank(m.before) && IsString(m.literal, m.key) && Blank(m.beforeColon) && Blank(m.behindColon)
    && ValidDoc(m.value, reader) && Blank(m.behind)
  }

  function DocText(d: Doc): seq<byte> {
    match d
    case NullDoc => [110, 117, 108, 108]
    case FalseDoc => [102, 97, 108, 115, 101]
    case TrueDoc => [116, 114, 117, 101]
    case NumberDoc(digits, _) => digits
    case StringDoc(literal, _) => literal
    case ArrayDoc(items, blank) => [91] + ((if items == [] then blank else items[0].before + ItemsFrom(items)) + [93])
    case ObjectDoc(members, blank) =>
      [123] + ((if members == [] then blank else members[0].before + MembersFrom(members)) + [125])
  }

  /** The items from the first value on, with commas between them. */
  function ItemsFrom(items: seq<ItemDoc>): seq<byte> {
    if items == [] then []
    else
      DocText(items[0].value) + (items[0].behind
      + (if |items| == 1 then [] else [44] + (items[1].before + ItemsFrom(items[1..]))))
  }

  /** A member from its key on, without what stands behind the value. */
  function MemberFrom(m: MemberDoc): seq<byte> {
    m.literal + (m.beforeColon + ([58] + (m.behindColon + DocText(m.value))))
  }

  function MembersFrom(members: seq<MemberDoc>): seq<byte> {
    if members == [] then []
    else
      MemberFrom(members[0]) + (members[0].behind
      + (if |members| == 1 then [] else [44] + (members[1].before + MembersFrom(members[1..]))))
  }

  // ----- what they write

  /** Numbers are cut at the ends of the 32-bit range. */
  function DocValue(d: Doc): Json {
    match d
    case NullDoc => Null
    case FalseDoc => False
    case TrueDoc => True
    case NumberDoc(_, n) => Number(if n > 2147483647 then 2147483647 else if n < -2147483648 then -2147483648 else n)
    case StringDoc(_, contents) => String(contents)
    case ArrayDoc(items, _) => Array(ItemValues(items))
    case ObjectDoc(members, _) => Object(MemberValues(members))
  }

  function ItemValues(items: seq<ItemDoc>): seq<Json> {
    if items == [] then [] else [DocValue(items[0].value)] + ItemValues(items[1..])
  }

  function MemberValues(members: seq<MemberDoc>): seq<Member> {
    if members == [] then []
    else [Member(members[0].key, DocValue(members[0].value))] + MemberValues(members[1..])
  }

  function Levels(d: Doc): nat {
    match d
    case ArrayDoc(items, _) => 1 + ItemLevels(items)
    case ObjectDoc(members, _) => 1 + MemberLevels(members)
    case _ => 0
  }

  function ItemLevels(items: seq<ItemDoc>): nat {
    if items == [] then 0 else Max(Levels(items[0].value), ItemLevels(items[1..]))
  }

  function MemberLevels(members: seq<MemberDoc>): nat {
    if members == [] then 0 else Max(Levels(members[0].value), MemberLevels(members[1..]))
  }

  // ----- what the parser takes

  /** Any bytes up to 32 count as white space. */
  predicate Space(w: seq<byte>) {
    forall k :: 0 <= k < |w| ==> w[k] <= 32
  }

  /** The parser's string reader takes the literal, on its own, for these contents. */
  predicate Taken(literal: seq<byte>, contents: seq<byte>) {
    |literal| >= 1 && literal[0] == 34 && StringAt(literal + [0], 0) == Some((contents, |literal|))
  }

  /** The conversion stops behind the digits, at the end of what it is given or before. */
  ghost predicate Converted(digits: seq<byte>, number: int, whole: bool, reader: Reader) {
    && 1 <= |digits| <= 63 && (digits[0] == 45 || 48 <= digits[0] <= 57)
    && (forall k :: 0 <= k < |digits| ==> IsNumberByte(digits[k]))
    && exists rest: seq<byte> :: (whole ==> rest == []) && reader(digits + rest) == Some((number, |digits|))
  }

  /** The text has the structure of JSON text, with white space and tokens as the parser takes them. */
  ghost predicate TakenDoc(d: Doc, whole: bool, reader: Reader) {
    match d
    case NumberDoc(digits, number) => Converted(digits, number, whole, reader)
    case StringDoc(literal, contents) => Taken(literal, contents)
    case ArrayDoc(items, blank) => Space(blank) && forall i :: 0 <= i < |items| ==> TakenItem(items[i], whole, reader)
    case ObjectDoc(members, blank) =>
      Space(blank) && forall i :: 0 <= i < |members| ==> TakenMember(members[i], whole, reader)
    case _ => true
  }

  ghost predicate TakenItem(i: ItemDoc, whole: bool, reader: Reader) {
    Space(i.before) && TakenDoc(i.value, whole, reader) && Space(i.behind)
  }

  ghost predicate TakenMember(m: MemberDoc, whole: bool, reader: Reader) {
    && Space(m.before) && Taken(m.literal, m.key) && Space(m.beforeColon) && Space(m.behindColon)
    && TakenDoc(m.value, whole, reader) && Space(m.behind)
  }

  lemma StringIsTaken(literal: seq<byte>, contents: seq<byte>)
    requires IsString(literal, contents)
    ensures Taken(literal, contents)
  {
    hide StringAt, Spelled, Spelling, Meant, UntilNul;
    var pieces: seq<Piece> :| Spelled(pieces) && literal == [34] + Spelling(pieces) + [34]
                              && contents == UntilNul(Meant(pieces));
    var c := literal + [0];
    assert c[0..|literal|] == literal;
    SpellingReads(c, 0, pieces);
  }

  lemma NumberIsConverted(digits: seq<byte>, number: int, reader: Reader)
    requires IsNumber(digits, number, reader)
    ensures Converted(digits, number, true, reader)
  {
    assert digits + [] == digits;
  }

  lemma BlankIsSpace(w: seq<byte>)
    requires Blank(w)
    ensures Space(w)
  {}

  /** All that RFC 8259 allows is taken. */
  lemma {:induction false} ValidIsTaken(d: Doc, reader: Reader)
    requires ValidDoc(d, reader)
    ensures TakenDoc(d, true, reader)
  {
    hide IsString, Taken, IsNumber, Converted, Blank, Space;
    match d
    case NumberDoc(digits, number) => NumberIsConverted(digits, number, reader);
    case StringDoc(literal, contents) => StringIsTaken(literal, contents);
    case ArrayDoc(items, blank) =>
      BlankIsSpace(blank);
      forall i | 0 <= i < |items|
        ensures TakenItem(items[i], true, reader)
      {
        BlankIsSpace(items[i].before);
        BlankIsSpace(items[i].behind);
        ValidIsTaken(items[i].value, reader);
      }
    case ObjectDoc(members, blank) =>
      BlankIsSpace(blank);
      forall i | 0 <= i < |members|
        ensures TakenMember(members[i], true, reader)
      {
        MemberIsTaken(members[i], reader);
        ValidIsTaken(members[i].value, reader);
      }
    case _ =>
  }

  lemma MemberIsTaken(m: MemberDoc, reader: Reader)
    requires ValidMember(m, reader)
    ensures Space(m.before) && Taken(m.literal, m.key) && Space(m.beforeColon) && Space(m.behindColon)
      && Space(m.behind)
  {
    hide Taken, IsString;
    StringIsTaken(m.literal, m.key);
  }

  // ----- white space

  lemma {:induction false} SkipFromTo(c: seq<byte>, o: nat, q: nat)
    requires o <= q < |c| && c[q] > 32 && forall k :: o <= k < q ==> c[k] <= 32
    ensures SkipFrom(c, o) == q
    decreases q - o
  {
    if o < q {
      SkipFromTo(c, o + 1, q);
    }
  }

  lemma SkipTo(c: seq<byte>, o: nat, q: nat)
    requires o <= q < |c| && c[q] > 32 && forall k :: o <= k < q ==> c[k] <= 32
    ensures Skip(c, o) == q
  {
    SkipFromTo(c, o, q);
  }

  /** White space is skipped up to the next token, and ends a number. */
  lemma BlankSkipped(c: seq<byte>, p: nat, w: seq<byte>)
    requires FoundAt(c, p, w) && Space(w) && p + |w| < |c| && c[p + |w|] > 32
    ensures Skip(c, p) == p + |w|
    ensures IsNumberByte(c[p]) ==> IsNumberByte(c[p + |w|])
  {
    hide FoundAt, Skip;
    forall k | p <= k < p + |w|
      ensures c[k] <= 32
    {
      FoundByte(c, p, w, k - p);
    }
    SkipTo(c, p, p + |w|);
  }

  // ----- strings do not depend on what surrounds them

  /** The first pass finds the same end in bytes that are the same up to there. */
  lemma {:induction false} SameClosing(c: seq<byte>, i: nat, end: nat, skipped: nat, d: seq<byte>, j: nat)
    requires i <= |c| && Closing(c, i) == Some((end, skipped)) && i <= end < |c|
    requires j + (end + 1 - i) <= |d| && c[i..end + 1] == d[j..j + (end + 1 - i)]
    ensures Closing(d, j) == Some((j + (end - i), skipped))
    decreases |c| - i
  {
    hide Closing;
    SameByte(c, i, end + 1, d, j, i);
    ClosingAtQuote(c, i);
    ClosingAtQuote(d, j);
    if c[i] != QUOTE {
      ClosingBounds(c, i + 1);
      if c[i] == BACKSLASH {
        ClosingEscape(c, i);
        ClosingStep(c, i);
        ClosingBounds(c, i + 2);
        SameTail(c, i, end + 1, d, j, 2);
        SameClosing(c, i + 2, end, skipped - 1, d, j + 2);
        ClosingStep(d, j);
      } else {
        ClosingStep(c, i);
        SameTail(c, i, end + 1, d, j, 1);
        SameClosing(c, i + 1, end, skipped, d, j + 1);
        ClosingStep(d, j);
      }
    }
  }

  lemma ClosingAtQuote(c: seq<byte>, i: nat)
    requires i < |c|
    ensures c[i] == QUOTE ==> Closing(c, i) == Some((i, 0))
  {}

  lemma ClosingEscape(c: seq<byte>, i: nat)
    requires i < |c| && c[i] == BACKSLASH && Closing(c, i).Some?
    ensures i + 1 < |c|
  {}

  lemma SameByte(c: seq<byte>, i: nat, e: nat, d: seq<byte>, j: nat, k: nat)
    requires i <= k < e <= |c| && j + (e - i) <= |d| && c[i..e] == d[j..j + (e - i)]
    ensures c[k] == d[j + (k - i)]
  {
    assert c[i..e][k - i] == d[j..j + (e - i)][k - i];
  }

  lemma SameTail(c: seq<byte>, i: nat, e: nat, d: seq<byte>, j: nat, n: nat)
    requires i + n <= e <= |c| && j + (e - i) <= |d| && c[i..e] == d[j..j + (e - i)]
    ensures c[i + n..e] == d[j + n..j + n + (e - (i + n))]
  {
    assert c[i + n..e] == c[i..e][n..];
    assert d[j + n..j + n + (e - (i + n))] == d[j..j + (e - i)][n..];
  }

  lemma {:induction false} SameHex(c: seq<byte>, i: nat, d: seq<byte>, j: nat, n: nat)
    requires i + n <= |c| && j + n <= |d| && n <= 4 && c[i..i + n] == d[j..j + n]
    ensures HexNumber(c, i, n) == HexNumber(d, j, n)
  {
    hide HexValue;
    if n > 0 {
      assert c[i..i + n][..n - 1] == c[i..i + n - 1] && d[j..j + n][..n - 1] == d[j..j + n - 1];
      SameHex(c, i, d, j, n - 1);
      SameByte(c, i, i + n, d, j, i + n - 1);
    }
  }

  lemma SameHex4(c: seq<byte>, i: nat, e: nat, d: seq<byte>, j: nat, k: nat)
    requires i <= k && k + 4 <= e <= |c| && j + (e - i) <= |d| && c[i..e] == d[j..j + (e - i)]
    ensures Hex4(c, k) == Hex4(d, j + (k - i))
  {
    hide HexNumber;
    var m := j + (k - i);
    SameTail(c, i, e, d, j, k - i);
    assert c[k..k + 4] == c[k..e][..4] && d[m..m + 4] == d[m..m + (e - k)][..4];
    SameHex(c, k, d, m, 4);
  }

  lemma SameLiteral(c: seq<byte>, i: nat, end: nat, d: seq<byte>, j: nat)
    requires i < end < |c| && j + (end + 1 - i) <= |d| && c[i..end + 1] == d[j..j + (end + 1 - i)]
    ensures LiteralAt(d, j, j + (end - i)) == LiteralAt(c, i, end)
  {
    hide Hex4;
    if end - i >= 6 {
      SameHex4(c, i, end + 1, d, j, i + 2);
    }
    if end - i >= 12 {
      SameByte(c, i, end + 1, d, j, i + 6);
      SameByte(c, i, end + 1, d, j, i + 7);
      SameHex4(c, i, end + 1, d, j, i + 8);
    }
  }

  lemma {:induction false} SameUnescaped(c: seq<byte>, i: nat, end: nat, d: seq<byte>, j: nat)
    requires i <= end + 1 <= |c| && j + (end + 1 - i) <= |d| && c[i..end + 1] == d[j..j + (end + 1 - i)]
    requires j + end >= i
    ensures j + end - i < |d| && Unescaped(d, j, j + end - i) == Unescaped(c, i, end)
    decreases end - i
  {
    hide LiteralAt, ShortUnescape, Utf8;
    if i < end {
      SameByte(c, i, end + 1, d, j, i);
      SameByte(c, i, end + 1, d, j, i + 1);
      SameLiteral(c, i, end, d, j);
      SameTail(c, i, end + 1, d, j, 1);
      SameUnescaped(c, i + 1, end, d, j + 1);
      SameTail(c, i, end + 1, d, j, 2);
      SameUnescaped(c, i + 2, end, d, j + 2);
      if LiteralAt(c, i, end).Some? {
        var length := LiteralAt(c, i, end).value.1;
        LiteralLength(c, i, end);
        SameTail(c, i, end + 1, d, j, length);
        SameUnescaped(c, i + length, end, d, j + length);
      }
    }
  }

  /** A literal is read the same wherever it stands. */
  lemma SameString(c: seq<byte>, o: nat, d: seq<byte>, p: nat, n: nat)
    requires o < |c| && StringAt(c, o).Some? && StringAt(c, o).value.1 == o + n
    requires o + n <= |c| && p + n <= |d| && c[o..o + n] == d[p..p + n]
    ensures 2 <= n && StringAt(d, p) == Some((StringAt(c, o).value.0, p + n))
  {
    hide Closing, Unescaped, UntilNul;
    ClosingBounds(c, o + 1);
    var end := Closing(c, o + 1).value.0;
    assert n == end + 1 - o;
    SameByte(c, o, end + 1, d, p, o);
    SameTail(c, o, end + 1, d, p, 1);
    SameClosing(c, o + 1, end, Closing(c, o + 1).value.1, d, p + 1);
    SameUnescaped(c, o + 1, end, d, p + 1);
  }

  // ----- leaves

  /** The collected bytes are the number's text, if no number byte follows it. */
  lemma {:induction false} NumberTextIs(c: seq<byte>, o: nat, t: seq<byte>, n: nat)
    requires FoundAt(c, o, t) && |t| <= n && forall k :: 0 <= k < |t| ==> IsNumberByte(t[k])
    requires o + |t| < |c| && !IsNumberByte(c[o + |t|])
    ensures NumberText(c, o, n) == t
    decreases |t|
  {
    if t != [] {
      assert t == [t[0]] + t[1..];
      FoundSplit(c, o, [t[0]], t[1..]);
      FoundByte(c, o, t, 0);
      NumberTextIs(c, o + 1, t[1..], n - 1);
    }
  }

  lemma NumberReads(c: seq<byte>, o: nat, digits: seq<byte>, n: int, reader: Reader)
    requires Terminated(c) && Converted(digits, n, true, reader)
    requires FoundAt(c, o, digits) && o + |digits| < |c| && !IsNumberByte(c[o + |digits|])
    ensures NumberAt(c, o, reader) == Some((DocValue(NumberDoc(digits, n)), o + |digits|))
  {
    hide NumberText, FoundAt;
    assert exists rest: seq<byte> :: rest == [] && reader(digits + rest) == Some((n, |digits|));
    assert digits + [] == digits;
    NumberTextIs(c, o, digits, 63);
  }

  lemma FirstOfWord(c: seq<byte>, o: nat, word: seq<byte>)
    requires o < |c| && word != []
    ensures Reads(c, o, word) ==> c[o] == word[0]
  {
    if Reads(c, o, word) {
      assert c[o..o + |word|][0] == c[o];
    }
  }

  /** Only a constant starts with the first byte of a constant. */
  lemma NoConstant(c: seq<byte>, o: nat)
    requires o < |c| && c[o] != 110 && c[o] != 102 && c[o] != 116
    ensures !Reads(c, o, NULL) && !Reads(c, o, FALSE) && !Reads(c, o, TRUE)
  {
    hide Reads;
    FirstOfWord(c, o, NULL);
    FirstOfWord(c, o, FALSE);
    FirstOfWord(c, o, TRUE);
  }

  lemma ConstantReads(c: seq<byte>, o: nat, d: Doc, depth: nat, reader: Reader)
    requires Terminated(c) && o < |c| && (d.NullDoc? || d.FalseDoc? || d.TrueDoc?) && FoundAt(c, o, DocText(d))
    ensures ValueAt(c, o, depth, reader) == Some((DocValue(d), o + |DocText(d)|))
  {
    FirstOfWord(c, o, NULL);
    FirstOfWord(c, o, FALSE);
    FoundByte(c, o, DocText(d), 0);
  }

  /** A value starts with a byte that is neither white space nor a bracket that closes something. */
  lemma DocStart(d: Doc, reader: Reader)
    requires TakenDoc(d, true, reader)
    ensures |DocText(d)| >= 1
    ensures var b := DocText(d)[0]; 32 < b <= 123 && b != 93 && b != 44 && b != 58
  {
    hide ItemsFrom, MembersFrom, StringAt, TakenItem, TakenMember;
  }

  // ----- values

  /** The value stands at o, followed by a byte that belongs to no number. */
  predicate Follows(c: seq<byte>, o: nat, text: seq<byte>) {
    FoundAt(c, o, text) && o + |text| < |c| && !IsNumberByte(c[o + |text|])
  }

  lemma IsFollowed(c: seq<byte>, o: nat, text: seq<byte>)
    requires FoundAt(c, o, text) && o + |text| < |c| && !IsNumberByte(c[o + |text|])
    ensures Follows(c, o, text)
  {}

  /** Every text of a value, nested within the limit, is read as that value. */
  lemma {:induction false} DocReads(c: seq<byte>, o: nat, d: Doc, depth: nat, reader: Reader)
    requires Terminated(c) && TakenDoc(d, true, reader) && depth + Levels(d) <= 1000 && Follows(c, o, DocText(d))
    ensures o < |c| && ValueAt(c, o, depth, reader) == Some((DocValue(d), o + |DocText(d)|))
    decreases d, 1
  {
    hide FoundAt, StringAt, NumberAt, ItemsAt, MembersAt, MemberAt, ArrayAt, ObjectAt, Reads, Skip;
    hide ItemsFrom, MembersFrom, IsNumberByte, Converted, Taken, TakenDoc, Levels;
    DocStart(d, reader);
    FoundByte(c, o, DocText(d), 0);
    match d
    case NumberDoc(digits, n) =>
      NumberStarts(d, reader);
      NoConstant(c, o);
      NumberReads(c, o, digits, n, reader);
    case StringDoc(literal, contents) =>
      StringStarts(d, reader);
      NoConstant(c, o);
      StringReads(c, o, literal, contents);
    case ArrayDoc(_, _) =>
      NoConstant(c, o);
      ArrayReads(c, o, d, depth, reader);
    case ObjectDoc(_, _) =>
      NoConstant(c, o);
      ObjectReads(c, o, d, depth, reader);
    case _ => ConstantReads(c, o, d, depth, reader);
  }

  lemma NumberStarts(d: Doc, reader: Reader)
    requires d.NumberDoc? && TakenDoc(d, true, reader)
    ensures Converted(d.digits, d.number, true, reader) && |d.digits| >= 1
      && (d.digits[0] == 45 || 48 <= d.digits[0] <= 57)
  {}

  lemma StringStarts(d: Doc, reader: Reader)
    requires d.StringDoc? && TakenDoc(d, true, reader)
    ensures Taken(d.literal, d.contents) && |DocText(d)| >= 1 && DocText(d)[0] == QUOTE
  {
    hide StringAt;
  }

  lemma StringReads(c: seq<byte>, o: nat, literal: seq<byte>, contents: seq<byte>)
    requires Taken(literal, contents) && FoundAt(c, o, literal)
    ensures o < |c| && StringAt(c, o) == Some((contents, o + |literal|))
    ensures c[o] == 34
  {
    hide FoundAt, StringAt;
    FoundByte(c, o, literal, 0);
    var alone := literal + [0];
    assert alone[0..|literal|] == literal;
    FoundSlice(c, o, literal);
    SameString(alone, 0, c, o, |literal|);
  }

  lemma FoundSlice(c: seq<byte>, p: nat, x: seq<byte>)
    requires FoundAt(c, p, x)
    ensures p + |x| <= |c| && c[p..p + |x|] == x
  {}

  // ----- arrays

  lemma {:induction false} ArrayReads(c: seq<byte>, o: nat, d: Doc, depth: nat, reader: Reader)
    requires d.ArrayDoc? && Terminated(c) && TakenDoc(d, true, reader) && depth + Levels(d) <= 1000
    requires FoundAt(c, o, DocText(d))
    ensures o < |c| && c[o] == 91 && ArrayAt(c, o, depth, reader) == Some((DocValue(d), o + |DocText(d)|))
    decreases d, 0
  {
    hide FoundAt, ItemsAt, ItemsFrom, ItemLevels, Skip, TakenItem, Space;
    var items, blank := d.items, d.blank;
    if items == [] {
      NothingBetween(c, o, 91, blank, 93);
    } else {
      var before, text := items[0].before, ItemsFrom(items);
      ItemsStart(items, reader);
      FirstValid(items, reader);
      Between(c, o, 91, before, text, 93);
      var q := o + 1 + |before|;
      ItemsRead(c, q - 1, q, items, depth + 1, reader);
    }
  }

  /** Two brackets with white space between them. */
  lemma NothingBetween(c: seq<byte>, o: nat, open: byte, blank: seq<byte>, close: byte)
    requires FoundAt(c, o, [open] + (blank + [close])) && Space(blank) && close > 32
    ensures o + 1 + |blank| < |c| && c[o] == open && Skip(c, o + 1) == o + 1 + |blank| && c[o + 1 + |blank|] == close
  {
    hide FoundAt, Skip, Space;
    FoundSplit(c, o, [open], blank + [close]);
    FoundByte(c, o, [open], 0);
    FoundSplit(c, o + 1, blank, [close]);
    FoundByte(c, o + 1 + |blank|, [close], 0);
    BlankSkipped(c, o + 1, blank);
  }

  /** Two brackets with white space and a text between them. */
  lemma Between(c: seq<byte>, o: nat, open: byte, before: seq<byte>, text: seq<byte>, close: byte)
    requires FoundAt(c, o, [open] + ((before + text) + [close])) && Space(before) && |text| >= 1 && text[0] > 32
    ensures var q := o + 1 + |before|;
            && q + |text| < |c| && c[o] == open && Skip(c, o + 1) == q && Skip(c, q) == q
            && c[q] == text[0] && c[q + |text|] == close && FoundAt(c, q, text + [close])
  {
    hide FoundAt, Skip, Space;
    assert before + text + [close] == before + (text + [close]);
    FoundSplit(c, o, [open], before + (text + [close]));
    FoundByte(c, o, [open], 0);
    FoundSplit(c, o + 1, before, text + [close]);
    var q := o + 1 + |before|;
    FoundByte(c, q, text + [close], 0);
    FoundByte(c, q, text + [close], |text|);
    BlankSkipped(c, o + 1, before);
    SkipNothing(c, q);
  }

  /** A part, white space, and either the closing bracket or a comma, white space and the other parts. */
  lemma PartsFound(c: seq<byte>, q: nat, part: seq<byte>, behind: seq<byte>, more: bool, before: seq<byte>,
                   rest: seq<byte>, close: byte)
    requires Space(behind) && (close == 93 || close == 125)
    requires FoundAt(c, q, part + (behind + (if more then [44] + (before + rest) else [close])))
    ensures Follows(c, q, part) && Skip(c, q + |part|) == q + |part| + |behind| < |c|
    ensures c[q + |part| + |behind|] == if more then 44 else close
    ensures more ==> FoundAt(c, q + |part| + |behind| + 1, before + rest)
  {
    hide FoundAt, Skip, Blank, IsNumberByte;
    var tail := if more then [44] + (before + rest) else [close];
    var end := q + |part|;
    FoundSplit(c, q, part, behind + tail);
    FoundSplit(c, end, behind, tail);
    var token: byte := if more then 44 else close;
    if more {
      FoundSplit(c, end + |behind|, [44], before + rest);
    }
    TokenBehind(c, end, behind, token);
    IsFollowed(c, q, part);
  }

  lemma SkipNothing(c: seq<byte>, q: nat)
    requires q < |c| && c[q] > 32
    ensures Skip(c, q) == q
  {
    SkipTo(c, q, q);
  }

  lemma FirstValid(items: seq<ItemDoc>, reader: Reader)
    requires items != [] && TakenItem(items[0], true, reader)
    ensures Space(items[0].before) && TakenDoc(items[0].value, true, reader) && Space(items[0].behind)
  {}

  lemma ItemsStart(items: seq<ItemDoc>, reader: Reader)
    requires items != [] && TakenItem(items[0], true, reader)
    ensures |ItemsFrom(items)| >= 1 && ItemsFrom(items)[0] > 32 && ItemsFrom(items)[0] != 93
  {
    hide DocText, TakenDoc;
    DocStart(items[0].value, reader);
  }

  lemma ItemParts(items: seq<ItemDoc>)
    requires items != []
    ensures Levels(items[0].value) <= ItemLevels(items) && ItemLevels(items[1..]) <= ItemLevels(items)
    ensures ItemValues(items) == [DocValue(items[0].value)] + ItemValues(items[1..])
    ensures ItemsFrom(items) + [93] ==
      DocText(items[0].value) + (items[0].behind + (
        if |items| == 1 then [93] else [44] + (items[1].before + (ItemsFrom(items[1..]) + [93]))))
    ensures |ItemsFrom(items)| == |DocText(items[0].value)| + |items[0].behind|
      + if |items| == 1 then 0 else 1 + |items[1].before| + |ItemsFrom(items[1..])|
  {
    hide DocText, Levels, DocValue;
  }

  /** The items at q are read one after the other; the byte behind them is a closing bracket. */
  lemma {:induction false} ItemsRead(c: seq<byte>, o: nat, q: nat, items: seq<ItemDoc>, depth: nat, reader: Reader)
    requires items != [] && Terminated(c) && depth + ItemLevels(items) <= 1000
    requires forall i :: 0 <= i < |items| ==> TakenItem(items[i], true, reader)
    requires o + 1 < |c| && Skip(c, o + 1) == q && FoundAt(c, q, ItemsFrom(items) + [93])
    ensures ItemsAt(c, o, depth, reader) == Some((ItemValues(items), q + |ItemsFrom(items)|))
    decreases items
  {
    hide *;
    var t, behind, more := DocText(items[0].value), items[0].behind, |items| > 1;
    var next := q + |DocText(items[0].value)| + |behind|;
    ItemParts(items);
    FirstValid(items, reader);
    ItemsStep(c, o, depth, reader);
    if |items| == 1 {
      PartsFound(c, q, t, behind, false, [], [], 93);
      DocReads(c, q, items[0].value, depth, reader);
      OneValue(items);
    } else {
      var before, rest := items[1].before, ItemsFrom(items[1..]) + [93];
      PartsFound(c, q, t, behind, true, before, rest, 93);
      DocReads(c, q, items[0].value, depth, reader);
      assert items[1..][0] == items[1];
      ItemsStart(items[1..], reader);
      FirstValid(items[1..], reader);
      NextPart(c, next + 1, before, rest);
      ItemsRead(c, next, next + 1 + |before|, items[1..], depth, reader);
      OntoSome([DocValue(items[0].value)], ItemValues(items[1..]), q + |ItemsFrom(items)|);
    }
  }

  lemma NextPart(c: seq<byte>, p: nat, before: seq<byte>, rest: seq<byte>)
    requires FoundAt(c, p, before + rest) && Space(before) && |rest| >= 1 && rest[0] > 32
    ensures p + |before| < |c| && Skip(c, p) == p + |before| && FoundAt(c, p + |before|, rest)
  {
    hide FoundAt, Skip, Space;
    FoundSplit(c, p, before, rest);
    FoundByte(c, p + |before|, rest, 0);
    BlankSkipped(c, p, before);
  }

  lemma OneValue(items: seq<ItemDoc>)
    requires |items| == 1
    ensures ItemValues(items) == [DocValue(items[0].value)]
  {
    hide DocValue;
  }

  /** Behind a value stand white space and a comma or a bracket. */
  lemma TokenBehind(c: seq<byte>, e: nat, behind: seq<byte>, b: byte)
    requires FoundAt(c, e, behind) && Space(behind) && FoundAt(c, e + |behind|, [b])
    requires b == 44 || b == 93 || b == 125 || b == 58
    ensures e + |behind| < |c| && c[e + |behind|] == b && Skip(c, e) == e + |behind| && !IsNumberByte(c[e])
  {
    hide FoundAt, Skip, Space;
    FoundByte(c, e + |behind|, [b], 0);
    BlankSkipped(c, e, behind);
  }

  // ----- objects

  lemma {:induction false} ObjectReads(c: seq<byte>, o: nat, d: Doc, depth: nat, reader: Reader)
    requires d.ObjectDoc? && Terminated(c) && TakenDoc(d, true, reader) && depth + Levels(d) <= 1000
    requires FoundAt(c, o, DocText(d))
    ensures o < |c| && c[o] == 123 && ObjectAt(c, o, depth, reader) == Some((DocValue(d), o + |DocText(d)|))
    decreases d, 0
  {
    hide FoundAt, MembersAt, MembersFrom, MemberLevels, Skip, TakenMember, Space;
    var members, blank := d.members, d.blank;
    if members == [] {
      NothingBetween(c, o, 123, blank, 125);
    } else {
      var before, text := members[0].before, MembersFrom(members);
      MembersStart(members, reader);
      MemberValid(members[0], reader);
      Between(c, o, 123, before, text, 125);
      var q := o + 1 + |before|;
      MembersRead(c, q - 1, q, members, depth + 1, reader);
    }
  }

  lemma MemberValid(m: MemberDoc, reader: Reader)
    requires TakenMember(m, true, reader)
    ensures Space(m.before) && Taken(m.literal, m.key) && Space(m.beforeColon) && Space(m.behindColon)
    ensures TakenDoc(m.value, true, reader) && Space(m.behind)
  {}

  lemma MembersStart(members: seq<MemberDoc>, reader: Reader)
    requires members != [] && TakenMember(members[0], true, reader)
    ensures |MembersFrom(members)| >= 1 && MembersFrom(members)[0] == 34
  {
    hide DocText, StringAt;
  }

  lemma MemberParts(members: seq<MemberDoc>)
    requires members != []
    ensures Levels(members[0].value) <= MemberLevels(members) && MemberLevels(members[1..]) <= MemberLevels(members)
    ensures MemberValues(members) ==
      [Member(members[0].key, DocValue(members[0].value))] + MemberValues(members[1..])
    ensures MembersFrom(members) + [125] ==
      MemberFrom(members[0]) + (members[0].behind + (
        if |members| == 1 then [125] else [44] + (members[1].before + (MembersFrom(members[1..]) + [125]))))
    ensures |MembersFrom(members)| == |MemberFrom(members[0])| + |members[0].behind|
      + if |members| == 1 then 0 else 1 + |members[1].before| + |MembersFrom(members[1..])|
  {
    hide MemberFrom, Levels, DocValue;
  }

  lemma {:induction false} MembersRead(c: seq<byte>, o: nat, q: nat, members: seq<MemberDoc>, depth: nat,
                                       reader: Reader)
    requires members != [] && Terminated(c) && depth + MemberLevels(members) <= 1000
    requires forall i :: 0 <= i < |members| ==> TakenMember(members[i], true, reader)
    requires o + 1 < |c| && Skip(c, o + 1) == q && FoundAt(c, q, MembersFrom(members) + [125])
    ensures MembersAt(c, o, depth, reader) == Some((MemberValues(members), q + |MembersFrom(members)|))
    decreases members
  {
    hide *;
    var m := members[0];
    var t, behind := MemberFrom(m), m.behind;
    var next := q + |MemberFrom(m)| + |behind|;
    MemberParts(members);
    MemberValid(m, reader);
    MembersStep(c, o, depth, reader);
    if |members| == 1 {
      PartsFound(c, q, t, behind, false, [], [], 125);
      MemberReads(c, o, q, m, depth, reader);
      OneMember(members);
    } else {
      var before, rest := members[1].before, MembersFrom(members[1..]) + [125];
      PartsFound(c, q, t, behind, true, before, rest, 125);
      MemberReads(c, o, q, m, depth, reader);
      assert members[1..][0] == members[1];
      MembersStart(members[1..], reader);
      MemberValid(members[1], reader);
      NextPart(c, next + 1, before, rest);
      MembersRead(c, next, next + 1 + |before|, members[1..], depth, reader);
      OntoSome([Member(m.key, DocValue(m.value))], MemberValues(members[1..]),
               q + |MembersFrom(members)|);
    }
  }

  lemma OneMember(members: seq<MemberDoc>)
    requires |members| == 1
    ensures MemberValues(members) == [Member(members[0].key, DocValue(members[0].value))]
  {
    hide DocValue;
  }

  /** Key, colon and value, and the white space behind them. */
  lemma {:induction false} MemberReads(c: seq<byte>, o: nat, q: nat, m: MemberDoc, depth: nat, reader: Reader)
    requires Terminated(c) && TakenMember(m, true, reader) && depth + Levels(m.value) <= 1000
    requires o + 1 < |c| && Skip(c, o + 1) == q && Follows(c, q, MemberFrom(m))
    ensures q + |MemberFrom(m)| < |c|
    ensures MemberAt(c, o, depth, reader) ==
      Some((Member(m.key, DocValue(m.value)), Skip(c, q + |MemberFrom(m)|)))
    decreases m
  {
    hide *;
    var key, t := m.literal, DocText(m.value);
    MemberValid(m, reader);
    FollowsParts(c, q, MemberFrom(m));
    DocStart(m.value, reader);
    MemberFound(c, q, m);
    var e := q + |key|;
    var v := e + |m.beforeColon| + 1 + |m.behindColon|;
    StringReads(c, q, m.literal, m.key);
    IsFollowed(c, v, t);
    DocReads(c, v, m.value, depth, reader);
    MemberStep(c, o, depth, reader);
  }

  lemma MemberFound(c: seq<byte>, q: nat, m: MemberDoc)
    requires FoundAt(c, q, MemberFrom(m)) && Space(m.beforeColon) && Space(m.behindColon)
    requires |DocText(m.value)| >= 1 && DocText(m.value)[0] > 32
    ensures var e := q + |m.literal|;
            var colon := e + |m.beforeColon|;
            var v := colon + 1 + |m.behindColon|;
            && FoundAt(c, q, m.literal) && v + |DocText(m.value)| == q + |MemberFrom(m)| <= |c| && v < |c|
            && Skip(c, e) == colon && c[colon] == 58
            && Skip(c, colon + 1) == v && FoundAt(c, v, DocText(m.value))
  {
    hide *;
    var key, t := m.literal, DocText(m.value);
    MemberFromParts(m);
    var e := q + |key|;
    var colon := e + |m.beforeColon|;
    FoundInside(c, q, MemberFrom(m));
    FoundSplit(c, q, key, m.beforeColon + ([58] + (m.behindColon + t)));
    FoundSplit(c, e, m.beforeColon, [58] + (m.behindColon + t));
    FoundSplit(c, colon, [58], m.behindColon + t);
    TokenBehind(c, e, m.beforeColon, 58);
    NextPart(c, colon + 1, m.behindColon, t);
  }

  lemma MemberFromParts(m: MemberDoc)
    ensures MemberFrom(m) == m.literal + (m.beforeColon + ([58] + (m.behindColon + DocText(m.value))))
  {
    hide DocText;
  }

  lemma FollowsParts(c: seq<byte>, o: nat, text: seq<byte>)
    requires Follows(c, o, text)
    ensures FoundAt(c, o, text) && o + |text| < |c| && !IsNumberByte(c[o + |text|])
  {}

  lemma MemberStep(c: seq<byte>, o: nat, depth: nat, reader: Reader)
    requires Terminated(c) && o + 1 < |c| && StringAt(c, Skip(c, o + 1)).Some?
    ensures var (key, next) := StringAt(c, Skip(c, o + 1)).value;
            && next < |c|
            && (c[Skip(c, next)] == 58 ==>
                  && Skip(c, next) + 1 < |c|
                  && MemberAt(c, o, depth, reader) ==
                       match ValueAt(c, Skip(c, Skip(c, next) + 1), depth, reader) {
                         case None => None
                         case Some((v, end)) => Some((Member(key, v), Skip(c, end)))
                       })
  {
    hide ValueAt, Skip, StringAt;
    StringInside(c, Skip(c, o + 1));
  }

  // ----- nothing else is taken

  lemma FoundJoin(c: seq<byte>, p: nat, x: seq<byte>, y: seq<byte>)
    requires FoundAt(c, p, x) && FoundAt(c, p + |x|, y)
    ensures FoundAt(c, p, x + y)
  {
    assert c[p..p + |x + y|] == c[p..p + |x|] + c[p + |x|..p + |x| + |y|];
  }

  lemma FoundHere(c: seq<byte>, p: nat, b: byte)
    requires p < |c| && c[p] == b
    ensures FoundAt(c, p, [b])
  {}

  /** What is skipped is white space. */
  lemma SkippedIsSpace(c: seq<byte>, p: nat) returns (w: seq<byte>)
    requires p < |c|
    ensures Space(w) && FoundAt(c, p, w) && p + |w| == Skip(c, p)
  {
    var q := Skip(c, p);
    SkipBehind(c, p);
    w := c[p..q];
  }

  lemma SkipBehind(c: seq<byte>, p: nat)
    requires p < |c|
    ensures p <= Skip(c, p) && forall k :: p <= k < Skip(c, p) ==> c[k] <= 32
  {}

  lemma StringIsText(c: seq<byte>, o: nat) returns (literal: seq<byte>)
    requires o < |c| && StringAt(c, o).Some?
    ensures Taken(literal, StringAt(c, o).value.0) && FoundAt(c, o, literal) && StringAt(c, o).value.1 == o + |literal|
  {
    hide StringAt;
    StringPlace(c, o);
    var (s, e) := StringAt(c, o).value;
    literal := c[o..e];
    var alone := literal + [0];
    assert alone[0..|literal|] == literal;
    SameString(c, o, alone, 0, e - o);
  }

  lemma StringPlace(c: seq<byte>, o: nat)
    requires o < |c| && StringAt(c, o).Some?
    ensures c[o] == 34 && o < StringAt(c, o).value.1 <= |c|
  {
    ClosingBounds(c, o + 1);
  }

  lemma NumberIsText(c: seq<byte>, o: nat, reader: Reader) returns (digits: seq<byte>, n: int)
    requires Terminated(c) && o < |c| && (c[o] == 45 || 48 <= c[o] <= 57) && NumberAt(c, o, reader).Some?
    ensures Converted(digits, n, false, reader) && FoundAt(c, o, digits)
    ensures NumberAt(c, o, reader) == Some((DocValue(NumberDoc(digits, n)), o + |digits|))
  {
    hide NumberBytes;
    var text := NumberBytes(c, o);
    var (number, used) := reader(text).value;
    digits, n := text[..used], number;
    assert text == digits + text[used..];
    assert c[o..o + used] == digits;
    assert digits[0] == c[o];
  }

  lemma WordIsText(c: seq<byte>, o: nat, word: seq<byte>)
    requires Reads(c, o, word)
    ensures FoundAt(c, o, word)
  {}

  /** Whatever value the parser finds, it stands there as a text of that value, nested within the limit. */
  lemma {:induction false} ValueIsText(c: seq<byte>, o: nat, depth: nat, reader: Reader) returns (d: Doc)
    requires Terminated(c) && o < |c| && depth <= 1000 && ValueAt(c, o, depth, reader).Some?
    ensures TakenDoc(d, false, reader) && FoundAt(c, o, DocText(d)) && depth + Levels(d) <= 1000
    ensures ValueAt(c, o, depth, reader) == Some((DocValue(d), o + |DocText(d)|))
    decreases |c| - o, 3
  {
    hide FoundAt, StringAt, NumberAt, ItemsAt, MembersAt, MemberAt, ArrayAt, ObjectAt, Reads, Skip;
    hide ItemsFrom, MembersFrom, Converted, Taken;
    if Reads(c, o, NULL) {
      d := NullDoc;
      WordIsText(c, o, NULL);
    } else if Reads(c, o, FALSE) {
      d := FalseDoc;
      WordIsText(c, o, FALSE);
    } else if Reads(c, o, TRUE) {
      d := TrueDoc;
      WordIsText(c, o, TRUE);
    } else if c[o] == QUOTE {
      var literal := StringIsText(c, o);
      d := StringDoc(literal, StringAt(c, o).value.0);
    } else if c[o] == 45 || 48 <= c[o] <= 57 {
      var digits, n := NumberIsText(c, o, reader);
      d := NumberDoc(digits, n);
    } else if c[o] == 91 {
      d := ArrayIsText(c, o, depth, reader);
    } else {
      d := ObjectIsText(c, o, depth, reader);
    }
  }

  lemma {:induction false} ArrayIsText(c: seq<byte>, o: nat, depth: nat, reader: Reader) returns (d: Doc)
    requires Terminated(c) && o < |c| && c[o] == 91 && ArrayAt(c, o, depth, reader).Some?
    ensures TakenDoc(d, false, reader) && FoundAt(c, o, DocText(d)) && depth + Levels(d) <= 1000
    ensures ArrayAt(c, o, depth, reader) == Some((DocValue(d), o + |DocText(d)|))
    decreases |c| - o, 2
  {
    hide FoundAt, ItemsAt, Skip, ItemsFrom, TakenItem, Space, ItemLevels, ItemValues;
    var first := Skip(c, o + 1);
    var w := SkippedIsSpace(c, o + 1);
    FoundHere(c, o, 91);
    if c[first] == 93 {
      d := ArrayDoc([], w);
      FoundHere(c, first, 93);
      FoundJoin(c, o + 1, w, [93]);
      FoundJoin(c, o, [91], w + [93]);
      NoLevels();
    } else {
      var items := ItemsAreText(c, first - 1, depth + 1, reader);
      FirstChanged(items, w, reader);
      d := ArrayDoc(items[0 := items[0].(before := w + items[0].before)], []);
      JoinBrackets(c, o, 91, w, items[0].before, ItemsFrom(items), 93);
      LevelsOfArray(d);
    }
  }

  lemma JoinBrackets(c: seq<byte>, o: nat, open: byte, w: seq<byte>, before: seq<byte>, text: seq<byte>, close: byte)
    requires o < |c| && c[o] == open && FoundAt(c, o + 1, w) && FoundAt(c, o + 1 + |w|, before + text)
    requires var end := o + 1 + |w| + |before| + |text|; end < |c| && c[end] == close
    ensures FoundAt(c, o, [open] + ((w + before) + text + [close]))
  {
    hide FoundAt;
    FoundHere(c, o, open);
    FoundJoin(c, o + 1, w, before + text);
    assert w + (before + text) == (w + before) + text;
    FoundHere(c, o + 1 + |(w + before) + text|, close);
    FoundJoin(c, o + 1, (w + before) + text, [close]);
    FoundJoin(c, o, [open], (w + before) + text + [close]);
  }

  lemma LevelsOfArray(d: Doc)
    ensures d.ArrayDoc? ==> Levels(d) == 1 + ItemLevels(d.items)
    ensures d.ObjectDoc? ==> Levels(d) == 1 + MemberLevels(d.members)
  {
    hide ItemLevels, MemberLevels;
  }

  lemma NoLevels()
    ensures ItemLevels([]) == 0 && MemberLevels([]) == 0 && Space([])
    ensures ItemValues([]) == [] && MemberValues([]) == []
  {}

  /** More white space in front of the first item. */
  lemma FirstChanged(items: seq<ItemDoc>, w: seq<byte>, reader: Reader)
    requires items != [] && Space(w) && forall i :: 0 <= i < |items| ==> TakenItem(items[i], false, reader)
    ensures var changed := items[0 := items[0].(before := w + items[0].before)];
            && (forall i :: 0 <= i < |changed| ==> TakenItem(changed[i], false, reader))
            && ItemsFrom(changed) == ItemsFrom(items) && ItemValues(changed) == ItemValues(items)
            && ItemLevels(changed) == ItemLevels(items) && Space([])
  {
    hide DocText, DocValue, Levels, TakenDoc;
    assert items[0 := items[0].(before := w + items[0].before)][1..] == items[1..];
  }

  lemma {:induction false} ItemsAreText(c: seq<byte>, o: nat, depth: nat, reader: Reader) returns (items: seq<ItemDoc>)
    requires Terminated(c) && o + 1 < |c| && depth <= 1000 && ItemsAt(c, o, depth, reader).Some?
    ensures items != [] && (forall i :: 0 <= i < |items| ==> TakenItem(items[i], false, reader))
    ensures FoundAt(c, o + 1, items[0].before + ItemsFrom(items)) && depth + ItemLevels(items) <= 1000
    ensures ItemsAt(c, o, depth, reader) ==
      Some((ItemValues(items), o + 1 + |items[0].before| + |ItemsFrom(items)|))
    decreases |c| - o, 1
  {
    hide *;
    ItemsStep(c, o, depth, reader);
    var before := SkippedIsSpace(c, o + 1);
    var q := Skip(c, o + 1);
    var d := ValueIsText(c, q, depth, reader);
    var next := q + |DocText(d)|;
    ValueInside(c, q, depth, reader);
    var behind := SkippedIsSpace(c, next);
    var end := Skip(c, next);
    var item := ItemDoc(before, d, behind);
    ItemMade(item, reader);
    FoundJoin(c, q, DocText(d), behind);
    if c[end] == 44 {
      NotLast(c, end);
      OntoOf([DocValue(d)], ItemsAt(c, end, depth, reader));
      var rest := ItemsAreText(c, end, depth, reader);
      items := [item] + rest;
      ItemsMade(item, rest);
      var others := rest[0].before + ItemsFrom(rest);
      FoundHere(c, end, 44);
      FoundJoin(c, end, [44], others);
      FoundJoin(c, q, DocText(d) + behind, [44] + others);
      FoundJoin(c, o + 1, before, DocText(d) + behind + ([44] + others));
      OntoSome([DocValue(d)], ItemValues(rest), end + 1 + |rest[0].before| + |ItemsFrom(rest)|);
    } else {
      items := [item];
      OneItemMade(item);
      FoundJoin(c, o + 1, before, DocText(d) + behind);
    }
  }

  lemma NotLast(c: seq<byte>, k: nat)
    requires Terminated(c) && k < |c| && c[k] != 0
    ensures k + 1 < |c|
  {}

  lemma OntoOf<T>(a: seq<T>, r: Option<(seq<T>, nat)>)
    ensures Onto(a, r).Some? <==> r.Some?
  {}

  lemma ValueInside(c: seq<byte>, o: nat, depth: nat, reader: Reader)
    requires Terminated(c) && o < |c| && ValueAt(c, o, depth, reader).Some?
    ensures o < ValueAt(c, o, depth, reader).value.1 < |c|
  {
    hide ValueAt;
  }

  lemma ItemMade(item: ItemDoc, reader: Reader)
    requires Space(item.before) && TakenDoc(item.value, false, reader) && Space(item.behind)
    ensures TakenItem(item, false, reader)
  {}

  lemma ItemsMade(item: ItemDoc, rest: seq<ItemDoc>)
    requires rest != []
    ensures var items := [item] + rest;
            && ItemsFrom(items) ==
                 DocText(item.value) + item.behind + ([44] + (rest[0].before + ItemsFrom(rest)))
            && ItemValues(items) == [DocValue(item.value)] + ItemValues(rest)
            && (ItemLevels(items) == Levels(item.value) || ItemLevels(items) == ItemLevels(rest))
            && items[0] == item
  {
    hide DocText, DocValue, Levels;
    assert ([item] + rest)[1..] == rest;
  }

  lemma OneItemMade(item: ItemDoc)
    ensures ItemsFrom([item]) == DocText(item.value) + item.behind
    ensures ItemValues([item]) == [DocValue(item.value)] && ItemLevels([item]) == Levels(item.value)
  {
    hide DocText, DocValue, Levels;
    assert item.behind + [] == item.behind;
  }

  lemma {:induction false} ObjectIsText(c: seq<byte>, o: nat, depth: nat, reader: Reader) returns (d: Doc)
    requires Terminated(c) && o < |c| && c[o] == 123 && ObjectAt(c, o, depth, reader).Some?
    ensures TakenDoc(d, false, reader) && FoundAt(c, o, DocText(d)) && depth + Levels(d) <= 1000
    ensures ObjectAt(c, o, depth, reader) == Some((DocValue(d), o + |DocText(d)|))
    decreases |c| - o, 2
  {
    hide FoundAt, MembersAt, Skip, MembersFrom, TakenMember, Space, MemberLevels, MemberValues;
    var first := Skip(c, o + 1);
    var w := SkippedIsSpace(c, o + 1);
    FoundHere(c, o, 123);
    if c[first] == 125 {
      d := ObjectDoc([], w);
      FoundHere(c, first, 125);
      FoundJoin(c, o + 1, w, [125]);
      FoundJoin(c, o, [123], w + [125]);
      NoLevels();
    } else {
      var members := MembersAreText(c, first - 1, depth + 1, reader);
      FirstMemberChanged(members, w, reader);
      d := ObjectDoc(members[0 := members[0].(before := w + members[0].before)], []);
      JoinBrackets(c, o, 123, w, members[0].before, MembersFrom(members), 125);
      LevelsOfArray(d);
    }
  }

  lemma FirstMemberChanged(members: seq<MemberDoc>, w: seq<byte>, reader: Reader)
    requires members != [] && Space(w) && forall i :: 0 <= i < |members| ==> TakenMember(members[i], false, reader)
    ensures var changed := members[0 := members[0].(before := w + members[0].before)];
            && (forall i :: 0 <= i < |changed| ==> TakenMember(changed[i], false, reader))
            && MembersFrom(changed) == MembersFrom(members) && MemberValues(changed) == MemberValues(members)
            && MemberLevels(changed) == MemberLevels(members) && Space([])
  {
    hide DocText, DocValue, Levels, TakenDoc, Taken;
    assert members[0 := members[0].(before := w + members[0].before)][1..] == members[1..];
  }

  lemma {:induction false} MembersAreText(c: seq<byte>, o: nat, depth: nat, reader: Reader)
      returns (members: seq<MemberDoc>)
    requires Terminated(c) && o + 1 < |c| && depth <= 1000 && MembersAt(c, o, depth, reader).Some?
    ensures members != [] && (forall i :: 0 <= i < |members| ==> TakenMember(members[i], false, reader))
    ensures FoundAt(c, o + 1, members[0].before + MembersFrom(members)) && depth + MemberLevels(members) <= 1000
    ensures MembersAt(c, o, depth, reader) ==
      Some((MemberValues(members), o + 1 + |members[0].before| + |MembersFrom(members)|))
    decreases |c| - o, 1
  {
    hide *;
    MembersStep(c, o, depth, reader);
    var m := MemberIsText(c, o, depth, reader);
    MemberInside(c, o, depth, reader);
    var end := o + 1 + |m.before| + |MemberFrom(m)| + |m.behind|;
    var text := MemberFrom(m) + m.behind;
    if c[end] == 44 {
      NotLast(c, end);
      OntoOf([Member(m.key, DocValue(m.value))], MembersAt(c, end, depth, reader));
      var rest := MembersAreText(c, end, depth, reader);
      members := [m] + rest;
      MembersMade(m, rest);
      var others := rest[0].before + MembersFrom(rest);
      FoundHere(c, end, 44);
      FoundJoin(c, end, [44], others);
      FoundJoin(c, o + 1, m.before + text, [44] + others);
      assert m.before + text + ([44] + others) == m.before + (text + ([44] + others));
      OntoSome([Member(m.key, DocValue(m.value))], MemberValues(rest), end + 1 + |rest[0].before|
        + |MembersFrom(rest)|);
    } else {
      members := [m];
      OneMemberMade(m);
    }
  }

  lemma MemberInside(c: seq<byte>, o: nat, depth: nat, reader: Reader)
    requires Terminated(c) && o + 1 < |c| && MemberAt(c, o, depth, reader).Some?
    ensures o < MemberAt(c, o, depth, reader).value.1 < |c|
  {
    hide MemberAt;
  }

  lemma MembersMade(m: MemberDoc, rest: seq<MemberDoc>)
    requires rest != []
    ensures var members := [m] + rest;
            && MembersFrom(members) == MemberFrom(m) + m.behind + ([44] + (rest[0].before + MembersFrom(rest)))
            && MemberValues(members) == [Member(m.key, DocValue(m.value))] + MemberValues(rest)
            && (MemberLevels(members) == Levels(m.value) || MemberLevels(members) == MemberLevels(rest))
            && members[0] == m
  {
    hide MemberFrom, DocValue, Levels;
    assert ([m] + rest)[1..] == rest;
  }

  lemma OneMemberMade(m: MemberDoc)
    ensures MembersFrom([m]) == MemberFrom(m) + m.behind
    ensures MemberValues([m]) == [Member(m.key, DocValue(m.value))] && MemberLevels([m]) == Levels(m.value)
  {
    hide MemberFrom, DocValue, Levels;
    assert m.behind + [] == m.behind;
  }

  lemma {:induction false} MemberIsText(c: seq<byte>, o: nat, depth: nat, reader: Reader) returns (m: MemberDoc)
    requires Terminated(c) && o + 1 < |c| && depth <= 1000 && MemberAt(c, o, depth, reader).Some?
    ensures TakenMember(m, false, reader) && depth + Levels(m.value) <= 1000
    ensures FoundAt(c, o + 1, m.before + (MemberFrom(m) + m.behind))
    ensures MemberAt(c, o, depth, reader) ==
      Some((Member(m.key, DocValue(m.value)), o + 1 + |m.before| + |MemberFrom(m)| + |m.behind|))
    decreases |c| - o, 0
  {
    hide *;
    var before := SkippedIsSpace(c, o + 1);
    var start := Skip(c, o + 1);
    MemberOpened(c, o, depth, reader);
    var literal := StringIsText(c, start);
    var (key, next) := StringAt(c, start).value;
    MemberStep(c, o, depth, reader);
    var beforeColon := SkippedIsSpace(c, next);
    var colon := Skip(c, next);
    var behindColon := SkippedIsSpace(c, colon + 1);
    var at := Skip(c, colon + 1);
    var d := ValueIsText(c, at, depth, reader);
    ValueInside(c, at, depth, reader);
    var end := at + |DocText(d)|;
    var behind := SkippedIsSpace(c, end);
    m := MemberDoc(before, literal, key, beforeColon, behindColon, d, behind);
    MemberMade(m, reader);
    MemberFromParts(m);
    FoundHere(c, colon, 58);
    FoundJoin(c, at, DocText(d), behind);
    JoinFive(c, start, literal, beforeColon, behindColon, DocText(d));
    FoundJoin(c, start, MemberFrom(m), behind);
    FoundJoin(c, o + 1, before, MemberFrom(m) + behind);
  }

  lemma MemberOpened(c: seq<byte>, o: nat, depth: nat, reader: Reader)
    requires Terminated(c) && o + 1 < |c| && MemberAt(c, o, depth, reader).Some?
    ensures StringAt(c, Skip(c, o + 1)).Some?
    ensures var next := StringAt(c, Skip(c, o + 1)).value.1;
            next < |c| && c[Skip(c, next)] == 58 && Skip(c, next) + 1 < |c|
            && ValueAt(c, Skip(c, Skip(c, next) + 1), depth, reader).Some?
  {
    hide StringAt, Skip, ValueAt;
    if StringAt(c, Skip(c, o + 1)).Some? {
      StringInside(c, Skip(c, o + 1));
      MemberStep(c, o, depth, reader);
    }
  }

  lemma MemberMade(m: MemberDoc, reader: Reader)
    requires Space(m.before) && Taken(m.literal, m.key) && Space(m.beforeColon) && Space(m.behindColon)
    requires TakenDoc(m.value, false, reader) && Space(m.behind)
    ensures TakenMember(m, false, reader)
  {
    hide Taken, Space, TakenDoc;
  }

  lemma JoinFive(c: seq<byte>, p: nat, a: seq<byte>, b: seq<byte>, d: seq<byte>, e: seq<byte>)
    requires FoundAt(c, p, a) && FoundAt(c, p + |a|, b) && FoundAt(c, p + |a| + |b|, [58])
    requires FoundAt(c, p + |a| + |b| + 1, d) && FoundAt(c, p + |a| + |b| + 1 + |d|, e)
    ensures FoundAt(c, p, a + (b + ([58] + (d + e))))
  {
    hide FoundAt;
    FoundJoin(c, p + |a| + |b| + 1, d, e);
    FoundJoin(c, p + |a| + |b|, [58], d + e);
    FoundJoin(c, p + |a|, b, [58] + (d + e));
    FoundJoin(c, p, a, b + ([58] + (d + e)));
  }

  // ----- the theorems

  /**
   Every JSON text, perhaps behind a byte order mark, with white space in front and anything behind it that is no part
   of a number, is parsed to the value it writes, and the parser stops behind it.
   */
  lemma TextReads(c: seq<byte>, mark: bool, before: seq<byte>, d: Doc, rest: seq<byte>, reader: Reader)
    requires ValidDoc(d, reader) && Levels(d) <= 1000 && Blank(before)
    requires rest != [] && rest[|rest| - 1] == 0 && !NumberChar(rest[0])
    requires c == (if mark then [0xEF, 0xBB, 0xBF] else []) + before + DocText(d) + rest
    ensures Terminated(c)
    ensures Parsed(c, reader) == Some((DocValue(d), (if mark then 3 else 0) + |before| + |DocText(d)|))
  {
    hide DocText, DocValue, ValidDoc, TakenDoc, Levels, Skip, ValueAt, Reads, Blank, Space;
    ValidIsTaken(d, reader);
    BlankIsSpace(before);
    DocStart(d, reader);
    var bom: seq<byte> := if mark then [0xEF, 0xBB, 0xBF] else [];
    var t, p := DocText(d), |bom|;
    assert c[p..p + |before|] == before;
    assert c[p + |before|..p + |before| + |t|] == t;
    assert c[p + |before|] == t[0] && c[p + |before| + |t|] == rest[0];
    BlankSkipped(c, p, before);
    Mark(c, mark, before, t);
    DocReads(c, p + |before|, d, 0, reader);
  }

  /** A text without the mark does not begin with its bytes. */
  lemma Mark(c: seq<byte>, mark: bool, before: seq<byte>, t: seq<byte>)
    requires |t| >= 1 && t[0] <= 123 && Blank(before)
    requires var p := if mark then 3 else 0;
             p + |before| + |t| < |c| && c[..p] + before + t == c[..p + |before| + |t|]
             && (mark ==> c[..3] == [0xEF, 0xBB, 0xBF])
    ensures (4 < |c| && Reads(c, 0, [0xEF, 0xBB, 0xBF])) <==> mark
  {
    if mark {
      assert c[0..0 + 3] == c[..3];
    } else {
      FirstOfWord(c, 0, [0xEF, 0xBB, 0xBF]);
      assert c[0] == (before + t)[0];
    }
  }

  /** What the parser accepts is a text of the value it returns: perhaps a mark, white space, and a document. */
  lemma AcceptedIsText(c: seq<byte>, reader: Reader) returns (mark: bool, before: seq<byte>, d: Doc)
    requires Terminated(c) && Parsed(c, reader).Some?
    ensures mark ==> FoundAt(c, 0, [0xEF, 0xBB, 0xBF])
    ensures var start := if mark then 3 else 0;
            && Space(before) && FoundAt(c, start, before) && FoundAt(c, start + |before|, DocText(d))
            && TakenDoc(d, false, reader) && Levels(d) <= 1000
            && Parsed(c, reader) == Some((DocValue(d), start + |before| + |DocText(d)|))
  {
    hide DocText, DocValue, TakenDoc, Levels, Skip, ValueAt, Space;
    mark := 4 < |c| && Reads(c, 0, [0xEF, 0xBB, 0xBF]);
    before := SkippedIsSpace(c, if mark then 3 else 0);
    d := ValueIsText(c, Skip(c, if mark then 3 else 0), 0, reader);
  }

  /** Inside 1000 arrays, one more is refused, whatever follows. */
  lemma {:induction false} TooManyBrackets(c: seq<byte>, k: nat, reader: Reader)
    requires Terminated(c) && k <= 1000 < |c| && forall i :: 0 <= i <= 1000 ==> c[i] == 91
    ensures ValueAt(c, k, k, reader) == None
    decreases 1000 - k
  {
    hide ItemsAt, Skip, Reads;
    NoConstant(c, k);
    if k < 1000 {
      SkipNothing(c, k + 1);
      ItemsStep(c, k, k + 1, reader);
      TooManyBrackets(c, k + 1, reader);
    }
  }

  lemma TooDeepRefused(c: seq<byte>, reader: Reader)
    requires Terminated(c) && 1000 < |c| && forall i :: 0 <= i <= 1000 ==> c[i] == 91
    ensures Parsed(c, reader) == None
  {
    hide ValueAt, Skip;
    FirstOfWord(c, 0, [0xEF, 0xBB, 0xBF]);
    SkipNothing(c, 0);
    TooManyBrackets(c, 0, reader);
  }

  // ----- long numbers

  lemma {:induction false} NumberTextCut(c: seq<byte>, o: nat, t: seq<byte>, n: nat)
    requires FoundAt(c, o, t) && n <= |t| && forall k :: 0 <= k < |t| ==> NumberChar(t[k])
    ensures o <= |c| && NumberText(c, o, n) == t[..n]
    decreases n
  {
    if n > 0 {
      assert t == [t[0]] + t[1..];
      FoundSplit(c, o, [t[0]], t[1..]);
      FoundByte(c, o, t, 0);
      NumberTextCut(c, o + 1, t[1..], n - 1);
      assert t[..n] == [t[0]] + t[1..][..n - 1];
    }
  }

  /** However long a number is, no more than its first 63 characters are used. */
  lemma LongNumberCut(c: seq<byte>, o: nat, digits: seq<byte>, reader: Reader)
    requires Terminated(c) && FoundAt(c, o, digits) && |digits| > 63
    requires forall k :: 0 <= k < |digits| ==> NumberChar(digits[k])
    ensures o < |c|
    ensures match reader(digits[..63])
            case None => NumberAt(c, o, reader) == None
            case Some((n, used)) =>
              if 0 < used <= 63 then NumberAt(c, o, reader) == Some((DocValue(NumberDoc(digits[..63], n)), o + used))
              else NumberAt(c, o, reader) == None
    ensures NumberAt(c, o, reader).Some? ==> NumberChar(c[NumberAt(c, o, reader).value.1])
  {
    hide NumberText, FoundAt;
    FoundByte(c, o, digits, 0);
    NumberTextCut(c, o, digits, 63);
    if NumberAt(c, o, reader).Some? {
      FoundByte(c, o, digits, NumberAt(c, o, reader).value.1 - o);
    }
  }

  /** So an array of one number of more than 63 digits is refused, though RFC 8259 allows it. */
  lemma LongItemRefused(digits: seq<byte>, reader: Reader)
    requires |digits| > 63 && forall k :: 0 <= k < |digits| ==> 48 <= digits[k] <= 57
    ensures Terminated([91] + digits + [93, 0]) && Parsed([91] + digits + [93, 0], reader) == None
  {
    hide NumberAt, Skip, Reads, ItemsAt;
    var c := [91] + digits + [93, 0];
    FirstOfWord(c, 0, [0xEF, 0xBB, 0xBF]);
    SkipNothing(c, 0);
    SkipNothing(c, 1);
    NoConstant(c, 0);
    NoConstant(c, 1);
    assert c[0] == 91 && c[1] == digits[0] && c[|c| - 1] == 0;
    assert c[1..1 + |digits|] == digits;
    LongNumberCut(c, 1, digits, reader);
    if NumberAt(c, 1, reader).Some? {
      SkipNothing(c, NumberAt(c, 1, reader).value.1);
    }
    ItemsStep(c, 0, 1, reader);
    assert ArrayAt(c, 0, 0, reader) == None;
  }
}
