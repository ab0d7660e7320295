/** Parsing the printed text of a value gives the value back, formatted or not. */
module JsonRoundTrip {
  import opened Bits
  import opened Options
  import opened JsonStrings
  import opened JsonParseString
  import opened JsonSpelling
  import opened JsonStringRoundTrip
  import opened JsonText
  import opened JsonGrammar
  import opened JsonSyntax

  /** The library's conversion reads back the decimal text of every 32-bit integer. */
  ghost predicate ReadsIntegers(reader: Reader) {
    forall n: int :: -0x8000_0000 <= n <= 0x7FFF_FFFF ==> reader(Decimal(n)) == Some((n, |Decimal(n)|))
  }

  // ----- a conversion of this kind

  /** The number of decimal digits in front. */
  function LeadingDigits(t: seq<byte>): (k: nat)
    ensures k <= |t|
  {
    if t == [] || t[0] < 48 || t[0] > 57 then 0 else 1 + LeadingDigits(t[1..])
  }

  function DigitSum(t: seq<byte>): int
    decreases |t|
  {
    if t == [] then 0 else 10 * DigitSum(t[..|t| - 1]) + t[|t| - 1] - 48
  }

  /** An optional minus and decimal digits, as the conversion of the C library reads them. */
  function ReadDecimal(t: seq<byte>): Option<(int, nat)> {
    var sign := if t != [] && t[0] == 45 then 1 else 0;
    var k := LeadingDigits(t[sign..]);
    var n := DigitSum(t[sign..sign + k]);
    if k == 0 then None else Some((if sign == 1 then -n else n, sign + k))
  }

  lemma {:induction false} AllDigits(t: seq<byte>)
    requires forall k :: 0 <= k < |t| ==> 48 <= t[k] <= 57
    ensures LeadingDigits(t) == |t|
  {
    if t != [] {
      AllDigits(t[1..]);
    }
  }

  lemma {:induction false} DigitsSum(n: nat)
    ensures DigitSum(Digits(n)) == n
  {
    if n < 10 {
      assert Digits(n)[..0] == [];
    } else {
      DigitsSum(n / 10);
      assert Digits(n)[..|Digits(n)| - 1] == Digits(n / 10);
    }
  }

  /** Reading decimal text gives the number that was printed, whatever its width. */
  lemma DecimalReads(n: int)
    ensures ReadDecimal(Decimal(n)) == Some((n, |Decimal(n)|))
  {
    hide Digits, LeadingDigits, DigitSum;
    var m := if n < 0 then -n else n;
    DigitsAreNumberBytes(m);
    AllDigits(Digits(m));
    DigitsSum(m);
    var t := Decimal(n);
    var sign := |t| - |Digits(m)|;
    assert t[sign..] == Digits(m) == t[sign..sign + |Digits(m)|];
  }

  lemma {:induction false} DigitsBegin(n: nat)
    ensures Digits(n)[0] == 48 <==> n == 0
    ensures |Digits(n)| == 1 <==> n < 10
  {
    if n >= 10 {
      DigitsBegin(n / 10);
    }
  }

  /** There are no leading zeros, no plus sign and no negative zero. */
  lemma DecimalBegins(n: int)
    ensures n < 0 ==> |Decimal(n)| >= 2 && Decimal(n)[0] == 45 && 49 <= Decimal(n)[1] <= 57
    ensures n == 0 ==> Decimal(n) == [48]
    ensures n > 0 ==> 49 <= Decimal(n)[0] <= 57
  {
    hide Digits;
    var m := if n < 0 then -n else n;
    DigitsBegin(m);
    DigitsAreNumberBytes(m);
    DigitSumOfZero();
  }

  lemma DigitSumOfZero()
    ensures Digits(0) == [48]
  {}

  /** There is a conversion that reads integers: what is assumed of the library's can be met. */
  lemma ReadersExist()
    ensures ReadsIntegers(ReadDecimal)
  {
    hide Decimal, ReadDecimal;
    forall n: int | -0x8000_0000 <= n <= 0x7FFF_FFFF
      ensures ReadDecimal(Decimal(n)) == Some((n, |Decimal(n)|))
    {
      DecimalReads(n);
    }
  }

  // ----- the printed text as a document

  lemma {:induction false} DigitsAreNumberBytes(n: nat)
    ensures forall k :: 0 <= k < |Digits(n)| ==> 48 <= Digits(n)[k] <= 57
  {
    if n >= 10 {
      DigitsAreNumberBytes(n / 10);
    }
  }

  function Pow10(k: nat): nat {
    if k == 0 then 1 else 10 * Pow10(k - 1)
  }

  lemma {:induction false} DigitsLength(n: nat, k: nat)
    requires k >= 1 && n < Pow10(k)
    ensures |Digits(n)| <= k
  {
    if n >= 10 {
      DigitsLength(n / 10, k - 1);
    }
  }

  lemma DecimalShape(n: int)
    requires -0x8000_0000 <= n <= 0x7FFF_FFFF
    ensures 1 <= |Decimal(n)| <= 11
    ensures forall k :: 0 <= k < |Decimal(n)| ==> NumberChar(Decimal(n)[k])
    ensures Decimal(n)[0] == 45 || 48 <= Decimal(n)[0] <= 57
  {
    hide Digits;
    var m := if n < 0 then -n else n;
    assert Pow10(10) == 10_000_000_000;
    DigitsLength(m, 10);
    DigitsAreNumberBytes(m);
  }

  /** The printed text of a value, with the printer's choices. */
  function DocOf(v: Json, depth: nat, format: bool): Doc {
    match v
    case Null => NullDoc
    case False => FalseDoc
    case True => TrueDoc
    case Number(n) => NumberDoc(Decimal(n), n)
    case String(s) => StringDoc(Quoted(s), s)
    case Array(items) => ArrayDoc(ItemDocs(items, depth + 1, format, true), [])
    case Object(members) =>
      ObjectDoc(MemberDocs(members, depth + 1, format), When(format, [10]) + When(format, Tabs(depth)))
  }

  function ItemDocs(items: seq<Json>, depth: nat, format: bool, first: bool): seq<ItemDoc> {
    if items == [] then []
    else
      [ItemDoc(When(!first && format, [32]), DocOf(items[0], depth, format), [])]
      + ItemDocs(items[1..], depth, format, false)
  }

  function MemberDocs(members: seq<Member>, depth: nat, format: bool): seq<MemberDoc>
    requires depth >= 1
  {
    if members == [] then []
    else
      var m := members[0];
      var behind := if |members| == 1 then When(format, [10]) + When(format, Tabs(depth - 1)) else [];
      [MemberDoc(When(format, [10]) + When(format, Tabs(depth)), Quoted(m.key), m.key, [], When(format, [9]),
                 DocOf(m.value, depth, format), behind)]
      + MemberDocs(members[1..], depth, format)
  }

  lemma QuotedIsString(s: seq<byte>)
    requires NulFree(s)
    ensures IsString(Quoted(s), s)
  {
    hide Escaped, Spelling, Spelled, Meant, UntilNul, PiecesOf;
    PrintedIsSpelling(s);
    UntilNulOfNulFree(s);
    assert Quoted(s) == [34] + Spelling(PiecesOf(s)) + [34];
  }

  lemma DecimalIsNumber(n: int, reader: Reader)
    requires -0x8000_0000 <= n <= 0x7FFF_FFFF && ReadsIntegers(reader)
    ensures IsNumber(Decimal(n), n, reader)
  {
    hide Decimal;
    DecimalShape(n);
  }

  lemma LayoutIsBlank(format: bool, depth: nat)
    ensures Blank(When(format, [10])) && Blank(When(format, Tabs(depth))) && Blank(When(format, [9])) && Blank([])
    ensures Blank(When(format, [32])) && Blank(When(format, [10]) + When(format, Tabs(depth)))
  {}

  /** The document of a value keeps to RFC 8259, its text is what is printed, and it writes the value. */
  ghost predicate Shown(v: Json, depth: nat, format: bool, reader: Reader) {
    var d := DocOf(v, depth, format);
    ValidDoc(d, reader) && DocText(d) == Text(v, depth, format) && DocValue(d) == v && Levels(d) == Nesting(v)
  }

  lemma {:induction false} DocOfIs(v: Json, depth: nat, format: bool, reader: Reader)
    requires Plain(v) && ReadsIntegers(reader)
    ensures Shown(v, depth, format, reader)
    decreases v
  {
    hide *;
    match v
    case Number(n) =>
      PlainParts(v);
      DecimalIsNumber(n, reader);
      LeafShown(v, depth, format, reader);
    case String(s) =>
      PlainParts(v);
      QuotedIsString(s);
      LeafShown(v, depth, format, reader);
    case Array(items) =>
      PlainParts(v);
      ItemDocsAre(items, depth + 1, format, true, reader);
      ArrayShown(items, depth, format, reader);
    case Object(members) =>
      PlainParts(v);
      MemberDocsAre(members, depth + 1, format, reader);
      ObjectShown(members, depth, format, reader);
    case _ =>
      LeafShown(v, depth, format, reader);
  }

  lemma PlainParts(v: Json)
    requires Plain(v)
    ensures v.Number? ==> -0x8000_0000 <= v.valueInt <= 0x7FFF_FFFF
    ensures v.String? ==> NulFree(v.valueString)
    ensures v.Array? ==> forall i :: 0 <= i < |v.items| ==> Plain(v.items[i])
    ensures v.Object? ==> forall i :: 0 <= i < |v.members| ==> NulFree(v.members[i].key) && Plain(v.members[i].value)
  {}

  lemma LeafShown(v: Json, depth: nat, format: bool, reader: Reader)
    requires !v.Array? && !v.Object? && Plain(v)
    requires v.Number? ==> IsNumber(Decimal(v.valueInt), v.valueInt, reader)
    requires v.String? ==> IsString(Quoted(v.valueString), v.valueString)
    ensures Shown(v, depth, format, reader)
  {
    hide Decimal, Quoted, IsNumber, IsString, NulFree;
  }

  lemma ArrayShown(items: seq<Json>, depth: nat, format: bool, reader: Reader)
    requires ItemsShown(ItemDocs(items, depth + 1, format, true), items, depth + 1, format, reader)
    ensures Shown(Array(items), depth, format, reader)
  {
    hide ItemDocs, ItemsText, ItemsFrom, ItemValues, ItemLevels, DeepestItem, ValidItem;
    if items == [] {
      NoParts(depth + 1, format);
    } else {
      ItemDocsSplit(items, depth + 1, format, true);
    }
  }

  lemma ObjectShown(members: seq<Member>, depth: nat, format: bool, reader: Reader)
    requires MembersShown(MemberDocs(members, depth + 1, format), members, depth + 1, format, reader)
    ensures Shown(Object(members), depth, format, reader)
  {
    hide MemberDocs, MembersText, MembersFrom, MemberValues, MemberLevels, DeepestMember, ValidMember, Tabs;
    hide Blank, When;
    LayoutIsBlank(format, depth);
    if members == [] {
      NoParts(depth + 1, format);
    } else {
      MemberDocsSplit(members, depth + 1, format);
    }
    var blank := When(format, [10]) + When(format, Tabs(depth));
    ObjectText(MemberDocs(members, depth + 1, format), blank, members, depth, format);
  }

  lemma NoParts(depth: nat, format: bool)
    requires depth >= 1
    ensures ItemDocs([], depth, format, true) == [] && MemberDocs([], depth, format) == []
    ensures ItemsText([], depth, format) == [] && MembersText([], depth, format) == []
    ensures ItemValues([]) == [] && MemberValues([]) == []
  {}

  lemma ObjectText(docs: seq<MemberDoc>, blank: seq<byte>, members: seq<Member>, depth: nat, format: bool)
    requires (if docs == [] then blank else docs[0].before + MembersFrom(docs))
          == When(format, [10]) + MembersText(members, depth + 1, format) + When(format, Tabs(depth))
    ensures DocText(ObjectDoc(docs, blank)) == Text(Object(members), depth, format)
  {
    hide MembersText, Tabs, MembersFrom, When;
  }

  /** What is to be shown of the documents of a list of items. */
  ghost predicate ItemsShown(docs: seq<ItemDoc>, items: seq<Json>, depth: nat, format: bool, reader: Reader) {
    && |docs| == |items| && (forall i :: 0 <= i < |docs| ==> ValidItem(docs[i], reader))
    && ItemsFrom(docs) == ItemsText(items, depth, format) && ItemValues(docs) == items
    && ItemLevels(docs) == DeepestItem(items)
  }

  lemma {:induction false} ItemDocsAre(items: seq<Json>, depth: nat, format: bool, first: bool, reader: Reader)
    requires ReadsIntegers(reader) && forall i :: 0 <= i < |items| ==> Plain(items[i])
    ensures ItemsShown(ItemDocs(items, depth, format, first), items, depth, format, reader)
    decreases items
  {
    hide *;
    if items == [] {
      NoItemDocs(depth, format, first, reader);
    } else {
      LayoutIsBlank(!first && format, depth);
      DocOfIs(items[0], depth, format, reader);
      ItemDocsAre(items[1..], depth, format, false, reader);
      ItemDocsSplit(items, depth, format, first);
      ItemShown(ItemDocs(items, depth, format, first)[0], items[0], ItemDocs(items[1..], depth, format, false),
                items[1..], depth, format, reader);
      assert [items[0]] + items[1..] == items;
    }
  }

  lemma NoItemDocs(depth: nat, format: bool, first: bool, reader: Reader)
    ensures ItemsShown(ItemDocs([], depth, format, first), [], depth, format, reader)
  {}

  lemma ItemDocsSplit(items: seq<Json>, depth: nat, format: bool, first: bool)
    requires items != []
    ensures var docs, rest := ItemDocs(items, depth, format, first), ItemDocs(items[1..], depth, format, false);
            && docs != [] && docs == [docs[0]] + rest
            && docs[0] == ItemDoc(When(!first && format, [32]), DocOf(items[0], depth, format), [])
            && (rest != [] ==> |items| > 1 && rest[0].before == When(format, [32]))
            && (rest == [] ==> |items| == 1)
  {
    hide DocOf;
  }

  /** One more item in front of the others. */
  lemma ItemShown(doc: ItemDoc, v: Json, rest: seq<ItemDoc>, items: seq<Json>, depth: nat, format: bool, reader: Reader)
    requires ItemsShown(rest, items, depth, format, reader) && Shown(v, depth, format, reader)
    requires doc.value == DocOf(v, depth, format) && Blank(doc.before) && Blank([]) && doc.behind == []
    requires rest != [] ==> rest[0].before == When(format, [32])
    ensures ItemsShown([doc] + rest, [v] + items, depth, format, reader)
  {
    hide Text, DocText, DocValue, Levels, Nesting, ItemsFrom, ItemsText, ValidDoc, DocOf, Blank;
    var docs := [doc] + rest;
    assert docs[1..] == rest && ([v] + items)[1..] == items;
    ItemsFromStep(docs);
    ItemsTextStep([v] + items, depth, format);
    assert ItemsFrom(docs) == ItemsText([v] + items, depth, format);
  }

  lemma ItemsFromStep(docs: seq<ItemDoc>)
    requires docs != []
    ensures ItemsFrom(docs) == DocText(docs[0].value) + (docs[0].behind
      + (if |docs| == 1 then [] else [44] + (docs[1].before + ItemsFrom(docs[1..]))))
  {
    hide DocText;
  }

  lemma ItemsTextStep(items: seq<Json>, depth: nat, format: bool)
    requires items != []
    ensures ItemsText(items, depth, format) ==
      Text(items[0], depth, format) + When(|items| > 1, [44] + When(format, [32]))
        + ItemsText(items[1..], depth, format)
    ensures |items| == 1 ==> ItemsText(items[1..], depth, format) == []
  {
    hide Text;
  }

  /** The same for members, where the text runs from the line end in front to the indentation behind. */
  ghost predicate MembersShown(docs: seq<MemberDoc>, members: seq<Member>, depth: nat, format: bool, reader: Reader)
    requires depth >= 1
  {
    && |docs| == |members| && (forall i :: 0 <= i < |docs| ==> ValidMember(docs[i], reader))
    && MemberValues(docs) == members && MemberLevels(docs) == DeepestMember(members)
    && (docs != [] ==>
          docs[0].before + MembersFrom(docs)
          == When(format, [10]) + MembersText(members, depth, format) + When(format, Tabs(depth - 1)))
  }

  lemma {:induction false} MemberDocsAre(members: seq<Member>, depth: nat, format: bool, reader: Reader)
    requires depth >= 1 && ReadsIntegers(reader)
    requires forall i :: 0 <= i < |members| ==> NulFree(members[i].key) && Plain(members[i].value)
    ensures MembersShown(MemberDocs(members, depth, format), members, depth, format, reader)
    decreases members
  {
    hide *;
    if members == [] {
      NoMemberDocs(depth, format, reader);
    } else {
      var m, rest := members[0], members[1..];
      LayoutIsBlank(format, depth);
      LayoutIsBlank(format, depth - 1);
      QuotedIsString(m.key);
      DocOfIs(m.value, depth, format, reader);
      MemberDocsAre(rest, depth, format, reader);
      MemberDocsSplit(members, depth, format);
      var docs := MemberDocs(members, depth, format);
      MemberShown(docs[0], m, MemberDocs(rest, depth, format), rest, depth, format, reader);
      assert [m] + rest == members;
    }
  }

  lemma NoMemberDocs(depth: nat, format: bool, reader: Reader)
    requires depth >= 1
    ensures MembersShown(MemberDocs([], depth, format), [], depth, format, reader)
  {}

  lemma MemberDocsSplit(members: seq<Member>, depth: nat, format: bool)
    requires depth >= 1 && members != []
    ensures var docs, rest := MemberDocs(members, depth, format), MemberDocs(members[1..], depth, format);
            && docs != [] && docs == [docs[0]] + rest && (rest == [] <==> |members| == 1)
            && docs[0] ==
              MemberDoc(When(format, [10]) + When(format, Tabs(depth)), Quoted(members[0].key), members[0].key, [],
                        When(format, [9]), DocOf(members[0].value, depth, format),
                        if |members| == 1 then When(format, [10]) + When(format, Tabs(depth - 1)) else [])
  {
    hide DocOf, Quoted, Tabs;
  }

  /** One more member in front of the others. */
  lemma MemberShown(doc: MemberDoc, m: Member, rest: seq<MemberDoc>, members: seq<Member>, depth: nat, format: bool,
                    reader: Reader)
    requires depth >= 1 && MembersShown(rest, members, depth, format, reader) && Shown(m.value, depth, format, reader)
    requires IsString(Quoted(m.key), m.key)
    requires Blank(doc.before) && Blank([]) && Blank(doc.behindColon) && Blank(doc.behind)
    requires doc.before == When(format, [10]) + When(format, Tabs(depth)) && doc.literal == Quoted(m.key)
    requires doc.key == m.key && doc.beforeColon == [] && doc.behindColon == When(format, [9])
    requires doc.behind == if rest == [] then When(format, [10]) + When(format, Tabs(depth - 1)) else []
    requires doc.value == DocOf(m.value, depth, format)
    ensures MembersShown([doc] + rest, [m] + members, depth, format, reader)
  {
    hide Text, DocText, DocValue, Levels, Nesting, MembersFrom, MembersText, ValidDoc, Tabs, When, Quoted, IsString;
    hide BodyText, MemberFrom, Blank, DocOf;
    var docs := [doc] + rest;
    assert docs[1..] == rest && ([m] + members)[1..] == members && ([m] + members)[0] == m;
    MembersFromStep(docs);
    MemberLayout([m] + members, depth, format, doc);
    var others := if rest == [] then [] else rest[0].before + MembersFrom(rest);
    Regroup(When(format, [10]), When(format, Tabs(depth)), MemberFrom(doc), When(format, Tabs(depth - 1)),
            MembersText(members, depth, format), rest == [], others);
    assert DocValue(doc.value) == m.value;
    assert [Member(doc.key, DocValue(doc.value))] + MemberValues(rest) == [m] + members;
  }

  lemma MembersFromStep(docs: seq<MemberDoc>)
    requires docs != []
    ensures MembersFrom(docs) == MemberFrom(docs[0]) + (docs[0].behind
      + (if |docs| == 1 then [] else [44] + (docs[1].before + MembersFrom(docs[1..]))))
  {
    hide MemberFrom;
  }

  lemma Regroup(line: seq<byte>, tabs: seq<byte>, body: seq<byte>, last: seq<byte>, text: seq<byte>, single: bool,
                rest: seq<byte>)
    requires !single ==> rest == line + text + last
    requires single ==> text == []
    ensures (line + tabs) + (body + ((if single then line + last else []) + (if single then [] else [44] + rest)))
         == line + (tabs + body + ((if single then [] else [44]) + line) + text) + last
  {}

  /** The text of the first member, in the two groupings. */
  lemma MemberLayout(members: seq<Member>, depth: nat, format: bool, m: MemberDoc)
    requires depth >= 1 && members != []
    requires m.literal == Quoted(members[0].key) && m.beforeColon == [] && m.behindColon == When(format, [9])
    requires DocText(m.value) == Text(members[0].value, depth, format)
    ensures MembersText(members, depth, format) ==
      When(format, Tabs(depth)) + MemberFrom(m) + ((if |members| == 1 then [] else [44]) + When(format, [10]))
      + MembersText(members[1..], depth, format)
    ensures |members| == 1 ==> MembersText(members[1..], depth, format) == []
  {
    hide BodyText, EndText, Tabs, MemberFrom, MembersText, When;
    MembersTextStep(members, depth, format);
    BodyIsMember(members[0], depth, format, m);
    EndOf(|members| > 1, format);
  }

  lemma MembersTextStep(members: seq<Member>, depth: nat, format: bool)
    requires members != []
    ensures MembersText(members, depth, format) ==
      When(format, Tabs(depth)) + BodyText(members[0], depth, format) + EndText(|members| > 1, format)
      + MembersText(members[1..], depth, format)
    ensures |members| == 1 ==> MembersText(members[1..], depth, format) == []
  {
    hide BodyText, EndText, Tabs, When;
  }

  lemma BodyIsMember(member: Member, depth: nat, format: bool, m: MemberDoc)
    requires m.literal == Quoted(member.key) && m.beforeColon == [] && m.behindColon == When(format, [9])
    requires DocText(m.value) == Text(member.value, depth, format)
    ensures BodyText(member, depth, format) == MemberFrom(m)
  {
    hide Quoted, Text, DocText, When;
    assert [] + ([58] + (m.behindColon + DocText(m.value))) == [58] + (m.behindColon + DocText(m.value));
  }

  lemma EndOf(more: bool, format: bool)
    ensures EndText(more, format) == (if more then [44] else []) + When(format, [10])
  {}

  // ----- the theorems

  lemma NumberReadsBack(c: seq<byte>, o: nat, n: int, reader: Reader)
    requires Terminated(c) && ReadsIntegers(reader) && -0x8000_0000 <= n <= 0x7FFF_FFFF
    requires FoundAt(c, o, Decimal(n)) && o + |Decimal(n)| < |c| && !IsNumberByte(c[o + |Decimal(n)|])
    ensures NumberAt(c, o, reader) == Some((Number(n), o + |Decimal(n)|))
  {
    hide Decimal, FoundAt, ReadsIntegers, NumberAt, IsNumber, Converted;
    DecimalIsNumber(n, reader);
    NumberIsConverted(Decimal(n), n, reader);
    NumberReads(c, o, Decimal(n), n, reader);
  }

  /** The text of a value, nested within the limit, is read as that value wherever it stands. */
  lemma ValueReadsBack(c: seq<byte>, o: nat, v: Json, depth: nat, format: bool, reader: Reader)
    requires Terminated(c) && ReadsIntegers(reader) && Plain(v) && depth + Nesting(v) <= NESTING_LIMIT
    requires Follows(c, o, Text(v, depth, format))
    ensures o < |c| && ValueAt(c, o, depth, reader) == Some((v, o + |Text(v, depth, format)|))
  {
    hide ReadsIntegers, Plain, Nesting, Follows, Text, ValueAt, DocOf, ValidDoc, TakenDoc, DocText, DocValue, Levels;
    DocOfIs(v, depth, format, reader);
    ValidIsTaken(DocOf(v, depth, format), reader);
    DocReads(c, o, DocOf(v, depth, format), depth, reader);
  }

  /**
   For every value of null, booleans, 32-bit integers, strings without zero bytes, arrays and objects nested at most
   to the limit, parsing its printed text, formatted or not, gives the value and stops at the end of the text.
   */
  lemma PrintedParses(v: Json, format: bool, reader: Reader)
    requires Plain(v) && Nesting(v) <= NESTING_LIMIT && ReadsIntegers(reader)
    ensures Terminated(Text(v, 0, format) + [0])
    ensures Parsed(Text(v, 0, format) + [0], reader) == Some((v, |Text(v, 0, format)|))
  {
    hide Text, Plain, Nesting, ReadsIntegers, Parsed, DocOf, ValidDoc, DocText, DocValue, Levels;
    DocOfIs(v, 0, format, reader);
    var t := Text(v, 0, format);
    assert [] + [] + t + [0] == t + [0];
    TextReads(t + [0], false, [], DocOf(v, 0, format), [0], reader);
  }
}
