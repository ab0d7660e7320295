/** Printing whole values. */
module JsonPrintValue {
  import opened Bits
  import opened JsonStrings
  import opened JsonText
  import opened JsonPrintBuffer
  import opened JsonPrinter
  import opened JsonList
  import opened JsonTree

  // ----- the text holds no terminator

  lemma NulFreeConcat(a: seq<byte>, b: seq<byte>)
    requires NulFree(a) && NulFree(b)
    ensures NulFree(a + b)
  {}

  lemma {:induction false} DigitsNulFree(n: nat)
    ensures NulFree(Digits(n))
  {
    if n >= 10 {
      DigitsNulFree(n / 10);
    }
  }

  lemma {:induction false} EscapedNulFree(s: seq<byte>)
    requires NulFree(s)
    ensures NulFree(Escaped(s))
    decreases |s|
  {
    if s != [] {
      EscapedNulFree(s[1..]);
      CharNulFree(s[0]);
      NulFreeConcat(EscapedChar(s[0]), Escaped(s[1..]));
    }
  }

  lemma CharNulFree(c: byte)
    requires c != 0
    ensures NulFree(EscapedChar(c))
  {}

  lemma QuotedNulFree(s: seq<byte>)
    requires NulFree(s)
    ensures NulFree(Quoted(s)) && |Quoted(s)| >= 2
  {
    EscapedNulFree(s);
  }

  lemma {:induction false} TextNulFree(v: Json, depth: nat, format: bool)
    requires Plain(v)
    ensures NulFree(Text(v, depth, format)) && |Text(v, depth, format)| >= 1
    decreases v
  {
    hide Escaped, Decimal, Quoted, ItemsText, MembersText, When, NulFree;
    match v
    case Number(n) => DecimalNulFree(n);
    case String(s) => QuotedNulFree(s);
    case Array(items) =>
      ItemsNulFree(items, depth + 1, format);
      Bracketed([91], ItemsText(items, depth + 1, format), [93]);
    case Object(members) =>
      MembersNulFree(members, depth + 1, format);
      var open, close := [123] + When(format, [10]), When(format, Tabs(depth)) + [125];
      BracesNulFree(depth, format);
      Bracketed(open, MembersText(members, depth + 1, format), close);
      assert open + MembersText(members, depth + 1, format) + close == Text(v, depth, format);
    case _ => ConstantsNulFree();
  }

  lemma Bracketed(a: seq<byte>, b: seq<byte>, c: seq<byte>)
    requires NulFree(b)
    ensures NulFree(a) && NulFree(c) ==> NulFree(a + b + c)
    ensures NulFree([91]) && NulFree([93])
  {}

  lemma BracesNulFree(depth: nat, format: bool)
    ensures NulFree([123] + When(format, [10])) && NulFree(When(format, Tabs(depth)) + [125])
  {}

  lemma ConstantsNulFree()
    ensures NulFree([110, 117, 108, 108]) && NulFree([102, 97, 108, 115, 101]) && NulFree([116, 114, 117, 101])
  {}

  lemma DecimalNulFree(n: int)
    ensures NulFree(Decimal(n))
  {
    DigitsNulFree(if n < 0 then -n else n);
  }

  lemma {:induction false} ItemsNulFree(items: seq<Json>, depth: nat, format: bool)
    requires forall i :: 0 <= i < |items| ==> Plain(items[i])
    ensures NulFree(ItemsText(items, depth, format))
    decreases items
  {
    hide Text, Plain;
    if items != [] {
      TextNulFree(items[0], depth, format);
      ItemsNulFree(items[1..], depth, format);
    }
  }

  lemma MemberNulFree(m: Member, more: bool, depth: nat, format: bool)
    requires NulFree(m.key) && NulFree(Text(m.value, depth, format))
    ensures NulFree(MemberText(m, more, depth, format))
  {
    hide Text, Quoted, NulFree, When;
    QuotedNulFree(m.key);
    WhenNulFree(format, Tabs(depth));
    var a := When(format, Tabs(depth)) + Quoted(m.key);
    NulFreeConcat(When(format, Tabs(depth)), Quoted(m.key));
    var b, c := [58] + When(format, [9]), When(more, [44]) + When(format, [10]);
    SeparatorsNulFree(more, format);
    NulFreeConcat(a, b);
    NulFreeConcat(a + b, Text(m.value, depth, format));
    NulFreeConcat(a + b + Text(m.value, depth, format), c);
    assert MemberText(m, more, depth, format) == a + b + Text(m.value, depth, format) + c by {
      assert Quoted(m.key) + [58] + When(format, [9]) == Quoted(m.key) + b;
    }
  }

  lemma WhenNulFree(b: bool, text: seq<byte>)
    ensures NulFree(text) ==> NulFree(When(b, text))
    ensures forall n: nat :: NulFree(Tabs(n))
  {}

  lemma SeparatorsNulFree(more: bool, format: bool)
    ensures NulFree([58] + When(format, [9])) && NulFree(When(more, [44]) + When(format, [10]))
  {}

  lemma {:induction false} MembersNulFree(members: seq<Member>, depth: nat, format: bool)
    requires forall i :: 0 <= i < |members| ==> NulFree(members[i].key) && Plain(members[i].value)
    ensures NulFree(MembersText(members, depth, format))
    decreases members
  {
    hide Text, Plain, MemberText;
    if members != [] {
      TextNulFree(members[0].value, depth, format);
      MemberNulFree(members[0], |members| > 1, depth, format);
      MembersNulFree(members[1..], depth, format);
    }
  }

  // ----- steps

  /** A printed text is a list of bytes emitted, once the offset is at its end. */
  method Settle(p: PrintBuffer, ghost prefix: seq<byte>, ghost text: seq<byte>)
    requires Printed(p, prefix, text) && NulFree(text)
    modifies p`offset
    ensures Emitted(p, prefix + text)
  {
    p.UpdateOffset(|prefix|, text);
    assert p.buffer[..p.offset] == p.buffer[..|prefix|] + p.buffer[|prefix|..p.offset];
  }

  /** Constants: the text and a terminator. */
  method PrintConstant(p: PrintBuffer, text: seq<byte>) returns (ok: bool)
    requires p.Valid()
    modifies p`buffer, p.buffer
    ensures p.Valid() && (p.buffer == old(p.buffer) || (fresh(p.buffer) && !p.noalloc)) && p.Limit() == old(p.Limit())
    ensures ok <==> p.offset + |text| + 2 <= p.Limit()
    ensures ok ==> Printed(p, old(p.buffer[..p.offset]), text)
  {
    ghost var before := p.buffer[..p.offset];
    assert before + [] == before;
    assert [] + text == text;
    ok := Finish(p, text, |text| + 1, before, []);
  }

  /** The number's digits; this call moves the offset itself. */
  method PrintNumber(n: int, p: PrintBuffer) returns (ok: bool)
    requires p.Valid()
    modifies p`buffer, p`offset, p.buffer
    ensures p.Valid() && (p.buffer == old(p.buffer) || (fresh(p.buffer) && !p.noalloc)) && p.Limit() == old(p.Limit())
    ensures ok <==> old(p.offset) + |Decimal(n)| + 2 <= p.Limit()
    ensures ok ==> Printed(p, old(p.buffer[..p.offset]), Decimal(n))
  {
    var numberBuffer := Decimal(n);
    ok := PrintConstant(p, numberBuffer);
    if ok {
      p.offset := p.offset + |numberBuffer|;
    }
  }

  /** Prints the value that the item and what is below it represent. */
  method PrintValue(item: Item, p: PrintBuffer, ghost v: Json) returns (ok: bool)
    requires p.Valid() && Tree(item, v) && Plain(v)
    modifies p, p.buffer
    ensures p.Valid() && (p.buffer == old(p.buffer) || (fresh(p.buffer) && !p.noalloc)) && p.Limit() == old(p.Limit())
    ensures ok <==> old(p.offset) + |Text(v, old(p.depth), p.format)| + 2 <= p.Limit()
    ensures ok ==> p.depth == old(p.depth)
    ensures ok ==> Printed(p, old(p.buffer[..p.offset]), Text(v, old(p.depth), p.format))
    decreases v, 1
  {
    hide Printed, Decimal, Quoted, ItemsText, MembersText, Nested, Forest, KeyedForest;
    if item.kind == NullKind {
      ok := PrintConstant(p, [110, 117, 108, 108]);
    } else if item.kind == FalseKind {
      ok := PrintConstant(p, [102, 97, 108, 115, 101]);
    } else if item.kind == TrueKind {
      ok := PrintConstant(p, [116, 114, 117, 101]);
    } else if item.kind == NumberKind {
      ok := PrintNumber(item.valueInt, p);
    } else if item.kind == StringKind {
      ok := PrintStringPtr(item.valueString, p);
    } else if item.kind == ArrayKind {
      ok := PrintArray(item, p, v);
    } else {
      ok := PrintObject(item, p, v);
    }
  }

  lemma PendingStep(done: seq<byte>, first: seq<byte>, rest: seq<byte>, text: seq<byte>)
    requires done + (first + rest) == text
    ensures (done + first) + rest == text
  {}

  /** One item and the comma behind it. */
  method PrintItem(element: Item, more: bool, p: PrintBuffer, ghost v: Json, ghost prefix: seq<byte>,
                   ghost done: seq<byte>)
      returns (ok: bool)
    requires Tree(element, v) && Plain(v) && Emitted(p, prefix + done)
    modifies p, p.buffer
    ensures p.Valid() && (p.buffer == old(p.buffer) || (fresh(p.buffer) && !p.noalloc)) && p.Limit() == old(p.Limit())
    ensures var t, separator := Text(v, old(p.depth), p.format), When(more, [44] + When(p.format, [32]));
            && (ok <==> |prefix + done| + |t| + |separator| + 2 <= p.Limit())
            && (ok ==> p.depth == old(p.depth) && Emitted(p, prefix + (done + (t + separator))))
    decreases v, 2
  {
    hide Printed, Emitted, Text, NulFree, Plain, Tree;
    EmittedParts(p, prefix + done);
    ghost var t := Text(v, p.depth, p.format);
    TextNulFree(v, p.depth, p.format);
    ok := PrintValue(element, p, v);
    if ok {
      Settle(p, prefix + done, t);
      assert prefix + done + t == prefix + (done + (t + []));
      if more {
        var separator := if p.format then [44, 32] else [44];
        assert separator == [44] + When(p.format, [32]);
        assert prefix + done + t + separator == prefix + (done + (t + separator));
        ok := EmitTerminated(p, separator);
      }
    }
  }

  method PrintArray(item: Item, p: PrintBuffer, ghost v: Json) returns (ok: bool)
    requires p.Valid() && Tree(item, v) && v.Array? && Plain(v)
    modifies p, p.buffer
    ensures p.Valid() && (p.buffer == old(p.buffer) || (fresh(p.buffer) && !p.noalloc)) && p.Limit() == old(p.Limit())
    ensures var text := Text(v, old(p.depth), p.format);
            && (ok <==> old(p.offset) + |text| + 2 <= p.Limit())
            && (ok ==> p.depth == old(p.depth) && Printed(p, old(p.buffer[..p.offset]), text))
    decreases v, 0
  {
    hide Printed, Emitted, Text, ItemsText, Plain, Tree;
    ghost var prefix, text, d := p.buffer[..p.offset], Text(v, p.depth, p.format), p.depth + 1;
    ArrayText(v, p.depth, p.format);
    ok := Emit(p, [91], 1);
    if !ok {
      return;
    }
    p.depth := p.depth + 1;
    ok := PrintItems(item, p, v, prefix, [91]);
    if !ok {
      return;
    }
    EmittedParts(p, prefix + ([91] + ItemsText(v.items, d, p.format)));
    assert ([91] + ItemsText(v.items, d, p.format)) + [93] == text;
    ok := Finish(p, [93], 2, prefix, [91] + ItemsText(v.items, d, p.format));
    p.depth := p.depth - 1;
  }

  lemma EmittedParts(p: PrintBuffer, bytes: seq<byte>)
    requires Emitted(p, bytes)
    ensures p.Valid() && p.offset == |bytes| && p.buffer[..p.offset] == bytes
  {}

  /** The loop over the items. */
  method PrintItems(item: Item, p: PrintBuffer, ghost v: Json, ghost prefix: seq<byte>, ghost open: seq<byte>)
      returns (ok: bool)
    requires Tree(item, v) && v.Array? && Plain(v) && Emitted(p, prefix + open)
    modifies p, p.buffer
    ensures p.Valid() && (p.buffer == old(p.buffer) || (fresh(p.buffer) && !p.noalloc)) && p.Limit() == old(p.Limit())
    ensures var items := ItemsText(v.items, old(p.depth), p.format);
            && (!ok ==> |prefix| + |open| + |items| + 3 > p.Limit())
            && (ok ==> p.depth == old(p.depth) && Emitted(p, prefix + (open + items)))
    decreases v, 0, 0
  {
    hide Emitted, Text, ItemsText, Tree, At;
    ghost var items, s := v.items, item.children;
    ghost var d, whole := p.depth, ItemsText(v.items, p.depth, p.format);
    ghost var done, i := [], 0;
    ok := true;
    assert items[0..] == items && [] + whole == whole && open + [] == open;
    EmittedParts(p, prefix + open);
    TreeArray(item, v);
    var currentElement := item.child;
    while currentElement != null
      invariant p.Valid() && p.depth == d && p.Limit() == old(p.Limit()) && ok
      invariant p.buffer == old(p.buffer) || (fresh(p.buffer) && !p.noalloc)
      invariant Tree(item, v) && item.children == s && i <= |items| == |s| && currentElement == At(s, i)
      invariant Emitted(p, prefix + (open + done)) && done + ItemsText(items[i..], d, p.format) == whole
      decreases |s| - i
    {
      TreeItem(item, v, i);
      AtItem(s, i);
      ItemsNext(items, i, d, p.format);
      ghost var first := Text(items[i], d, p.format) + When(i + 1 < |items|, [44] + When(p.format, [32]));
      PendingStep(done, first, ItemsText(items[i + 1..], d, p.format), whole);
      ok := PrintItem(currentElement, currentElement.next != null, p, items[i], prefix, open + done);
      if !ok {
        return;
      }
      assert (open + done) + first == open + (done + first);
      done := done + first;
      i := i + 1;
      currentElement := currentElement.next;
    }
    NoItems(items, d, p.format);
    assert done + [] == done;
  }

  lemma ArrayText(v: Json, depth: nat, format: bool)
    requires v.Array?
    ensures Text(v, depth, format) == [91] + ItemsText(v.items, depth + 1, format) + [93]
  {
    hide ItemsText;
  }

  lemma ItemsNext(items: seq<Json>, i: nat, depth: nat, format: bool)
    requires i < |items|
    ensures ItemsText(items[i..], depth, format) ==
      (Text(items[i], depth, format) + When(i + 1 < |items|, [44] + When(format, [32])))
        + ItemsText(items[i + 1..], depth, format)
  {
    hide Text;
    assert items[i..][1..] == items[i + 1..];
  }

  lemma NoItems(items: seq<Json>, depth: nat, format: bool)
    ensures ItemsText(items[|items|..], depth, format) == []
  {}

  // ----- objects

  /** The key, in front of it the indentation, behind it the colon. */
  method PrintKey(key: seq<byte>, p: PrintBuffer, ghost prefix: seq<byte>, ghost done: seq<byte>) returns (ok: bool)
    requires NulFree(key) && Emitted(p, prefix + done)
    modifies p`buffer, p`offset, p.buffer
    ensures p.Valid() && (p.buffer == old(p.buffer) || (fresh(p.buffer) && !p.noalloc)) && p.Limit() == old(p.Limit())
    ensures var text := When(p.format, Tabs(p.depth)) + Quoted(key) + [58] + When(p.format, [9]);
            && (!ok ==> |prefix + done| + |text| + 1 > p.Limit())
            && (ok ==> Emitted(p, prefix + (done + text)))
  {
    hide Printed, Emitted, Quoted, NulFree;
    EmittedParts(p, prefix + done);
    ghost var before := prefix + done;
    ghost var tabs := When(p.format, Tabs(p.depth));
    assert before + [] == before;
    if p.format {
      ok := Emit(p, Tabs(p.depth), p.depth);
      if !ok {
        return;
      }
    }
    EmittedParts(p, before + tabs);
    ok := PrintStringPtr(key, p);
    if !ok {
      return;
    }
    QuotedNulFree(key);
    Settle(p, before + tabs, Quoted(key));
    EmittedParts(p, before + tabs + Quoted(key));
    var colon := if p.format then [58, 9] else [58];
    ok := Emit(p, colon, |colon|);
    KeyText(prefix, done, tabs, Quoted(key), colon, p.format);
  }

  lemma KeyText(prefix: seq<byte>, done: seq<byte>, tabs: seq<byte>, key: seq<byte>, colon: seq<byte>, format: bool)
    requires colon == if format then [58, 9] else [58]
    ensures prefix + done + tabs + key + colon == prefix + (done + (tabs + key + [58] + When(format, [9])))
  {
    assert colon == [58] + When(format, [9]);
  }

  /** One member of an object. */
  method PrintMember(element: Item, more: bool, p: PrintBuffer, ghost m: Member, ghost prefix: seq<byte>,
                     ghost done: seq<byte>)
      returns (ok: bool)
    requires Tree(element, m.value) && element.key == m.key
    requires NulFree(m.key) && Plain(m.value) && Emitted(p, prefix + done)
    modifies p, p.buffer
    ensures p.Valid() && (p.buffer == old(p.buffer) || (fresh(p.buffer) && !p.noalloc)) && p.Limit() == old(p.Limit())
    ensures var text := MemberText(m, more, old(p.depth), p.format);
            && (!ok ==> |prefix + done| + |text| + 2 > p.Limit())
            && (ok ==> p.depth == old(p.depth) && Emitted(p, prefix + (done + text)))
    decreases m
  {
    hide Printed, Emitted, Text, Quoted, NulFree, Plain, When, Tabs, MemberText, BodyText, EndText, Tree;
    ghost var key := When(p.format, Tabs(p.depth)) + Quoted(m.key) + [58] + When(p.format, [9]);
    ghost var t := Text(m.value, p.depth, p.format);
    TextNulFree(m.value, p.depth, p.format);
    MemberTextParts(m, more, p.depth, p.format);
    ok := PrintKey(element.key, p, prefix, done);
    if !ok {
      return;
    }
    EmittedParts(p, prefix + (done + key));
    ok := PrintValue(element, p, m.value);
    if !ok {
      return;
    }
    Settle(p, prefix + (done + key), t);
    EmittedParts(p, prefix + (done + key) + t);
    var end := EndText(more, p.format);
    ok := EmitTerminated(p, end);
    MemberParts(prefix, done, key, t, end);
    MemberTextParts(m, more, p.depth, p.format);
  }

  lemma MemberTextParts(m: Member, more: bool, depth: nat, format: bool)
    ensures MemberText(m, more, depth, format) ==
      (When(format, Tabs(depth)) + Quoted(m.key) + [58] + When(format, [9])) + Text(m.value, depth, format)
      + EndText(more, format)
  {
    hide Text, Quoted, When, Tabs, EndText;
  }

  lemma MemberParts(prefix: seq<byte>, done: seq<byte>, key: seq<byte>, t: seq<byte>, end: seq<byte>)
    ensures prefix + (done + key) + t + end == prefix + (done + (key + t + end))
  {}

  method PrintObject(item: Item, p: PrintBuffer, ghost v: Json) returns (ok: bool)
    requires p.Valid() && Tree(item, v) && v.Object? && Plain(v)
    modifies p, p.buffer
    ensures p.Valid() && (p.buffer == old(p.buffer) || (fresh(p.buffer) && !p.noalloc)) && p.Limit() == old(p.Limit())
    ensures var text := Text(v, old(p.depth), p.format);
            && (ok <==> old(p.offset) + |text| + 2 <= p.Limit())
            && (ok ==> p.depth == old(p.depth) && Printed(p, old(p.buffer[..p.offset]), text))
    decreases v, 0
  {
    hide Printed, Emitted, Text, MembersText, Plain, Tabs, When, Tree;
    ghost var prefix, text, d := p.buffer[..p.offset], Text(v, p.depth, p.format), p.depth + 1;
    var open := if p.format then [123, 10] else [123];
    ghost var close := When(p.format, Tabs(p.depth)) + [125];
    ObjectText(v, p.depth, p.format, open);
    Indentation(p.format, p.depth);
    ok := Emit(p, open, |open| + 1);
    if !ok {
      return;
    }
    p.depth := p.depth + 1;
    ok := PrintMembers(item, p, v, prefix, open);
    if !ok {
      return;
    }
    ghost var members := MembersText(v.members, d, p.format);
    EmittedParts(p, prefix + (open + members));
    var end := When(p.format, Tabs(p.depth - 1)) + [125];
    ok := Finish(p, end, if p.format then p.depth + 1 else 2, prefix, open + members);
    p.depth := p.depth - 1;
  }

  lemma Indentation(format: bool, depth: nat)
    ensures |When(format, Tabs(depth))| == if format then depth else 0
  {}

  lemma ObjectText(v: Json, depth: nat, format: bool, open: seq<byte>)
    requires v.Object? && open == if format then [123, 10] else [123]
    ensures Text(v, depth, format) ==
      open + MembersText(v.members, depth + 1, format) + (When(format, Tabs(depth)) + [125])
  {
    hide MembersText, Tabs;
    assert open == [123] + When(format, [10]);
  }

  /** The loop over the members. */
  method PrintMembers(item: Item, p: PrintBuffer, ghost v: Json, ghost prefix: seq<byte>, ghost open: seq<byte>)
      returns (ok: bool)
    requires Tree(item, v) && v.Object? && Plain(v) && Emitted(p, prefix + open)
    modifies p, p.buffer
    ensures p.Valid() && (p.buffer == old(p.buffer) || (fresh(p.buffer) && !p.noalloc)) && p.Limit() == old(p.Limit())
    ensures var members := MembersText(v.members, old(p.depth), p.format);
            && (!ok ==> |prefix| + |open| + |members| + 2 > p.Limit())
            && (ok ==> p.depth == old(p.depth) && Emitted(p, prefix + (open + members)))
    decreases v, 0, 0
  {
    hide Emitted, MemberText, MembersText, Tree, At;
    ghost var members, s := v.members, item.children;
    ghost var d, whole := p.depth, MembersText(v.members, p.depth, p.format);
    ghost var done, i := [], 0;
    ok := true;
    assert members[0..] == members && [] + whole == whole && open + [] == open;
    EmittedParts(p, prefix + open);
    TreeArray(item, v);
    var currentItem := item.child;
    while currentItem != null
      invariant p.Valid() && p.depth == d && p.Limit() == old(p.Limit()) && ok
      invariant p.buffer == old(p.buffer) || (fresh(p.buffer) && !p.noalloc)
      invariant Tree(item, v) && item.children == s && i <= |members| == |s| && currentItem == At(s, i)
      invariant Emitted(p, prefix + (open + done)) && done + MembersText(members[i..], d, p.format) == whole
      decreases |s| - i
    {
      TreeMember(item, v, i);
      AtItem(s, i);
      MembersNext(members, i, d, p.format);
      ghost var first := MemberText(members[i], i + 1 < |members|, d, p.format);
      PendingStep(done, first, MembersText(members[i + 1..], d, p.format), whole);
      ok := PrintMember(currentItem, currentItem.next != null, p, members[i], prefix, open + done);
      if !ok {
        return;
      }
      assert (open + done) + first == open + (done + first);
      done := done + first;
      i := i + 1;
      currentItem := currentItem.next;
    }
    NoMembers(members, d, p.format);
    assert done + [] == done;
  }

  lemma MembersNext(members: seq<Member>, i: nat, depth: nat, format: bool)
    requires i < |members|
    ensures MembersText(members[i..], depth, format) ==
      MemberText(members[i], i + 1 < |members|, depth, format) + MembersText(members[i + 1..], depth, format)
  {
    hide MemberText;
    assert members[i..][1..] == members[i + 1..];
  }

  lemma NoMembers(members: seq<Member>, depth: nat, format: bool)
    ensures MembersText(members[|members|..], depth, format) == []
  {}

  // ----- the whole printer

  /** Prints into a growing buffer and returns the text, or nothing if it would be too long. */
  method Print(item: Item, format: bool, ghost v: Json) returns (printed: array?<byte>)
    requires Tree(item, v) && Plain(v)
    ensures printed == null <==> |Text(v, 0, format)| + 2 > INT_MAX
    ensures printed != null ==> printed[..] == Text(v, 0, format) + [0]
  {
    hide Printed, Text, Plain, NulFree, Tree;
    var p := new PrintBuffer(256, format);
    assert p.buffer[..0] == [];
    TextNulFree(v, 0, format);
    var ok := PrintValue(item, p, v);
    if !ok {
      return null;
    }
    Settle(p, [], Text(v, 0, format));
    PrintedEnd(p, Text(v, 0, format));
    printed := Copy(p.buffer[..p.offset]);
  }

  /** The text and a terminator in memory of their own. */
  method Copy(text: seq<byte>) returns (printed: array<byte>)
    ensures printed[..] == text + [0]
  {
    printed := new byte[|text| + 1];
    for i := 0 to |text|
      invariant printed[..i] == text[..i]
    {
      printed[i] := text[i];
    }
    printed[|text|] := 0;
  }

  lemma PrintedEnd(p: PrintBuffer, text: seq<byte>)
    requires Emitted(p, [] + text)
    ensures p.Valid() && p.offset == |text| && p.buffer[..p.offset] == text
  {
    assert [] + text == text;
  }

  /** Printing into the caller's memory succeeds exactly if one byte more than text and terminator fits. */
  method PrintPreallocated(item: Item, buffer: array<byte>, format: bool, ghost v: Json) returns (ok: bool)
    requires Tree(item, v) && Plain(v) && buffer.Length <= INT_MAX
    modifies buffer
    ensures ok <==> |Text(v, 0, format)| + 2 <= buffer.Length
    ensures ok ==> Shows(buffer[..], 0, Text(v, 0, format))
  {
    hide Text, Plain, Tree;
    var p := new PrintBuffer.Preallocated(buffer, format);
    ok := PrintValue(item, p, v);
  }
}
