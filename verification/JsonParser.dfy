/** The recursive-descent parser: a cursor that moves over the text. */
module JsonParser {
  import opened Bits
  import opened Options
  import opened JsonStrings
  import opened JsonParseString
  import opened JsonText
  import opened JsonGrammar
  import opened JsonList
  import opened JsonTree

  method SkipWhitespace(buffer: ParseBuffer)
    requires buffer.Valid()
    modifies buffer`offset
    ensures buffer.Valid() && buffer.offset == Skip(buffer.content, old(buffer.offset))
  {
    ghost var start := buffer.offset;
    while buffer.offset < |buffer.content| && buffer.content[buffer.offset] <= 32
      invariant start <= buffer.offset <= |buffer.content|
      invariant SkipFrom(buffer.content, buffer.offset) == SkipFrom(buffer.content, start)
      decreases |buffer.content| - buffer.offset
    {
      buffer.offset := buffer.offset + 1;
    }
    if buffer.offset == |buffer.content| {
      buffer.offset := buffer.offset - 1;
    }
  }

  /** What a call makes of an item and where it leaves the cursor; a failed one promises only to stay in the text. */
  ghost predicate Accepts(expected: Option<(Json, nat)>, ok: bool, item: Item, offset: nat, length: nat)
    reads item`kind, item`valueInt, item`valueString, item`child, item`children, item`below, item.below
  {
    match expected
    case None => !ok && offset <= length
    case Some((v, next)) => ok && Tree(item, v) && offset == next < length
  }

  /** Copies the bytes that may belong to a number. */
  method CollectNumber(c: seq<byte>, o: nat) returns (numberString: seq<byte>)
    requires o <= |c|
    ensures numberString == NumberBytes(c, o)
  {
    hide IsNumberByte, NumberText, NumberBytes;
    var i := 0;
    numberString := [];
    NothingCollected(c, o);
    while i < 63 && o + i < |c| && IsNumberByte(c[o + i])
      invariant 0 <= i <= 63 && o + i <= |c|
      invariant numberString + NumberText(c, o + i, 63 - i) == NumberBytes(c, o)
    {
      NumberTextStep(c, o + i, 63 - i);
      OneCollected(numberString, c[o + i], NumberText(c, o + i + 1, 63 - i - 1));
      numberString := numberString + [c[o + i]];
      i := i + 1;
    }
    NumberTextStep(c, o + i, 63 - i);
    assert numberString + [] == numberString;
  }

  lemma NothingCollected(c: seq<byte>, o: nat)
    requires o <= |c|
    ensures [] + NumberText(c, o, 63) == NumberBytes(c, o)
  {
    hide NumberText;
  }

  lemma OneCollected(done: seq<byte>, b: byte, rest: seq<byte>)
    ensures done + ([b] + rest) == (done + [b]) + rest
  {}

  lemma NumberTextStep(c: seq<byte>, o: nat, n: nat)
    requires o <= |c|
    ensures NumberText(c, o, n) ==
      if n == 0 || o == |c| || !IsNumberByte(c[o]) then [] else [c[o]] + NumberText(c, o + 1, n - 1)
  {}

  method ParseNumber(item: Item, buffer: ParseBuffer, reader: Reader) returns (ok: bool)
    requires buffer.Valid() && Leaf(item)
    modifies buffer`offset, item`kind, item`valueInt
    ensures Accepts(NumberAt(buffer.content, old(buffer.offset), reader), ok, item, buffer.offset, |buffer.content|)
  {
    hide NumberText;
    var numberString := CollectNumber(buffer.content, buffer.offset);
    var number := reader(numberString);
    if number.None? || !(0 < number.value.1 <= |numberString|) {
      return false;
    }
    item.valueInt := Saturated(number.value.0);
    item.kind := NumberKind;
    buffer.offset := buffer.offset + number.value.1;
    ok := true;
  }

  /** Constants: the kind says it all; `true` also sets the number. */
  method SetKind(item: Item, kind: Kind, buffer: ParseBuffer, next: nat, ghost v: Json)
    requires Leaf(item) && next < |buffer.content|
    requires (v == Null && kind == NullKind) || (v == False && kind == FalseKind) || (v == True && kind == TrueKind)
    modifies buffer`offset, item`kind, item`valueInt
    ensures buffer.offset == next && Tree(item, v)
    ensures kind == TrueKind ==> item.valueInt == 1
  {
    item.kind := kind;
    if kind == TrueKind {
      item.valueInt := 1;
    }
    buffer.offset := next;
  }

  method ParseValue(item: Item, buffer: ParseBuffer, reader: Reader) returns (ok: bool)
    requires buffer.Valid() && Leaf(item)
    modifies buffer`offset, buffer`depth, item`kind, item`valueInt, item`valueString, item`child, item`children,
      item`below
    ensures Accepts(ValueAt(buffer.content, old(buffer.offset), old(buffer.depth), reader), ok, item,
                    buffer.offset, |buffer.content|)
    ensures (ok ==> buffer.depth == old(buffer.depth)) && fresh(item.below)
    ensures var c, o := buffer.content, old(buffer.offset);
            o + 4 <= |c| && c[o..o + 4] == TRUE ==> item.valueInt == 1
    decreases |buffer.content| - buffer.offset, 3
  {
    hide NumberAt, StringAt, ArrayAt, ObjectAt;
    var c, o := buffer.content, buffer.offset;
    if o + 4 <= |c| && c[o..o + 4] == NULL {
      WordInside(c, o, NULL);
      SetKind(item, NullKind, buffer, o + 4, Null);
      return true;
    }
    if o + 5 <= |c| && c[o..o + 5] == FALSE {
      WordInside(c, o, FALSE);
      SetKind(item, FalseKind, buffer, o + 5, False);
      return true;
    }
    if o + 4 <= |c| && c[o..o + 4] == TRUE {
      WordInside(c, o, TRUE);
      SetKind(item, TrueKind, buffer, o + 4, True);
      return true;
    }
    if c[o] == QUOTE {
      ok := ParseStringItem(item, buffer);
    } else if c[o] == 45 || 48 <= c[o] <= 57 {
      ok := ParseNumber(item, buffer, reader);
    } else if c[o] == 91 {
      ok := ParseArray(item, buffer, reader);
    } else if c[o] == 123 {
      ok := ParseObject(item, buffer, reader);
    } else {
      ok := false;
    }
  }

  method ParseStringItem(item: Item, buffer: ParseBuffer) returns (ok: bool)
    requires buffer.Valid() && Leaf(item)
    modifies buffer`offset, item`kind, item`valueString
    ensures var s := StringAt(buffer.content, old(buffer.offset));
            var expected := if s.None? then None else Some((String(s.value.0), s.value.1));
            Accepts(expected, ok, item, buffer.offset, |buffer.content|)
  {
    hide StringAt;
    ghost var o := buffer.offset;
    var s := ParseString(buffer);
    if StringAt(buffer.content, o).Some? {
      StringInside(buffer.content, o);
    }
    ok := s.Some?;
    if ok {
      item.kind := StringKind;
      item.valueString := s.value;
    }
  }

  // ----- arrays

  method ParseArray(item: Item, buffer: ParseBuffer, reader: Reader) returns (ok: bool)
    requires buffer.Valid() && buffer.content[buffer.offset] == 91 && Leaf(item)
    modifies buffer`offset, buffer`depth, item`kind, item`child, item`children, item`below
    ensures Accepts(ArrayAt(buffer.content, old(buffer.offset), old(buffer.depth), reader), ok, item,
                    buffer.offset, |buffer.content|)
    ensures (ok ==> buffer.depth == old(buffer.depth)) && fresh(item.below)
    decreases |buffer.content| - buffer.offset, 2
  {
    hide ItemsAt, Skip, Chain, Apart, Forest, Below, Members, Tree;
    if buffer.depth >= NESTING_LIMIT {
      return false;
    }
    buffer.depth := buffer.depth + 1;
    buffer.offset := buffer.offset + 1;
    SkipWhitespace(buffer);
    var head: Item?, current: Item? := null, null;
    ghost var s: seq<Item>, items: seq<Json> := [], [];
    ChainStart(head);
    NoMembers();
    if buffer.content[buffer.offset] != 93 {
      buffer.offset := buffer.offset - 1;
      ok, head, current, s, items := ParseItems(buffer, reader);
      if !ok || buffer.content[buffer.offset] != 93 {
        return false;
      }
    }
    buffer.depth := buffer.depth - 1;
    MembersAre(s);
    FinishArray(item, head, current, s, items);
    BehindBracket(buffer.content, buffer.offset);
    buffer.offset := buffer.offset + 1;
    ok := true;
  }

  /** Closes the list and hangs it below the item. */
  method FinishArray(item: Item, head: Item?, current: Item?, ghost s: seq<Item>, ghost items: seq<Json>)
    requires Chain(head, s) && current == Last(s) && Apart(s) && Forest(s, items) && item !in s && item !in Below(s)
    modifies s`prev, item`kind, item`child, item`children, item`below
    ensures Tree(item, Array(items)) && item.below == Members(s) + old(Below(s)) && item.kind == ArrayKind
  {
    hide Chain, Apart, Forest, Below, Members, Linked, Nested;
    ghost var b := Below(s);
    ApartParts(s);
    BelowAllocated(s);
    Close(head, current, s);
    assert Apart(s) && Below(s) == b && Forest(s, items);
    item.kind := ArrayKind;
    item.child := head;
    item.children := s;
    item.below := Members(s) + b;
    assert Linked(head, s) && Apart(s) && Below(s) == b && Forest(s, items);
    MakeNested(item, s);
    MakeArray(item, items);
  }

  lemma NoMembers()
    ensures Members([]) == {}
  {}

  lemma MakeArray(item: Item, items: seq<Json>)
    requires item.kind == ArrayKind && Nested(item) && Forest(item.children, items)
    ensures Tree(item, Array(items))
  {}

  lemma BehindBracket(c: seq<byte>, o: nat)
    requires Terminated(c) && o < |c| && c[o] != 0
    ensures o + 1 < |c|
  {}

  /** The loop over the items: links a new item, steps over the separator, reads a value, goes on at a comma. */
  method ParseItems(buffer: ParseBuffer, reader: Reader)
      returns (ok: bool, head: Item?, current: Item?, ghost s: seq<Item>, ghost items: seq<Json>)
    requires buffer.Valid() && buffer.offset + 1 < |buffer.content|
    modifies buffer`offset, buffer`depth
    ensures match ItemsAt(buffer.content, old(buffer.offset), old(buffer.depth), reader) {
              case None => !ok && buffer.offset <= |buffer.content|
              case Some((all, end)) => ok && items == all && buffer.offset == end < |buffer.content|
            }
    ensures ok ==>
      && Chain(head, s) && current == Last(s) && Apart(s) && Forest(s, items)
      && fresh(s) && fresh(Below(s)) && buffer.depth == old(buffer.depth)
    decreases |buffer.content| - buffer.offset, 1
  {
    hide ItemsAt, ValueAt, Skip, Chain, Apart, Forest, Below, Members;
    var c := buffer.content;
    head, current, s, items := null, null, [], [];
    ChainStart(head);
    NoMembers();
    ghost var start, depth := buffer.offset, buffer.depth;
    OntoTwice([], [], ItemsAt(c, start, depth, reader));
    while true
      invariant buffer.Valid() && start <= buffer.offset && buffer.offset + 1 < |c| && buffer.depth == depth
      invariant Onto(items, ItemsAt(c, buffer.offset, depth, reader)) == ItemsAt(c, start, depth, reader)
      invariant Chain(head, s) && current == Last(s) && Apart(s) && Forest(s, items)
      invariant fresh(s) && fresh(Below(s))
      decreases |c| - buffer.offset
    {
      ghost var o := buffer.offset;
      ItemsStep(c, o, depth, reader);
      ghost var v;
      ok, head, current, v := ParseItem(buffer, reader, head, current, s, items);
      if !ok {
        return;
      }
      s := s + [current];
      OntoTwice(items, [v], ItemsAt(c, o, depth, reader));
      if c[buffer.offset] != 44 {
        items := items + [v];
        break;
      }
      BehindBracket(c, buffer.offset);
      OntoTwice(items, [v], ItemsAt(c, buffer.offset, depth, reader));
      items := items + [v];
    }
  }

  /** A new item behind the others, which stay as they are. */
  method NewItem(head0: Item?, current0: Item?, ghost s: seq<Item>, ghost items: seq<Json>)
      returns (head: Item, current: Item)
    requires Chain(head0, s) && current0 == Last(s) && Apart(s) && Forest(s, items)
    modifies s`next
    ensures Chain(head, s + [current]) && fresh(current) && Leaf(current)
    ensures Apart(s) && Forest(s, items) && Below(s) == old(Below(s)) && current !in s && current !in Below(s)
  {
    hide Chain, Forest, Below, Tree;
    ghost var b := Below(s);
    BelowAllocated(s);
    current := new Item();
    assert current !in b && current !in s;
    head := Attach(head0, current0, current, s);
  }

  /** Reads a value into an item beside a forest, which stays as it is. */
  method ParseBeside(current: Item, buffer: ParseBuffer, reader: Reader, ghost s: seq<Item>, ghost items: seq<Json>)
      returns (ok: bool)
    requires buffer.Valid() && Leaf(current)
    requires Forest(s, items) && current !in s && current !in Below(s)
    modifies buffer`offset, buffer`depth
    modifies current`kind, current`valueInt, current`valueString, current`child, current`children, current`below
    ensures Accepts(ValueAt(buffer.content, old(buffer.offset), old(buffer.depth), reader), ok, current,
                    buffer.offset, |buffer.content|)
    ensures (ok ==> buffer.depth == old(buffer.depth)) && fresh(current.below)
    ensures Forest(s, items) && Below(s) == old(Below(s))
    ensures current.below !! Below(s) && current.below !! Members(s)
    decreases |buffer.content| - buffer.offset, 4
  {
    hide Forest, Below, Tree, Members, ValueAt, Leaf;
    ghost var b, m := Below(s), Members(s);
    BelowAllocated(s);
    ok := ParseValue(current, buffer, reader);
    assert Below(s) == b;
  }

  /** One item: linked behind the others, then read, then the white space behind it. */
  method ParseItem(buffer: ParseBuffer, reader: Reader, head0: Item?, current0: Item?, ghost s: seq<Item>,
                   ghost items: seq<Json>)
      returns (ok: bool, head: Item?, current: Item, ghost v: Json)
    requires buffer.Valid() && buffer.offset + 1 < |buffer.content|
    requires Chain(head0, s) && current0 == Last(s) && Apart(s) && Forest(s, items)
    modifies buffer`offset, buffer`depth, s`next
    ensures match ValueAt(buffer.content, Skip(buffer.content, old(buffer.offset) + 1), old(buffer.depth), reader) {
              case None => !ok && buffer.offset <= |buffer.content|
              case Some((w, next)) => ok && v == w && next < |buffer.content|
                && buffer.offset == Skip(buffer.content, next)
            }
    ensures ok ==>
      && Chain(head, s + [current]) && current == Last(s + [current]) && Apart(s + [current])
        && Forest(s + [current], items + [v])
      && Below(s + [current]) == old(Below(s)) + current.below
      && fresh(current) && fresh(current.below) && buffer.depth == old(buffer.depth)
    decreases |buffer.content| - buffer.offset, 0
  {
    hide ValueAt, Skip, Chain, Forest, Below, Members, Apart, Tree;
    ghost var expected := ValueAt(buffer.content, Skip(buffer.content, buffer.offset + 1), buffer.depth, reader);
    v := if expected.Some? then expected.value.0 else Null;
    ghost var b0 := Below(s);
    head, current := NewItem(head0, current0, s, items);
    ghost var b := Below(s);
    buffer.offset := buffer.offset + 1;
    assert Below(s) == b && Forest(s, items);
    BelowAllocated(s);
    SkipWhitespace(buffer);
    assert Below(s) == b && Forest(s, items);
    ok := ParseBeside(current, buffer, reader, s, items);
    if ok {
      AddTree(head, s, items, current, v);
      ghost var all := Below(s + [current]);
      BelowAllocated(s + [current]);
      SkipWhitespace(buffer);
      assert Below(s + [current]) == all && Forest(s + [current], items + [v]);
    }
  }

  lemma AddTree(head: Item?, s: seq<Item>, items: seq<Json>, current: Item, v: Json)
    requires Apart(s) && Forest(s, items) && Tree(current, v)
    requires current !in s && current !in Below(s) && current !in current.below
    requires current.below !! Below(s) && current.below !! Members(s)
    ensures Apart(s + [current]) && Forest(s + [current], items + [v])
    ensures Below(s + [current]) == Below(s) + current.below && current == Last(s + [current])
  {
    hide Forest, Below, Members, Apart, Tree;
    BelowAppend(s, current);
    ApartAppend(s, current);
    ForestAppend(s, items, current, v);
  }

  // ----- objects

  /** The values of the members. */
  function Values(members: seq<Member>): (r: seq<Json>)
    ensures |r| == |members|
  {
    seq(|members|, i requires 0 <= i < |members| => members[i].value)
  }

  ghost predicate Keys(s: seq<Item>, members: seq<Member>)
    reads s`key
  {
    |s| == |members| && forall i :: 0 <= i < |s| ==> s[i].key == members[i].key
  }

  lemma NoKeys()
    ensures Values([]) == [] && Keys([], [])
  {}

  lemma ValuesAppend(s: seq<Item>, members: seq<Member>, n: Item, m: Member)
    ensures Values(members + [m]) == Values(members) + [m.value]
    ensures Keys(s, members) && n.key == m.key ==> Keys(s + [n], members + [m])
  {}

  method ParseObject(item: Item, buffer: ParseBuffer, reader: Reader) returns (ok: bool)
    requires buffer.Valid() && buffer.content[buffer.offset] == 123 && Leaf(item)
    modifies buffer`offset, buffer`depth, item`kind, item`child, item`children, item`below
    ensures Accepts(ObjectAt(buffer.content, old(buffer.offset), old(buffer.depth), reader), ok, item,
                    buffer.offset, |buffer.content|)
    ensures (ok ==> buffer.depth == old(buffer.depth)) && fresh(item.below)
    decreases |buffer.content| - buffer.offset, 2
  {
    hide MembersAt, Skip, Chain, Apart, Forest, Below, Members, Tree, Keys, Values;
    if buffer.depth >= NESTING_LIMIT {
      return false;
    }
    buffer.depth := buffer.depth + 1;
    buffer.offset := buffer.offset + 1;
    SkipWhitespace(buffer);
    var head: Item?, current: Item? := null, null;
    ghost var s: seq<Item>, members: seq<Member> := [], [];
    ChainStart(head);
    NoMembers();
    NoKeys();
    if buffer.content[buffer.offset] != 125 {
      buffer.offset := buffer.offset - 1;
      ok, head, current, s, members := ParseMembers(buffer, reader);
      if !ok || buffer.content[buffer.offset] != 125 {
        return false;
      }
    }
    buffer.depth := buffer.depth - 1;
    MembersAre(s);
    FinishObject(item, head, current, s, members);
    BehindBracket(buffer.content, buffer.offset);
    buffer.offset := buffer.offset + 1;
    ok := true;
  }

  method FinishObject(item: Item, head: Item?, current: Item?, ghost s: seq<Item>, ghost members: seq<Member>)
    requires Chain(head, s) && current == Last(s) && Apart(s) && item !in s && item !in Below(s)
    requires Forest(s, Values(members)) && Keys(s, members)
    modifies s`prev, item`kind, item`child, item`children, item`below
    ensures Tree(item, Object(members)) && item.below == Members(s) + old(Below(s)) && item.kind == ObjectKind
  {
    hide Chain, Apart, Forest, Below, Members, Linked, Nested, Keys, Values;
    ghost var b := Below(s);
    ApartParts(s);
    BelowAllocated(s);
    Close(head, current, s);
    assert Apart(s) && Below(s) == b && Forest(s, Values(members));
    item.kind := ObjectKind;
    item.child := head;
    item.children := s;
    item.below := Members(s) + b;
    assert Linked(head, s) && Apart(s) && Below(s) == b && Forest(s, Values(members));
    MakeNested(item, s);
    MakeObject(item, members);
  }

  lemma MakeObject(item: Item, members: seq<Member>)
    requires item.kind == ObjectKind && Nested(item) && Forest(item.children, Values(members))
      && Keys(item.children, members)
    ensures Tree(item, Object(members))
  {
    hide Nested;
    var s := item.children;
    forall i | 0 <= i < |s|
      ensures Tree(s[i], members[i].value)
    {
      assert Tree(s[i], Values(members)[i]);
    }
  }

  /** The loop over the members. */
  method ParseMembers(buffer: ParseBuffer, reader: Reader)
      returns (ok: bool, head: Item?, current: Item?, ghost s: seq<Item>, ghost members: seq<Member>)
    requires buffer.Valid() && buffer.offset + 1 < |buffer.content|
    modifies buffer`offset, buffer`depth
    ensures match MembersAt(buffer.content, old(buffer.offset), old(buffer.depth), reader) {
              case None => !ok && buffer.offset <= |buffer.content|
              case Some((all, end)) => ok && members == all && buffer.offset == end < |buffer.content|
            }
    ensures ok ==>
      && Chain(head, s) && current == Last(s) && Apart(s) && Forest(s, Values(members)) && Keys(s, members)
      && fresh(s) && fresh(Below(s)) && buffer.depth == old(buffer.depth)
    decreases |buffer.content| - buffer.offset, 1
  {
    hide MembersAt, MemberAt, Skip, Chain, Apart, Forest, Below, Members, Keys, Values;
    var c := buffer.content;
    head, current, s, members := null, null, [], [];
    ChainStart(head);
    NoMembers();
    NoKeys();
    ghost var start, depth := buffer.offset, buffer.depth;
    OntoTwice([], [], MembersAt(c, start, depth, reader));
    while true
      invariant buffer.Valid() && start <= buffer.offset && buffer.offset + 1 < |c| && buffer.depth == depth
      invariant Onto(members, MembersAt(c, buffer.offset, depth, reader)) == MembersAt(c, start, depth, reader)
      invariant Chain(head, s) && current == Last(s) && Apart(s) && Forest(s, Values(members)) && Keys(s, members)
      invariant fresh(s) && fresh(Below(s))
      decreases |c| - buffer.offset
    {
      ghost var o := buffer.offset;
      MembersStep(c, o, depth, reader);
      ghost var m;
      ok, head, current, m := ParseMember(buffer, reader, head, current, s, members);
      if !ok {
        return;
      }
      s := s + [current];
      OntoTwice(members, [m], MembersAt(c, o, depth, reader));
      if c[buffer.offset] != 44 {
        members := members + [m];
        break;
      }
      BehindBracket(c, buffer.offset);
      OntoTwice(members, [m], MembersAt(c, buffer.offset, depth, reader));
      members := members + [m];
    }
  }

  /** One member: linked behind the others, then name, colon, value, and the white space behind each of them. */
  method ParseMember(buffer: ParseBuffer, reader: Reader, head0: Item?, current0: Item?, ghost s: seq<Item>,
                     ghost members: seq<Member>)
      returns (ok: bool, head: Item?, current: Item, ghost m: Member)
    requires buffer.Valid() && buffer.offset + 1 < |buffer.content|
    requires Chain(head0, s) && current0 == Last(s) && Apart(s) && Forest(s, Values(members)) && Keys(s, members)
    modifies buffer`offset, buffer`depth, s`next
    ensures match MemberAt(buffer.content, old(buffer.offset), old(buffer.depth), reader) {
              case None => !ok && buffer.offset <= |buffer.content|
              case Some((w, end)) => ok && m == w && buffer.offset == end < |buffer.content|
            }
    ensures ok ==>
      && Chain(head, s + [current]) && current == Last(s + [current]) && Apart(s + [current])
      && Forest(s + [current], Values(members + [m])) && Keys(s + [current], members + [m])
      && Below(s + [current]) == old(Below(s)) + current.below
      && fresh(current) && fresh(current.below) && buffer.depth == old(buffer.depth)
    decreases |buffer.content| - buffer.offset, 0
  {
    hide ValueAt, StringAt, Skip, Chain, Forest, Below, Members, Apart, Tree, Keys, Values;
    var c := buffer.content;
    ghost var values := Values(members);
    head, current := NewItem(head0, current0, s, values);
    m := Member([], Null);
    ghost var key, b := [], Below(s);
    ok, key := ParseName(current, buffer, s, values);
    if !ok {
      return;
    }
    ghost var expected := ValueAt(c, buffer.offset, buffer.depth, reader);
    ok := ParseBeside(current, buffer, reader, s, values);
    if ok {
      m := Member(key, expected.value.0);
      AddTree(head, s, values, current, m.value);
      ValuesAppend(s, members, current, m);
      ghost var all := Below(s + [current]);
      BelowAllocated(s + [current]);
      SkipWhitespace(buffer);
      assert Below(s + [current]) == all && Forest(s + [current], Values(members + [m]));
    }
  }

  /** The name of a member and the colon; the cursor goes on to the value. */
  method ParseName(current: Item, buffer: ParseBuffer, ghost s: seq<Item>, ghost values: seq<Json>)
      returns (ok: bool, ghost key: seq<byte>)
    requires buffer.Valid() && buffer.offset + 1 < |buffer.content|
    requires Forest(s, values) && current !in s && current !in Below(s) && Leaf(current)
    modifies buffer`offset, current`key
    ensures buffer.offset <= |buffer.content|
    ensures var c, start := buffer.content, Skip(buffer.content, old(buffer.offset) + 1);
            match StringAt(c, start) {
              case None => !ok
              case Some((name, next)) =>
                && next < |c|
                && if c[Skip(c, next)] != 58 then !ok
                   else Skip(c, next) + 1 < |c| && ok && key == name && buffer.offset == Skip(c, Skip(c, next) + 1)
            }
    ensures ok ==> current.key == key && old(buffer.offset) < buffer.offset < |buffer.content|
    ensures Forest(s, values) && Below(s) == old(Below(s)) && Leaf(current)
  {
    hide StringAt, Skip, Forest, Below, Tree;
    ghost var b := Below(s);
    BelowAllocated(s);
    var c := buffer.content;
    buffer.offset := buffer.offset + 1;
    SkipWhitespace(buffer);
    ghost var start := buffer.offset;
    var name := ParseString(buffer);
    key := [];
    if name.None? {
      return false, key;
    }
    StringInside(c, start);
    SkipWhitespace(buffer);
    current.key := name.value;
    key := name.value;
    if c[buffer.offset] != 58 {
      return false, key;
    }
    BehindBracket(c, buffer.offset);
    buffer.offset := buffer.offset + 1;
    SkipWhitespace(buffer);
    ok := true;
  }

  // ----- the whole parser

  /** Parses a terminated text into a tree of items; what follows the value is not looked at. */
  method Parse(text: seq<byte>, reader: Reader) returns (item: Item?, end: nat)
    requires Terminated(text)
    ensures item == null <==> Parsed(text, reader) == None
    ensures item != null ==>
      Tree(item, Parsed(text, reader).value.0) && end == Parsed(text, reader).value.1 && fresh({item} + item.below)
  {
    hide ValueAt, Skip, Tree;
    var buffer := new ParseBuffer(text);
    item := new Item();
    if 4 < |text| && text[0..3] == [0xEF, 0xBB, 0xBF] {
      buffer.offset := buffer.offset + 3;
    }
    SkipWhitespace(buffer);
    var ok := ParseValue(item, buffer, reader);
    end := buffer.offset;
    if !ok {
      item := null;
    }
  }
}
