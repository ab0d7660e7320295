/** Copying and comparing trees of items. */
module JsonDuplicate {
  import opened Bits
  import opened JsonText
  import opened JsonList
  import opened JsonTree
  import opened JsonParser
  import opened JsonCompare

  /** Everything that belongs to a tree. */
  ghost function Footprint(item: Item): set<Item>
    reads item`below
  {
    {item} + item.below
  }

  /** A copy of one item, linked to nothing. */
  method CopyItem(item: Item) returns (newItem: Item)
    ensures fresh(newItem) && Leaf(newItem) && newItem.next == null && newItem.prev == null
    ensures newItem.kind == item.kind && newItem.valueInt == item.valueInt
    ensures newItem.valueString == item.valueString && newItem.key == item.key
  {
    newItem := new Item();
    newItem.kind := item.kind;
    newItem.valueInt := item.valueInt;
    newItem.valueString := item.valueString;
    newItem.key := item.key;
  }

  /** A copy, with everything below it if `recurse`: a tree of new items for the same value. */
  method Duplicate(item: Item, recurse: bool, ghost v: Json) returns (newItem: Item)
    requires Tree(item, v)
    ensures fresh(newItem) && fresh(newItem.below) && newItem.next == null && newItem.prev == null
    ensures newItem.kind == item.kind && newItem.valueInt == item.valueInt
    ensures newItem.valueString == item.valueString && newItem.key == item.key
    ensures recurse ==> Tree(newItem, v)
    ensures !recurse ==> Leaf(newItem)
    decreases v, 1
  {
    hide Nested, Forest, KeyedForest;
    newItem := CopyItem(item);
    if recurse && item.kind == ArrayKind {
      DuplicateItems(item, newItem, v);
    } else if recurse && item.kind == ObjectKind {
      DuplicateMembers(item, newItem, v);
    }
  }

  /** The walk over the children of an array. */
  method DuplicateItems(item: Item, newItem: Item, ghost v: Json)
    requires Tree(item, v) && v.Array? && Leaf(newItem) && newItem != item && newItem !in item.below
    modifies newItem`kind, newItem`child, newItem`children, newItem`below
    ensures Tree(newItem, v) && fresh(newItem.below)
    ensures newItem.kind == ArrayKind
    decreases v, 0
  {
    hide Tree, Chain, Apart, Forest, Below, Members, At;
    ghost var items, children := v.items, item.children;
    ghost var s: seq<Item>, i := [], 0;
    TreeArray(item, v);
    ChainStart(null);
    NoMembers();
    assert items[..0] == [];
    var child, head: Item?, next: Item? := item.child, null, null;
    while child != null
      invariant Tree(item, v) && item.children == children && i <= |items| == |children| && child == At(children, i)
      invariant Chain(head, s) && next == Last(s) && Apart(s) && Forest(s, items[..i])
      invariant fresh(s) && fresh(Below(s))
      decreases |children| - i
    {
      TreeItem(item, v, i);
      AtItem(children, i);
      head, next := DuplicateChild(child, items[i], head, next, s, items[..i]);
      s := s + [next];
      assert items[..i + 1] == items[..i] + [items[i]];
      i := i + 1;
      child := child.next;
    }
    assert items[..|items|] == items;
    MembersAre(s);
    FinishArray(newItem, head, next, s, items);
  }

  lemma MembersHave(s: seq<Item>)
    ensures forall x :: x in s ==> x in Members(s)
  {
    forall x | x in s
      ensures x in Members(s)
    {
      var i :| 0 <= i < |s| && s[i] == x;
      InMembers(s, i);
    }
  }

  /** One more copy behind the others. */
  method DuplicateChild(child: Item, ghost v: Json, head0: Item?, next0: Item?, ghost s: seq<Item>,
                        ghost items: seq<Json>)
      returns (head: Item?, next: Item)
    requires Tree(child, v) && Chain(head0, s) && next0 == Last(s) && Apart(s) && Forest(s, items)
    modifies s`next
    ensures Chain(head, s + [next]) && next == Last(s + [next]) && Apart(s + [next]) && Forest(s + [next], items + [v])
    ensures Below(s + [next]) == old(Below(s)) + next.below && fresh(next) && fresh(next.below) && next.key == child.key
    decreases v, 2
  {
    hide Tree, Chain, Apart, Forest, Below, Members;
    ghost var b, m := Below(s), Members(s);
    BelowAllocated(s);
    next := Duplicate(child, true, v);
    assert Forest(s, items) && Below(s) == b && Apart(s);
    ApartParts(s);
    BelowAllocated(s);
    assert next !in b && next.below !! b && next.below !! m && next !in s;
    assert forall x :: x in s ==> x !in next.below by { MembersHave(s); }
    NotBelowItself(next, v);
    head := Attach(head0, next0, next, s);
    assert Forest(s, items) && Below(s) == b && Apart(s) && Tree(next, v);
    AddTree(head, s, items, next, v);
  }

  /** The walk over the children of an object. */
  method DuplicateMembers(item: Item, newItem: Item, ghost v: Json)
    requires Tree(item, v) && v.Object? && Leaf(newItem) && newItem != item && newItem !in item.below
    modifies newItem`kind, newItem`child, newItem`children, newItem`below
    ensures Tree(newItem, v) && fresh(newItem.below)
    ensures newItem.kind == ObjectKind
    decreases v, 0
  {
    hide Tree, Chain, Apart, Forest, Below, Members, At, Keys, Values;
    ghost var members, children := v.members, item.children;
    ghost var s: seq<Item>, i := [], 0;
    TreeArray(item, v);
    ChainStart(null);
    NoMembers();
    NoKeys();
    assert members[..0] == [];
    var child, head: Item?, next: Item? := item.child, null, null;
    while child != null
      invariant Tree(item, v) && item.children == children && i <= |members| == |children| && child == At(children, i)
      invariant Chain(head, s) && next == Last(s) && Apart(s) && Forest(s, Values(members[..i]))
        && Keys(s, members[..i])
      invariant fresh(s) && fresh(Below(s))
      decreases |children| - i
    {
      TreeMember(item, v, i);
      AtItem(children, i);
      assert members[..i + 1] == members[..i] + [members[i]];
      head, next := DuplicateChild(child, members[i].value, head, next, s, Values(members[..i]));
      ValuesAppend(s, members[..i], next, members[i]);
      s := s + [next];
      i := i + 1;
      child := child.next;
    }
    assert members[..|members|] == members;
    MembersAre(s);
    FinishObject(newItem, head, next, s, members);
  }

  // ----- comparison

  /** The first child whose key is `name`. */
  method GetObjectItem(parent: Item, name: seq<byte>, caseSensitive: bool, ghost v: Json) returns (r: Item?)
    requires Tree(parent, v) && v.Object?
    ensures r == At(parent.children, FirstWith(v.members, Folded(name, caseSensitive), caseSensitive))
  {
    hide Tree, At, Folded, FirstWith;
    ghost var members, children := v.members, parent.children;
    ghost var i, k := 0, Folded(name, caseSensitive);
    TreeArray(parent, v);
    assert members[0..] == members;
    var currentElement := parent.child;
    while currentElement != null && Folded(currentElement.key, caseSensitive) != Folded(name, caseSensitive)
      invariant i <= |members| == |children| && currentElement == At(children, i)
      invariant i + FirstWith(members[i..], k, caseSensitive) == FirstWith(members, k, caseSensitive)
      decreases |children| - i
    {
      TreeMember(parent, v, i);
      AtItem(children, i);
      FirstStep(members, i, k, caseSensitive);
      currentElement := currentElement.next;
      i := i + 1;
    }
    if currentElement != null {
      TreeMember(parent, v, i);
      AtItem(children, i);
      FirstStep(members, i, k, caseSensitive);
    }
    r := currentElement;
  }

  lemma FirstStep(members: seq<Member>, i: nat, k: seq<byte>, caseSensitive: bool)
    requires i < |members|
    ensures FirstWith(members[i..], k, caseSensitive) ==
      if Folded(members[i].key, caseSensitive) == k then 0 else 1 + FirstWith(members[i + 1..], k, caseSensitive)
  {
    hide Folded;
    assert members[i..][1..] == members[i + 1..];
  }

  /** What is below a child is below the item. */
  lemma ChildFootprint(item: Item, v: Json, i: nat)
    requires Tree(item, v) && i < |item.children|
    ensures Footprint(item.children[i]) <= item.below
  {
    hide Forest, KeyedForest, Apart;
    BelowPart(item.children, i);
  }

  /** Whether two trees that share nothing are equal; an item is always equal to itself. */
  method Compare(a: Item, b: Item, caseSensitive: bool, ghost va: Json, ghost vb: Json) returns (r: bool)
    requires Tree(a, va) && Tree(b, vb) && (a == b || Footprint(a) !! Footprint(b))
    ensures r == (a == b || Compares(va, vb, caseSensitive))
    decreases Size(va) + Size(vb), 3
  {
    hide Nested, Forest, KeyedForest, Covers;
    if a.kind != b.kind {
      return false;
    }
    if a == b {
      return true;
    }
    if a.kind == NumberKind {
      r := a.valueInt == b.valueInt;
    } else if a.kind == StringKind {
      r := a.valueString == b.valueString;
    } else if a.kind == ArrayKind {
      r := CompareItems(a, b, caseSensitive, va, vb);
    } else if a.kind == ObjectKind {
      r := CompareMembers(a, b, caseSensitive, va, vb);
      if r {
        r := CompareMembers(b, a, caseSensitive, vb, va);
      }
    } else {
      r := true;
    }
  }

  /** Item by item. */
  method CompareItems(a: Item, b: Item, caseSensitive: bool, ghost va: Json, ghost vb: Json) returns (r: bool)
    requires Tree(a, va) && Tree(b, vb) && va.Array? && vb.Array? && Footprint(a) !! Footprint(b)
    ensures r == Compares(va, vb, caseSensitive)
    decreases Size(va) + Size(vb), 2
  {
    hide Tree, At, Compares, Footprint, Size;
    ghost var x, y, i := va.items, vb.items, 0;
    TreeArray(a, va);
    TreeArray(b, vb);
    var aElement, bElement := a.child, b.child;
    while aElement != null && bElement != null
      invariant i <= |x| == |a.children| && i <= |y| == |b.children|
      invariant aElement == At(a.children, i) && bElement == At(b.children, i)
      invariant forall j :: 0 <= j < i ==> Compares(x[j], y[j], caseSensitive)
      decreases |x| - i
    {
      TreeItem(a, va, i);
      TreeItem(b, vb, i);
      AtItem(a.children, i);
      AtItem(b.children, i);
      ItemBelow(a, va, i);
      ItemBelow(b, vb, i);
      Separate(a, b, aElement, bElement);
      r := Compare(aElement, bElement, caseSensitive, x[i], y[i]);
      if !r {
        UnequalItems(x, y, i, caseSensitive);
        return;
      }
      aElement := aElement.next;
      bElement := bElement.next;
      i := i + 1;
    }
    r := aElement == null && bElement == null;
    EqualItems(x, y, i, caseSensitive);
  }

  lemma ItemBelow(a: Item, v: Json, i: nat)
    requires Tree(a, v) && v.Array? && i < |a.children|
    ensures i < |v.items| && Size(v.items[i]) < Size(v)
    ensures Footprint(a.children[i]) <= Footprint(a) && a.children[i] in Footprint(a)
  {
    hide Tree;
    TreeItem(a, v, i);
    ChildFootprint(a, v, i);
    ItemSmaller(v.items, i);
  }

  lemma MemberBelow(a: Item, v: Json, i: nat)
    requires Tree(a, v) && v.Object? && i < |a.children|
    ensures i < |v.members| && Size(v.members[i].value) < Size(v)
    ensures Footprint(a.children[i]) <= Footprint(a) && a.children[i] in Footprint(a)
  {
    hide Tree;
    TreeMember(a, v, i);
    ChildFootprint(a, v, i);
    MemberSmaller(v.members, i);
  }

  lemma Separate(a: Item, b: Item, x: Item, y: Item)
    requires Footprint(a) !! Footprint(b) && Footprint(x) <= Footprint(a) && Footprint(y) <= Footprint(b)
    ensures Footprint(x) !! Footprint(y) && x != y
  {
    assert x in Footprint(x) && y in Footprint(y);
  }

  lemma UnequalItems(x: seq<Json>, y: seq<Json>, i: nat, caseSensitive: bool)
    requires i < |x| && i < |y| && !Compares(x[i], y[i], caseSensitive)
    ensures !Compares(Array(x), Array(y), caseSensitive)
  {}

  lemma EqualItems(x: seq<Json>, y: seq<Json>, i: nat, caseSensitive: bool)
    requires i <= |x| && i <= |y| && (i == |x| || i == |y|)
    requires forall j :: 0 <= j < i ==> Compares(x[j], y[j], caseSensitive)
    ensures Compares(Array(x), Array(y), caseSensitive) <==> |x| == |y|
  {}

  /** Every member of a is looked up in b. */
  method CompareMembers(a: Item, b: Item, caseSensitive: bool, ghost va: Json, ghost vb: Json) returns (r: bool)
    requires Tree(a, va) && Tree(b, vb) && va.Object? && vb.Object? && Footprint(a) !! Footprint(b)
    ensures r == Covers(va.members, vb.members, caseSensitive)
    decreases Size(va) + Size(vb), 2
  {
    hide Tree, At, Compares, Footprint, Size, CoversOne, FirstWith, Folded;
    ghost var x, y, i := va.members, vb.members, 0;
    TreeArray(a, va);
    var aElement := a.child;
    while aElement != null
      invariant i <= |x| == |a.children| && aElement == At(a.children, i)
      invariant forall j :: 0 <= j < i ==> CoversOne(x, j, y, caseSensitive)
      decreases |x| - i
    {
      TreeMember(a, va, i);
      AtItem(a.children, i);
      r := CompareMember(a, aElement, i, b, caseSensitive, va, vb);
      if !r {
        return;
      }
      aElement := aElement.next;
      i := i + 1;
    }
    r := true;
  }

  method CompareMember(a: Item, aElement: Item, ghost i: nat, b: Item, caseSensitive: bool, ghost va: Json,
                       ghost vb: Json)
      returns (r: bool)
    requires Tree(a, va) && Tree(b, vb) && va.Object? && vb.Object? && Footprint(a) !! Footprint(b)
    requires i < |a.children| == |va.members| && aElement == a.children[i]
    ensures r == CoversOne(va.members, i, vb.members, caseSensitive)
    decreases Size(va) + Size(vb), 1
  {
    hide Tree, Compares, Footprint, Size, FirstWith, Folded;
    TreeMember(a, va, i);
    MemberBelow(a, va, i);
    TreeArray(b, vb);
    var bElement := GetObjectItem(b, aElement.key, caseSensitive, vb);
    if bElement == null {
      return false;
    }
    ghost var j := FirstWith(vb.members, Folded(aElement.key, caseSensitive), caseSensitive);
    TreeMember(b, vb, j);
    MemberBelow(b, vb, j);
    Separate(a, b, aElement, bElement);
    r := Compare(aElement, bElement, caseSensitive, va.members[i].value, vb.members[j].value);
  }

  /** A copy shares nothing with the original, and is equal to it exactly if no key has two meanings. */
  lemma CopyCompares(v: Json, caseSensitive: bool)
    ensures Compares(v, v, caseSensitive) <==> Coherent(v, caseSensitive)
  {
    hide Compares, Coherent;
    ComparesExactly(v, v, caseSensitive);
  }
}
