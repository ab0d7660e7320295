/** Trees of items: how linked items represent a value, without sharing. */
module JsonTree {
  import opened JsonText
  import opened JsonList

  /** All items below the items of the sequence. */
  ghost function Below(s: seq<Item>): set<Item>
    reads s`below
  {
    set i, x | 0 <= i < |s| && x in s[i].below :: x
  }

  /** No item of the sequence or below it occurs twice. */
  ghost predicate Apart(s: seq<Item>)
    reads s`below
  {
    && (forall i :: 0 <= i < |s| ==> s[i] !in Below(s))
    && (forall i, j :: 0 <= i < j < |s| ==> s[i] != s[j] && s[i].below !! s[j].below)
  }

  /** The children, and all that is below them, are below the item. */
  ghost predicate Contained(item: Item)
    reads item`children, item`below, item.below
  {
    && item !in item.below
    && (forall i :: 0 <= i < |item.children| ==> item.children[i] in item.below)
    && Below(item.children) <= item.below
  }

  /** The children are a list, and nothing is shared. */
  ghost predicate Nested(item: Item)
    reads item`child, item`children, item`below, item.below
  {
    Contained(item) && item.Valid() && Apart(item.children)
  }

  ghost predicate Leaf(item: Item)
    reads item`child, item`children, item`below
  {
    item.child == null && item.children == [] && item.below == {}
  }

  /** The item and what is below it represent the value. */
  ghost predicate Tree(item: Item, v: Json)
    reads item`kind, item`valueInt, item`valueString, item`child, item`children, item`below, item.below
    decreases v
  {
    match v
    case Null => item.kind == NullKind && Leaf(item)
    case False => item.kind == FalseKind && Leaf(item)
    case True => item.kind == TrueKind && Leaf(item)
    case Number(n) => item.kind == NumberKind && item.valueInt == n && Leaf(item)
    case String(s) => item.kind == StringKind && item.valueString == s && Leaf(item)
    case Array(items) => item.kind == ArrayKind && Nested(item) && Forest(item.children, items)
    case Object(members) => item.kind == ObjectKind && Nested(item) && KeyedForest(item.children, members)
  }

  ghost predicate Forest(s: seq<Item>, items: seq<Json>)
    reads s`kind, s`valueInt, s`valueString, s`child, s`children, s`below, Below(s)
    decreases items
  {
    |s| == |items| && forall i :: 0 <= i < |s| ==> Tree(s[i], items[i])
  }

  ghost predicate KeyedForest(s: seq<Item>, members: seq<Member>)
    reads s`kind, s`valueInt, s`valueString, s`key, s`child, s`children, s`below, Below(s)
    decreases members
  {
    |s| == |members| && forall i :: 0 <= i < |s| ==> s[i].key == members[i].key && Tree(s[i], members[i].value)
  }

  // ----- building a list from the front

  /** A list whose first item does not lead to the last one yet. */
  ghost predicate Chain(head: Item?, s: seq<Item>)
    reads s`next, s`prev
  {
    && Distinct(s) && head == At(s, 0)
    && (forall i :: 0 <= i < |s| ==> s[i].next == After(s, i))
    && (forall i :: 0 <= i < |s| ==> s[i].prev == Preceding(s, i))
  }

  function Preceding(s: seq<Item>, i: nat): Item?
    requires i < |s|
  {
    if i == 0 then null else s[i - 1]
  }

  function Last(s: seq<Item>): Item? {
    if s == [] then null else s[|s| - 1]
  }

  lemma ChainStart(head: Item?)
    requires head == null
    ensures Chain(head, []) && Last([]) == null && Below([]) == {} && Apart([]) && Forest([], []) && KeyedForest([], [])
  {}

  /** The new item goes behind the current one. */
  method Attach(head: Item?, current: Item?, n: Item, ghost s: seq<Item>) returns (first: Item)
    requires Chain(head, s) && current == Last(s)
    requires n !in s && n.next == null && n.prev == null
    modifies s`next, n`prev
    ensures Chain(first, s + [n])
  {
    hide IndexOf, After, Preceding, Chain;
    ChainParts(head, s);
    AppendDistinct(s, n);
    if head == null {
      first := n;
    } else {
      current.next := n;
      n.prev := current;
      first := head;
    }
    Appended(first, s, n);
  }

  lemma ChainParts(head: Item?, s: seq<Item>)
    requires Chain(head, s)
    ensures Distinct(s) && (head == null <==> s == []) && (s != [] ==> head == s[0])
    ensures forall i :: 0 <= i < |s| ==> s[i].next == After(s, i) && s[i].prev == Preceding(s, i)
  {}

  lemma AppendDistinct(s: seq<Item>, n: Item)
    requires Distinct(s) && n !in s
    ensures Distinct(s + [n])
  {
    hide Distinct;
    DistinctChanges(s, n, |s|);
    assert Inserted(s, |s|, n) == s + [n];
  }

  lemma Appended(first: Item, s: seq<Item>, n: Item)
    requires Distinct(s + [n]) && first == (if s == [] then n else s[0])
    requires forall i :: 0 <= i < |s| ==> s[i].next == if i == |s| - 1 then n else After(s, i)
    requires forall i :: 0 <= i < |s| ==> s[i].prev == Preceding(s, i)
    requires n.next == null && n.prev == Last(s)
    ensures Chain(first, s + [n])
  {
    hide Distinct;
    var s' := s + [n];
    forall i | 0 <= i < |s'|
      ensures s'[i].next == After(s', i) && s'[i].prev == Preceding(s', i)
    {
      assert i < |s| ==> s'[i] == s[i];
    }
  }

  /** The first item is made to lead to the last one. */
  method Close(head: Item?, current: Item?, ghost s: seq<Item>)
    requires Chain(head, s) && current == Last(s)
    modifies s`prev
    ensures Linked(head, s)
  {
    hide IndexOf;
    if head != null {
      assert head == s[0];
      forall i | 1 <= i < |s|
        ensures s[i] != s[0]
      {
        assert IndexOf(s, s[i]) == i && IndexOf(s, s[0]) == 0;
      }
      head.prev := current;
    }
  }

  // ----- one more tree

  /** The items themselves. */
  function Members(s: seq<Item>): set<Item> {
    set i | 0 <= i < |s| :: s[i]
  }

  lemma BelowAppend(s: seq<Item>, n: Item)
    ensures Below(s + [n]) == Below(s) + n.below && Members(s + [n]) == Members(s) + {n}
  {
    var t := s + [n];
    assert t[|s|] == n && forall i :: 0 <= i < |s| ==> t[i] == s[i];
    forall x | x in Below(s) + n.below
      ensures x in Below(t)
    {
      if x in Below(s) {
        var i :| 0 <= i < |s| && x in s[i].below;
        assert x in t[i].below;
      } else {
        assert x in t[|s|].below;
      }
    }
    forall x | x in Members(s) + {n}
      ensures x in Members(t)
    {
      if x in Members(s) {
        var i :| 0 <= i < |s| && x == s[i];
        assert x == t[i];
      }
    }
  }

  /** A tree that shares nothing with the others. */
  lemma ApartAppend(s: seq<Item>, n: Item)
    requires Apart(s) && n !in s && n !in Below(s) && n !in n.below
    requires n.below !! Below(s) && n.below !! Members(s)
    ensures Apart(s + [n])
  {
    hide Below, Members;
    BelowAppend(s, n);
    var t := s + [n];
    forall i | 0 <= i < |t|
      ensures t[i] !in Below(t)
    {
      if i < |s| {
        InMembers(s, i);
      }
    }
    forall i, j | 0 <= i < j < |t|
      ensures t[i] != t[j] && t[i].below !! t[j].below
    {
      if j == |s| {
        BelowPart(s, i);
      }
    }
  }

  lemma InMembers(s: seq<Item>, i: nat)
    requires i < |s|
    ensures s[i] in Members(s)
  {}

  lemma MembersAre(s: seq<Item>)
    ensures forall x :: x in Members(s) ==> x in s
  {}

  lemma ApartParts(s: seq<Item>)
    requires Apart(s)
    ensures forall i :: 0 <= i < |s| ==> s[i] !in Below(s)
  {}

  /** Nothing allocated later can be among the items. */
  lemma BelowAllocated(s: seq<Item>)
    ensures forall x :: x in Below(s) ==> allocated(x)
    ensures forall x :: x in Members(s) ==> allocated(x)
  {}

  lemma BelowPart(s: seq<Item>, i: nat)
    requires i < |s|
    ensures s[i].below <= Below(s)
  {}

  lemma ForestAppend(s: seq<Item>, items: seq<Json>, n: Item, v: Json)
    requires Forest(s, items) && Tree(n, v)
    ensures Forest(s + [n], items + [v])
  {
    hide Tree;
  }

  /** A closed list of trees below an item. */
  lemma MakeNested(item: Item, s: seq<Item>)
    requires item.children == s && item.below == Members(s) + Below(s) && Linked(item.child, s) && Apart(s)
    requires item !in s && item !in Below(s)
    ensures Nested(item)
  {
    hide Linked, Apart, Below;
    forall i | 0 <= i < |s|
      ensures s[i] in item.below
    {
      InMembers(s, i);
    }
  }

  // ----- walking over a tree

  lemma TreeArray(item: Item, v: Json)
    requires Tree(item, v)
    ensures item.kind == ArrayKind <==> v.Array?
    ensures item.kind == ObjectKind <==> v.Object?
    ensures v.Array? ==> item.child == At(item.children, 0) && |item.children| == |v.items|
    ensures v.Object? ==> item.child == At(item.children, 0) && |item.children| == |v.members|
  {
    hide Apart, Contained, Forest, KeyedForest, Distinct, After, Before;
    if v.Array? {
      ForestLength(item.children, v.items);
    } else if v.Object? {
      KeyedForestLength(item.children, v.members);
    }
  }

  lemma NotBelowItself(item: Item, v: Json)
    requires Tree(item, v)
    ensures item !in item.below
  {}

  lemma ForestLength(s: seq<Item>, items: seq<Json>)
    requires Forest(s, items)
    ensures |s| == |items|
  {}

  lemma KeyedForestLength(s: seq<Item>, members: seq<Member>)
    requires KeyedForest(s, members)
    ensures |s| == |members|
  {}

  lemma TreeItem(item: Item, v: Json, i: nat)
    requires Tree(item, v) && v.Array? && i < |item.children|
    ensures i < |v.items| && Tree(item.children[i], v.items[i]) && item.children[i].next == At(item.children, i + 1)
  {
    hide Distinct;
  }

  lemma TreeMember(item: Item, v: Json, i: nat)
    requires Tree(item, v) && v.Object? && i < |item.children|
    ensures i < |v.members| && Tree(item.children[i], v.members[i].value)
      && item.children[i].next == At(item.children, i + 1)
    ensures item.children[i].key == v.members[i].key
  {
    hide Distinct;
  }
}
