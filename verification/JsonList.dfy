/**
 The items of an array or object as a doubly linked list: the chain of `next` pointers ends with null, each `prev`
 pointer leads back, and the first item's `prev` leads to the last one.
 */
module JsonList {
  import opened Bits

  datatype Kind = InvalidKind | NullKind | FalseKind | TrueKind | NumberKind | StringKind | ArrayKind | ObjectKind

  class Item {
    var next: Item?
    var prev: Item?
    var child: Item?
    var kind: Kind
    var valueInt: int
    var valueString: seq<byte>
    var key: seq<byte>
    ghost var children: seq<Item>
    /** All items below this one. */
    ghost var below: set<Item>

    /** A new item: all pointers null, no kind. */
    constructor ()
      ensures next == null && prev == null && child == null && kind == InvalidKind
      ensures children == [] && below == {}
    {
      next, prev, child, kind, children, below := null, null, null, InvalidKind, [], {};
      valueInt, valueString, key := 0, [], [];
    }

    /** The list of the children. */
    ghost predicate Valid()
      reads `child, `children, children`next, children`prev
    {
      Linked(child, children)
    }
  }

  /** Where an item first stands in the sequence. */
  ghost function IndexOf(s: seq<Item>, item: Item): nat {
    if s == [] || s[0] == item then 0 else 1 + IndexOf(s[1..], item)
  }

  ghost predicate Distinct(s: seq<Item>) {
    forall i :: 0 <= i < |s| ==> IndexOf(s, s[i]) == i
  }

  lemma {:induction false} IndexOfAt(s: seq<Item>, i: nat)
    requires i < |s| && forall j, k :: 0 <= j < k < |s| ==> s[j] != s[k]
    ensures IndexOf(s, s[i]) == i
    decreases |s|
  {
    if i > 0 {
      assert s[0] != s[i];
      assert forall j :: 0 <= j < |s| - 1 ==> s[1..][j] == s[j + 1];
      IndexOfAt(s[1..], i - 1);
    }
  }

  lemma DistinctPairs(s: seq<Item>)
    ensures Distinct(s) <==> forall j, k :: 0 <= j < k < |s| ==> s[j] != s[k]
  {
    hide IndexOf;
    if forall j, k :: 0 <= j < k < |s| ==> s[j] != s[k] {
      forall i | 0 <= i < |s|
        ensures IndexOf(s, s[i]) == i
      {
        IndexOfAt(s, i);
      }
    }
  }

  /** The list that starts with `first` consists of exactly these items in this order, without repetition. */
  ghost predicate Linked(first: Item?, s: seq<Item>)
    reads s`next, s`prev
  {
    && Distinct(s)
    && first == At(s, 0)
    && (forall i :: 0 <= i < |s| ==> s[i].next == After(s, i))
    && (forall i :: 0 <= i < |s| ==> s[i].prev == Before(s, i))
  }

  /** Item number i, or null behind the end. */
  function At(s: seq<Item>, i: nat): (r: Item?)
    ensures r == null <==> i >= |s|
  {
    if i < |s| then s[i] else null
  }

  lemma AtItem(s: seq<Item>, i: nat)
    requires i < |s|
    ensures At(s, i) == s[i]
  {}

  function After(s: seq<Item>, i: nat): Item? {
    At(s, i + 1)
  }

  function Before(s: seq<Item>, i: nat): Item?
    requires i < |s|
  {
    if i == 0 then s[|s| - 1] else s[i - 1]
  }

  function Inserted(s: seq<Item>, i: nat, item: Item): seq<Item>
    requires i <= |s|
  {
    s[..i] + [item] + s[i..]
  }

  function Removed(s: seq<Item>, i: nat): seq<Item>
    requires i < |s|
  {
    s[..i] + s[i + 1..]
  }

  lemma {:induction false} IndexOfMember(s: seq<Item>, item: Item)
    requires item in s
    ensures IndexOf(s, item) < |s| && s[IndexOf(s, item)] == item
    decreases |s|
  {
    if s[0] != item {
      assert item in s[1..];
      IndexOfMember(s[1..], item);
    }
  }

  lemma DistinctChanges(s: seq<Item>, item: Item, i: nat)
    requires Distinct(s)
    ensures i < |s| ==> Distinct(Removed(s, i))
    ensures item !in s && i <= |s| ==> Distinct(Inserted(s, i, item))
    ensures item !in s && i < |s| ==> Distinct(s[i := item])
  {
    hide Distinct;
    DistinctPairs(s);
    if i < |s| {
      DistinctPairs(Removed(s, i));
      DistinctPairs(s[i := item]);
    }
    if i <= |s| {
      DistinctPairs(Inserted(s, i, item));
    }
  }

  lemma Step(first: Item?, s: seq<Item>, i: nat)
    requires Linked(first, s) && i < |s|
    ensures s[i].next == At(s, i + 1)
  {}

  lemma First(first: Item?, s: seq<Item>)
    requires Linked(first, s)
    ensures first == At(s, 0)
  {}

  /** Child number `index`, or null behind the end. */
  method GetArrayItem(parent: Item, index: nat) returns (r: Item?)
    requires parent.Valid()
    ensures r == At(parent.children, index)
  {
    hide Linked;
    ghost var s := parent.children;
    First(parent.child, s);
    var currentChild, left := parent.child, index;
    ghost var i := 0;
    while currentChild != null && left > 0
      invariant 0 <= left && i <= |s| && left + i == index && currentChild == At(s, i)
      decreases left
    {
      Step(parent.child, s, i);
      left := left - 1;
      currentChild := currentChild.next;
      i := i + 1;
    }
    r := currentChild;
  }

  method SuffixObject(prev: Item, item: Item)
    modifies prev`next, item`prev
    ensures prev.next == item && item.prev == prev
  {
    prev.next := item;
    item.prev := prev;
  }

  /** What a list says about every item. */
  lemma Pointers(first: Item?, s: seq<Item>)
    requires Linked(first, s)
    ensures Distinct(s) && first == At(s, 0)
    ensures forall k :: 0 <= k < |s| ==> s[k].next == After(s, k) && s[k].prev == Before(s, k)
  {}

  lemma AppendedLinked(first: Item?, s: seq<Item>, item: Item)
    requires Distinct(s) && item !in s && first == if |s| == 0 then item else s[0]
    requires forall k :: 0 <= k < |s| ==> s[k].next == if k == |s| - 1 then item else After(s, k)
    requires forall k :: 0 <= k < |s| ==> s[k].prev == if k == 0 then item else Before(s, k)
    requires item.next == null && item.prev == if |s| == 0 then item else s[|s| - 1]
    ensures Linked(first, Inserted(s, |s|, item))
  {
    hide Distinct;
    DistinctChanges(s, item, |s|);
    var s' := Inserted(s, |s|, item);
    forall j | 0 <= j < |s'|
      ensures s'[j].next == After(s', j) && s'[j].prev == Before(s', j)
    {
      assert j < |s| ==> s'[j] == s[j];
    }
  }

  /** Appends an item that belongs to no list; an array is not added to itself. */
  method AddItemToArray(parent: Item, item: Item) returns (ok: bool)
    requires parent.Valid() && item !in parent.children && (parent.children != [] ==> item.next == null)
    modifies parent`child, parent`children, parent.children`next, parent.children`prev, item`next, item`prev
    ensures ok <==> parent != item
    ensures parent.Valid()
    ensures parent.children == if ok then Inserted(old(parent.children), |old(parent.children)|, item)
      else old(parent.children)
  {
    hide IndexOf, Linked, Inserted;
    if parent == item {
      return false;
    }
    ghost var s := parent.children;
    Pointers(parent.child, s);
    var child := parent.child;
    if child == null {
      parent.child := item;
      item.prev := item;
      item.next := null;
    } else {
      assert child == s[0] && child.prev == s[|s| - 1];
      if child.prev != null {
        SuffixObject(child.prev, item);
        parent.child.prev := item;
      }
    }
    AppendedLinked(parent.child, s, item);
    parent.children := Inserted(s, |s|, item);
    ok := true;
  }

  /** The items before and behind item i. */
  lemma Neighbours(s: seq<Item>, i: nat)
    requires i < |s|
    ensures At(s, i) == s[i] && At(s, 0) == s[0]
    ensures if i + 1 < |s| then After(s, i) == s[i + 1] else After(s, i) == null
    ensures Before(s, i) == if i == 0 then s[|s| - 1] else s[i - 1]
  {}

  // ----- taking an item out

  function NextWithout(s: seq<Item>, i: nat, k: nat): Item? {
    if k + 1 == i then After(s, i) else After(s, k)
  }

  function PrevWithout(s: seq<Item>, i: nat, k: nat): Item?
    requires i < |s| && k < |s|
  {
    if k == i + 1 || (k == 0 && i == |s| - 1) then Before(s, i) else Before(s, k)
  }

  lemma RemovedAt(s: seq<Item>, i: nat, j: nat)
    requires i < |s| && j < |s| - 1
    ensures var k := if j < i then j else j + 1;
            Removed(s, i)[j] == s[k] && After(Removed(s, i), j) == NextWithout(s, i, k)
  {}

  lemma RemovedBefore(s: seq<Item>, i: nat, j: nat)
    requires i < |s| && j < |s| - 1
    ensures var k := if j < i then j else j + 1;
            Before(Removed(s, i), j) == PrevWithout(s, i, k)
  {}

  /** With these pointers the remaining items are a list. */
  lemma RemovedLinked(first: Item?, s: seq<Item>, i: nat)
    requires Distinct(s) && i < |s| && first == if i == 0 then After(s, 0) else s[0]
    requires forall k :: 0 <= k < |s| && k != i ==>
      s[k].next == NextWithout(s, i, k) && s[k].prev == PrevWithout(s, i, k)
    ensures Linked(first, Removed(s, i))
  {
    DistinctChanges(s, s[i], i);
    FirstRemoved(s, i);
    hide Distinct, Removed, After, Before, NextWithout, PrevWithout, At;
    var s' := Removed(s, i);
    forall j | 0 <= j < |s'|
      ensures s'[j].next == After(s', j) && s'[j].prev == Before(s', j)
    {
      RemovedAt(s, i, j);
      RemovedBefore(s, i, j);
    }
  }

  lemma FirstRemoved(s: seq<Item>, i: nat)
    requires i < |s|
    ensures |Removed(s, i)| == |s| - 1 && At(Removed(s, i), 0) == if i == 0 then After(s, 0) else s[0]
  {}

  /** Takes a child out of the list; it points nowhere afterwards. */
  method DetachItemViaPointer(parent: Item, item: Item) returns (ghost i: nat)
    requires parent.Valid() && item in parent.children
    modifies parent`child, parent`children, parent.children`next, parent.children`prev
    ensures i < |old(parent.children)| && old(parent.children)[i] == item
    ensures parent.Valid() && parent.children == Removed(old(parent.children), i)
    ensures item.next == null && item.prev == null
  {
    hide IndexOf, Linked, Removed, After, Before, At;
    ghost var s := parent.children;
    Pointers(parent.child, s);
    i := IndexOf(s, item);
    IndexOfMember(s, item);
    Neighbours(s, i);
    if item != parent.child {
      item.prev.next := item.next;
    }
    if item.next != null {
      item.next.prev := item.prev;
    }
    if item == parent.child {
      parent.child := item.next;
    } else if item.next == null {
      parent.child.prev := item.prev;
    }
    item.prev := null;
    item.next := null;
    RemovedLinked(parent.child, s, i);
    parent.children := Removed(s, i);
  }

  // ----- putting an item in

  lemma InsertedLinked(first: Item?, s: seq<Item>, i: nat, item: Item)
    requires Distinct(s) && i < |s| && item !in s && first == if i == 0 then item else s[0]
    requires forall k :: 0 <= k < |s| ==> s[k].next == if k + 1 == i then item else After(s, k)
    requires forall k :: 0 <= k < |s| ==> s[k].prev == if k == i then item else Before(s, k)
    requires item.next == s[i] && item.prev == Before(s, i)
    ensures Linked(first, Inserted(s, i, item))
  {
    hide Distinct;
    DistinctChanges(s, item, i);
    var s' := Inserted(s, i, item);
    forall j | 0 <= j < |s'|
      ensures s'[j].next == After(s', j) && s'[j].prev == Before(s', j)
    {
      assert j < i ==> s'[j] == s[j];
      assert j > i ==> s'[j] == s[j - 1];
    }
  }

  /** Inserts before child number `which`, or at the end if there is none. */
  method InsertItemInArray(parent: Item, which: int, newItem: Item) returns (ok: bool)
    requires parent.Valid() && newItem !in parent.children && (which >= |parent.children| ==> newItem.next == null)
    modifies parent`child, parent`children, parent.children`next, parent.children`prev, newItem`next, newItem`prev
    ensures ok <==> which >= 0 && (which < |old(parent.children)| || parent != newItem)
    ensures parent.Valid()
    ensures parent.children == if ok then Inserted(old(parent.children), Min(which, |old(parent.children)|), newItem)
                               else old(parent.children)
  {
    hide IndexOf, Linked, Inserted, After, Before, At;
    if which < 0 {
      return false;
    }
    var afterInserted := GetArrayItem(parent, which);
    if afterInserted == null {
      ok := AddItemToArray(parent, newItem);
      return;
    }
    ghost var s, i := parent.children, which;
    Pointers(parent.child, s);
    Neighbours(s, i);
    if afterInserted != parent.child && afterInserted.prev == null {
      return false;
    }
    newItem.next := afterInserted;
    newItem.prev := afterInserted.prev;
    afterInserted.prev := newItem;
    if afterInserted == parent.child {
      parent.child := newItem;
    } else {
      newItem.prev.next := newItem;
    }
    InsertedLinked(parent.child, s, i, newItem);
    parent.children := Inserted(s, i, newItem);
    ok := true;
  }

  // ----- replacing an item

  lemma ReplacedLinked(first: Item?, s: seq<Item>, i: nat, item: Item)
    requires Distinct(s) && i < |s| && item !in s && first == if i == 0 then item else s[0]
    requires forall k :: 0 <= k < |s| && k != i ==> s[k].next == if k + 1 == i then item else After(s, k)
    requires forall k :: 0 <= k < |s| && k != i ==>
      s[k].prev == if k == i + 1 || (k == 0 && i == |s| - 1) then item else Before(s, k)
    requires item.next == After(s, i) && item.prev == if |s| == 1 then item else Before(s, i)
    ensures Linked(first, s[i := item])
  {
    hide Distinct;
    DistinctChanges(s, item, i);
    var s' := s[i := item];
    forall j | 0 <= j < |s'|
      ensures s'[j].next == After(s', j) && s'[j].prev == Before(s', j)
    {
      assert j != i ==> s'[j] == s[j];
    }
  }

  /** Puts the replacement in the place of a child, which points nowhere afterwards. */
  method ReplaceItemViaPointer(parent: Item, item: Item, replacement: Item) returns (ghost i: nat)
    requires parent.Valid() && item in parent.children && (replacement != item ==> replacement !in parent.children)
    modifies parent`child, parent`children, parent.children`next, parent.children`prev, replacement`next,
      replacement`prev
    ensures i < |old(parent.children)| && old(parent.children)[i] == item
    ensures parent.Valid() && parent.children == old(parent.children)[i := replacement]
    ensures replacement != item ==> item.next == null && item.prev == null
  {
    hide IndexOf, Linked, After, Before, At;
    ghost var s := parent.children;
    Pointers(parent.child, s);
    i := IndexOf(s, item);
    IndexOfMember(s, item);
    Neighbours(s, i);
    if replacement == item {
      return;
    }
    replacement.next := item.next;
    replacement.prev := item.prev;
    if replacement.next != null {
      replacement.next.prev := replacement;
    }
    if parent.child == item {
      if parent.child.prev == parent.child {
        replacement.prev := replacement;
      }
      parent.child := replacement;
    } else {
      if replacement.prev != null {
        replacement.prev.next := replacement;
      }
      if replacement.next == null {
        parent.child.prev := replacement;
      }
    }
    item.next := null;
    item.prev := null;
    ReplacedLinked(parent.child, s, i, replacement);
    parent.children := s[i := replacement];
  }
}
