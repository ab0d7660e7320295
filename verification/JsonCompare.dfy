/** Structural comparison: what it means for any two values, with or without repeated keys. */
module JsonCompare {
  import opened Bits
  import opened JsonText

  // ----- keys

  function LowerCase(c: byte): byte {
    if 65 <= c <= 90 then c + 32 else c
  }

  /** The key as it is compared. */
  function Folded(key: seq<byte>, caseSensitive: bool): seq<byte> {
    if caseSensitive then key else seq(|key|, i requires 0 <= i < |key| => LowerCase(key[i]))
  }

  /** Keys fold to the same when they differ at most in the case of letters from A to Z. */
  lemma FoldedSame(a: seq<byte>, b: seq<byte>)
    ensures Folded(a, true) == Folded(b, true) <==> a == b
    ensures Folded(a, false) == Folded(b, false) <==> |a| == |b| && forall i :: 0 <= i < |a| ==>
      a[i] == b[i] || (65 <= a[i] <= 90 && b[i] == a[i] + 32) || (65 <= b[i] <= 90 && a[i] == b[i] + 32)
  {
    var x, y := Folded(a, false), Folded(b, false);
    assert |x| == |a| && |y| == |b|;
    if x == y {
      forall i | 0 <= i < |a|
        ensures a[i] == b[i] || (65 <= a[i] <= 90 && b[i] == a[i] + 32) || (65 <= b[i] <= 90 && a[i] == b[i] + 32)
      {
        assert x[i] == y[i];
      }
    }
  }

  /** The number of the first member with the folded key k, or the number of members. */
  function FirstWith(members: seq<Member>, k: seq<byte>, caseSensitive: bool): (i: nat)
    ensures i <= |members|
    ensures i < |members| ==> Folded(members[i].key, caseSensitive) == k
    ensures forall j :: 0 <= j < i ==> Folded(members[j].key, caseSensitive) != k
  {
    if members == [] || Folded(members[0].key, caseSensitive) == k then 0
    else 1 + FirstWith(members[1..], k, caseSensitive)
  }

  // ----- the comparison

  function Size(v: Json): nat {
    match v
    case Array(items) => 1 + ItemsSize(items)
    case Object(members) => 1 + MembersSize(members)
    case _ => 1
  }

  function ItemsSize(items: seq<Json>): nat {
    if items == [] then 0 else Size(items[0]) + ItemsSize(items[1..])
  }

  function MembersSize(members: seq<Member>): nat {
    if members == [] then 0 else Size(members[0].value) + MembersSize(members[1..])
  }

  lemma {:induction false} ItemSmaller(items: seq<Json>, i: nat)
    requires i < |items|
    ensures Size(items[i]) <= ItemsSize(items)
    decreases |items|
  {
    hide Size;
    if i > 0 {
      ItemSmaller(items[1..], i - 1);
    }
  }

  lemma {:induction false} MemberSmaller(members: seq<Member>, i: nat)
    requires i < |members|
    ensures Size(members[i].value) <= MembersSize(members)
    decreases |members|
  {
    hide Size;
    if i > 0 {
      MemberSmaller(members[1..], i - 1);
    }
  }

  /** The comparison as the library makes it: every member of either object is looked up in the other. */
  predicate Compares(a: Json, b: Json, caseSensitive: bool)
    decreases Size(a) + Size(b), 1
  {
    match (a, b)
    case (Null, Null) => true
    case (False, False) => true
    case (True, True) => true
    case (Number(m), Number(n)) => m == n
    case (String(s), String(t)) => s == t
    case (Array(x), Array(y)) =>
      |x| == |y| && forall i :: 0 <= i < |x| ==>
        (ItemSmaller(x, i); ItemSmaller(y, i); Compares(x[i], y[i], caseSensitive))
    case (Object(x), Object(y)) => Covers(x, y, caseSensitive) && Covers(y, x, caseSensitive)
    case _ => false
  }

  /** Every member of x compares with the first member of y that has its key. */
  predicate Covers(x: seq<Member>, y: seq<Member>, caseSensitive: bool)
    decreases MembersSize(x) + MembersSize(y) + 1, 0
  {
    forall i :: 0 <= i < |x| ==> CoversOne(x, i, y, caseSensitive)
  }

  predicate CoversOne(x: seq<Member>, i: nat, y: seq<Member>, caseSensitive: bool)
    requires i < |x|
    decreases MembersSize(x) + MembersSize(y), 2
  {
    var j := FirstWith(y, Folded(x[i].key, caseSensitive), caseSensitive);
    j < |y| && (MemberSmaller(x, i); MemberSmaller(y, j); Compares(x[i].value, y[j].value, caseSensitive))
  }

  // ----- the meaning

  /** A value without the order of members: an object is a finite map from folded keys. */
  datatype Meaning = Atom(value: Json) | Listed(items: seq<Meaning>) | Keyed(members: map<seq<byte>, Meaning>)

  function KeysOf(members: seq<Member>, caseSensitive: bool): set<seq<byte>> {
    set i | 0 <= i < |members| :: Folded(members[i].key, caseSensitive)
  }

  lemma KeyFound(members: seq<Member>, k: seq<byte>, caseSensitive: bool)
    ensures k in KeysOf(members, caseSensitive) <==> FirstWith(members, k, caseSensitive) < |members|
  {
    hide Folded;
  }

  function MeaningOf(v: Json, caseSensitive: bool): Meaning
    decreases Size(v)
  {
    match v
    case Array(x) => Listed(seq(|x|, i requires 0 <= i < |x| => ItemSmaller(x, i); MeaningOf(x[i], caseSensitive)))
    case Object(x) =>
      Keyed(map k | k in KeysOf(x, caseSensitive) ::
        (KeyFound(x, k, caseSensitive);
         var i := FirstWith(x, k, caseSensitive);
         MemberSmaller(x, i);
         MeaningOf(x[i].value, caseSensitive)))
    case _ => Atom(v)
  }

  /** Members with the same key mean the same, at every level. */
  predicate Coherent(v: Json, caseSensitive: bool)
    decreases Size(v)
  {
    match v
    case Array(x) => forall i :: 0 <= i < |x| ==> (ItemSmaller(x, i); Coherent(x[i], caseSensitive))
    case Object(x) =>
      && (forall i :: 0 <= i < |x| ==> (MemberSmaller(x, i); Coherent(x[i].value, caseSensitive)))
      && (forall i, j ::
            (0 <= i < |x| && 0 <= j < |x| && Folded(x[i].key, caseSensitive) == Folded(x[j].key, caseSensitive))
            ==> MeaningOf(x[i].value, caseSensitive) == MeaningOf(x[j].value, caseSensitive))
    case _ => true
  }

  /** Comparing two values decides whether both are coherent and mean the same. */
  predicate Agree(a: Json, b: Json, caseSensitive: bool) {
    Coherent(a, caseSensitive) && Coherent(b, caseSensitive)
      && MeaningOf(a, caseSensitive) == MeaningOf(b, caseSensitive)
  }

  lemma ObjectParts(x: seq<Member>, caseSensitive: bool)
    ensures MeaningOf(Object(x), caseSensitive).Keyed?
    ensures MeaningOf(Object(x), caseSensitive).members.Keys == KeysOf(x, caseSensitive)
    ensures forall k :: k in KeysOf(x, caseSensitive) ==>
      && FirstWith(x, k, caseSensitive) < |x|
      && MeaningOf(Object(x), caseSensitive).members[k]
         == MeaningOf(x[FirstWith(x, k, caseSensitive)].value, caseSensitive)
  {
    hide Folded;
    forall k | k in KeysOf(x, caseSensitive)
      ensures FirstWith(x, k, caseSensitive) < |x|
    {
      KeyFound(x, k, caseSensitive);
    }
  }

  /** What covering gives for one member. */
  lemma CoveredMember(x: seq<Member>, y: seq<Member>, i: nat, caseSensitive: bool)
    requires i < |x| && Covers(x, y, caseSensitive)
    requires forall j :: 0 <= j < |y| && Compares(x[i].value, y[j].value, caseSensitive) ==>
      Agree(x[i].value, y[j].value, caseSensitive)
    ensures var k := Folded(x[i].key, caseSensitive);
            var j := FirstWith(y, k, caseSensitive);
            k in KeysOf(y, caseSensitive) && j < |y| && Agree(x[i].value, y[j].value, caseSensitive)
  {
    hide Folded, Compares, Agree;
    assert CoversOne(x, i, y, caseSensitive);
    KeyFound(y, Folded(x[i].key, caseSensitive), caseSensitive);
  }

  lemma CoveredCoherent(x: seq<Member>, y: seq<Member>, caseSensitive: bool)
    requires Covers(x, y, caseSensitive)
    requires forall i, j :: 0 <= i < |x| && 0 <= j < |y| && Compares(x[i].value, y[j].value, caseSensitive) ==>
      Agree(x[i].value, y[j].value, caseSensitive)
    ensures Coherent(Object(x), caseSensitive) && KeysOf(x, caseSensitive) <= KeysOf(y, caseSensitive)
    ensures forall k ::
      k in KeysOf(x, caseSensitive) && FirstWith(x, k, caseSensitive) < |x| && FirstWith(y, k, caseSensitive) < |y| ==>
      MeaningOf(x[FirstWith(x, k, caseSensitive)].value, caseSensitive)
      == MeaningOf(y[FirstWith(y, k, caseSensitive)].value, caseSensitive)
  {
    hide Folded, Compares, MeaningOf, FirstWith;
    forall i | 0 <= i < |x|
      ensures var k := Folded(x[i].key, caseSensitive);
              var j := FirstWith(y, k, caseSensitive);
              k in KeysOf(y, caseSensitive) && j < |y| && Agree(x[i].value, y[j].value, caseSensitive)
    {
      CoveredMember(x, y, i, caseSensitive);
    }
  }

  lemma CoherentMember(x: seq<Member>, i: nat, caseSensitive: bool)
    requires i < |x| && Coherent(Object(x), caseSensitive)
    ensures var k := Folded(x[i].key, caseSensitive);
            && Coherent(x[i].value, caseSensitive)
            && k in KeysOf(x, caseSensitive) && FirstWith(x, k, caseSensitive) < |x|
            && MeaningOf(x[i].value, caseSensitive) == MeaningOf(x[FirstWith(x, k, caseSensitive)].value, caseSensitive)
  {
    hide Folded, MeaningOf;
    KeyFound(x, Folded(x[i].key, caseSensitive), caseSensitive);
  }

  lemma AgreeCovers(x: seq<Member>, y: seq<Member>, caseSensitive: bool)
    requires Agree(Object(x), Object(y), caseSensitive)
    requires forall i, j :: 0 <= i < |x| && 0 <= j < |y| && Agree(x[i].value, y[j].value, caseSensitive) ==>
      Compares(x[i].value, y[j].value, caseSensitive)
    ensures Covers(x, y, caseSensitive)
  {
    hide Folded, Compares, Coherent, MeaningOf, FirstWith, KeysOf;
    ObjectParts(x, caseSensitive);
    ObjectParts(y, caseSensitive);
    forall i | 0 <= i < |x|
      ensures CoversOne(x, i, y, caseSensitive)
    {
      var k := Folded(x[i].key, caseSensitive);
      CoherentMember(x, i, caseSensitive);
      CoherentMember(y, FirstWith(y, k, caseSensitive), caseSensitive);
    }
  }

  lemma ObjectsExactly(x: seq<Member>, y: seq<Member>, caseSensitive: bool)
    requires forall i, j :: 0 <= i < |x| && 0 <= j < |y| ==>
      && Compares(x[i].value, y[j].value, caseSensitive) == Agree(x[i].value, y[j].value, caseSensitive)
      && Compares(y[j].value, x[i].value, caseSensitive) == Agree(y[j].value, x[i].value, caseSensitive)
    ensures Covers(x, y, caseSensitive) && Covers(y, x, caseSensitive) <==> Agree(Object(x), Object(y), caseSensitive)
  {
    hide Folded, Compares, Coherent, MeaningOf, FirstWith, KeysOf, Covers;
    ObjectParts(x, caseSensitive);
    ObjectParts(y, caseSensitive);
    if Covers(x, y, caseSensitive) && Covers(y, x, caseSensitive) {
      CoveredCoherent(x, y, caseSensitive);
      CoveredCoherent(y, x, caseSensitive);
      assert MeaningOf(Object(x), caseSensitive).members == MeaningOf(Object(y), caseSensitive).members;
    }
    if Agree(Object(x), Object(y), caseSensitive) {
      AgreeCovers(x, y, caseSensitive);
      AgreeCovers(y, x, caseSensitive);
    }
  }

  lemma ArraysExactly(x: seq<Json>, y: seq<Json>, caseSensitive: bool)
    requires |x| == |y| ==> forall i :: 0 <= i < |x| ==>
      Compares(x[i], y[i], caseSensitive) == Agree(x[i], y[i], caseSensitive)
    ensures Compares(Array(x), Array(y), caseSensitive) <==> Agree(Array(x), Array(y), caseSensitive)
  {
    var mx, my := MeaningOf(Array(x), caseSensitive).items, MeaningOf(Array(y), caseSensitive).items;
    assert forall i :: 0 <= i < |x| ==> mx[i] == MeaningOf(x[i], caseSensitive);
    assert forall i :: 0 <= i < |y| ==> my[i] == MeaningOf(y[i], caseSensitive);
  }

  /**
   The comparison of any two values, case-sensitive or not: it is true exactly if neither value gives one key two
   meanings, and both mean the same when the order of members is disregarded.
   */
  lemma {:induction false} ComparesExactly(a: Json, b: Json, caseSensitive: bool)
    ensures Compares(a, b, caseSensitive) <==> Agree(a, b, caseSensitive)
    decreases Size(a) + Size(b)
  {
    hide Folded, FirstWith, KeysOf, Covers;
    match (a, b)
    case (Array(x), Array(y)) =>
      hide Coherent, MeaningOf, Compares, Agree;
      if |x| == |y| {
        forall i | 0 <= i < |x|
          ensures Compares(x[i], y[i], caseSensitive) == Agree(x[i], y[i], caseSensitive)
        {
          ItemSmaller(x, i);
          ItemSmaller(y, i);
          ComparesExactly(x[i], y[i], caseSensitive);
        }
      }
      ArraysExactly(x, y, caseSensitive);
    case (Object(x), Object(y)) =>
      hide Coherent, MeaningOf, Agree;
      forall i, j | 0 <= i < |x| && 0 <= j < |y|
        ensures Compares(x[i].value, y[j].value, caseSensitive) == Agree(x[i].value, y[j].value, caseSensitive)
        ensures Compares(y[j].value, x[i].value, caseSensitive) == Agree(y[j].value, x[i].value, caseSensitive)
      {
        MemberSmaller(x, i);
        MemberSmaller(y, j);
        ComparesExactly(x[i].value, y[j].value, caseSensitive);
        ComparesExactly(y[j].value, x[i].value, caseSensitive);
      }
      ObjectsExactly(x, y, caseSensitive);
    case _ =>
  }

  /** No object has two members with the same key, at any level. */
  predicate DistinctKeys(v: Json, caseSensitive: bool)
    decreases Size(v)
  {
    match v
    case Array(x) => forall i :: 0 <= i < |x| ==> (ItemSmaller(x, i); DistinctKeys(x[i], caseSensitive))
    case Object(x) =>
      && (forall i :: 0 <= i < |x| ==> (MemberSmaller(x, i); DistinctKeys(x[i].value, caseSensitive)))
      && (forall i, j :: 0 <= i < j < |x| ==> Folded(x[i].key, caseSensitive) != Folded(x[j].key, caseSensitive))
    case _ => true
  }

  lemma {:induction false} DistinctCoherent(v: Json, caseSensitive: bool)
    requires DistinctKeys(v, caseSensitive)
    ensures Coherent(v, caseSensitive)
    decreases Size(v)
  {
    hide Folded, MeaningOf;
    match v
    case Array(x) =>
      forall i | 0 <= i < |x|
        ensures Coherent(x[i], caseSensitive)
      {
        ItemSmaller(x, i);
        DistinctCoherent(x[i], caseSensitive);
      }
    case Object(x) =>
      forall i | 0 <= i < |x|
        ensures Coherent(x[i].value, caseSensitive)
      {
        MemberSmaller(x, i);
        DistinctCoherent(x[i].value, caseSensitive);
      }
    case _ =>
  }

  /** With distinct keys, equality up to the order of members is all that counts. */
  lemma DistinctCompares(a: Json, b: Json, caseSensitive: bool)
    requires DistinctKeys(a, caseSensitive) && DistinctKeys(b, caseSensitive)
    ensures Compares(a, b, caseSensitive) <==> MeaningOf(a, caseSensitive) == MeaningOf(b, caseSensitive)
  {
    hide Compares, MeaningOf, DistinctKeys, Coherent;
    ComparesExactly(a, b, caseSensitive);
    DistinctCoherent(a, caseSensitive);
    DistinctCoherent(b, caseSensitive);
  }

  /** An object that gives one key two values does not compare equal to a copy of itself. */
  lemma RepeatedKeyIsUnequal(key: seq<byte>, m: int, n: int, caseSensitive: bool)
    requires m != n
    ensures var v := Object([Member(key, Number(m)), Member(key, Number(n))]); !Compares(v, v, caseSensitive)
  {
    hide Compares, Folded;
    var members := [Member(key, Number(m)), Member(key, Number(n))];
    ComparesExactly(Object(members), Object(members), caseSensitive);
    assert MeaningOf(members[0].value, caseSensitive) == Atom(Number(m));
    assert MeaningOf(members[1].value, caseSensitive) == Atom(Number(n));
  }
}
