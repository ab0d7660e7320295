/** The layout of printed arrays and objects, as lists of lines. */
module JsonLayout {
  import opened Bits
  import opened JsonStrings
  import opened JsonText

  /** The parts, with the separator between them. */
  function Joined(parts: seq<seq<byte>>, separator: seq<byte>): seq<byte> {
    if parts == [] then []
    else if |parts| == 1 then parts[0]
    else parts[0] + separator + Joined(parts[1..], separator)
  }

  function ItemTexts(items: seq<Json>, depth: nat, format: bool): (parts: seq<seq<byte>>)
    ensures |parts| == |items|
  {
    seq(|items|, i requires 0 <= i < |items| => Text(items[i], depth, format))
  }

  /** So many tabs, a key between quotes, colon and tab, and the value. */
  function Line(m: Member, depth: nat): seq<byte> {
    seq(depth, _ => 9) + Quoted(m.key) + [58, 9] + Text(m.value, depth, true)
  }

  function Lines(members: seq<Member>, depth: nat): (parts: seq<seq<byte>>)
    ensures |parts| == |members|
  {
    seq(|members|, i requires 0 <= i < |members| => Line(members[i], depth))
  }

  /** Key, colon and value without any white space of their own. */
  function Pair(m: Member, depth: nat): seq<byte> {
    Quoted(m.key) + [58] + Text(m.value, depth, false)
  }

  function Pairs(members: seq<Member>, depth: nat): (parts: seq<seq<byte>>)
    ensures |parts| == |members|
  {
    seq(|members|, i requires 0 <= i < |members| => Pair(members[i], depth))
  }

  // ----- arrays

  lemma {:induction false} ItemsJoined(items: seq<Json>, depth: nat, format: bool)
    ensures ItemsText(items, depth, format) ==
      Joined(ItemTexts(items, depth, format), if format then [44, 32] else [44])
  {
    hide Text;
    var parts := ItemTexts(items, depth, format);
    if |items| > 1 {
      assert parts[1..] == ItemTexts(items[1..], depth, format);
      ItemsJoined(items[1..], depth, format);
      assert [44] + [32] == [44, 32];
    }
  }

  /** Brackets around the items, with a comma, and a space if formatted, between them. */
  lemma ArrayLayout(items: seq<Json>, depth: nat, format: bool)
    ensures Text(Array(items), depth, format) ==
      [91] + Joined(ItemTexts(items, depth + 1, format), if format then [44, 32] else [44]) + [93]
  {
    hide ItemsText, ItemTexts, Joined;
    ItemsJoined(items, depth + 1, format);
  }

  // ----- objects

  lemma {:induction false} LinesJoined(members: seq<Member>, depth: nat)
    ensures MembersText(members, depth, true) == if members == [] then []
      else Joined(Lines(members, depth), [44, 10]) + [10]
  {
    hide Line, MemberText;
    if members != [] {
      var parts := Lines(members, depth);
      MemberLine(members[0], |members| > 1, depth);
      if |members| > 1 {
        assert parts[1..] == Lines(members[1..], depth);
        LinesJoined(members[1..], depth);
      }
    }
  }

  lemma MemberLine(m: Member, more: bool, depth: nat)
    ensures MemberText(m, more, depth, true) == Line(m, depth) + if more then [44, 10] else [10]
    ensures MemberText(m, more, depth, false) == Pair(m, depth) + if more then [44] else []
  {
    hide Text, Quoted;
    assert [58] + [9] == [58, 9] && [44] + [10] == [44, 10];
  }

  lemma {:induction false} PairsJoined(members: seq<Member>, depth: nat)
    ensures MembersText(members, depth, false) == Joined(Pairs(members, depth), [44])
  {
    hide Pair, MemberText;
    if members != [] {
      var parts := Pairs(members, depth);
      MemberLine(members[0], |members| > 1, depth);
      if |members| > 1 {
        assert parts[1..] == Pairs(members[1..], depth);
        PairsJoined(members[1..], depth);
      }
    }
  }

  /**
   A formatted object has a line for every member, indented by one tab more than its own closing brace, with a comma
   at the end of all lines but the last. Unformatted it has no white space.
   */
  lemma ObjectLayout(members: seq<Member>, depth: nat)
    ensures Text(Object(members), depth, true) ==
      [123, 10] + Joined(Lines(members, depth + 1), [44, 10]) + (if members == [] then [] else [10])
      + seq(depth, _ => 9) + [125]
    ensures Text(Object(members), depth, false) == [123] + Joined(Pairs(members, depth + 1), [44]) + [125]
  {
    hide MembersText, Lines, Pairs, Joined;
    LinesJoined(members, depth + 1);
    PairsJoined(members, depth + 1);
    assert [123] + [10] == [123, 10];
    if members == [] {
      NothingJoined(depth + 1);
    }
  }

  lemma NothingJoined(depth: nat)
    ensures Joined(Lines([], depth), [44, 10]) == []
  {}
}
