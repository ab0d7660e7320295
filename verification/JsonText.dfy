/** JSON values and their text, formatted and unformatted. */
module JsonText {
  import opened Bits
  import opened JsonStrings

  const INT_MAX: nat := 0x7FFF_FFFF
  const NESTING_LIMIT: nat := 1000

  datatype Json =
    | Null
    | False
    | True
    | Number(valueInt: int)
    | String(valueString: seq<byte>)
    | Array(items: seq<Json>)
    | Object(members: seq<Member>)

  datatype Member = Member(key: seq<byte>, value: Json)

  /** Numbers are 32-bit integers, strings hold no zero bytes. */
  predicate Plain(v: Json) {
    match v
    case Number(n) => -0x8000_0000 <= n <= 0x7FFF_FFFF
    case String(s) => NulFree(s)
    case Array(items) => forall i :: 0 <= i < |items| ==> Plain(items[i])
    case Object(members) => forall i :: 0 <= i < |members| ==> NulFree(members[i].key) && Plain(members[i].value)
    case _ => true
  }

  /** How deep arrays and objects are nested. */
  function Nesting(v: Json): nat {
    match v
    case Array(items) => 1 + DeepestItem(items)
    case Object(members) => 1 + DeepestMember(members)
    case _ => 0
  }

  function Max(a: nat, b: nat): nat {
    if a < b then b else a
  }

  function DeepestItem(items: seq<Json>): nat {
    if items == [] then 0 else Max(Nesting(items[0]), DeepestItem(items[1..]))
  }

  function DeepestMember(members: seq<Member>): nat {
    if members == [] then 0 else Max(Nesting(members[0].value), DeepestMember(members[1..]))
  }

  // ----- the text

  function Digits(n: nat): (r: seq<byte>)
    ensures |r| >= 1
  {
    if n < 10 then [48 + n] else Digits(n / 10) + [48 + n % 10]
  }

  function Decimal(n: int): (r: seq<byte>)
    ensures |r| >= 1
  {
    if n < 0 then [45] + Digits(-n) else Digits(n)
  }

  function Tabs(n: nat): (r: seq<byte>)
    ensures |r| == n
  {
    seq(n, _ => 9)
  }

  function When(b: bool, text: seq<byte>): seq<byte> {
    if b then text else []
  }

  /** The text of a value inside `depth` arrays and objects. */
  function Text(v: Json, depth: nat, format: bool): seq<byte>
    decreases v
  {
    match v
    case Null => [110, 117, 108, 108]
    case False => [102, 97, 108, 115, 101]
    case True => [116, 114, 117, 101]
    case Number(n) => Decimal(n)
    case String(s) => Quoted(s)
    case Array(items) => [91] + ItemsText(items, depth + 1, format) + [93]
    case Object(members) =>
      [123] + When(format, [10]) + MembersText(members, depth + 1, format) + When(format, Tabs(depth)) + [125]
  }

  /** The items with commas between them. */
  function ItemsText(items: seq<Json>, depth: nat, format: bool): seq<byte>
    decreases items
  {
    if items == [] then []
    else
      Text(items[0], depth, format)
      + When(|items| > 1, [44] + When(format, [32]))
      + ItemsText(items[1..], depth, format)
  }

  /** Key and value of a member. */
  function BodyText(m: Member, depth: nat, format: bool): seq<byte>
    decreases m, 0
  {
    Quoted(m.key) + [58] + When(format, [9]) + Text(m.value, depth, format)
  }

  /** What ends a member. */
  function EndText(more: bool, format: bool): seq<byte> {
    When(more, [44]) + When(format, [10])
  }

  /** A member, on a line of its own if formatted. */
  function MemberText(m: Member, more: bool, depth: nat, format: bool): seq<byte>
    decreases m, 1
  {
    When(format, Tabs(depth)) + BodyText(m, depth, format) + EndText(more, format)
  }

  function MembersText(members: seq<Member>, depth: nat, format: bool): seq<byte>
    decreases members
  {
    if members == [] then []
    else MemberText(members[0], |members| > 1, depth, format) + MembersText(members[1..], depth, format)
  }
}
