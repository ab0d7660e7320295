/** The mask patterns as ISO/IEC 18004 shows them in pictures, '#' for an inverted module. */
module MaskPictures {
  import opened Bits
  import opened Masks

  const PICTURE_0: seq<string> := [
    "#.#.#.", ".#.#.#"
  ]
  const PICTURE_1: seq<string> := [
    "######", "......"
  ]
  const PICTURE_2: seq<string> := [
    "#..#.."
  ]
  const PICTURE_3: seq<string> := [
    "#..#..", "..#..#", ".#..#."
  ]
  const PICTURE_4: seq<string> := [
    "###...", "###...", "...###",
    "...###"
  ]
  const PICTURE_5: seq<string> := [
    "######", "#.....", "#..#..",
    "#.#.#.", "#..#..", "#....."
  ]
  const PICTURE_6: seq<string> := [
    "######", "###...", "##.##.",
    "#.#.#.", "#.##.#", "#...##"
  ]
  const PICTURE_7: seq<string> := [
    "#.#.#.", "...###", "#...##",
    ".#.#.#", "###...", ".###.."
  ]

  function Picture(mask: nat): (rows: seq<string>)
    requires mask < 8
    ensures |rows| in {1, 2, 3, 4, 6} && forall i :: 0 <= i < |rows| ==> |rows[i]| == 6
  {
    match mask
    case 0 => PICTURE_0
    case 1 => PICTURE_1
    case 2 => PICTURE_2
    case 3 => PICTURE_3
    case 4 => PICTURE_4
    case 5 => PICTURE_5
    case 6 => PICTURE_6
    case 7 => PICTURE_7
  }

  /** The remainder of a product by 2 and by 3, without multiplying. */
  function Half(x: nat, y: nat): (r: nat)
    ensures r < 2
  {
    if x % 2 == 1 && y % 2 == 1 then 1 else 0
  }

  function Third(x: nat, y: nat): (r: nat)
    ensures r < 3
  {
    if x % 3 == 0 || y % 3 == 0 then 0 else if x % 3 == y % 3 then 1 else 2
  }

  /** The encoder's test in terms of the remainders of x and y. */
  predicate Inverts(mask: nat, x: nat, y: nat)
    requires mask < 8
  {
    match mask
    case 0 => x % 2 == y % 2
    case 1 => y % 2 == 0
    case 2 => x % 3 == 0
    case 3 => (x % 3 + y % 3) % 3 == 0
    case 4 => x % 6 / 3 == y % 4 / 2
    case 5 => Half(x, y) == 0 && Third(x, y) == 0
    case 6 => Half(x, y) == 1 <==> Third(x, y) == 1
    case 7 => x % 2 == y % 2 <==> Third(x, y) != 1
  }

  lemma Product(p: nat, a: nat, q: nat, b: nat, d: nat)
    ensures (d * p + a) * (d * q + b) == d * (d * p * q + p * b + q * a) + a * b
  {}

  lemma HalfOf(x: nat, y: nat)
    ensures x * y % 2 == Half(x, y)
  {
    var p, a, q, b := x / 2, x % 2, y / 2, y % 2;
    Product(p, a, q, b, 2);
    assert x == 2 * p + a && y == 2 * q + b;
    RemainderIs(x * y, 2, 2 * p * q + p * b + q * a, a * b);
  }

  lemma ThirdOf(x: nat, y: nat)
    ensures x * y % 3 == Third(x, y)
  {
    var p, a, q, b := x / 3, x % 3, y / 3, y % 3;
    Product(p, a, q, b, 3);
    assert x == 3 * p + a && y == 3 * q + b;
    var k := 3 * p * q + p * b + q * a;
    if a == 2 && b == 2 {
      RemainderIs(x * y, 3, k + 1, 1);
    } else {
      RemainderIs(x * y, 3, k, a * b);
    }
  }

  lemma EncoderRule(mask: nat, x: nat, y: nat)
    requires mask < 8
    ensures EncoderInverts(mask, x, y) <==> Inverts(mask, x, y)
  {
    hide Half, Third;
    if mask < 5 {
      SumParts(x, y);
      match mask
      case 0 =>
      case 1 =>
      case 2 =>
      case 3 =>
      case 4 =>
    } else {
      HalfOf(x, y);
      ThirdOf(x, y);
      ParityOfSum(x, y);
      ProductRule(mask, x, y, x * y % 2, x * y % 3, (x + y) % 2);
    }
  }

  lemma ProductRule(mask: nat, x: nat, y: nat, half: nat, third: nat, sum: nat)
    requires 5 <= mask < 8 && half == x * y % 2 == Half(x, y) && third == x * y % 3 == Third(x, y)
    requires sum == (x + y) % 2 == (x % 2 + y % 2) % 2
    ensures EncoderInverts(mask, x, y) <==> Inverts(mask, x, y)
  {
    hide Half, Third;
    match mask
    case 5 => assert EncoderInverts(5, x, y) <==> half + third == 0;
    case 6 => assert EncoderInverts(6, x, y) <==> (half + third) % 2 == 0;
    case 7 => assert EncoderInverts(7, x, y) <==> (sum + third) % 2 == 0;
  }

  lemma ParityOfSum(x: nat, y: nat)
    ensures (x + y) % 2 == (x % 2 + y % 2) % 2
  {
    RemainderIs(x + y, 2, x / 2 + y / 2 + (x % 2 + y % 2) / 2, (x % 2 + y % 2) % 2);
  }

  lemma SumParts(x: nat, y: nat)
    ensures (x + y) % 2 == (x % 2 + y % 2) % 2 && (x + y) % 3 == (x % 3 + y % 3) % 3
    ensures (x / 3 + y / 2) % 2 == (x % 6 / 3 + y % 4 / 2) % 2
  {
    ParityOfSum(x, y);
    RemainderIs(x + y, 3, x / 3 + y / 3 + (x % 3 + y % 3) / 3, (x % 3 + y % 3) % 3);
    QuotientIs(x, 3, 2 * (x / 6) + x % 6 / 3, x % 6 % 3);
    QuotientIs(y, 2, 2 * (y / 4) + y % 4 / 2, y % 4 % 2);
    var c := x % 6 / 3 + y % 4 / 2;
    RemainderIs(x / 3 + y / 2, 2, x / 6 + y / 4 + c / 2, c % 2);
  }

  /** Multiples of d do not change the remainder. */
  lemma SameRemainder(n: nat, d: nat, k: nat, r: nat)
    requires d >= 1 && n == d * k + r
    ensures n % d == r % d
  {
    assert d * (k + r / d) == d * k + d * (r / d);
    RemainderIs(n, d, k + r / d, r % d);
  }

  lemma PartsRepeat(x: nat, y: nat)
    ensures Half(x % 6, y % 12) == Half(x, y) && Third(x % 6, y % 12) == Third(x, y)
    ensures x % 6 % 2 == x % 2 && x % 6 % 3 == x % 3 && y % 12 % 2 == y % 2 && y % 12 % 3 == y % 3
    ensures y % 12 % 4 == y % 4 && y % 12 % 6 == y % 6
  {
    SameRemainder(x, 2, 3 * (x / 6), x % 6);
    SameRemainder(x, 3, 2 * (x / 6), x % 6);
    SameRemainder(y, 2, 6 * (y / 12), y % 12);
    SameRemainder(y, 3, 4 * (y / 12), y % 12);
    SameRemainder(y, 4, 3 * (y / 12), y % 12);
    SameRemainder(y, 6, 2 * (y / 12), y % 12);
  }

  /** The patterns repeat after 6 columns and 12 rows. */
  lemma Repeats(mask: nat, x: nat, y: nat)
    requires mask < 8
    ensures Inverts(mask, x, y) <==> Inverts(mask, x % 6, y % 12)
  {
    hide Half, Third;
    PartsRepeat(x, y);
    match mask
    case 0 =>
    case 1 =>
    case 2 =>
    case 3 =>
    case 4 =>
    case 5 =>
    case 6 =>
    case 7 =>
  }

  lemma Shown0(a: nat, b: nat)
    requires a < 6 && b < 12
    ensures |PICTURE_0| == 2 && forall i :: 0 <= i < 2 ==> |PICTURE_0[i]| == 6
    ensures Inverts(0, a, b) <==> PICTURE_0[b % 2][a] == '#'
  {}

  lemma Shown1(a: nat, b: nat)
    requires a < 6 && b < 12
    ensures |PICTURE_1| == 2 && forall i :: 0 <= i < 2 ==> |PICTURE_1[i]| == 6
    ensures Inverts(1, a, b) <==> PICTURE_1[b % 2][a] == '#'
  {}

  lemma Shown2(a: nat, b: nat)
    requires a < 6 && b < 12
    ensures |PICTURE_2| == 1 && forall i :: 0 <= i < 1 ==> |PICTURE_2[i]| == 6
    ensures Inverts(2, a, b) <==> PICTURE_2[b % 1][a] == '#'
  {}

  lemma Shown3(a: nat, b: nat)
    requires a < 6 && b < 12
    ensures |PICTURE_3| == 3 && forall i :: 0 <= i < 3 ==> |PICTURE_3[i]| == 6
    ensures Inverts(3, a, b) <==> PICTURE_3[b % 3][a] == '#'
  {}

  lemma Shown4(a: nat, b: nat)
    requires a < 6 && b < 12
    ensures |PICTURE_4| == 4 && forall i :: 0 <= i < 4 ==> |PICTURE_4[i]| == 6
    ensures Inverts(4, a, b) <==> PICTURE_4[b % 4][a] == '#'
  {}

  lemma Shown5(a: nat, b: nat)
    requires a < 6 && b < 12
    ensures |PICTURE_5| == 6 && forall i :: 0 <= i < 6 ==> |PICTURE_5[i]| == 6
    ensures Inverts(5, a, b) <==> PICTURE_5[b % 6][a] == '#'
  {}

  lemma Shown6(a: nat, b: nat)
    requires a < 6 && b < 12
    ensures |PICTURE_6| == 6 && forall i :: 0 <= i < 6 ==> |PICTURE_6[i]| == 6
    ensures Inverts(6, a, b) <==> PICTURE_6[b % 6][a] == '#'
  {}

  lemma Shown7(a: nat, b: nat)
    requires a < 6 && b < 12
    ensures |PICTURE_7| == 6 && forall i :: 0 <= i < 6 ==> |PICTURE_7[i]| == 6
    ensures Inverts(7, a, b) <==> PICTURE_7[b % 6][a] == '#'
  {}

  /** A pattern inverts what its picture, repeated over the symbol, shows. */
  lemma InvertsAsShown(mask: nat, x: nat, y: nat)
    requires mask < 8
    ensures EncoderInverts(mask, x, y) <==> Picture(mask)[y % |Picture(mask)|][x % 6] == '#'
  {
    hide EncoderInverts, Inverts;
    EncoderRule(mask, x, y);
    Repeats(mask, x, y);
    PictureRows(mask, x, y);
    var a, b := x % 6, y % 12;
    match mask
    case 0 => Shown0(a, b);
    case 1 =>
      Shown1(a, b);
      assert |PICTURE_1| == 2;
    case 2 => Shown2(a, b);
    case 3 => Shown3(a, b);
    case 4 => Shown4(a, b);
    case 5 => Shown5(a, b);
    case 6 => Shown6(a, b);
    case 7 => Shown7(a, b);
  }

  lemma PictureRows(mask: nat, x: nat, y: nat)
    requires mask < 8
    ensures y % 12 % |Picture(mask)| == y % |Picture(mask)|
  {
    hide Picture;
    PartsRepeat(x, y);
  }
}
