/**
 What the Reed-Solomon decoder computes, stage by stage, over the polynomials of module Polynomials.
 The methods of module JsReedSolomon are proved to compute exactly this.
 */
module Decoding {
  import opened Bits
  import opened Options
  import opened GF256
  import opened Generator
  import opened Polynomials
  import opened KeyEquation
  import opened ErrorValues
  import opened Euclid

  /** Value of the received word at 2^s. */
  function Syndrome(bytes: seq<byte>, s: nat): byte {
    Eval(bytes, Exp(s))
  }

  /** The syndromes, number twoS - 1 first. */
  function Syndromes(bytes: seq<byte>, twoS: nat): (r: seq<byte>)
    ensures |r| == twoS
  {
    seq(twoS, i requires 0 <= i < twoS => Syndrome(bytes, twoS - 1 - i))
  }

  predicate IsCodeword(bytes: seq<byte>, twoS: nat) {
    forall s :: 0 <= s < twoS ==> Syndrome(bytes, s) == 0
  }

  /** Inverses of the roots of `l` among the field elements 1, ..., i, in that order. */
  ghost function Chien(l: Poly, i: nat): seq<byte>
    requires i < 256
  {
    if i == 0 then []
    else Chien(l, i - 1) + if Eval(l, i) == 0 then [Inverse(i)] else []
  }

  ghost function ErrorLocations(l: Poly): Option<seq<byte>> {
    if Degree(l) == 1 then Some([l[0]])
    else if Degree(l) <= |Chien(l, 255)| then Some(Chien(l, 255)[..Degree(l)])
    else None
  }

  /** Forney's formula for location number i. */
  ghost function Magnitude(w: Poly, locations: seq<byte>, i: nat): byte
    requires i < |locations| && locations[i] != 0
    requires Product(locations, Inverse(locations[i]), i) != 0
  {
    var z := Inverse(locations[i]);
    Mul(Eval(w, z), Inverse(Product(locations, z, i)))
  }

  /** Distinct nonzero locations: what makes every inverse in Forney's formula exist. */
  predicate Separate(locations: seq<byte>) {
    && (forall i :: 0 <= i < |locations| ==> locations[i] != 0)
    && (forall i, j :: 0 <= i < j < |locations| ==> locations[i] != locations[j])
  }

  lemma SeparateDenominators(xs: seq<byte>, i: nat)
    requires Separate(xs) && i < |xs|
    ensures Product(xs, Inverse(xs[i]), i) != 0
  {
    hide Mul, Xor, Product, Inverse;
    ProductVanishes(xs, Inverse(xs[i]), i);
    forall j | 0 <= j < |xs| && j != i
      ensures Inverse(xs[i]) != Inverse(xs[j])
    {
      if Inverse(xs[i]) == Inverse(xs[j]) {
        InverseInjective(xs[i], xs[j]);
      }
    }
  }

  lemma InverseInjective(a: byte, b: byte)
    requires a != 0 && b != 0 && Inverse(a) == Inverse(b)
    ensures a == b
  {
    hide Mul, Inverse;
    MulCommutes(a, Inverse(a));
    MulCommutes(b, Inverse(b));
    MulCancels(Inverse(a), a, b);
  }

  lemma {:induction false} ChienMember(l: Poly, i: nat, x: byte)
    requires i < 256
    ensures x in Chien(l, i) <==> exists j: byte :: 1 <= j <= i && Eval(l, j) == 0 && x == Inverse(j)
  {
    hide Eval, Inverse;
    if i > 0 {
      ChienMember(l, i - 1, x);
    }
  }

  lemma {:induction false} ChienSeparate(l: Poly, i: nat)
    requires i < 256
    ensures Separate(Chien(l, i))
  {
    hide Eval, Inverse;
    if i > 0 {
      ChienSeparate(l, i - 1);
      ChienFresh(l, i);
    }
  }

  lemma ChienFresh(l: Poly, i: nat)
    requires 0 < i < 256
    ensures Inverse(i) !in Chien(l, i - 1)
  {
    hide Eval, Inverse, Chien;
    var x := Inverse(i);
    ChienMember(l, i - 1, x);
    if x in Chien(l, i - 1) {
      var k: byte :| 1 <= k <= i - 1 && Eval(l, k) == 0 && x == Inverse(k);
      InverseInjective(k, i);
    }
  }

  lemma LocationsSeparate(l: Poly)
    ensures ErrorLocations(l).Some? ==> Separate(ErrorLocations(l).value)
  {
    ChienSeparate(l, 255);
  }

  ghost function Magnitudes(w: Poly, locations: seq<byte>): (r: seq<byte>)
    requires Separate(locations)
    ensures |r| == |locations|
  {
    seq(|locations|, i requires 0 <= i < |locations| =>
      SeparateDenominators(locations, i); Magnitude(w, locations, i))
  }

  /** Adds the first `k` magnitudes at their positions, or gives up at a position before the block. */
  ghost function Corrected(bytes: seq<byte>, locations: seq<byte>, magnitudes: seq<byte>, k: nat)
      : (r: Option<seq<byte>>)
    requires k <= |locations| == |magnitudes|
    requires forall i :: 0 <= i < |locations| ==> locations[i] != 0
    ensures r.Some? ==> |r.value| == |bytes|
  {
    if k == 0 then Some(bytes)
    else
      match Corrected(bytes, locations, magnitudes, k - 1)
      case None => None
      case Some(b) =>
        var position := |b| - 1 - Log(locations[k - 1]);
        if position < 0 then None
        else Some(b[position := XorByte(b[position], magnitudes[k - 1])])
  }

  ghost function Decode(bytes: seq<byte>, twoS: nat): (r: Option<seq<byte>>)
    ensures r.Some? ==> |r.value| == |bytes|
  {
    if IsCodeword(bytes, twoS) then Some(bytes)
    else
      match Run(Monomial(twoS, 1), Normalize(Syndromes(bytes, twoS)), twoS)
      case None => None
      case Some((sigma, omega)) =>
        match ErrorLocations(sigma)
        case None => None
        case Some(locations) =>
          LocationsSeparate(sigma);
          Corrected(bytes, locations, Magnitudes(omega, locations), |locations|)
  }
}
