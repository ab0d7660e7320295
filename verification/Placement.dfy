/**
 Writing the bits of the codewords into the free modules along a walk, and reading them back.
 */
module Placement {
  import opened Bits
  import opened Grid
  import opened Zigzag

  // ----- bytes as bits, most significant first

  function BitsMsb(n: nat, k: nat): (r: seq<bool>)
    ensures |r| == k
    decreases k
  {
    if k == 0 then [] else BitsMsb(n / 2, k - 1) + [n % 2 == 1]
  }

  function BytesToBits(bytes: seq<byte>): (r: seq<bool>)
    ensures |r| == 8 * |bytes|
    decreases |bytes|
  {
    if bytes == [] then [] else BytesToBits(bytes[..|bytes| - 1]) + BitsMsb(bytes[|bytes| - 1], 8)
  }

  lemma {:induction false} BitsMsbAt(n: nat, k: nat, i: nat)
    requires i < k
    ensures BitsMsb(n, k)[i] == Bit(n, k - 1 - i)
    decreases k
  {
    if i < k - 1 {
      BitsMsbAt(n / 2, k - 1, i);
    }
  }

  lemma {:induction false} BytesToBitsAt(bytes: seq<byte>, i: nat)
    requires i < 8 * |bytes|
    ensures BytesToBits(bytes)[i] == Bit(bytes[i / 8], 7 - i % 8)
    decreases |bytes|
  {
    hide Bit, BitsMsb;
    var n := |bytes| - 1;
    if i < 8 * n {
      BytesToBitsAt(bytes[..n], i);
    } else {
      BitsMsbAt(bytes[n], 8, i - 8 * n);
    }
  }

  lemma {:induction false} BitsMsbInjective(m: nat, n: nat, k: nat)
    requires m < Pow2(k) && n < Pow2(k) && BitsMsb(m, k) == BitsMsb(n, k)
    ensures m == n
    decreases k
  {
    if k > 0 {
      var a, b := BitsMsb(m, k), BitsMsb(n, k);
      assert BitsMsb(m / 2, k - 1) == a[..k - 1] && BitsMsb(n / 2, k - 1) == b[..k - 1];
      BitsMsbInjective(m / 2, n / 2, k - 1);
      assert a[k - 1] == b[k - 1];
    }
  }

  lemma {:induction false} BytesToBitsInjective(a: seq<byte>, b: seq<byte>)
    requires BytesToBits(a) == BytesToBits(b)
    ensures a == b
    decreases |a|
  {
    hide BitsMsb;
    assert |a| == |b|;
    if a != [] {
      var n := |a| - 1;
      var x, y := BytesToBits(a), BytesToBits(b);
      assert BytesToBits(a[..n]) == x[..8 * n] && BytesToBits(b[..n]) == y[..8 * n];
      BytesToBitsInjective(a[..n], b[..n]);
      assert BitsMsb(a[n], 8) == x[8 * n..] && BitsMsb(b[n], 8) == y[8 * n..];
      assert Pow2(8) == 256;
      BitsMsbInjective(a[n], b[n], 8);
    }
  }

  lemma {:induction false} BytesToBitsPrefix(bytes: seq<byte>, m: nat)
    requires m <= |bytes|
    ensures BytesToBits(bytes[..m]) == BytesToBits(bytes)[..8 * m]
    decreases |bytes|
  {
    hide BitsMsb;
    if m == |bytes| {
      assert bytes[..m] == bytes;
    } else {
      var n := |bytes| - 1;
      BytesToBitsPrefix(bytes[..n], m);
      assert bytes[..n][..m] == bytes[..m];
    }
  }

  // ----- drawing

  /** The grid and the number of bits used after the encoder walked along `walk`. */
  function Drawn(g: Modules, walk: seq<nat>, bits: seq<bool>): (r: (Modules, nat))
    requires Inside(walk, |g|)
    ensures |r.0| == |g| && r.1 <= |bits|
    decreases |walk|
  {
    if walk == [] then (g, 0)
    else
      var (h, i) := Drawn(g, walk[..|walk| - 1], bits);
      DrawStep(h, i, walk[|walk| - 1], bits)
  }

  /** A module that still looks free takes the next bit, if there is one. */
  function DrawStep(g: Modules, i: nat, p: nat, bits: seq<bool>): (r: (Modules, nat))
    requires p < |g| && i <= |bits|
    ensures |r.0| == |g| && r.1 <= |bits|
  {
    if !g[p] && i < |bits| then (g[p := bits[i]], i + 1) else (g, i)
  }

  /** The modules along the walk that are not function modules. */
  function FreeModules(func: Modules, walk: seq<nat>): (r: seq<nat>)
    requires Inside(walk, |func|)
    decreases |walk|
  {
    if walk == [] then []
    else
      FreeModules(func, walk[..|walk| - 1]) +
      if func[walk[|walk| - 1]] then [] else [walk[|walk| - 1]]
  }

  /** The bits of the free modules along the walk. */
  function ReadBits(g: Modules, func: Modules, walk: seq<nat>): (r: seq<bool>)
    requires |g| == |func| && Inside(walk, |g|)
    ensures |r| == |FreeModules(func, walk)|
    decreases |walk|
  {
    if walk == [] then []
    else
      ReadBits(g, func, walk[..|walk| - 1]) +
      if func[walk[|walk| - 1]] then [] else [g[walk[|walk| - 1]]]
  }

  lemma {:induction false} DrawnOutside(g: Modules, walk: seq<nat>, bits: seq<bool>, p: nat)
    requires Inside(walk, |g|)
    requires p < |g| && p !in walk
    ensures Drawn(g, walk, bits).0[p] == g[p]
    decreases |walk|
  {
    if walk != [] {
      DrawnOutside(g, walk[..|walk| - 1], bits, p);
      assert walk[|walk| - 1] in walk;
    }
  }

  lemma {:induction false} ReadOther(g: Modules, func: Modules, walk: seq<nat>, p: nat, b: bool)
    requires |g| == |func| && Inside(walk, |g|)
    requires p < |g| && p !in walk
    ensures ReadBits(g[p := b], func, walk) == ReadBits(g, func, walk)
    decreases |walk|
  {
    if walk != [] {
      ReadOther(g, func, walk[..|walk| - 1], p, b);
      assert walk[|walk| - 1] in walk;
    }
  }

  /**
   Starting from a grid that is dark exactly at the function modules, a walk without repetitions puts the bits
   into the free modules in order and leaves the remaining free modules light.
   */
  lemma {:induction false} DrawnReadsBack(func: Modules, walk: seq<nat>, bits: seq<bool>)
    requires Distinct(walk) && Inside(walk, |func|)
    ensures var (g, i) := Drawn(func, walk, bits);
            var read := ReadBits(g, func, walk);
            && i == Min(|bits|, |FreeModules(func, walk)|)
            && read[..i] == bits[..i]
            && forall k :: i <= k < |read| ==> !read[k]
    decreases |walk|
  {
    if walk != [] {
      var n := |walk| - 1;
      var rest, p := walk[..n], walk[n];
      DrawnReadsBack(func, rest, bits);
      assert p !in rest;
      DrawnOutside(func, rest, bits, p);
      var (h, i) := Drawn(func, rest, bits);
      if !func[p] && i < |bits| {
        ReadOther(h, func, rest, p, bits[i]);
      }
    }
  }

  lemma {:induction false} DrawnKeepsFunction(func: Modules, walk: seq<nat>, bits: seq<bool>, p: nat)
    requires Distinct(walk) && Inside(walk, |func|)
    requires p < |func| && func[p]
    ensures Drawn(func, walk, bits).0[p]
    decreases |walk|
  {
    if walk != [] {
      DrawnKeepsFunction(func, walk[..|walk| - 1], bits, p);
    }
  }
}
