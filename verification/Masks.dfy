/** The eight mask patterns and the encoder's masking. */
module Masks {
  import opened Bits
  import opened Grid

  /** The encoder's test whether mask pattern `mask` inverts module (x, y). */
  predicate EncoderInverts(mask: nat, x: nat, y: nat)
    requires mask < 8
  {
    match mask
    case 0 => (x + y) % 2 == 0
    case 1 => y % 2 == 0
    case 2 => x % 3 == 0
    case 3 => (x + y) % 3 == 0
    case 4 => (x / 3 + y / 2) % 2 == 0
    case 5 => x * y % 2 + x * y % 3 == 0
    case 6 => (x * y % 2 + x * y % 3) % 2 == 0
    case 7 => ((x + y) % 2 + x * y % 3) % 2 == 0
  }

  /** The decoder's entry number `mask` of its table of patterns. */
  predicate DecoderInverts(mask: nat, x: nat, y: nat)
    requires mask < 8
  {
    match mask
    case 0 => (y + x) % 2 == 0
    case 1 => y % 2 == 0
    case 2 => x % 3 == 0
    case 3 => (y + x) % 3 == 0
    case 4 => (y / 2 + x / 3) % 2 == 0
    case 5 => (x * y) % 2 + (x * y) % 3 == 0
    case 6 => ((y * x) % 2 + (y * x) % 3) % 2 == 0
    case 7 => ((y + x) % 2 + (y * x) % 3) % 2 == 0
  }

  lemma InvertsAgree(mask: nat, x: nat, y: nat)
    requires mask < 8
    ensures EncoderInverts(mask, x, y) <==> DecoderInverts(mask, x, y)
  {
    assert x * y == y * x;
  }

  /** The grid with every free module inverted where the pattern says so. */
  function Masked(size: nat, g: Modules, func: Modules, mask: nat): (r: Modules)
    requires |g| == |func| == size * size && mask < 8
    ensures |r| == |g|
  {
    seq(size * size, p requires 0 <= p < size * size =>
      g[p] != (!func[p] && EncoderInverts(mask, p % size, p / size)))
  }

  /** Masking twice with the same pattern changes nothing. */
  lemma MaskedTwice(size: nat, g: Modules, func: Modules, mask: nat)
    requires |g| == |func| == size * size && mask < 8
    ensures Masked(size, Masked(size, g, func, mask), func, mask) == g
  {
    hide EncoderInverts;
  }

  /** Function modules keep their colour. */
  lemma MaskedKeepsFunction(size: nat, g: Modules, func: Modules, mask: nat, p: nat)
    requires |g| == |func| == size * size && mask < 8 && p < |g| && func[p]
    ensures Masked(size, g, func, mask)[p] == g[p]
  {
    hide EncoderInverts;
  }

  lemma MaskedAt(size: nat, g: Modules, func: Modules, mask: nat, x: int, y: int)
    requires |g| == |func| == size * size && mask < 8 && InGrid(size, x, y)
    ensures var p := Index(size, x, y);
            Masked(size, g, func, mask)[p] == (g[p] != (!func[p] && EncoderInverts(mask, x, y)))
  {
    hide EncoderInverts, Index;
    IndexParts(size, x, y);
  }

  /** Every free module of `qrcode` is inverted where the pattern says so. */
  method ApplyMask(functionModules: array<byte>, qrcode: array<byte>, mask: nat)
    requires functionModules != qrcode && mask < 8
    requires qrcode.Length >= 1 && Packed(qrcode[..], qrcode[0])
    requires functionModules.Length >= 1 && functionModules[0] == qrcode[0]
    requires Packed(functionModules[..], functionModules[0])
    modifies qrcode
    ensures qrcode[0] == old(qrcode[0]) && Packed(qrcode[..], qrcode[0])
    ensures View(qrcode[..], qrcode[0]) ==
      Masked(qrcode[0], old(View(qrcode[..], qrcode[0])), old(View(functionModules[..], functionModules[0])), mask)
  {
    var qrsize: nat := qrcode[0];
    ghost var func, g := View(functionModules[..], qrsize), View(qrcode[..], qrsize);
    hide View, Masked, Packed, EncoderInverts;
    assert PartlyMasked(qrsize, g, func, mask, 0) == g;
    var y := 0;
    while y < qrsize
      invariant 0 <= y <= qrsize == qrcode[0] && 0 <= y * qrsize <= qrsize * qrsize
      invariant Packed(qrcode[..], qrsize)
      invariant Packed(functionModules[..], qrsize) && View(functionModules[..], qrsize) == func
      invariant View(qrcode[..], qrsize) == PartlyMasked(qrsize, g, func, mask, y * qrsize)
    {
      hide PartlyMasked;
      MulMonotone(qrsize, y + 1, qrsize);
      MaskRow(functionModules, qrcode, mask, y, qrsize, g, func);
      y := y + 1;
    }
    assert PartlyMasked(qrsize, g, func, mask, qrsize * qrsize) == Masked(qrsize, g, func, mask);
  }

  /** The grid when only the first k modules have been masked. */
  ghost function PartlyMasked(size: nat, g: Modules, func: Modules, mask: nat, k: nat): (r: Modules)
    requires |g| == |func| == size * size && mask < 8 && k <= |g|
    ensures |r| == |g|
  {
    Masked(size, g, func, mask)[..k] + g[k..]
  }

  lemma PartlyMaskedStep(size: nat, g: Modules, func: Modules, mask: nat, x: int, y: int)
    requires |g| == |func| == size * size && mask < 8 && InGrid(size, x, y)
    ensures var p := Index(size, x, y);
            var h := PartlyMasked(size, g, func, mask, p);
            && p == y * size + x
            && h[p] == g[p]
            && PartlyMasked(size, g, func, mask, p + 1) ==
                 if func[p] then h else h[p := h[p] != EncoderInverts(mask, x, y)]
  {
    hide Masked, EncoderInverts;
    MaskedAt(size, g, func, mask, x, y);
    var p := Index(size, x, y);
    var m := Masked(size, g, func, mask);
    assert m[..p + 1] == m[..p] + [m[p]];
    assert g[p..] == [g[p]] + g[p + 1..];
  }

  /** The inner loop: one row. */
  method MaskRow(functionModules: array<byte>, qrcode: array<byte>, mask: nat, y: nat,
                 ghost size: nat, ghost g: Modules, ghost func: Modules)
    requires functionModules != qrcode && mask < 8
    requires qrcode.Length >= 1 && qrcode[0] == size && Packed(qrcode[..], size)
    requires functionModules.Length >= 1 && functionModules[0] == size && Packed(functionModules[..], size)
    requires y < size && 0 <= y * size && (y + 1) * size <= size * size == |g| == |func|
    requires View(functionModules[..], size) == func
    requires View(qrcode[..], size) == PartlyMasked(size, g, func, mask, y * size)
    modifies qrcode
    ensures qrcode[0] == size && Packed(qrcode[..], size)
    ensures View(qrcode[..], size) == PartlyMasked(size, g, func, mask, (y + 1) * size)
  {
    hide View, Packed, EncoderInverts, PartlyMasked, Index, Masked;
    var qrsize: nat := qrcode[0];
    for x := 0 to qrsize
      invariant qrcode[0] == qrsize && Packed(qrcode[..], qrsize)
      invariant Packed(functionModules[..], qrsize) && View(functionModules[..], qrsize) == func
      invariant 0 <= y * qrsize + x <= |g|
      invariant View(qrcode[..], qrsize) == PartlyMasked(size, g, func, mask, y * qrsize + x)
    {
      PartlyMaskedStep(qrsize, g, func, mask, x, y);
      var isFunction := GetModuleBounded(functionModules, x, y);
      var val := GetModuleBounded(qrcode, x, y);
      if !isFunction {
        var invert := EncoderInverts(mask, x, y);
        SetModuleBounded(qrcode, x, y, val != invert);
      }
    }
  }
}
