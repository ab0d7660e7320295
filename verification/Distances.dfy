/** In how many binary digits two numbers differ. */
module Distances {
  import opened Bits

  function Weight(n: nat): nat {
    if n == 0 then 0 else Weight(n / 2) + n % 2
  }

  /** Taking away the lowest bit that is set. */
  lemma {:induction false} LowestBitCleared(n: nat)
    requires n > 0
    ensures Weight(And(n, n - 1)) == Weight(n) - 1 && And(n, n - 1) < n
  {
    hide Weight;
    WeightStep(n);
    if n % 2 == 1 {
      AndSelf(n / 2);
      WeightStep(And(n, n - 1));
      assert (n - 1) / 2 == n / 2;
    } else {
      LowestBitCleared(n / 2);
      WeightStep(And(n, n - 1));
      assert (n - 1) / 2 == n / 2 - 1;
    }
  }

  lemma WeightStep(n: nat)
    ensures Weight(n) == Weight(n / 2) + n % 2
  {}

  lemma {:induction false} AndSelf(n: nat)
    ensures And(n, n) == n
  {
    if n > 0 {
      AndSelf(n / 2);
    }
  }

  /** Number of digits in which x and y differ. */
  function Distance(x: nat, y: nat): nat {
    Weight(Xor(x, y))
  }

  lemma {:induction false} DistanceTriangle(x: nat, y: nat, z: nat)
    ensures Distance(x, z) <= Distance(x, y) + Distance(y, z)
    decreases x + y + z
  {
    hide Weight, Xor;
    XorStep(x, y);
    XorStep(y, z);
    XorStep(x, z);
    WeightStep(Xor(x, y));
    WeightStep(Xor(y, z));
    WeightStep(Xor(x, z));
    if x + y + z > 0 {
      DistanceTriangle(x / 2, y / 2, z / 2);
    } else {
      XorSelf(0);
    }
  }

  lemma DistanceSymmetric(x: nat, y: nat)
    ensures Distance(x, y) == Distance(y, x)
  {
    XorCommutes(x, y);
  }

  method NumBitsDiffering(x: nat, y: nat) returns (bitCount: nat)
    ensures bitCount == Distance(x, y)
  {
    hide Weight, Xor, And;
    var z := Xor(x, y);
    bitCount := 0;
    while z != 0
      invariant bitCount + Weight(z) == Distance(x, y)
      decreases z
    {
      LowestBitCleared(z);
      bitCount := bitCount + 1;
      z := And(z, z - 1);
    }
    WeightOfZero();
  }

  lemma WeightOfZero()
    ensures Weight(0) == 0
  {}

  lemma {:induction false} WeightIsZero(n: nat)
    requires Weight(n) == 0
    ensures n == 0
  {
    if n > 0 {
      WeightIsZero(n / 2);
    }
  }

  lemma DistanceOfOther(x: nat, y: nat)
    requires x != y
    ensures Distance(x, y) > 0
  {
    hide Weight, Xor;
    if Distance(x, y) == 0 {
      WeightIsZero(Xor(x, y));
      XorIsZero(x, y);
    }
  }

  lemma DistanceOfSame(x: nat)
    ensures Distance(x, x) == 0
  {
    XorSelf(x);
  }
}
