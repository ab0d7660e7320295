/** The decoder's finite field: tables of powers and logarithms, built once and then only read. */
module JsField {
  import opened Bits
  import opened GF256
  import opened Generator

  class GenericGF {
    const size: nat := 256
    const generatorBase: nat
    const expTable: array<byte>
    const logTable: array<nat>

    ghost predicate Valid()
      reads expTable, logTable
    {
      && expTable.Length == logTable.Length == size
      && (forall i :: 0 <= i < size ==> expTable[i] == Exp(i))
      && (forall a :: 1 <= a < size ==> logTable[a] == Log(a))
    }

    constructor (genBase: nat)
      ensures Valid() && generatorBase == genBase
      ensures fresh(expTable) && fresh(logTable)
    {
      generatorBase := genBase;
      expTable := new byte[256](_ => 0);
      logTable := new nat[256](_ => 0);
      new;
      FillPowers(expTable);
      FillLogarithms(expTable, logTable);
    }

    /** Multiplication by adding logarithms. */
    method Multiply(a: byte, b: byte) returns (r: byte)
      requires Valid()
      ensures r == Mul(a, b)
    {
      hide Mul, Exp, Log;
      MulZero(a);
      MulZero(b);
      if a == 0 || b == 0 {
        return 0;
      }
      ExpAdd(Log(a), Log(b));
      ExpPeriodic(Log(a) + Log(b));
      r := expTable[(logTable[a] + logTable[b]) % (size - 1)];
    }

    method InverseOf(a: byte) returns (r: byte)
      requires Valid() && a != 0
      ensures r == Inverse(a)
    {
      hide Exp, Log;
      r := expTable[size - logTable[a] - 1];
    }

    method LogOf(a: byte) returns (r: nat)
      requires Valid() && a != 0
      ensures r == Log(a)
    {
      r := logTable[a];
    }

    method ExpOf(k: nat) returns (r: byte)
      requires Valid() && k < size
      ensures r == Exp(k)
    {
      r := expTable[k];
    }
  }

  /** The first loop of the field constructor. */
  method FillPowers(expTable: array<byte>)
    requires expTable.Length == 256
    modifies expTable
    ensures forall i :: 0 <= i < 256 ==> expTable[i] == Exp(i)
  {
    hide Exp, Xor;
    var x: byte := 1;
    ExpZero();
    for i := 0 to 256
      invariant x == Exp(i)
      invariant forall j :: 0 <= j < i ==> expTable[j] == Exp(j)
    {
      expTable[i] := x;
      Doubling(i);
      x := if x * 2 >= 256 then Xor(x * 2, PRIMITIVE) % 256 else x * 2;
    }
  }

  /** The second loop: the table is inverse to the first because the powers are all different. */
  method FillLogarithms(expTable: array<byte>, logTable: array<nat>)
    requires expTable.Length == logTable.Length == 256
    requires forall i :: 0 <= i < 256 ==> expTable[i] == Exp(i)
    modifies logTable
    ensures forall a :: 1 <= a < 256 ==> logTable[a] == Log(a)
  {
    hide Exp, Log;
    for i := 0 to 255
      invariant forall j :: 0 <= j < i ==> logTable[Exp(j)] == j
    {
      OtherPowersDiffer(i);
      logTable[expTable[i]] := i;
    }
    forall a: byte | 1 <= a < 256
      ensures logTable[a] == Log(a)
    {
      assert logTable[Exp(Log(a))] == Log(a);
    }
  }

  lemma ExpZero()
    ensures Exp(0) == 1
  {}

  lemma Doubling(i: nat)
    ensures Exp(i + 1) == if Exp(i) * 2 >= 256 then Xor(Exp(i) * 2, PRIMITIVE) % 256 else Exp(i) * 2
  {
    hide Xor;
  }

  lemma OtherPowersDiffer(i: nat)
    requires i < 255
    ensures forall j :: 0 <= j < i ==> Exp(j) != Exp(i)
  {
    forall j | 0 <= j < i
      ensures Exp(j) != Exp(i)
    {
      if Exp(j) == Exp(i) {
        ExpInjective(j, i);
      }
    }
  }
}
