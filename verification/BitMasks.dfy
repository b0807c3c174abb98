/**
  Bit operations on unsigned masks: `mask & (1 << i)`, `mask |= (1 << i)` and `mask &= ~(1 << i)`.
*/
module BitMasks {

  predicate TestBit(m: nat, i: nat)
    decreases i
  {
    if i == 0 then m % 2 == 1 else TestBit(m / 2, i - 1)
  }

  function SetBit(m: nat, i: nat): nat
    decreases i
  {
    if i == 0 then m - m % 2 + 1 else 2 * SetBit(m / 2, i - 1) + m % 2
  }

  function ClearBit(m: nat, i: nat): nat
    decreases i
  {
    if i == 0 then m - m % 2 else 2 * ClearBit(m / 2, i - 1) + m % 2
  }

  lemma {:induction false} TestSetBit(m: nat, i: nat, j: nat)
    ensures TestBit(SetBit(m, i), j) <==> i == j || TestBit(m, j)
    decreases i
  {
    if i > 0 && j > 0 {
      TestSetBit(m / 2, i - 1, j - 1);
    }
  }

  lemma {:induction false} TestClearBit(m: nat, i: nat, j: nat)
    ensures TestBit(ClearBit(m, i), j) <==> i != j && TestBit(m, j)
    decreases i
  {
    if i > 0 && j > 0 {
      TestClearBit(m / 2, i - 1, j - 1);
    }
  }

  // A mask is zero exactly when no bit of it is set.
  lemma {:induction false} SomeBitSet(m: nat) returns (i: nat)
    requires m != 0
    ensures TestBit(m, i)
  {
    if m % 2 == 1 {
      i := 0;
    } else {
      var k := SomeBitSet(m / 2);
      i := k + 1;
    }
  }

  lemma {:induction false} ZeroHasNoBits(i: nat)
    ensures !TestBit(0, i)
  {
    if i > 0 {
      ZeroHasNoBits(i - 1);
    }
  }

  // Only the low n bits may be set.
  ghost predicate Within(m: nat, n: nat) {
    forall i: nat :: TestBit(m, i) ==> i < n
  }

  function Pow2(k: nat): (p: nat)
    ensures p >= 1
  {
    if k == 0 then 1 else 2 * Pow2(k - 1)
  }

  lemma {:induction false} OnesBits(n: nat, i: nat)
    ensures TestBit(Pow2(n) - 1, i) <==> i < n
    decreases n
  {
    if n == 0 {
      ZeroHasNoBits(i);
    } else if i > 0 {
      OnesBits(n - 1, i - 1);
      assert (Pow2(n) - 1) / 2 == Pow2(n - 1) - 1;
    }
  }

  // The lowest set bit among the first n, or n
  function LowestBit(m: nat, n: nat): (i: nat)
    ensures i <= n && (i < n ==> TestBit(m, i)) && forall j :: 0 <= j < i ==> !TestBit(m, j)
  {
    LowestFrom(m, 0, n)
  }

  function LowestFrom(m: nat, from: nat, n: nat): (i: nat)
    requires from <= n
    ensures from <= i <= n && (i < n ==> TestBit(m, i)) && forall j :: from <= j < i ==> !TestBit(m, j)
    decreases n - from
  {
    if from == n || TestBit(m, from) then from else LowestFrom(m, from + 1, n)
  }

  // How many of the first n bits are set
  function CountBits(m: nat, n: nat): (c: nat)
    ensures c <= n
  {
    if n == 0 then 0 else CountBits(m, n - 1) + if TestBit(m, n - 1) then 1 else 0
  }
}
