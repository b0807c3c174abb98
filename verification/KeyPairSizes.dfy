/**
  How far the export size bound of RSA key pairs reaches. Its slack absorbs the longer length octets of large
  numbers up to 29826087 bits. Components are numbers in the relations of a key pair; that the factors are
  prime plays no part in their sizes.
*/
module KeyPairSizes {
  import opened BitMasks
  import opened KeySizes

  const MAX_KEY_PAIR_BITS: nat := 29_826_087
  const TWO_24: nat := 0x100_0000

  // ---------------------------------------------------------------- length octets

  function Pow256(k: nat): (p: nat)
    ensures p >= 1
  {
    if k == 0 then 1 else 256 * Pow256(k - 1)
  }

  lemma {:induction false} LengthBytesBound(n: nat, k: nat)
    requires k >= 1
    ensures |LengthBytes(n)| <= k <==> n < Pow256(k)
    decreases k
  {
    if n >= 256 && k > 1 {
      LengthBytesBound(n / 256, k - 1);
    }
  }

  lemma LengthCount(n: nat)
    ensures 0x1_0000 <= n < TWO_24 ==> |Length(n)| == 4
    ensures n < TWO_24 ==> |Length(n)| <= 4
    ensures TWO_24 <= n < 256 * TWO_24 ==> |Length(n)| == 5
  {
    assert Pow256(2) == 0x1_0000 && Pow256(3) == TWO_24 && Pow256(4) == 256 * TWO_24;
    LengthBytesBound(n, 2);
    LengthBytesBound(n, 3);
    LengthBytesBound(n, 4);
  }

  lemma IntegerSize(x: nat)
    ensures BitLen(x) / 8 + 1 < TWO_24 ==> |DerInteger(x)| <= BitLen(x) / 8 + 6
    ensures 0x1_0000 <= BitLen(x) / 8 + 1 < TWO_24 ==> |DerInteger(x)| == BitLen(x) / 8 + 6
  {
    ContentLen(x);
    LengthCount(|Content(x)|);
  }

  lemma ComponentSize(x: nat, below: nat, bits: nat)
    requires x <= below && BitLen(below) <= bits <= MAX_KEY_PAIR_BITS
    ensures |DerInteger(x)| <= bits / 8 + 6
  {
    BitLenMonotone(x, below);
    IntegerSize(x);
  }

  // ---------------------------------------------------------------- up to the limit

  lemma ContentSize(k: KeyPair, bits: nat, half: nat)
    requires k.Valid() && bits == BitLen(k.n) <= MAX_KEY_PAIR_BITS && half == bits / 2 + 1
    ensures |k.Content()| <= 52 + 2 * (bits / 8) + 5 * (half / 8)
  {
    PrimesAreHalf(k);
    ExponentFits(k.e);
    ComponentSize(k.n, k.n, bits);
    ComponentSize(k.d, k.n, bits);
    ComponentSize(k.p, k.p, half);
    ComponentSize(k.q, k.q, half);
    ComponentSize(k.dp, k.p, half);
    ComponentSize(k.dq, k.q, half);
    ComponentSize(k.qInv, k.p, half);
    assert |DerInteger(0)| == 3;
  }

  // The slack of the bound, by the remainder of the size: it is tight for 8 to 13 modulo 16.
  lemma Slack(bits: nat, half: nat, size: nat)
    requires half == bits / 2 + 1 && bits <= MAX_KEY_PAIR_BITS && size <= 52 + 2 * (bits / 8) + 5 * (half / 8)
    ensures size < 256 * TWO_24
    ensures (if size < TWO_24 then 5 else 6) + size <= 9 * (half / 8 + 5) + 14
  {
    var k, r := bits / 16, bits % 16;
    assert bits / 8 == 2 * k + r / 8;
    assert half == 8 * k + r / 2 + 1;
    assert half / 8 == k + (r / 2 + 1) / 8;
  }

  lemma KeyPairFitsUpTo(k: KeyPair)
    requires k.Valid() && BitLen(k.n) <= MAX_KEY_PAIR_BITS
    ensures |DerSequence(k.Content())| <= RsaKeyPairMaxSize(BitLen(k.n))
  {
    var bits := BitLen(k.n);
    ContentSize(k, bits, bits / 2 + 1);
    Slack(bits, bits / 2 + 1, |k.Content()|);
    LengthCount(|k.Content()|);
  }

  // ---------------------------------------------------------------- beyond the limit

  lemma BitLenBetween(x: nat, bits: nat)
    requires bits >= 1 && Pow2(bits - 1) <= x < Pow2(bits)
    ensures BitLen(x) == bits
  {
    BitLenBelow(x, bits);
    BitLenBelow(x, bits - 1);
  }

  lemma {:induction false} Pow2Grows(a: nat, b: nat)
    requires a < b
    ensures 2 * Pow2(a) <= Pow2(b)
    decreases b
  {
    if a < b - 1 {
      Pow2Grows(a, b - 1);
    }
  }

  // The size of a number just below 2^a
  lemma LargeFactor(a: nat, x: nat)
    requires a >= 4 && Pow2(a) - 2 <= x < Pow2(a)
    ensures BitLen(x) == a
  {
    Pow2Grows(2, a);
    assert Pow2(2) == 4 && Pow2(a) == 2 * Pow2(a - 1);
    BitLenBetween(x, a);
  }

  // The size of a number just below 2^2a - 2^a
  lemma LargeProduct(a: nat, x: nat)
    requires a >= 4 && Pow2(a + a) - Pow2(a) - 1 <= x < Pow2(a + a)
    ensures BitLen(x) == a + a
  {
    Pow2Grows(a, a + a - 1);
    assert Pow2(a + a) == 2 * Pow2(a + a - 1);
    BitLenBetween(x, a + a);
  }

  lemma ProductOfFactors(a: nat, p: nat, q: nat)
    requires q == Pow2(a) && p == q - 1
    ensures p * q == Pow2(a + a) - q
  {
    Pow2Add(a, a);
    assert (q - 1) * q == q * q - q;
  }

  // The components of a key pair with these factors, each as large as it can be
  ghost predicate LargeParts(k: KeyPair, a: nat) {
    && a >= 4 && k.q == Pow2(a) && k.p == k.q - 1 >= 1 && k.n == Pow2(a + a) - k.q >= 1
    && k.d == k.n - 1 && k.dp == k.p - 1 && k.dq == k.q - 1 && k.qInv == k.p - 1
  }

  lemma LargePartsExist(a: nat, e: nat) returns (k: KeyPair)
    requires a >= 4
    ensures LargeParts(k, a) && k.e == e
  {
    var q := Pow2(a);
    Pow2Grows(2, a);
    assert Pow2(2) == 4;
    Pow2Grows(a, a + a);
    var n, p := Pow2(a + a) - q, q - 1;
    k := KeyPair(n, e, n - 1, p, q, p - 1, q - 1, p - 1);
  }

  lemma LargePartsAreValid(k: KeyPair, a: nat)
    requires LargeParts(k, a) && BitLen(k.e) <= 32
    ensures k.Valid()
  {
    LargeFactor(a, k.p);
    BitLenBetween(k.q, a + 1);
    ProductOfFactors(a, k.p, k.q);
  }

  const LARGE_BITS: nat := 14_913_044

  lemma FactorOctets(a: nat, x: nat)
    requires a == LARGE_BITS && Pow2(a) - 2 <= x <= Pow2(a)
    ensures |DerInteger(x)| == 1_864_136
  {
    if x < Pow2(a) {
      LargeFactor(a, x);
    } else {
      BitLenBetween(x, a + 1);
    }
    IntegerSize(x);
  }

  lemma ProductOctets(a: nat, x: nat)
    requires a == LARGE_BITS && Pow2(a + a) - Pow2(a) - 1 <= x < Pow2(a + a)
    ensures |DerInteger(x)| == 3_728_267
  {
    LargeProduct(a, x);
    IntegerSize(x);
  }

  lemma LargeContent(k: KeyPair, a: nat)
    requires LargeParts(k, a) && a == LARGE_BITS && |DerInteger(k.e)| == 7
    ensures |k.Content()| == 16_777_224
  {
    ProductOctets(a, k.n);
    ProductOctets(a, k.d);
    FactorOctets(a, k.p);
    FactorOctets(a, k.q);
    FactorOctets(a, k.dp);
    FactorOctets(a, k.dq);
    FactorOctets(a, k.qInv);
    assert |DerInteger(0)| == 3;
  }

  lemma LargeSequence(content: seq<nat>)
    requires |content| == 16_777_224
    ensures |DerSequence(content)| == 16_777_230
  {
    LengthCount(|content|);
  }

  lemma LargeBound()
    ensures RsaKeyPairMaxSize(29_826_088) == 16_777_229
  {
  }

  lemma LargeKeyPair(a: nat) returns (k: KeyPair)
    requires a == LARGE_BITS
    ensures k.Valid() && BitLen(k.n) == MAX_KEY_PAIR_BITS + 1
    ensures |DerSequence(k.Content())| > RsaKeyPairMaxSize(BitLen(k.n))
  {
    var e := LargestInteger(32);
    k := LargePartsExist(a, e);
    LargePartsAreValid(k, a);
    LargeProduct(a, k.n);
    LargeContent(k, a);
    LargeSequence(k.Content());
    LargeBound();
  }

  // ---------------------------------------------------------------- the limit

  ghost predicate Bounded(bits: nat) {
    forall k: KeyPair :: k.Valid() && BitLen(k.n) == bits ==> |DerSequence(k.Content())| <= RsaKeyPairMaxSize(bits)
  }

  /** The bound holds for all key pairs up to a number of bits if and only if that is at most 29826087. */
  lemma KeyPairBoundIsExact(bits: nat)
    ensures (forall b :: 0 <= b <= bits ==> Bounded(b)) <==> bits <= MAX_KEY_PAIR_BITS
  {
    if bits <= MAX_KEY_PAIR_BITS {
      forall b | 0 <= b <= bits ensures Bounded(b) {
        forall k: KeyPair | k.Valid() && BitLen(k.n) == b ensures |DerSequence(k.Content())| <= RsaKeyPairMaxSize(b) {
          KeyPairFitsUpTo(k);
        }
      }
    } else {
      var k := LargeKeyPair(LARGE_BITS);
      assert !Bounded(MAX_KEY_PAIR_BITS + 1);
    }
  }
}
