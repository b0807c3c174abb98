/**
  The export size bounds of RSA keys, against the DER encodings they bound: INTEGER and length octets
  as in sections 8.1.3 and 8.3 of ITU-T X.690, RSAPublicKey and RSAPrivateKey as in appendices A.1.1
  and A.1.2 of RFC 8017.
*/
module KeySizes {
  import opened BitMasks

  // ---------------------------------------------------------------- numbers of bits

  function BitLen(x: nat): nat { if x == 0 then 0 else 1 + BitLen(x / 2) }

  lemma {:induction false} BitLenBelow(x: nat, k: nat)
    ensures BitLen(x) <= k <==> x < Pow2(k)
    decreases k
  {
    if x > 0 && k > 0 {
      BitLenBelow(x / 2, k - 1);
    }
  }

  lemma BitLenMonotone(x: nat, y: nat)
    requires x <= y
    ensures BitLen(x) <= BitLen(y)
  {
    BitLenBelow(y, BitLen(y));
    BitLenBelow(x, BitLen(y));
  }

  lemma {:induction false} Pow2Add(a: nat, b: nat)
    ensures Pow2(a + b) == Pow2(a) * Pow2(b)
    decreases b
  {
    if b > 0 {
      Pow2Add(a, b - 1);
      assert Pow2(a + b) == 2 * Pow2(a + (b - 1));
      assert Pow2(a) * Pow2(b) == 2 * (Pow2(a) * Pow2(b - 1));
    }
  }

  lemma MulMonotone(a: nat, b: nat, p: nat, q: nat)
    requires a <= p && b <= q
    ensures a * b <= p * q
  {
    assert a * b <= a * q;
    assert a * q <= p * q by { assert p * q - a * q == (p - a) * q; }
  }

  // A product has at most one bit less than its factors together.
  lemma BitLenOfProduct(p: nat, q: nat)
    requires p > 0 && q > 0
    ensures BitLen(p) + BitLen(q) <= BitLen(p * q) + 1
  {
    var a, b := BitLen(p) - 1, BitLen(q) - 1;
    BitLenBelow(p, a);
    BitLenBelow(q, b);
    MulMonotone(Pow2(a), Pow2(b), p, q);
    Pow2Add(a, b);
    BitLenBelow(p * q, a + b);
  }

  // ---------------------------------------------------------------- DER

  // Content octets of a non-negative INTEGER, most significant first
  function Content(x: nat): (c: seq<nat>)
    ensures |c| >= 1 && forall i :: 0 <= i < |c| ==> c[i] < 256
  {
    if x < 128 then [x] else Content(x / 256) + [x % 256]
  }

  function Value(c: seq<nat>): nat {
    if c == [] then 0 else Value(c[..|c| - 1]) * 256 + c[|c| - 1]
  }

  // They denote the number, its sign bit is clear, and no octet is superfluous.
  lemma {:induction false} ContentIsMinimal(x: nat)
    ensures var c := Content(x); Value(c) == x && c[0] < 128 && (|c| > 1 ==> c[0] != 0 || c[1] >= 128)
  {
    var c := Content(x);
    if x < 128 {
      assert c[..0] == [];
    } else {
      ContentIsMinimal(x / 256);
      assert c[..|c| - 1] == Content(x / 256);
    }
  }

  lemma {:induction false} ContentLen(x: nat)
    ensures |Content(x)| == BitLen(x) / 8 + 1
  {
    if x < 128 {
      BitLenBelow(x, 7);
      assert Pow2(7) == 128 by { assert Pow2(3) == 8; }
    } else {
      ContentLen(x / 256);
      BitLenOfQuotient(x);
    }
  }

  lemma OneBitLess(x: nat)
    requires x >= 1
    ensures BitLen(x) == 1 + BitLen(x / 2)
  {
  }

  lemma FourBitsLess(x: nat)
    requires x >= 8
    ensures BitLen(x) == BitLen(x / 16) + 4
  {
    OneBitLess(x);
    OneBitLess(x / 2);
    assert x / 2 / 2 == x / 4;
    OneBitLess(x / 4);
    assert x / 4 / 2 == x / 8;
    OneBitLess(x / 8);
    assert x / 8 / 2 == x / 16;
  }

  lemma SixteenthOfSixteenth(x: nat)
    ensures x / 16 / 16 == x / 256
  {
  }

  lemma BitLenOfQuotient(x: nat)
    requires x >= 128
    ensures BitLen(x) == BitLen(x / 256) + 8
  {
    var y := x / 16;
    FourBitsLess(x);
    FourBitsLess(y);
    SixteenthOfSixteenth(x);
  }

  function LengthBytes(n: nat): (b: seq<nat>)
    ensures |b| >= 1
  {
    if n < 256 then [n] else LengthBytes(n / 256) + [n % 256]
  }

  // Length octets, short or long form
  function Length(n: nat): (l: seq<nat>)
    ensures |l| >= 1
  {
    if n < 128 then [n] else [128 + |LengthBytes(n)|] + LengthBytes(n)
  }

  // The length takes at most three octets exactly when it is below 2^16.
  lemma LengthOctets(n: nat)
    ensures |Length(n)| <= 3 <==> n < 0x1_0000
    ensures n < 128 ==> |Length(n)| == 1
    ensures n >= 256 ==> |Length(n)| >= 3
  {
    if n >= 256 {
      assert LengthBytes(n) == LengthBytes(n / 256) + [n % 256];
      if n >= 0x1_0000 {
        assert LengthBytes(n / 256) == LengthBytes(n / 256 / 256) + [n / 256 % 256];
      }
    }
  }

  function Tlv(tag: nat, content: seq<nat>): seq<nat> { [tag] + Length(|content|) + content }

  function DerInteger(x: nat): seq<nat> { Tlv(0x02, Content(x)) }

  function DerSequence(content: seq<nat>): seq<nat> { Tlv(0x30, content) }

  // ---------------------------------------------------------------- the bounds

  function IntegerMaxSize(bits: nat): nat { bits / 8 + 5 }

  function RsaPublicKeyMaxSize(keyBits: nat): nat { IntegerMaxSize(keyBits) + 11 }

  function RsaKeyPairMaxSize(keyBits: nat): nat { 9 * IntegerMaxSize(keyBits / 2 + 1) + 14 }

  const MAX_INTEGER_BITS: nat := 0x8_0000 - 9

  // The size of an INTEGER whose length takes at most three octets
  lemma IntegerFits(x: nat, bits: nat)
    requires BitLen(x) <= bits && |Content(x)| < 0x1_0000
    ensures |DerInteger(x)| <= IntegerMaxSize(bits)
  {
    ContentLen(x);
    LengthOctets(|Content(x)|);
  }

  lemma AllOnes(bits: nat)
    ensures BitLen(Pow2(bits) - 1) == bits
  {
    BitLenBelow(Pow2(bits) - 1, bits);
    if bits > 0 {
      BitLenBelow(Pow2(bits) - 1, bits - 1);
    }
  }

  /** The bound on an INTEGER of a number of bits holds for every such integer exactly up to 2^19 - 9 bits. */
  lemma IntegerBoundIsExact(bits: nat)
    ensures (forall x: nat :: BitLen(x) <= bits ==> |DerInteger(x)| <= IntegerMaxSize(bits)) <==> bits <= MAX_INTEGER_BITS
  {
    if bits <= MAX_INTEGER_BITS {
      forall x: nat | BitLen(x) <= bits ensures |DerInteger(x)| <= IntegerMaxSize(bits) {
        ContentLen(x);
        IntegerFits(x, bits);
      }
    } else {
      var x := Pow2(bits) - 1;
      AllOnes(bits);
      ContentLen(x);
      LengthOctets(|Content(x)|);
      assert |DerInteger(x)| > IntegerMaxSize(bits);
    }
  }

  // RSAPublicKey ::= SEQUENCE { modulus, publicExponent }
  function PublicKeyContent(n: nat, e: nat): seq<nat> { DerInteger(n) + DerInteger(e) }

  // An exponent below 2^32 takes at most seven octets.
  lemma ExponentFits(e: nat)
    requires BitLen(e) <= 32
    ensures |DerInteger(e)| <= 7
  {
    ContentLen(e);
    LengthOctets(|Content(e)|);
  }

  lemma SequenceFits(content: seq<nat>)
    requires |content| < 0x1_0000
    ensures |DerSequence(content)| <= 4 + |content|
  {
    LengthOctets(|content|);
  }

  /** Every public key with an exponent below 2^32 whose content fits two length octets fits its bound. */
  lemma PublicKeyFits(n: nat, e: nat, keyBits: nat)
    requires BitLen(n) <= keyBits && BitLen(e) <= 32 && |PublicKeyContent(n, e)| < 0x1_0000
    ensures |DerSequence(PublicKeyContent(n, e))| <= RsaPublicKeyMaxSize(keyBits)
  {
    IntegerFits(n, keyBits);
    ExponentFits(e);
    SequenceFits(PublicKeyContent(n, e));
  }

  const MAX_PUBLIC_KEY_BITS: nat := 8 * 65523 + 7

  /** The bound on public keys holds for every key of a number of bits with an exponent below 2^32 exactly up
      to 524191 bits, from where the largest key's content needs three length octets. */
  lemma PublicKeyBoundIsExact(keyBits: nat)
    ensures (forall n: nat, e: nat :: BitLen(n) <= keyBits && BitLen(e) <= 32 ==>
               |DerSequence(PublicKeyContent(n, e))| <= RsaPublicKeyMaxSize(keyBits))
       <==> keyBits <= MAX_PUBLIC_KEY_BITS
  {
    if keyBits <= MAX_PUBLIC_KEY_BITS {
      forall n: nat, e: nat | BitLen(n) <= keyBits && BitLen(e) <= 32
        ensures |DerSequence(PublicKeyContent(n, e))| <= RsaPublicKeyMaxSize(keyBits)
      {
        ContentLen(n);
        IntegerFits(n, keyBits);
        ExponentFits(e);
        PublicKeyFits(n, e, keyBits);
      }
    } else {
      var n, e := LargestKeyExceeds(keyBits);
    }
  }

  lemma LargestKeyExceeds(keyBits: nat) returns (n: nat, e: nat)
    requires keyBits > MAX_PUBLIC_KEY_BITS
    ensures BitLen(n) <= keyBits && BitLen(e) <= 32
    ensures |DerSequence(PublicKeyContent(n, e))| > RsaPublicKeyMaxSize(keyBits)
  {
    n := LargestInteger(keyBits);
    e := LargestInteger(32);
    LengthOctets(|PublicKeyContent(n, e)|);
  }

  lemma LargestInteger(bits: nat) returns (x: nat)
    ensures BitLen(x) == bits
    ensures bits / 8 >= 255 ==> |DerInteger(x)| >= IntegerMaxSize(bits)
    ensures bits / 8 < 127 ==> |DerInteger(x)| == bits / 8 + 3
  {
    AllOnes(bits);
    x := Pow2(bits) - 1;
    ContentLen(x);
    LengthOctets(|Content(x)|);
  }

  datatype KeyPair = KeyPair(n: nat, e: nat, d: nat, p: nat, q: nat, dp: nat, dq: nat, qInv: nat)
  {
    // The relations between the components, and the stated assumptions on exponent and primes
    predicate Valid() {
      && n == p * q && p > 0 && q > 0
      && BitLen(e) <= 32 && BitLen(p) <= BitLen(q) + 1 && BitLen(q) <= BitLen(p) + 1
      && d < n && dp < p && dq < q && qInv < p
    }

    // RSAPrivateKey ::= SEQUENCE { version 0, n, e, d, p, q, d mod p-1, d mod q-1, 1/q mod p }
    function Content(): seq<nat> {
      DerInteger(0) + DerInteger(n) + DerInteger(e) + DerInteger(d) + DerInteger(p) + DerInteger(q)
      + DerInteger(dp) + DerInteger(dq) + DerInteger(qInv)
    }
  }

  // Primes of nearly equal size have at most half the modulus's bits and one.
  lemma PrimesAreHalf(k: KeyPair)
    requires k.Valid()
    ensures BitLen(k.p) <= BitLen(k.n) / 2 + 1 && BitLen(k.q) <= BitLen(k.n) / 2 + 1
  {
    BitLenOfProduct(k.p, k.q);
  }

  lemma ComponentFits(x: nat, below: nat, bits: nat)
    requires x <= below && BitLen(below) <= bits && |Content(x)| < 0x1_0000
    ensures |DerInteger(x)| <= IntegerMaxSize(bits)
  {
    BitLenMonotone(x, below);
    IntegerFits(x, bits);
  }

  /** Every key pair whose primes differ in size by at most a bit, with an exponent below 2^32 and content
      that fits two length octets, fits its bound. */
  lemma KeyPairFits(k: KeyPair)
    requires k.Valid() && |k.Content()| < 0x1_0000
    ensures |DerSequence(k.Content())| <= RsaKeyPairMaxSize(BitLen(k.n))
  {
    var bits := BitLen(k.n);
    var half := bits / 2 + 1;
    PrimesAreHalf(k);
    ComponentFits(k.n, k.n, bits);
    ExponentFits(k.e);
    ComponentFits(k.d, k.n, bits);
    ComponentFits(k.p, k.p, half);
    ComponentFits(k.q, k.q, half);
    ComponentFits(k.dp, k.p, half);
    ComponentFits(k.dq, k.q, half);
    ComponentFits(k.qInv, k.p, half);
    assert |DerInteger(0)| == 3;
    SequenceFits(k.Content());
    assert 2 * IntegerMaxSize(bits) <= 4 * IntegerMaxSize(half);
  }
}
