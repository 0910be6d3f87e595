/** The 64-bit hash behind rendezvous ranking and lease node ids. Words are natural
    numbers below 2^64; exclusive-or, shifts and wrapping products are written out. */
module Mixer {

  const WORDS: nat := 0x1_0000_0000_0000_0000

  type Word = n: nat | n < WORDS
  type Byte = n: nat | n < 0x100
  type Bytes = seq<Byte>

  // ------------------------------------------------------------ bits of words

  function Xor(a: nat, b: nat): nat {
    if a == 0 && b == 0 then 0 else 2 * Xor(a / 2, b / 2) + (a + b) % 2
  }

  function Shr(a: nat, n: nat): nat {
    if n == 0 then a else Shr(a / 2, n - 1)
  }

  function Pow2(n: nat): (p: nat)
    ensures p > 0
  {
    if n == 0 then 1 else 2 * Pow2(n - 1)
  }

  lemma {:induction false} XorBounded(a: nat, b: nat, n: nat)
    requires a < Pow2(n) && b < Pow2(n)
    ensures Xor(a, b) < Pow2(n)
  {
    if n > 0 {
      XorBounded(a / 2, b / 2, n - 1);
    }
  }

  lemma {:induction false} XorSymmetric(a: nat, b: nat)
    ensures Xor(a, b) == Xor(b, a)
  {
    if a != 0 || b != 0 {
      XorSymmetric(a / 2, b / 2);
    }
  }

  /** Exclusive-or works bit by bit. */
  lemma XorHalves(a: nat, b: nat)
    ensures Xor(a, b) / 2 == Xor(a / 2, b / 2) && Xor(a, b) % 2 == (a + b) % 2
  {
  }

  lemma ParityCancels(a: nat, b: nat, x: nat)
    requires x % 2 == (a + b) % 2
    ensures (x + b) % 2 == a % 2
  {
  }

  lemma SameHalves(a: nat, b: nat)
    requires a / 2 == b / 2 && a % 2 == b % 2
    ensures a == b
  {
  }

  lemma {:induction false} XorCancels(a: nat, b: nat)
    ensures Xor(Xor(a, b), b) == a
  {
    if a != 0 || b != 0 {
      XorHalves(a, b);
      XorHalves(Xor(a, b), b);
      XorCancels(a / 2, b / 2);
      ParityCancels(a, b, Xor(a, b));
      SameHalves(a, Xor(Xor(a, b), b));
    }
  }

  lemma {:induction false} ShrOfXor(a: nat, b: nat, n: nat)
    ensures Shr(Xor(a, b), n) == Xor(Shr(a, n), Shr(b, n))
  {
    if n > 0 {
      assert Xor(a, b) / 2 == Xor(a / 2, b / 2);
      ShrOfXor(a / 2, b / 2, n - 1);
    }
  }

  lemma {:induction false} ShrTwice(a: nat, m: nat, n: nat)
    ensures Shr(Shr(a, m), n) == Shr(a, m + n)
  {
    if m > 0 {
      ShrTwice(a / 2, m - 1, n);
    }
  }

  lemma {:induction false} ShrShrinks(a: nat, n: nat, bits: nat)
    requires a < Pow2(bits)
    ensures Shr(a, n) <= a && Shr(a, n) < Pow2(bits)
    ensures n >= bits ==> Shr(a, n) == 0
  {
    if n > 0 {
      if bits > 0 {
        ShrShrinks(a / 2, n - 1, bits - 1);
      } else {
        ShrShrinks(0, n - 1, 0);
      }
    }
  }

  lemma Doubled(q: nat, p: nat)
    ensures q * (2 * p) == 2 * (q * p)
  {
  }

  /** Shifting is division by a power of two. */
  lemma {:induction false} ShrDivides(a: nat, n: nat)
    ensures Shr(a, n) * Pow2(n) <= a < (Shr(a, n) + 1) * Pow2(n)
  {
    if n > 0 {
      ShrDivides(a / 2, n - 1);
      Doubled(Shr(a, n), Pow2(n - 1));
      Doubled(Shr(a, n) + 1, Pow2(n - 1));
    }
  }

  lemma Pow2EightMore(n: nat)
    ensures Pow2(n + 8) == 0x100 * Pow2(n)
  {
    assert Pow2(n + 2) == 4 * Pow2(n);
    assert Pow2(n + 4) == 16 * Pow2(n);
    assert Pow2(n + 6) == 64 * Pow2(n);
  }

  lemma WordBits()
    ensures Pow2(64) == WORDS && Pow2(8) == 0x100
  {
    Pow2EightMore(0);
    Pow2EightMore(8);
    Pow2EightMore(16);
    Pow2EightMore(24);
    Pow2EightMore(32);
    Pow2EightMore(40);
    Pow2EightMore(48);
    Pow2EightMore(56);
  }

  function XorWord(a: Word, b: Word): Word {
    WordBits();
    XorBounded(a, b, 64);
    Xor(a, b)
  }

  function WrappingMul(a: Word, b: Word): Word {
    (a * b) % WORDS
  }

  // -------------------------------------------------------------------- mixer

  const FNV_OFFSET: Word := 0xcbf29ce484222325
  const FNV_PRIME: Word := 0x100000001b3
  const MIX_1: Word := 0xff51afd7ed558ccd
  const MIX_2: Word := 0xc4ceb9fe1a85ec53

  /** Inverses of the odd multipliers modulo 2^64. */
  const MIX_1_INV: Word := 0x4f74430c22a54005
  const MIX_2_INV: Word := 0x9cb4b2f8129337db

  function FnvHash(bytes: Bytes): Word {
    if bytes == [] then FNV_OFFSET
    else WrappingMul(XorWord(FnvHash(bytes[..|bytes| - 1]), bytes[|bytes| - 1]), FNV_PRIME)
  }

  method Fnv1a(bytes: Bytes) returns (hash: Word)
    ensures hash == FnvHash(bytes)
  {
    hash := FNV_OFFSET;
    for i := 0 to |bytes|
      invariant hash == FnvHash(bytes[..i])
    {
      assert bytes[..i + 1][..i] == bytes[..i];
      hash := XorWord(hash, bytes[i]);
      hash := WrappingMul(hash, FNV_PRIME);
    }
    assert bytes[..|bytes|] == bytes;
  }

  /** `k ^ (k >> 33)`. */
  function XorShift(k: Word): Word {
    WordBits();
    ShrShrinks(k, 33, 64);
    XorWord(k, Shr(k, 33))
  }

  function Mixed(k: Word): Word {
    XorShift(WrappingMul(XorShift(WrappingMul(XorShift(k), MIX_1)), MIX_2))
  }

  function Unmixed(k: Word): Word {
    XorShift(WrappingMul(XorShift(WrappingMul(XorShift(k), MIX_2_INV)), MIX_1_INV))
  }

  method Fmix64(key: Word) returns (k: Word)
    ensures k == Mixed(key)
  {
    k := key;
    k := XorShift(k);
    k := WrappingMul(k, MIX_1);
    k := XorShift(k);
    k := WrappingMul(k, MIX_2);
    k := XorShift(k);
  }

  /** Shifting by more than half the width makes the xor-shift its own inverse. */
  lemma XorShiftInvolution(k: Word)
    ensures XorShift(XorShift(k)) == k
  {
    WordBits();
    var s := Shr(k, 33);
    ShrShrinks(k, 33, 64);
    ShrOfXor(k, s, 33);
    ShrTwice(k, 33, 33);
    ShrShrinks(k, 66, 64);
    XorCancels(s, 0);
    XorCancels(k, s);
    XorSymmetric(s, 0);
    XorZero(s);
  }

  lemma {:induction false} XorZero(a: nat)
    ensures Xor(a, 0) == a
  {
    if a != 0 {
      XorZero(a / 2);
    }
  }

  lemma MultipleVanishes(k: Word, z: int)
    ensures (k + WORDS * z) % WORDS == k
  {
  }

  /** Products with a constant and with its inverse cancel. */
  lemma InverseCancels(k: Word, c: Word, inverse: Word, turns: nat)
    requires c * inverse == 1 + turns * WORDS
    ensures WrappingMul(WrappingMul(k, c), inverse) == k
  {
    var q := k * c / WORDS;
    var r := k * c - q * WORDS;
    assert WrappingMul(k, c) == r;
    assert r * inverse == k + WORDS * (k * turns - q * inverse) by {
      assert (k * c) * inverse == k * (c * inverse);
      assert k * (1 + turns * WORDS) == k + WORDS * (k * turns);
      assert (q * WORDS) * inverse == WORDS * (q * inverse);
    }
    MultipleVanishes(k, k * turns - q * inverse);
  }

  /** The mixer is a bijection on words, with an explicit inverse. */
  lemma MixerIsBijective(k: Word)
    ensures Unmixed(Mixed(k)) == k && Mixed(Unmixed(k)) == k
  {
    MixInversesCancel(XorShift(k));
    var a := XorShift(WrappingMul(XorShift(k), MIX_1));
    MixInversesCancel(a);
    XorShiftInvolution(k);
    XorShiftInvolution(WrappingMul(XorShift(k), MIX_1));
    XorShiftInvolution(WrappingMul(a, MIX_2));
    var b := XorShift(WrappingMul(XorShift(k), MIX_2_INV));
    MixInversesCancel(b);
    XorShiftInvolution(WrappingMul(XorShift(k), MIX_2_INV));
    XorShiftInvolution(WrappingMul(b, MIX_1_INV));
  }

  lemma MixInversesCancel(k: Word)
    ensures WrappingMul(WrappingMul(k, MIX_1), MIX_1_INV) == k && WrappingMul(WrappingMul(k, MIX_1_INV), MIX_1) == k
    ensures WrappingMul(WrappingMul(k, MIX_2), MIX_2_INV) == k && WrappingMul(WrappingMul(k, MIX_2_INV), MIX_2) == k
  {
    InverseCancels(k, MIX_1, MIX_1_INV, (MIX_1 * MIX_1_INV - 1) / WORDS);
    InverseCancels(k, MIX_1_INV, MIX_1, (MIX_1 * MIX_1_INV - 1) / WORDS);
    InverseCancels(k, MIX_2, MIX_2_INV, (MIX_2 * MIX_2_INV - 1) / WORDS);
    InverseCancels(k, MIX_2_INV, MIX_2, (MIX_2 * MIX_2_INV - 1) / WORDS);
  }

  lemma ParityAdds(u: nat, v: nat)
    ensures (u + v) % 2 == (u % 2 + v % 2) % 2
  {
  }

  /** Bit `i` of an exclusive-or is the parity of the two bits there. */
  lemma XorIsBitwise(a: nat, b: nat, i: nat)
    ensures Shr(Xor(a, b), i) % 2 == (Shr(a, i) % 2 + Shr(b, i) % 2) % 2
  {
    var u, v := Shr(a, i), Shr(b, i);
    ShrOfXor(a, b, i);
    assert Xor(u, v) % 2 == (u + v) % 2 by {
      XorHalves(u, v);
    }
    ParityAdds(u, v);
  }

  lemma PowerOfThirtyThree()
    ensures Pow2(33) == 0x2_0000_0000
  {
    Pow2EightMore(0);
    Pow2EightMore(8);
    Pow2EightMore(16);
    Pow2EightMore(24);
    assert Pow2(33) == 2 * Pow2(32);
  }

  lemma QuotientIsUnique(k: nat, q: nat)
    requires q * 0x2_0000_0000 <= k < (q + 1) * 0x2_0000_0000
    ensures k / 0x2_0000_0000 == q
  {
  }

  /** The xor-shift is by thirty-three bits: it adds in the quotient by 2^33. */
  lemma XorShiftIsByThirtyThree(k: Word)
    ensures XorShift(k) == Xor(k, k / 0x2_0000_0000)
  {
    ShrDivides(k, 33);
    PowerOfThirtyThree();
    QuotientIsUnique(k, Shr(k, 33));
  }

  /** The mixer, told by its numbers alone. */
  lemma MixerByNumbers(k: Word)
    ensures var a := Xor(k, k / 0x2_0000_0000) * 0xff51afd7ed558ccd % 0x1_0000_0000_0000_0000;
            var b := Xor(a, a / 0x2_0000_0000) * 0xc4ceb9fe1a85ec53 % 0x1_0000_0000_0000_0000;
            Mixed(k) == Xor(b, b / 0x2_0000_0000)
  {
    var a := WrappingMul(XorShift(k), MIX_1);
    XorShiftIsByThirtyThree(k);
    XorShiftIsByThirtyThree(a);
    XorShiftIsByThirtyThree(WrappingMul(XorShift(a), MIX_2));
  }

  /** FNV-1a of nothing is the published basis; a first byte is folded in before the product
      with the published prime. */
  lemma FnvOfOneByte(x: Byte)
    ensures FnvHash([]) == 0xcbf29ce484222325
    ensures FnvHash([x]) == WrappingMul(XorWord(0xcbf29ce484222325, x), 0x100000001b3)
  {
    assert [x][..0] == [];
  }

  /** Bytes are folded in one after the other. */
  lemma FnvOfOneMore(bytes: Bytes, x: Byte)
    ensures FnvHash(bytes + [x]) == WrappingMul(XorWord(FnvHash(bytes), x), 0x100000001b3)
  {
    assert (bytes + [x])[..|bytes|] == bytes;
  }

  // -------------------------------------------------------------------- scores

  /** A key and a node combined into one word. */
  function CombinedHash(key: Bytes, node: Bytes): Word {
    Mixed(XorWord(WrappingMul(FnvHash(key), FNV_PRIME), FnvHash(node)))
  }

  /** The id that the lease group derives from a node's bytes. */
  function StableHash(bytes: Bytes): Word {
    Mixed(FnvHash(bytes))
  }

  method ComputeStableHash(bytes: Bytes) returns (hash: Word)
    ensures hash == StableHash(bytes)
  {
    hash := FNV_OFFSET;
    for i := 0 to |bytes|
      invariant hash == FnvHash(bytes[..i])
    {
      assert bytes[..i + 1][..i] == bytes[..i];
      hash := XorWord(hash, bytes[i]);
      hash := WrappingMul(hash, FNV_PRIME);
    }
    assert bytes[..|bytes|] == bytes;
    hash := XorShift(hash);
    hash := WrappingMul(hash, MIX_1);
    hash := XorShift(hash);
    hash := WrappingMul(hash, MIX_2);
    hash := XorShift(hash);
  }

  /** Two nodes score alike for a key exactly when their FNV-1a hashes are equal — so a tie
      for one key is a tie for every key. */
  lemma TieIffHashesEqual(key: Bytes, a: Bytes, b: Bytes)
    ensures CombinedHash(key, a) == CombinedHash(key, b) <==> FnvHash(a) == FnvHash(b)
  {
    var h := WrappingMul(FnvHash(key), FNV_PRIME);
    MixerIsBijective(XorWord(h, FnvHash(a)));
    MixerIsBijective(XorWord(h, FnvHash(b)));
    XorSymmetric(h, FnvHash(a));
    XorSymmetric(h, FnvHash(b));
    XorCancels(FnvHash(a), h);
    XorCancels(FnvHash(b), h);
  }

  const FNV_PRIME_INV: Word := 0xce965057aff6957b

  /** Keys tell nodes apart as well as nodes tell keys apart: for a node, two keys combine
      alike exactly when their FNV-1a hashes are equal. */
  lemma KeysCombineAlikeIff(key: Bytes, other: Bytes, node: Bytes)
    ensures CombinedHash(key, node) == CombinedHash(other, node) <==> FnvHash(key) == FnvHash(other)
  {
    var h, h', n := WrappingMul(FnvHash(key), FNV_PRIME), WrappingMul(FnvHash(other), FNV_PRIME), FnvHash(node);
    MixerIsBijective(XorWord(h, n));
    MixerIsBijective(XorWord(h', n));
    XorCancels(h, n);
    XorCancels(h', n);
    PrimeInverseCancels(FnvHash(key));
    PrimeInverseCancels(FnvHash(other));
  }

  lemma PrimeInverseCancels(k: Word)
    ensures WrappingMul(WrappingMul(k, FNV_PRIME), FNV_PRIME_INV) == k
  {
    InverseCancels(k, FNV_PRIME, FNV_PRIME_INV, (FNV_PRIME * FNV_PRIME_INV - 1) / WORDS);
  }

  /** The two hashes meet unmixed: the key's with a zero byte hashed after it, and the node's. */
  lemma CombinedUnmixed(key: Bytes, node: Bytes)
    ensures Unmixed(CombinedHash(key, node)) == XorWord(FnvHash(key + [0]), FnvHash(node))
    ensures Unmixed(StableHash(node)) == FnvHash(node)
  {
    FnvOfOneMore(key, 0);
    XorZero(FnvHash(key));
    MixerIsBijective(XorWord(WrappingMul(FnvHash(key), FNV_PRIME), FnvHash(node)));
    MixerIsBijective(FnvHash(node));
  }

  /** Lease node ids collide exactly when the FNV-1a hashes do, hence exactly when the nodes
      tie for some key. */
  lemma LeaseIdsCollideIffNodesTie(key: Bytes, a: Bytes, b: Bytes)
    ensures StableHash(a) == StableHash(b) <==> FnvHash(a) == FnvHash(b)
    ensures StableHash(a) == StableHash(b) <==> CombinedHash(key, a) == CombinedHash(key, b)
  {
    MixerIsBijective(FnvHash(a));
    MixerIsBijective(FnvHash(b));
    TieIffHashesEqual(key, a, b);
  }
}
