/** What the word functions of SHA-256 do to each bit (section 4.1.2 of FIPS 180-4). */
module Sha256Laws {
  import opened Sha256Spec

  /** Where `x` has a one, Ch takes `y`; elsewhere it takes `z`. */
  lemma ChChooses(x: bv32, y: bv32, z: bv32)
    ensures x & Ch(x, y, z) == x & y
    ensures !x & Ch(x, y, z) == !x & z
  {}

  /** Where `x` and `y` agree, Maj is what they agree on; elsewhere `z` decides. */
  lemma MajVotes(x: bv32, y: bv32, z: bv32)
    ensures !(x ^ y) & Maj(x, y, z) == !(x ^ y) & x
    ensures (x ^ y) & Maj(x, y, z) == (x ^ y) & z
  {
    MajAgrees(x, y, z);
    MajDecides(x, y, z);
  }

  lemma MajAgrees(x: bv32, y: bv32, z: bv32)
    ensures !(x ^ y) & Maj(x, y, z) == !(x ^ y) & x
  {}

  lemma MajDecides(x: bv32, y: bv32, z: bv32)
    ensures (x ^ y) & Maj(x, y, z) == (x ^ y) & z
  {}


  // Bit i of a sigma is the exclusive or of three named bits of its argument; a shift, unlike a
  // rotation, gives 0 where it runs out of bits.

  lemma BigSigma0Bits(x: bv32, i: bv6)
    requires i < 32
    ensures (BigSigma0(x) >> i) & 1
         == ((x >> ((i + 2) & 31)) & 1) ^ ((x >> ((i + 13) & 31)) & 1) ^ ((x >> ((i + 22) & 31)) & 1)
  {
    assert ((((x >> 2) | (x << 30)) ^ ((x >> 13) | (x << 19)) ^ ((x >> 22) | (x << 10))) >> i) & 1
        == ((x >> ((i + 2) & 31)) & 1) ^ ((x >> ((i + 13) & 31)) & 1) ^ ((x >> ((i + 22) & 31)) & 1);
  }

  lemma BigSigma1Bits(x: bv32, i: bv6)
    requires i < 32
    ensures (BigSigma1(x) >> i) & 1
         == ((x >> ((i + 6) & 31)) & 1) ^ ((x >> ((i + 11) & 31)) & 1) ^ ((x >> ((i + 25) & 31)) & 1)
  {
    assert ((((x >> 6) | (x << 26)) ^ ((x >> 11) | (x << 21)) ^ ((x >> 25) | (x << 7))) >> i) & 1
        == ((x >> ((i + 6) & 31)) & 1) ^ ((x >> ((i + 11) & 31)) & 1) ^ ((x >> ((i + 25) & 31)) & 1);
  }

  lemma SmallSigma0Bits(x: bv32, i: bv6)
    requires i < 32
    ensures (SmallSigma0(x) >> i) & 1
         == ((x >> ((i + 7) & 31)) & 1) ^ ((x >> ((i + 18) & 31)) & 1) ^ (if i + 3 < 32 then (x >> (i + 3)) & 1 else 0)
  {
    assert ((((x >> 7) | (x << 25)) ^ ((x >> 18) | (x << 14)) ^ (x >> 3)) >> i) & 1
        == ((x >> ((i + 7) & 31)) & 1) ^ ((x >> ((i + 18) & 31)) & 1) ^ (if i + 3 < 32 then (x >> (i + 3)) & 1 else 0);
  }

  lemma SmallSigma1Bits(x: bv32, i: bv6)
    requires i < 32
    ensures (SmallSigma1(x) >> i) & 1
         == ((x >> ((i + 17) & 31)) & 1) ^ ((x >> ((i + 19) & 31)) & 1) ^ (if i + 10 < 32 then (x >> (i + 10)) & 1 else 0)
  {
    assert ((((x >> 17) | (x << 15)) ^ ((x >> 19) | (x << 13)) ^ (x >> 10)) >> i) & 1
        == ((x >> ((i + 17) & 31)) & 1) ^ ((x >> ((i + 19) & 31)) & 1) ^ (if i + 10 < 32 then (x >> (i + 10)) & 1 else 0);
  }

  /** A word is stored most significant byte first, and loaded back. */
  lemma LoadStore(p: bv8, q: bv8, r: bv8, s: bv8)
    ensures Store(Load(p, q, r, s)) == [p, q, r, s]
  {}
}
