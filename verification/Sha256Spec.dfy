/**
 * FIPS 180-4 around the compression function: the padding of section 5.1.1, the parsing of section
 * 5.2.1 and the outer loop of section 6.2.2. Messages are byte sequences, so every length is a
 * multiple of eight bits.
 */
module HashSpec {
  import opened Machine
  import opened Words

  type Block = b: seq<bv8> | |b| == 64 witness seq(64, _ => 0)
  type Digest = d: seq<bv8> | |d| == 32 witness seq(32, _ => 0)

  /** A block hash over hash values `V`: where it starts, one block, and the digest of a hash value. */
  datatype Algorithm<!V> = Algorithm(initial: V, compress: (V, Block) -> V, emit: V -> Digest)

  /** The hash value `v` after the whole 64-byte blocks of `m`, taken in order. */
  function Absorb<V>(compress: (V, Block) -> V, v: V, m: seq<bv8>): V
    decreases |m|
  {
    if |m| < 64 then v else Absorb(compress, compress(v, m[..64]), m[64..])
  }

  /** The number of zero bytes between the 0x80 byte and the length field. */
  function ZeroCount(len: nat): nat {
    (55 - len) % 64
  }

  function Zeros(n: nat): seq<bv8> {
    seq(n, _ => 0)
  }

  /** `n` shifted right by `j` bytes. */
  function ShiftRight(n: nat, j: nat): nat {
    if j == 0 then n else ShiftRight(n / 0x100, j - 1)
  }

  /** The `k` low bytes of `n`, most significant first. */
  function BigEndian(n: nat, k: nat): (s: seq<bv8>)
    ensures |s| == k
  {
    if k == 0 then [] else BigEndian(n / 0x100, k - 1) + [Byte(n % 0x100)]
  }

  /** The bit length of `n` bytes as the 64-bit field keeps it. */
  function BitLength(n: nat): u64 {
    8 * n % 0x1_0000_0000_0000_0000
  }

  lemma BitLengthAdds(n: nat, k: nat)
    ensures BitLength(n + k) == (BitLength(n) + 8 * k) % 0x1_0000_0000_0000_0000
  {
    var q := 8 * n / 0x1_0000_0000_0000_0000;
    assert 8 * n == 0x1_0000_0000_0000_0000 * q + BitLength(n);
    assert 8 * (n + k) == 0x1_0000_0000_0000_0000 * q + (BitLength(n) + 8 * k);
    ModuloShift(q, BitLength(n) + 8 * k);
  }

  lemma ModuloShift(q: nat, x: nat)
    ensures (0x1_0000_0000_0000_0000 * q + x) % 0x1_0000_0000_0000_0000 == x % 0x1_0000_0000_0000_0000
  {}

  /** What padding appends to a message of `len` bytes. */
  function Padding(len: nat): seq<bv8> {
    [0x80] + Zeros(ZeroCount(len)) + BigEndian(BitLength(len), 8)
  }

  /** The digest of `m`. */
  function Hash<V>(alg: Algorithm<V>, m: seq<bv8>): Digest {
    alg.emit(Absorb(alg.compress, alg.initial, m + Padding(|m|)))
  }

  /** The zero count is the smallest k with l + 1 + k = 448 modulo 512, l and k counted in bits. */
  lemma ZeroCountIsSmallest(len: nat, k: nat)
    ensures (8 * len + 1 + (7 + 8 * ZeroCount(len))) % 512 == 448
    ensures k < 7 + 8 * ZeroCount(len) ==> (8 * len + 1 + k) % 512 != 448
  {
    var z := ZeroCount(len);
    assert (len + 1 + z) % 64 == 56;
    var q := (len + 1 + z) / 64;
    assert 8 * len + 1 + (7 + 8 * z) == 512 * q + 448;
    assert z < 64;
  }

  /** After `n` whole blocks and `r` bytes: zeros to byte 56 of this block, or of the next one. */
  lemma ZeroCountOf(n: nat, r: nat)
    requires r < 64
    ensures ZeroCount(64 * n + r) == if r < 56 then 55 - r else 119 - r
  {}

  lemma Regroup4(a: seq<bv8>, b: seq<bv8>, c: seq<bv8>, d: seq<bv8>)
    ensures a + b + c + d == a + (b + c + d)
  {}

  lemma PaddedMessage(m: seq<bv8>, padded: seq<bv8>, head: seq<bv8>, bits: u64)
    requires head == m + [0x80] + Zeros(ZeroCount(|m|))
    requires bits == BitLength(|m|)
    requires padded == head + BigEndian(bits, 8)
    ensures padded == m + Padding(|m|)
  {
    Regroup4(m, [0x80], Zeros(ZeroCount(|m|)), BigEndian(bits, 8));
  }

  /** Absorbing one more block is one more compression. */
  lemma {:induction false} AbsorbBlock<V>(compress: (V, Block) -> V, v: V, m: seq<bv8>, n: nat, block: Block)
    requires |m| == 64 * n
    ensures Absorb(compress, v, m + block) == compress(Absorb(compress, v, m), block)
    decreases n
  {
    if n == 0 {
      assert m + block == block && block[..64] == block && block[64..] == [];
    } else {
      AbsorbBlock(compress, compress(v, m[..64]), m[64..], n - 1, block);
      assert (m + block)[..64] == m[..64];
      assert (m + block)[64..] == m[64..] + block;
    }
  }

  lemma {:induction false} BigEndianAt(n: nat, k: nat, c: nat)
    requires c < k
    ensures BigEndian(n, k)[c] == Byte(ShiftRight(n, k - 1 - c) % 0x100)
  {
    if c < k - 1 {
      BigEndianAt(n / 0x100, k - 1, c);
    }
  }
}

/** The compression function of section 6.2.2, over the word functions it is built from. */
module CompressionSpec {
  import opened HashSpec

  type Octets = s: seq<bv8> | |s| == 4 witness [0, 0, 0, 0]

  /** The operations on words `W` that the compression function uses. */
  datatype Primitives<!W> = Primitives(
    add: (W, W) -> W,
    bigSigma0: W -> W,
    bigSigma1: W -> W,
    smallSigma0: W -> W,
    smallSigma1: W -> W,
    ch: (W, W, W) -> W,
    maj: (W, W, W) -> W,
    k: nat -> W,
    load: (bv8, bv8, bv8, bv8) -> W
  )

  /** The eight words of a hash value, or the eight working variables. */
  datatype Vars<W> = Vars(a: W, b: W, c: W, d: W, e: W, f: W, g: W, h: W)

  /** Word `t` of the message schedule of `block`. */
  function Schedule<W>(p: Primitives<W>, block: Block, t: nat): W {
    if t < 16 then p.load(block[4 * t], block[4 * t + 1], block[4 * t + 2], block[4 * t + 3])
    else
      p.add(p.add(p.add(p.smallSigma1(Schedule(p, block, t - 2)), Schedule(p, block, t - 7)),
                  p.smallSigma0(Schedule(p, block, t - 15))),
            Schedule(p, block, t - 16))
  }

  function Round<W>(p: Primitives<W>, v: Vars<W>, k: W, w: W): Vars<W> {
    var t1 := p.add(p.add(p.add(p.add(v.h, p.bigSigma1(v.e)), p.ch(v.e, v.f, v.g)), k), w);
    var t2 := p.add(p.bigSigma0(v.a), p.maj(v.a, v.b, v.c));
    Vars(p.add(t1, t2), v.a, v.b, v.c, p.add(v.d, t1), v.e, v.f, v.g)
  }

  /** The working variables after the first `t` rounds on `block`. */
  function Rounds<W>(p: Primitives<W>, v: Vars<W>, block: Block, t: nat): Vars<W> {
    if t == 0 then v else Round(p, Rounds(p, v, block, t - 1), p.k(t - 1), Schedule(p, block, t - 1))
  }

  function Add<W>(p: Primitives<W>, x: Vars<W>, y: Vars<W>): Vars<W> {
    Vars(p.add(x.a, y.a), p.add(x.b, y.b), p.add(x.c, y.c), p.add(x.d, y.d),
         p.add(x.e, y.e), p.add(x.f, y.f), p.add(x.g, y.g), p.add(x.h, y.h))
  }

  function Compress<W>(p: Primitives<W>, v: Vars<W>, block: Block): Vars<W> {
    Add(p, v, Rounds(p, v, block, 64))
  }

  /** `compress` is the compression function over these primitives. */
  ghost predicate Compresses<W(!new)>(p: Primitives<W>, compress: (Vars<W>, Block) -> Vars<W>) {
    forall v: Vars<W>, block: Block {:trigger Compress(p, v, block)} :: compress(v, block) == Compress(p, v, block)
  }
}

/** SHA-256: the word functions of section 4.1.2, the constants of 4.2.2 and the initial value of 5.3.3. */
module Sha256Spec {
  import opened HashSpec
  import opened CompressionSpec

  /** The round constants, eight a row. */
  const K: seq<seq<bv32>> := [
    [0x428a2f98, 0x71374491, 0xb5c0fbcf, 0xe9b5dba5, 0x3956c25b, 0x59f111f1, 0x923f82a4, 0xab1c5ed5],
    [0xd807aa98, 0x12835b01, 0x243185be, 0x550c7dc3, 0x72be5d74, 0x80deb1fe, 0x9bdc06a7, 0xc19bf174],
    [0xe49b69c1, 0xefbe4786, 0x0fc19dc6, 0x240ca1cc, 0x2de92c6f, 0x4a7484aa, 0x5cb0a9dc, 0x76f988da],
    [0x983e5152, 0xa831c66d, 0xb00327c8, 0xbf597fc7, 0xc6e00bf3, 0xd5a79147, 0x06ca6351, 0x14292967],
    [0x27b70a85, 0x2e1b2138, 0x4d2c6dfc, 0x53380d13, 0x650a7354, 0x766a0abb, 0x81c2c92e, 0x92722c85],
    [0xa2bfe8a1, 0xa81a664b, 0xc24b8b70, 0xc76c51a3, 0xd192e819, 0xd6990624, 0xf40e3585, 0x106aa070],
    [0x19a4c116, 0x1e376c08, 0x2748774c, 0x34b0bcb5, 0x391c0cb3, 0x4ed8aa4a, 0x5b9cca4f, 0x682e6ff3],
    [0x748f82ee, 0x78a5636f, 0x84c87814, 0x8cc70208, 0x90befffa, 0xa4506ceb, 0xbef9a3f7, 0xc67178f2]]

  function RoundConstant(t: nat): bv32 {
    if t < 64 then K[t / 8][t % 8] else 0
  }

  function Ch(x: bv32, y: bv32, z: bv32): bv32 { (x & y) ^ (!x & z) }
  function Maj(x: bv32, y: bv32, z: bv32): bv32 { (x & y) ^ (x & z) ^ (y & z) }
  function BigSigma0(x: bv32): bv32 { ((x >> 2) | (x << 30)) ^ ((x >> 13) | (x << 19)) ^ ((x >> 22) | (x << 10)) }
  function BigSigma1(x: bv32): bv32 { ((x >> 6) | (x << 26)) ^ ((x >> 11) | (x << 21)) ^ ((x >> 25) | (x << 7)) }
  function SmallSigma0(x: bv32): bv32 { ((x >> 7) | (x << 25)) ^ ((x >> 18) | (x << 14)) ^ (x >> 3) }
  function SmallSigma1(x: bv32): bv32 { ((x >> 17) | (x << 15)) ^ ((x >> 19) | (x << 13)) ^ (x >> 10) }

  function Load(p: bv8, q: bv8, r: bv8, s: bv8): bv32 {
    ((p as bv32) << 24) | ((q as bv32) << 16) | ((r as bv32) << 8) | (s as bv32)
  }

  function Store(w: bv32): Octets {
    [((w >> 24) & 0xFF) as bv8, ((w >> 16) & 0xFF) as bv8, ((w >> 8) & 0xFF) as bv8, (w & 0xFF) as bv8]
  }

  const FIPS: Primitives<bv32> := Primitives(
    (x: bv32, y: bv32) => x + y, BigSigma0, BigSigma1, SmallSigma0, SmallSigma1, Ch, Maj,
    RoundConstant, Load)

  const INITIAL: Vars<bv32> :=
    Vars(0x6a09e667, 0xbb67ae85, 0x3c6ef372, 0xa54ff53a, 0x510e527f, 0x9b05688c, 0x1f83d9ab, 0x5be0cd19)

  function EndToEnd(a: Octets, b: Octets, c: Octets, d: Octets, e: Octets, f: Octets, g: Octets, h: Octets): Digest {
    a + b + c + d + e + f + g + h
  }

  function Emit(v: Vars<bv32>): Digest {
    EndToEnd(Store(v.a), Store(v.b), Store(v.c), Store(v.d), Store(v.e), Store(v.f), Store(v.g), Store(v.h))
  }

  const SHA256: Algorithm<Vars<bv32>> :=
    Algorithm(INITIAL, (v: Vars<bv32>, block: Block) => Compress(FIPS, v, block), Emit)

  /** SHA-256 of a message. */
  function Sha256(m: seq<bv8>): Digest {
    Hash(SHA256, m)
  }
}
