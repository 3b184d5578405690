/** lib/ci_prng.h: the splitmix64 mixer and the one draw it gives each packet index. */
module Prng {
  import opened Machine
  import opened Words

  // The steps of the mixer, named so that each can be inverted on its own.
  function Gamma(x: bv64): bv64 { x + 0x9E3779B97F4A7C15 }
  function Shift30(x: bv64): bv64 { x ^ (x >> 30) }
  function MulA(x: bv64): bv64 { x * 0xBF58476D1CE4E5B9 }
  function Shift27(x: bv64): bv64 { x ^ (x >> 27) }
  function MulB(x: bv64): bv64 { x * 0x94D049BB133111EB }
  function Shift31(x: bv64): bv64 { x ^ (x >> 31) }

  function SplitMix64(x: bv64): bv64 {
    Shift31(MulB(Shift27(MulA(Shift30(Gamma(x))))))
  }

  function Key(seed: bv64, w: bv64): bv64 { seed ^ w }

  /** The draw for packet `index` under `seed`, as a number. */
  function Draw(seed: bv64, index: u64): u64 {
    Value(SplitMix64(Key(seed, Word(index))))
  }

  function Ungamma(x: bv64): bv64 { x - 0x9E3779B97F4A7C15 }
  function Unshift30(x: bv64): bv64 { x ^ (x >> 30) ^ (x >> 60) }
  function UnmulA(x: bv64): bv64 { x * 0x96DE1B173F119089 }
  function Unshift27(x: bv64): bv64 { x ^ (x >> 27) ^ (x >> 54) }
  function UnmulB(x: bv64): bv64 { x * 0x319642B2D24D8EC3 }
  function Unshift31(x: bv64): bv64 { x ^ (x >> 31) ^ (x >> 62) }

  /** The inverse mixer: the steps undone, last to first. */
  function Unmix(y: bv64): bv64 {
    Ungamma(Unshift30(UnmulA(Unshift27(UnmulB(Unshift31(y))))))
  }

  lemma GammaInverts(x: bv64)
    ensures Ungamma(Gamma(x)) == x
    ensures Gamma(Ungamma(x)) == x
  {
    assert Ungamma(x + 0x9E3779B97F4A7C15) == x;
    assert Gamma(x - 0x9E3779B97F4A7C15) == x;
  }

  lemma Shift30Inverts(x: bv64)
    ensures Unshift30(Shift30(x)) == x
    ensures Shift30(Unshift30(x)) == x
  {
    assert Unshift30(x ^ (x >> 30)) == x;
    assert Shift30(x ^ (x >> 30) ^ (x >> 60)) == x;
  }

  lemma MulAInverts(x: bv64)
    ensures UnmulA(MulA(x)) == x
    ensures MulA(UnmulA(x)) == x
  {
    assert UnmulA(x * 0xBF58476D1CE4E5B9) == x;
    assert MulA(x * 0x96DE1B173F119089) == x;
  }

  lemma Shift27Inverts(x: bv64)
    ensures Unshift27(Shift27(x)) == x
    ensures Shift27(Unshift27(x)) == x
  {
    assert Unshift27(x ^ (x >> 27)) == x;
    assert Shift27(x ^ (x >> 27) ^ (x >> 54)) == x;
  }

  lemma MulBInverts(x: bv64)
    ensures UnmulB(MulB(x)) == x
    ensures MulB(UnmulB(x)) == x
  {
    assert UnmulB(x * 0x94D049BB133111EB) == x;
    assert MulB(x * 0x319642B2D24D8EC3) == x;
  }

  lemma Shift31Inverts(x: bv64)
    ensures Unshift31(Shift31(x)) == x
    ensures Shift31(Unshift31(x)) == x
  {
    assert Unshift31(x ^ (x >> 31)) == x;
    assert Shift31(x ^ (x >> 31) ^ (x >> 62)) == x;
  }

  /** splitmix64 is a bijection of the 64-bit words: it is undone on both sides. */
  lemma SplitMixIsBijective(x: bv64)
    ensures Unmix(SplitMix64(x)) == x
    ensures SplitMix64(Unmix(x)) == x
  {
    UnmixOfMix(x);
    MixOfUnmix(x);
  }

  lemma UnmixOfMix(x: bv64)
    ensures Unmix(SplitMix64(x)) == x
  {
    var a := Gamma(x);
    var b := Shift30(a);
    var c := MulA(b);
    var d := Shift27(c);
    var e := MulB(d);
    GammaInverts(x);
    Shift30Inverts(a);
    MulAInverts(b);
    Shift27Inverts(c);
    MulBInverts(d);
    Shift31Inverts(e);
  }

  lemma MixOfUnmix(y: bv64)
    ensures SplitMix64(Unmix(y)) == y
  {
    var e := Unshift31(y);
    var d := UnmulB(e);
    var c := Unshift27(d);
    var b := UnmulA(c);
    var a := Unshift30(b);
    Shift31Inverts(y);
    MulBInverts(e);
    Shift27Inverts(d);
    MulAInverts(c);
    Shift30Inverts(b);
    GammaInverts(a);
  }

  lemma KeyInverts(seed: bv64, w: bv64)
    ensures Key(seed, Key(seed, w)) == w
  {
    assert Key(seed, seed ^ w) == w;
  }

  /** The one index whose draw under `seed` is `d`. */
  function IndexOf(seed: bv64, d: u64): u64 {
    Value(Key(seed, Unmix(Word(d))))
  }

  /** For each seed, drawing is a bijection of the 64-bit indices: `IndexOf` inverts it on both sides. */
  lemma DrawIsBijective(seed: bv64, n: u64)
    ensures Draw(seed, IndexOf(seed, n)) == n
    ensures IndexOf(seed, Draw(seed, n)) == n
  {
    var u := Unmix(Word(n));
    WordOfValue(Key(seed, u));
    KeyInverts(seed, u);
    MixOfUnmix(Word(n));
    ValueOfWord(n);

    var k := Key(seed, Word(n));
    WordOfValue(SplitMix64(k));
    UnmixOfMix(k);
    KeyInverts(seed, Word(n));
  }

  /** Distinct indices never share a draw. */
  lemma DrawIsInjective(seed: bv64, i: u64, j: u64)
    requires Draw(seed, i) == Draw(seed, j)
    ensures i == j
  {
    DrawIsBijective(seed, i);
    DrawIsBijective(seed, j);
  }

  /** `index` inverts `draw` on both sides. */
  ghost predicate Inverse(draw: u64 -> u64, index: u64 -> u64) {
    && (forall d: u64 :: draw(index(d)) == d)
    && (forall i: u64 :: index(draw(i)) == i)
  }

  ghost function IndicesBelow(draw: u64 -> u64, threshold: nat): set<u64> {
    set i: u64 | draw(i) < threshold
  }

  lemma {:induction false} CountBelow(draw: u64 -> u64, index: u64 -> u64, threshold: nat)
    requires Inverse(draw, index)
    requires threshold <= TWO64
    ensures |IndicesBelow(draw, threshold)| == threshold
  {
    if threshold == 0 {
      assert IndicesBelow(draw, 0) == {};
    } else {
      var t: u64 := threshold - 1;
      CountBelow(draw, index, t);
      assert IndicesBelow(draw, threshold) == IndicesBelow(draw, t) + {index(t)};
    }
  }

  /** All the draws of a seed. */
  function DrawsOf(seed: bv64): u64 -> u64 {
    (i: u64) => Draw(seed, i)
  }

  /** For every seed, exactly `threshold` of the 2^64 indices draw below `threshold`. */
  lemma BelowCount(seed: bv64, threshold: nat)
    requires threshold <= TWO64
    ensures |IndicesBelow(DrawsOf(seed), threshold)| == threshold
  {
    forall n: u64
      ensures Draw(seed, IndexOf(seed, n)) == n && IndexOf(seed, Draw(seed, n)) == n
    {
      DrawIsBijective(seed, n);
    }
    CountBelow(DrawsOf(seed), d => IndexOf(seed, d), threshold);
  }

  // ---- fixed values

  /** The first output of the mixer from state 0. */
  lemma SplitMixVector()
    ensures SplitMix64(0) == 0xE220A8397B1DCDAF
  {
    assert Gamma(0) == 0x9E3779B97F4A7C15;
    assert Shift30(0x9E3779B97F4A7C15) == 0x9E3779B97F4A7C15 ^ (0x9E3779B97F4A7C15 >> 30);
  }

  /** The draw of an index mixes the seed with the word that denotes the index. */
  lemma DrawOfWord(seed: bv64, w: bv64)
    ensures Draw(seed, Value(w)) == Value(SplitMix64(seed ^ w))
  {
    WordOfValue(w);
  }
}
