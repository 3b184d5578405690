/**
 * lib/ci_ge.c: the two-state burst-loss chain, as a vector filled along the index axis and as a
 * state stepped along the transmission axis. Probabilities are reals; the chain is stated for any
 * draws, and `SeededDraws` are the ones a seed gives.
 */
module GilbertElliott {
  import opened Machine
  import opened Prng

  type Draws = u64 -> u64

  /** ci_ge_params. */
  function Params(loss: real, meanBurst: real): (real, real) {
    var burst := if meanBurst < 1.0 then 1.0 else meanBurst;
    var r := 1.0 / burst;
    if loss <= 0.0 then (0.0, r)
    else if loss >= 1.0 then (1.0, 0.0)
    else
      var p := r * loss / (1.0 - loss);
      (if p > 1.0 then 1.0 else p, r)
  }

  /**
   * Between the extremes: bursts last `burst` transmissions on average (at least one), and the chain
   * spends the fraction `loss` of its time bad, which is p = loss * (p + r). Where that would need a
   * p above 1, it is 1.
   */
  lemma ParamsHitTarget(loss: real, burst: real)
    requires 0.0 < loss < 1.0
    ensures var (p, r) := Params(loss, burst);
            && r * (if burst < 1.0 then 1.0 else burst) == 1.0
            && (r * loss <= 1.0 - loss ==> p == loss * (p + r) && p <= 1.0)
            && (r * loss > 1.0 - loss ==> p == 1.0)
  {
    var b := if burst < 1.0 then 1.0 else burst;
    var r := 1.0 / b;
    var p := r * loss / (1.0 - loss);
    assert r * b == 1.0;
    assert p * (1.0 - loss) == r * loss;
    AboveOne(r * loss, 1.0 - loss);
  }

  lemma AboveOne(x: real, y: real)
    requires y > 0.0
    ensures x / y > 1.0 <==> x > y
  {
    assert x / y * y == x;
    if x / y > 1.0 {
      assert (x / y - 1.0) * y > 0.0;
    } else {
      assert (1.0 - x / y) * y >= 0.0;
    }
  }

  /** ci_ge_threshold: p >= 1 gives the largest 64-bit value, not 2^64. */
  function Threshold(p: real): u64 {
    if p <= 0.0 then 0
    else if p >= 1.0 then 0xFFFF_FFFF_FFFF_FFFF
    else
      ScaledBelow(p);
      (p * 18446744073709551616.0).Floor
  }

  lemma ScaledBelow(p: real)
    requires 0.0 < p < 1.0
    ensures 0.0 < p * 18446744073709551616.0 < 18446744073709551616.0
  {}

  /** Is the chain bad before transmission `i`? It starts good and makes one draw a transmission. */
  predicate Bad(draws: Draws, g2b: u64, b2g: u64, i: nat) {
    if i == 0 then false
    else
      var d := draws((i - 1) % 0x1_0000_0000_0000_0000);
      if Bad(draws, g2b, b2g, i - 1) then d >= b2g else d < g2b
  }

  /** The first `n` drop decisions. */
  function Trajectory(draws: Draws, g2b: u64, b2g: u64, n: nat): seq<bool> {
    seq(n, i requires 0 <= i < n => Bad(draws, g2b, b2g, i))
  }

  /** Each transmission makes its own draw: it starts a burst below the first threshold, and ends one below the second. */
  lemma Transitions(draws: Draws, g2b: u64, b2g: u64, i: u64)
    ensures !Bad(draws, g2b, b2g, 0)
    ensures !Bad(draws, g2b, b2g, i) ==> (Bad(draws, g2b, b2g, i + 1) <==> draws(i) < g2b)
    ensures Bad(draws, g2b, b2g, i) ==> (!Bad(draws, g2b, b2g, i + 1) <==> draws(i) < b2g)
  {}

  /** A longer trajectory extends a shorter one. */
  lemma TrajectoryExtends(draws: Draws, g2b: u64, b2g: u64, n: nat, m: nat)
    requires n <= m
    ensures Trajectory(draws, g2b, b2g, n) <= Trajectory(draws, g2b, b2g, m)
  {
    assert Trajectory(draws, g2b, b2g, m)[..n] == Trajectory(draws, g2b, b2g, n);
  }

  /** ci_ge_fill, into the whole of `vec`. */
  method Fill(draws: Draws, pG2b: real, pB2g: real, vec: array<bool>)
    requires vec.Length < TWO64
    modifies vec
    ensures vec[..] == Trajectory(draws, Threshold(pG2b), Threshold(pB2g), vec.Length)
  {
    var g2b, b2g := Threshold(pG2b), Threshold(pB2g);
    ghost var decisions := Trajectory(draws, g2b, b2g, vec.Length + 1);
    var bad := false;
    for i := 0 to vec.Length
      invariant bad == decisions[i]
      invariant vec[..i] == decisions[..i]
    {
      vec[i] := bad;
      bad := Transition(draws, g2b, b2g, i, bad);
    }
    assert vec[..] == decisions[..vec.Length];
  }

  /** The transition after transmission `i`. */
  method Transition(draws: Draws, g2b: u64, b2g: u64, i: u64, before: bool) returns (bad: bool)
    requires before == Bad(draws, g2b, b2g, i)
    ensures bad == Bad(draws, g2b, b2g, i + 1)
  {
    bad := before;
    var d := draws(i);
    if !bad {
      if d < g2b {
        bad := true;
      }
    } else {
      if d < b2g {
        bad := false;
      }
    }
  }

  /** ci_ge_state_t. */
  class Chain {
    const draws: Draws
    const g2b: u64
    const b2g: u64
    var step: u64
    var bad: bool
    /** Transmissions so far; `step` is this count in 64 bits. */
    ghost var sent: nat

    ghost predicate Valid()
      reads this
    {
      step == sent % 0x1_0000_0000_0000_0000 && bad == Bad(draws, g2b, b2g, sent)
    }

    /** ci_ge_state_init. */
    constructor (draws: Draws, pG2b: real, pB2g: real)
      ensures Valid() && sent == 0
      ensures this.draws == draws && g2b == Threshold(pG2b) && b2g == Threshold(pB2g)
    {
      this.draws := draws;
      g2b, b2g := Threshold(pG2b), Threshold(pB2g);
      step, bad, sent := 0, false, 0;
    }

    /** ci_ge_state_step: call number k answers entry k of the trajectory. */
    method Step() returns (drop: bool)
      requires Valid()
      modifies this
      ensures Valid() && sent == old(sent) + 1
      ensures drop == Bad(draws, g2b, b2g, old(sent))
    {
      drop := bad;
      var d := draws(step);
      step := (step + 1) % 0x1_0000_0000_0000_0000;
      sent := sent + 1;
      if !bad {
        if d < g2b {
          bad := true;
        }
      } else {
        if d < b2g {
          bad := false;
        }
      }
    }
  }

  // ---- extremes

  /** A target loss of 0 or less never drops. */
  lemma {:induction false} NeverDrops(draws: Draws, loss: real, burst: real, i: nat)
    requires loss <= 0.0
    ensures !Bad(draws, Threshold(Params(loss, burst).0), Threshold(Params(loss, burst).1), i)
  {
    if i > 0 {
      NeverDrops(draws, loss, burst, i - 1);
    }
  }

  ghost predicate Injective(draws: Draws) {
    forall i: u64, j: u64 :: draws(i) == draws(j) ==> i == j
  }

  /**
   * A target loss of 1 or more keeps the first transmission, at most one more, and drops every
   * transmission after that: the threshold misses a single draw, and no two indices share it.
   */
  lemma DropsForever(draws: Draws, loss: real, burst: real, i: nat)
    requires loss >= 1.0 && Injective(draws)
    ensures var (p, r) := Params(loss, burst);
            && !Bad(draws, Threshold(p), Threshold(r), 0)
            && (i >= 2 ==> Bad(draws, Threshold(p), Threshold(r), i))
  {
    // two good states in a row need two draws equal to the largest 64-bit value
    assert i >= 2 ==> draws((i - 1) % 0x1_0000_0000_0000_0000) != draws((i - 2) % 0x1_0000_0000_0000_0000);
  }

  /** The draws ci_ge makes for a user seed: the seed is mixed once. */
  function SeededDraws(seed: bv64): Draws {
    DrawsOf(SplitMix64(seed))
  }

  lemma SeededDrawsInjective(seed: bv64)
    ensures Injective(SeededDraws(seed))
  {
    var s := SplitMix64(seed);
    forall i: u64, j: u64 | Draw(s, i) == Draw(s, j)
      ensures i == j
    {
      DrawIsInjective(s, i, j);
    }
  }
}
