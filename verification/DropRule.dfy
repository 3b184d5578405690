/** lib/ci_rdp.c, lib/ci_dtp.c and lib/ci_rule.c: what a frame is, which frames a rule means, and what it decides. */
module DropRule {
  import opened Machine
  import opened Prng

  const DTP_DATA_PORT: u16 := 8

  /** Is the bit with value `bit` (a power of two) set in `x`? */
  predicate HasBit(x: u8, bit: nat)
    requires bit > 0
  {
    x / bit % 2 == 1
  }

  /** A CSP frame as the injectors and the monitor see it. */
  datatype Frame = Frame(src: u16, dport: u16, flags: u8, data: seq<u8>) {
    predicate IsRdp() {
      HasBit(flags, 0x02)
    }
  }

  datatype RdpHeader = RdpHeader(flags: u8, seq16: u16, ack: u16)

  /** ci_rdp_parse_trailer: the last five bytes, numbers most significant byte first. */
  function ParseTrailer(data: seq<u8>): Option<RdpHeader> {
    if |data| < 5 then None
    else
      var t := data[|data| - 5..];
      Some(RdpHeader(t[0] % 0x10, 0x100 * (t[1] as int) + t[2], 0x100 * (t[3] as int) + t[4]))
  }

  /** ci_dtp_parse_offset: the first four bytes, least significant first. */
  function ParseOffset(data: seq<u8>): Option<u32> {
    if |data| < 4 then None
    else Some(data[0] as int + 0x100 * (data[1] as int) + 0x1_0000 * (data[2] as int) + 0x100_0000 * (data[3] as int))
  }

  /** How often `d` goes into `n`. */
  function Quotient(n: nat, d: nat): (q: nat)
    requires d > 0
    ensures q <= n
  {
    if n < d then 0 else 1 + Quotient(n - d, d)
  }

  lemma {:induction false} QuotientIsDivision(n: nat, d: nat)
    requires d > 0
    ensures Quotient(n, d) == n / d
  {
    if n >= d {
      QuotientIsDivision(n - d, d);
      assert n == (n - d) / d * d + (n - d) % d + d;
      DivisionIs(n, d, (n - d) / d + 1, (n - d) % d);
    }
  }

  /** ci_dtp_fragment_index_ovh, 0 where the callers keep their 0. */
  function Fragment(data: seq<u8>, mtu: u16, overhead: u16): u32 {
    match ParseOffset(data)
    case None => 0
    case Some(off) =>
      if mtu <= overhead then 0 else Quotient(off, mtu - overhead)
  }

  /** The four bytes of an offset, low byte first. */
  function OffsetBytes(off: u32): seq<u8> {
    [off % 0x100, off / 0x100 % 0x100, off / 0x1_0000 % 0x100, off / 0x100_0000]
  }

  lemma OffsetReadBack(off: u32, rest: seq<u8>)
    ensures ParseOffset(OffsetBytes(off) + rest) == Some(off)
  {
    FourBytes(off);
  }

  lemma FourBytes(n: u32)
    ensures n == n % 0x100 + 0x100 * (n / 0x100 % 0x100) + 0x1_0000 * (n / 0x1_0000 % 0x100) + 0x100_0000 * (n / 0x100_0000)
  {
    var a, b, c := n / 0x100, n / 0x1_0000, n / 0x100_0000;
    assert n == 0x100 * a + n % 0x100;
    assert a == 0x100 * b + a % 0x100;
    assert b == 0x100 * c + b % 0x100;
  }

  /**
   * The fragment index of a payload that starts with a byte offset is that offset divided by the
   * payload of a fragment; it is 0 where there is no offset or no room for a payload.
   */
  lemma FragmentOfOffset(off: u32, rest: seq<u8>, mtu: u16, overhead: u16)
    ensures mtu > overhead ==> Fragment(OffsetBytes(off) + rest, mtu, overhead) == off / (mtu - overhead)
    ensures mtu <= overhead ==> Fragment(OffsetBytes(off) + rest, mtu, overhead) == 0
    ensures |rest| < 4 ==> Fragment(rest, mtu, overhead) == 0
  {
    OffsetReadBack(off, rest);
    if mtu > overhead {
      QuotientIsDivision(off, mtu - overhead);
    }
  }

  /** The fragments of a transfer, each `mtu - overhead` bytes further on, are numbered 0, 1, 2 and so on. */
  lemma FragmentsNumbered(k: nat, rest: seq<u8>, mtu: u16, overhead: u16)
    requires mtu > overhead && k * (mtu - overhead) < 0x1_0000_0000
    ensures Fragment(OffsetBytes(k * (mtu - overhead)) + rest, mtu, overhead) == k
  {
    FragmentOfOffset(k * (mtu - overhead), rest, mtu, overhead);
    DivisionIs(k * (mtu - overhead), mtu - overhead, k, 0);
  }

  /** The RDP header is the last five bytes, whatever comes before: flags, sequence and ACK number, high bytes first. */
  lemma TrailerReadBack(payload: seq<u8>, flags: u8, hi: u8, lo: u8, ackHi: u8, ackLo: u8)
    ensures ParseTrailer(payload + [flags, hi, lo, ackHi, ackLo])
         == Some(RdpHeader(flags % 16, 256 * (hi as int) + lo, 256 * (ackHi as int) + ackLo))
    ensures |payload| < 5 ==> ParseTrailer(payload).None?
  {
    var data := payload + [flags, hi, lo, ackHi, ackLo];
    assert data[|data| - 5..] == [flags, hi, lo, ackHi, ackLo];
  }

  // ---- the rule

  /** ci_drop_rule_t; `draws` are the draws of the rule's seed. A negative port means any. */
  datatype Rule = Rule(draws: u64 -> u64, matchDport: int, matchRdpSyn: bool, probability: real, replay: Option<seq<bool>>)

  /** The rule of a seed and a probability, without a replay vector. */
  function SeededRule(seed: bv64, matchDport: int, matchRdpSyn: bool, probability: real): Rule {
    Rule(DrawsOf(seed), matchDport, matchRdpSyn, probability, None)
  }

  function RdpFlags(f: Frame): u8 {
    if !f.IsRdp() then 0
    else match ParseTrailer(f.data) case None => 0 case Some(h) => h.flags
  }

  /** ci_rule_match. */
  predicate InScope(r: Rule, f: Frame) {
    && (r.matchDport >= 0 ==> f.dport == r.matchDport % 0x1_0000)
    && (r.matchRdpSyn ==> f.IsRdp() && HasBit(RdpFlags(f), 0x08))
  }

  /** ci_rule_decide: one draw an index, or the recorded vector. */
  predicate Decide(r: Rule, index: u64) {
    match r.replay
    case Some(v) => index < |v| && v[index]
    case None =>
      if r.probability <= 0.0 then false
      else if r.probability >= 1.0 then true
      else r.draws(index) < (r.probability * 18446744073709551616.0).Floor
  }

  ghost function DropSet(r: Rule): set<u64> {
    set i: u64 | Decide(r, i)
  }

  /** For every seed and every probability strictly between 0 and 1, exactly floor(p * 2^64) indices are dropped. */
  lemma DropCount(seed: bv64, dport: int, syn: bool, p: real)
    requires 0.0 < p < 1.0
    ensures |DropSet(SeededRule(seed, dport, syn, p))| == (p * 18446744073709551616.0).Floor
  {
    ScaledThreshold(p);
    BelowCount(seed, (p * 18446744073709551616.0).Floor);
    DropCountOf(SeededRule(seed, dport, syn, p), (p * 18446744073709551616.0).Floor);
  }

  lemma DropCountOf(r: Rule, t: nat)
    requires r.replay.None? && 0.0 < r.probability < 1.0 && t == (r.probability * 18446744073709551616.0).Floor
    requires |IndicesBelow(r.draws, t)| == t
    ensures |DropSet(r)| == t
  {
    DropSetIsBelow(r);
  }

  lemma ScaledThreshold(p: real)
    requires 0.0 < p < 1.0
    ensures 0 <= (p * 18446744073709551616.0).Floor < TWO64
  {}

  lemma DropSetIsBelow(r: Rule)
    requires r.replay.None? && 0.0 < r.probability < 1.0
    ensures DropSet(r) == IndicesBelow(r.draws, (r.probability * 18446744073709551616.0).Floor)
  {}

  /** What a lower probability drops, a higher one drops. */
  lemma DropsAreNested(r: Rule, p: real, q: real, index: u64)
    requires r.replay.None? && p <= q
    requires Decide(r.(probability := p), index)
    ensures Decide(r.(probability := q), index)
  {
    if 0.0 < p && q < 1.0 {
      FloorMonotone(p * 18446744073709551616.0, q * 18446744073709551616.0);
    }
  }

  lemma FloorMonotone(x: real, y: real)
    requires x <= y
    ensures x.Floor <= y.Floor
  {}

  // ---- the per-flow index

  /** ci_flow_tracker_t. */
  datatype Flow = Flow(lastSeq: u16, have: bool, epoch: u32, mtu: u16, overhead: u16)

  function NewFlow(mtu: u16, overhead: u16): Flow {
    Flow(0, false, 0, mtu, overhead)
  }

  /** ci_rdp_seq_is_wrap. */
  predicate IsWrap(prev: u16, next: u16) {
    (next - prev) % 0x1_0000 < 0x8000 && next < prev
  }

  /** The tracker after an RDP number. */
  function Advance(t: Flow, seq16: u16): Flow {
    t.(epoch := if t.have && IsWrap(t.lastSeq, seq16) then (t.epoch + 1) % 0x1_0000_0000 else t.epoch,
       lastSeq := seq16, have := true)
  }

  /** ci_flow_index_rdp. */
  function RdpIndex(epoch: u32, seq16: u16): u64 {
    0x1_0000 * epoch + seq16
  }

  /** ci_flow_index: the tracker after the frame, and the frame's key. */
  function FlowIndex(t: Flow, f: Frame): (Flow, u64) {
    if f.IsRdp() then
      match ParseTrailer(f.data)
      case None => (t, 0)
      case Some(h) => (Advance(t, h.seq16), RdpIndex(Advance(t, h.seq16).epoch, h.seq16))
    else (t, Fragment(f.data, t.mtu, t.overhead))
  }

  /** An RDP frame moves the tracker by its number alone; one without a header, and any other frame, does not move it. */
  lemma FlowIndexOf(t: Flow, f: Frame, payload: seq<u8>, flags: u8, hi: u8, lo: u8, ackHi: u8, ackLo: u8)
    ensures f.IsRdp() && f.data == payload + [flags, hi, lo, ackHi, ackLo] ==>
              var r := Advance(t, 256 * (hi as int) + lo);
              FlowIndex(t, f) == (r, RdpIndex(r.epoch, 256 * (hi as int) + lo))
    ensures f.IsRdp() && |f.data| < 5 ==> FlowIndex(t, f) == (t, 0)
    ensures !f.IsRdp() ==> FlowIndex(t, f) == (t, Fragment(f.data, t.mtu, t.overhead))
  {
    TrailerReadBack(payload, flags, hi, lo, ackHi, ackLo);
  }

  class FlowTracker {
    var lastSeq: u16
    var have: bool
    var epoch: u32
    const mtu: u16
    const overhead: u16

    function View(): Flow
      reads this
    {
      Flow(lastSeq, have, epoch, mtu, overhead)
    }

    /** ci_flow_tracker_init_ovh. */
    constructor (mtu: u16, overhead: u16)
      ensures View() == NewFlow(mtu, overhead)
    {
      lastSeq, have, epoch := 0, false, 0;
      this.mtu, this.overhead := mtu, overhead;
    }

    /** ci_flow_index. */
    method Index(f: Frame) returns (index: u64)
      modifies this
      ensures (View(), index) == FlowIndex(old(View()), f)
    {
      index := 0;
      if f.IsRdp() {
        var h := ParseTrailer(f.data);
        if h.Some? {
          if have && IsWrap(lastSeq, h.value.seq16) {
            epoch := (epoch + 1) % 0x1_0000_0000;
          }
          lastSeq := h.value.seq16;
          have := true;
          index := RdpIndex(epoch, h.value.seq16);
        }
        return;
      }
      var off := ParseOffset(f.data);
      if off.Some? && mtu > overhead {
        QuotientIsDivision(off.value, mtu - overhead);
        index := off.value / (mtu - overhead);
      }
    }
  }
}

/** The two unwrapping algorithms: ci_flow_index against true positions and against the sequence tracker. */
module FlowProperties {
  import opened Machine
  import opened DropRule
  import opened SeqSpec
  import opened SeqProperties

  /** Consecutive positions are less than half the 16-bit space apart, and the first is in epoch 0. */
  ghost predicate SmallSteps(ps: seq<int>) {
    ps != [] && 0 <= ps[0] < 0x1_0000 && forall k | 0 < k < |ps| :: -0x8000 <= ps[k] - ps[k - 1] <= 0x7FFF
  }

  /** The tracker after the numbers of `ps` have gone by. */
  function AdvanceAll(ps: seq<int>): Flow {
    if ps == [] then NewFlow(0, 0) else Advance(AdvanceAll(ps[..|ps| - 1]), ps[|ps| - 1] % 0x1_0000)
  }

  function IndexAfter(ps: seq<int>): u64
    requires ps != []
  {
    RdpIndex(AdvanceAll(ps).epoch, ps[|ps| - 1] % 0x1_0000)
  }

  /** How many times the stream stepped backward over a multiple of 65536. */
  function BackCrossings(ps: seq<int>): nat {
    if |ps| <= 1 then 0
    else
      var n := |ps| - 1;
      BackCrossings(ps[..n]) + if ps[n] / 0x1_0000 < ps[n - 1] / 0x1_0000 then 1 else 0
  }

  /** One step: the epoch moves by one exactly on a forward crossing. */
  lemma WrapIsForwardCrossing(p: int, q: int)
    requires -0x8000 <= q - p <= 0x7FFF
    ensures IsWrap(p % 0x1_0000, q % 0x1_0000) <==> q / 0x1_0000 == p / 0x1_0000 + 1
    ensures p / 0x1_0000 - 1 <= q / 0x1_0000 <= p / 0x1_0000 + 1
  {
    assert (q % 0x1_0000 - p % 0x1_0000) % 0x1_0000 == (q - p) % 0x1_0000;
  }

  /** The tracker is at position `p` after `back` backward crossings. */
  ghost predicate Behind(t: Flow, p: int, back: nat) {
    t.have && t.lastSeq == p % 0x1_0000 && t.epoch == (p / 0x1_0000 + back) % 0x1_0000_0000
  }

  lemma CrossingStep(t: Flow, p: int, q: int, back: nat)
    requires Behind(t, p, back) && -0x8000 <= q - p <= 0x7FFF
    ensures Behind(Advance(t, q % 0x1_0000), q, back + if q / 0x1_0000 < p / 0x1_0000 then 1 else 0)
  {
    WrapIsForwardCrossing(p, q);
    EpochStep(p / 0x1_0000 + back);
  }

  lemma {:induction false} EpochCountsCrossings(ps: seq<int>)
    requires SmallSteps(ps)
    ensures Behind(AdvanceAll(ps), ps[|ps| - 1], BackCrossings(ps))
  {
    var n := |ps| - 1;
    if n == 0 {
      assert AdvanceAll(ps[..0]) == NewFlow(0, 0);
    } else {
      EpochCountsCrossings(ps[..n]);
      LastStep(ps);
      CrossingStep(AdvanceAll(ps[..n]), ps[n - 1], ps[n], BackCrossings(ps[..n]));
    }
  }

  lemma LastStep(ps: seq<int>)
    requires |ps| > 1
    ensures var n := |ps| - 1;
            && ps[..n][n - 1] == ps[n - 1]
            && AdvanceAll(ps) == Advance(AdvanceAll(ps[..n]), ps[n] % 0x1_0000)
            && BackCrossings(ps) == BackCrossings(ps[..n]) + if ps[n] / 0x1_0000 < ps[n - 1] / 0x1_0000 then 1 else 0
  {}

  lemma EpochStep(e: int)
    ensures (e % 0x1_0000_0000 + 1) % 0x1_0000_0000 == (e + 1) % 0x1_0000_0000
  {}

  /**
   * The flow index is the true position plus one epoch for every backward crossing so far, in the
   * 48 bits it has. So below 2^48 it is exact if and only if the stream never crossed backward.
   */
  lemma IndexLaw(ps: seq<int>)
    requires SmallSteps(ps)
    ensures IndexAfter(ps) == (ps[|ps| - 1] + 0x1_0000 * BackCrossings(ps)) % 0x1_0000_0000_0000
    ensures 0 <= ps[|ps| - 1] < 0x1_0000_0000_0000 - 0x1_0000 * BackCrossings(ps) ==>
              (IndexAfter(ps) == ps[|ps| - 1] <==> BackCrossings(ps) == 0)
  {
    IndexModulo(ps);
    ExactIffNoCrossing(ps[|ps| - 1], BackCrossings(ps));
  }

  /** One step back over 65536 and the index is an epoch off. */
  lemma BackwardStepShifts()
    ensures var ps := [65535, 65536, 65535]; SmallSteps(ps) && IndexAfter(ps) == 65535 + 65536
  {
    var ps := [65535, 65536, 65535];
    assert ps[..2] == [65535, 65536] && ps[..2][..1] == [65535];
    assert BackCrossings(ps[..2][..1]) == 0 && BackCrossings(ps[..2]) == 0;
    IndexLaw(ps);
  }

  lemma IndexModulo(ps: seq<int>)
    requires SmallSteps(ps)
    ensures IndexAfter(ps) == (ps[|ps| - 1] + 0x1_0000 * BackCrossings(ps)) % 0x1_0000_0000_0000
  {
    EpochCountsCrossings(ps);
    SplitIndex(ps[|ps| - 1], BackCrossings(ps));
  }

  lemma ExactIffNoCrossing(p: int, c: nat)
    ensures 0 <= p < 0x1_0000_0000_0000 - 0x1_0000 * c ==>
              ((p + 0x1_0000 * c) % 0x1_0000_0000_0000 == p <==> c == 0)
  {}

  lemma SplitIndex(p: int, c: nat)
    ensures 0x1_0000 * ((p / 0x1_0000 + c) % 0x1_0000_0000) + p % 0x1_0000 == (p + 0x1_0000 * c) % 0x1_0000_0000_0000
  {
    var e := p / 0x1_0000 + c;
    var q := e / 0x1_0000_0000;
    assert e == 0x1_0000_0000 * q + e % 0x1_0000_0000;
    assert p + 0x1_0000 * c == 0x1_0000_0000_0000 * q + (0x1_0000 * (e % 0x1_0000_0000) + p % 0x1_0000);
  }

  // ---- forward streams: both algorithms agree

  ghost predicate Forward(ps: seq<int>) {
    ps != [] && 0 <= ps[0] < 0x1_0000 && forall k | 0 < k < |ps| :: 0 <= ps[k] - ps[k - 1] <= 0x7FFF
  }

  lemma ForwardPrefix(ps: seq<int>, n: nat)
    requires Forward(ps) && 0 < n <= |ps|
    ensures Forward(ps[..n])
  {
    var init := ps[..n];
    forall k | 0 < k < n
      ensures 0 <= init[k] - init[k - 1] <= 0x7FFF
    {
      assert init[k] == ps[k] && init[k - 1] == ps[k - 1];
    }
  }

  lemma {:induction false} ForwardHead(ps: seq<int>)
    requires Forward(ps)
    ensures BackCrossings(ps) == 0
    ensures Highest(ps) == ps[|ps| - 1] >= ps[0]
  {
    var n := |ps| - 1;
    if n > 0 {
      ForwardPrefix(ps, n);
      ForwardHead(ps[..n]);
      assert ps[n] - ps[n - 1] >= 0;
    }
  }

  lemma ForwardIsTrackable(ps: seq<int>)
    requires Forward(ps)
    ensures Trackable(ps)
  {
    forall k | 0 < k < |ps|
      ensures InWindow(ps[0], Highest(ps[..k]), ps[k])
    {
      ForwardPrefix(ps, k);
      ForwardHead(ps[..k]);
      assert 0 <= ps[k] - ps[k - 1] <= 0x7FFF;
    }
  }

  lemma HeadAndEpoch(ps: seq<int>)
    requires Trackable(ps)
    ensures FeedAll(OnWire(ps)).max == Highest(ps) && FeedAll(OnWire(ps)).epoch == Epoch(Highest(ps))
  {
    TrackerRefinesSet(ps);
    Conservation(OnWire(ps));
  }

  lemma ForwardIndex(ps: seq<int>)
    requires Forward(ps)
    ensures IndexAfter(ps) == ps[|ps| - 1] % 0x1_0000_0000_0000
    ensures AdvanceAll(ps).epoch == Epoch(ps[|ps| - 1])
  {
    ForwardHead(ps);
    assert SmallSteps(ps);
    IndexLaw(ps);
    EpochCountsCrossings(ps);
  }

  /** On a forward stream, after every frame, the flow index and epoch are the sequence tracker's head and epoch. */
  lemma UnwrappersAgree(ps: seq<int>)
    requires Forward(ps)
    ensures FeedAll(OnWire(ps)).max == ps[|ps| - 1]
    ensures IndexAfter(ps) == FeedAll(OnWire(ps)).max % 0x1_0000_0000_0000
    ensures AdvanceAll(ps).epoch == FeedAll(OnWire(ps)).epoch
  {
    ForwardIndex(ps);
    ForwardHead(ps);
    ForwardIsTrackable(ps);
    HeadAndEpoch(ps);
  }
}
