/**
 * inject/ci_drop_iface.c, the decision path of proxy/zmqproxy.c and the index computation of
 * apm/csp_monitor_apm.c: two injectors and the observer behind them, as values.
 */
module InjectorSpec {
  import opened Machine
  import opened DropRule
  import opened GilbertElliott

  /** Decide by the frame's identity, or by a chain advanced once an in-scope transmission. */
  datatype Mode = Identity | PerAttempt(draws: Draws, g2b: u64, b2g: u64)

  /** A row of the drop log, without its time stamp. */
  datatype LogRow = LogRow(src: u16, dport: u16, flags: u8, isRdp: bool, index: u64, epoch: u32, dropped: bool)

  function Row(f: Frame, index: u64, epoch: u32, dropped: bool): LogRow {
    LogRow(f.src, f.dport, f.flags, f.IsRdp(), index, epoch, dropped)
  }

  /** What the shim holds; `delivered` is everything handed to the downstream interface. */
  datatype Shim = Shim(flow: Flow, attempts: nat, drops: nat, forwarded: nat, passthrough: nat,
                       log: seq<LogRow>, delivered: seq<Frame>)

  function NewShim(mtu: u16, overhead: u16): Shim {
    Shim(NewFlow(mtu, overhead), 0, 0, 0, 0, [], [])
  }

  predicate Drops(rule: Rule, mode: Mode, attempts: nat, index: u64) {
    match mode
    case Identity => Decide(rule, index)
    case PerAttempt(draws, g2b, b2g) => Bad(draws, g2b, b2g, attempts)
  }

  /** ci_drop_iface_nexthop. */
  function Nexthop(rule: Rule, mode: Mode, s: Shim, f: Frame): Shim {
    if !InScope(rule, f) then s.(passthrough := s.passthrough + 1, delivered := s.delivered + [f])
    else
      var (flow, index) := FlowIndex(s.flow, f);
      var drop := Drops(rule, mode, s.attempts, index);
      var t := s.(flow := flow, attempts := s.attempts + 1, log := s.log + [Row(f, index, flow.epoch, drop)]);
      if drop then t.(drops := t.drops + 1) else t.(forwarded := t.forwarded + 1, delivered := t.delivered + [f])
  }

  /** The shim after the frames, in order, retransmissions and reordering included. */
  function RunShim(rule: Rule, mode: Mode, mtu: u16, overhead: u16, frames: seq<Frame>): Shim {
    if frames == [] then NewShim(mtu, overhead)
    else Nexthop(rule, mode, RunShim(rule, mode, mtu, overhead, frames[..|frames| - 1]), frames[|frames| - 1])
  }

  /** The proxy's globals; `sent` is everything published to the backend. */
  datatype Proxy = Proxy(lastSeq: u16, haveLast: bool, epoch: u32, kept: nat, drops: nat, log: seq<LogRow>, sent: seq<Frame>)

  const NEW_PROXY: Proxy := Proxy(0, false, 0, 0, 0, [], [])

  /** proxy_flow_index. */
  function ProxyFlowIndex(p: Proxy, mtu: u16, overhead: u16, f: Frame): (Proxy, u64) {
    if f.IsRdp() then
      match ParseTrailer(f.data)
      case None => (p, 0)
      case Some(h) =>
        var epoch := if p.haveLast && IsWrap(p.lastSeq, h.seq16) then (p.epoch + 1) % 0x1_0000_0000 else p.epoch;
        (p.(epoch := epoch, lastSeq := h.seq16, haveLast := true), RdpIndex(epoch, h.seq16))
    else (p, Fragment(f.data, mtu, overhead))
  }

  /**
   * The drop decision of zmq_proxy_lossy: deterministic when the rule names a port, and otherwise
   * the toss of a coin (`coin`, what rand() says), which is not logged.
   */
  function ProxyStep(rule: Rule, mtu: u16, overhead: u16, p: Proxy, f: Frame, coin: bool): Proxy {
    if rule.matchDport < 0 then
      if coin then p.(drops := p.drops + 1) else p.(kept := p.kept + 1, sent := p.sent + [f])
    else if !InScope(rule, f) then p.(kept := p.kept + 1, sent := p.sent + [f])
    else
      var (q, index) := ProxyFlowIndex(p, mtu, overhead, f);
      var drop := Decide(rule, index);
      var t := q.(log := q.log + [Row(f, index, q.epoch, drop)]);
      if drop then t.(drops := t.drops + 1) else t.(kept := t.kept + 1, sent := t.sent + [f])
  }

  function RunProxy(rule: Rule, mtu: u16, overhead: u16, frames: seq<Frame>, coins: seq<bool>): Proxy
    requires |coins| == |frames|
  {
    if frames == [] then NEW_PROXY
    else
      var n := |frames| - 1;
      ProxyStep(rule, mtu, overhead, RunProxy(rule, mtu, overhead, frames[..n], coins[..n]), frames[n], coins[n])
  }

  /** mon_drainer: the fragment index the monitor writes for a frame, if it writes one. */
  function MonitorFragment(f: Frame, mtu: u16, overhead: u16): Option<nat> {
    if !f.IsRdp() && f.dport == DTP_DATA_PORT then Some(Fragment(f.data, mtu, overhead)) else None
  }
}

/** What holds over every run of the injectors. */
module InjectorProperties {
  import opened Machine
  import opened DropRule
  import opened GilbertElliott
  import opened InjectorSpec
  import opened FlowProperties

  /** Every call is counted once, every frame not dropped is handed on once, every in-scope frame is logged once. */
  lemma {:induction false} NothingUnaccounted(rule: Rule, mode: Mode, mtu: u16, overhead: u16, frames: seq<Frame>)
    ensures var s := RunShim(rule, mode, mtu, overhead, frames);
            && s.drops + s.forwarded + s.passthrough == |frames|
            && |s.delivered| == s.forwarded + s.passthrough
            && |s.log| == s.attempts == s.drops + s.forwarded
            && s.flow.mtu == mtu && s.flow.overhead == overhead
  {
    if frames != [] {
      NothingUnaccounted(rule, mode, mtu, overhead, frames[..|frames| - 1]);
      NexthopAccounts(rule, mode, RunShim(rule, mode, mtu, overhead, frames[..|frames| - 1]), frames[|frames| - 1]);
    }
  }

  /** What one call adds to the counters, the log and the frames handed on. */
  lemma NexthopAccounts(rule: Rule, mode: Mode, s: Shim, f: Frame)
    ensures var t := Nexthop(rule, mode, s, f);
            && t.drops + t.forwarded + t.passthrough == s.drops + s.forwarded + s.passthrough + 1
            && |t.delivered| - |s.delivered| == (t.forwarded + t.passthrough) - (s.forwarded + s.passthrough)
            && |t.log| - |s.log| == t.attempts - s.attempts == (t.drops + t.forwarded) - (s.drops + s.forwarded)
            && t.flow.mtu == s.flow.mtu && t.flow.overhead == s.flow.overhead
  {}

  /** The frames a rule means, in order. */
  function Meant(rule: Rule, frames: seq<Frame>): seq<Frame> {
    if frames == [] then []
    else
      var n := |frames| - 1;
      Meant(rule, frames[..n]) + if InScope(rule, frames[n]) then [frames[n]] else []
  }

  /** The row tells whose frame it was, and for an RDP frame with a header its epoch and number. */
  ghost predicate Names(row: LogRow, f: Frame) {
    && row.src == f.src && row.dport == f.dport && row.flags == f.flags && row.isRdp == f.IsRdp()
    && (f.IsRdp() && ParseTrailer(f.data).Some? ==>
          row.index == 0x1_0000 * row.epoch + ParseTrailer(f.data).value.seq16)
  }

  /** The log has one row for each frame the rule means, in order, and each row names its frame. */
  lemma {:induction false} LogNamesFrames(rule: Rule, mode: Mode, mtu: u16, overhead: u16, frames: seq<Frame>)
    ensures var log := RunShim(rule, mode, mtu, overhead, frames).log;
            |log| == |Meant(rule, frames)| && forall k | 0 <= k < |log| :: Names(log[k], Meant(rule, frames)[k])
  {
    if frames != [] {
      var n := |frames| - 1;
      LogNamesFrames(rule, mode, mtu, overhead, frames[..n]);
      NexthopNames(rule, mode, RunShim(rule, mode, mtu, overhead, frames[..n]), frames[n]);
    }
  }

  lemma NexthopNames(rule: Rule, mode: Mode, s: Shim, f: Frame)
    ensures var t := Nexthop(rule, mode, s, f);
            if InScope(rule, f) then |t.log| == |s.log| + 1 && t.log[..|s.log|] == s.log && Names(t.log[|s.log|], f)
            else t.log == s.log
  {}

  /** Out of scope is exactly: another port than the one to match, or no RDP SYN where one is asked for. */
  lemma ScopeIs(rule: Rule, f: Frame, payload: seq<u8>, flags: u8, hi: u8, lo: u8, ackHi: u8, ackLo: u8)
    requires f.data == payload + [flags, hi, lo, ackHi, ackLo]
    ensures InScope(rule, f)
       <==> && (rule.matchDport < 0 || f.dport == rule.matchDport % 65536)
            && (!rule.matchRdpSyn || (f.flags / 2 % 2 == 1 && flags / 8 % 2 == 1))
  {
    TrailerReadBack(payload, flags, hi, lo, ackHi, ackLo);
    LowHalf(flags);
  }

  /** A frame too short for an RDP header is no SYN. */
  lemma ShortIsNoSyn(rule: Rule, f: Frame)
    requires rule.matchRdpSyn && |f.data| < 5
    ensures !InScope(rule, f)
  {}

  lemma LowHalf(flags: u8)
    ensures flags % 16 / 8 % 2 == flags / 8 % 2
  {}

  /** In identity mode each log row is decided by its index alone. */
  lemma {:induction false} IdentityDecides(rule: Rule, mtu: u16, overhead: u16, frames: seq<Frame>, k: nat)
    requires k < |RunShim(rule, Identity, mtu, overhead, frames).log|
    ensures var row := RunShim(rule, Identity, mtu, overhead, frames).log[k]; row.dropped == Decide(rule, row.index)
  {
    var init := RunShim(rule, Identity, mtu, overhead, frames[..|frames| - 1]);
    if k < |init.log| {
      IdentityDecides(rule, mtu, overhead, frames[..|frames| - 1], k);
    }
  }

  /** Over any run no index is both dropped and forwarded. */
  lemma DroppedXorForwarded(rule: Rule, mtu: u16, overhead: u16, frames: seq<Frame>, i: nat, j: nat)
    requires var log := RunShim(rule, Identity, mtu, overhead, frames).log;
             i < |log| && j < |log| && log[i].index == log[j].index
    ensures var log := RunShim(rule, Identity, mtu, overhead, frames).log; log[i].dropped == log[j].dropped
  {
    IdentityDecides(rule, mtu, overhead, frames, i);
    IdentityDecides(rule, mtu, overhead, frames, j);
  }

  /** In per-attempt mode the k-th in-scope transmission gets entry k of the trajectory, whatever is sent. */
  lemma {:induction false} AttemptsFollowTrajectory(rule: Rule, mode: Mode, mtu: u16, overhead: u16, frames: seq<Frame>, k: nat)
    requires mode.PerAttempt? && k < |RunShim(rule, mode, mtu, overhead, frames).log|
    ensures RunShim(rule, mode, mtu, overhead, frames).log[k].dropped
         == Trajectory(mode.draws, mode.g2b, mode.b2g, k + 1)[k]
  {
    var init := frames[..|frames| - 1];
    NothingUnaccounted(rule, mode, mtu, overhead, init);
    NexthopLogs(rule, mode, RunShim(rule, mode, mtu, overhead, init), frames[|frames| - 1], k);
    if k < |RunShim(rule, mode, mtu, overhead, init).log| {
      AttemptsFollowTrajectory(rule, mode, mtu, overhead, init, k);
    }
  }

  /** One call keeps the log and appends at most one row, decided by the chain's next state. */
  lemma NexthopLogs(rule: Rule, mode: Mode, s: Shim, f: Frame, k: nat)
    requires mode.PerAttempt? && |s.log| == s.attempts
    ensures var t := Nexthop(rule, mode, s, f);
            && |s.log| <= |t.log| <= |s.log| + 1
            && (k < |s.log| ==> t.log[k] == s.log[k])
            && (k == |s.log| < |t.log| ==> t.log[k].dropped == Bad(mode.draws, mode.g2b, mode.b2g, k))
  {}

  /** The per-attempt mode that ci_drop_iface_enable_ge sets up for a seed and a target. */
  function GeMode(seed: bv64, loss: real, burst: real): Mode {
    var (p, r) := Params(loss, burst);
    PerAttempt(SeededDraws(seed), Threshold(p), Threshold(r))
  }

  /**
   * The extremes, for every seed and every run: a target of 0 or less drops nothing, and a target of
   * 1 or more keeps the first in-scope transmission, at most one more, and drops all the others.
   */
  lemma GeExtremes(rule: Rule, seed: bv64, loss: real, burst: real, mtu: u16, overhead: u16, frames: seq<Frame>, k: nat)
    requires k < |RunShim(rule, GeMode(seed, loss, burst), mtu, overhead, frames).log|
    ensures var row := RunShim(rule, GeMode(seed, loss, burst), mtu, overhead, frames).log[k];
            && (loss <= 0.0 || k == 0 ==> !row.dropped)
            && (loss >= 1.0 && k >= 2 ==> row.dropped)
  {
    AttemptsFollowTrajectory(rule, GeMode(seed, loss, burst), mtu, overhead, frames, k);
    SeededDrawsInjective(seed);
    if loss <= 0.0 {
      NeverDrops(SeededDraws(seed), loss, burst, k);
    } else if loss >= 1.0 {
      DropsForever(SeededDraws(seed), loss, burst, k);
    }
  }

  /** Below the extremes the chain's threshold for p splits the draws as a rule of probability p does. */
  lemma ThresholdIsDecision(rule: Rule, index: u64)
    requires rule.replay.None? && 0.0 < rule.probability < 1.0
    ensures Decide(rule, index) <==> rule.draws(index) < Threshold(rule.probability)
  {}

  /** A rule that replays what a chain was filled with drops index k exactly if entry k says so. */
  lemma ReplayIsTrajectory(rule: Rule, draws: Draws, g2b: u64, b2g: u64, n: nat, k: u64)
    requires rule.replay == Some(Trajectory(draws, g2b, b2g, n))
    ensures Decide(rule, k) <==> k < n && Bad(draws, g2b, b2g, k)
  {}

  // ---- two oracles

  /** The rule's scope takes in every frame whose fragment the monitor indexes. */
  predicate CoversDtp(rule: Rule) {
    !rule.matchRdpSyn && (rule.matchDport >= 0 ==> rule.matchDport % 0x1_0000 == DTP_DATA_PORT)
  }

  /** The monitor writes a fragment index exactly for frames on port 8 that are not RDP, and divides as the injectors do. */
  lemma MonitorIndexes(f: Frame, off: u32, rest: seq<u8>, mtu: u16, overhead: u16)
    requires mtu > overhead && f.data == OffsetBytes(off) + rest
    ensures MonitorFragment(f, mtu, overhead)
         == if f.flags / 2 % 2 == 0 && f.dport == 8 then Some(off / (mtu - overhead)) else None
  {
    FragmentOfOffset(off, rest, mtu, overhead);
  }

  /** The fragment of a frame handed on is never one the rule drops. */
  lemma {:induction false} DeliveredIsKept(rule: Rule, mtu: u16, overhead: u16, frames: seq<Frame>, f: Frame)
    requires CoversDtp(rule)
    requires f in RunShim(rule, Identity, mtu, overhead, frames).delivered
    requires MonitorFragment(f, mtu, overhead).Some?
    ensures !Decide(rule, MonitorFragment(f, mtu, overhead).value)
  {
    var init := frames[..|frames| - 1];
    if f !in RunShim(rule, Identity, mtu, overhead, init).delivered {
      assert f == frames[|frames| - 1];
      NothingUnaccounted(rule, Identity, mtu, overhead, init);
    } else {
      DeliveredIsKept(rule, mtu, overhead, init, f);
    }
  }

  /**
   * The two oracles never name the same index: whatever part of the delivered frames the monitor
   * sees, and in whatever order, no fragment index it writes is one the drop log calls dropped.
   */
  ghost predicate NeverBoth(rule: Rule, mtu: u16, overhead: u16) {
    forall frames, f, k: nat ::
      var s := RunShim(rule, Identity, mtu, overhead, frames);
      k < |s.log| && s.log[k].dropped && f in s.delivered ==> MonitorFragment(f, mtu, overhead) != Some(s.log[k].index)
  }

  /** The rule drops no index that is the fragment index of some payload. */
  ghost predicate KeepsFragments(rule: Rule, mtu: u16, overhead: u16) {
    forall data: seq<u8> :: !Decide(rule, Fragment(data, mtu, overhead))
  }

  /**
   * Exactly when the oracles are disjoint over every run: the rule's scope takes in DTP data, or it
   * drops no fragment index at all.
   */
  lemma OraclesDisjoint(rule: Rule, mtu: u16, overhead: u16)
    ensures NeverBoth(rule, mtu, overhead) <==> CoversDtp(rule) || KeepsFragments(rule, mtu, overhead)
  {
    if CoversDtp(rule) || KeepsFragments(rule, mtu, overhead) {
      forall frames, f, k: nat | var s := RunShim(rule, Identity, mtu, overhead, frames);
                                 k < |s.log| && s.log[k].dropped && f in s.delivered
        ensures MonitorFragment(f, mtu, overhead) != Some(RunShim(rule, Identity, mtu, overhead, frames).log[k].index)
      {
        NotBoth(rule, mtu, overhead, frames, f, k);
      }
    } else {
      var data: seq<u8> :| Decide(rule, Fragment(data, mtu, overhead));
      BothNamed(rule, mtu, overhead, data);
    }
  }

  lemma NotBoth(rule: Rule, mtu: u16, overhead: u16, frames: seq<Frame>, f: Frame, k: nat)
    requires CoversDtp(rule) || KeepsFragments(rule, mtu, overhead)
    requires var s := RunShim(rule, Identity, mtu, overhead, frames);
             k < |s.log| && s.log[k].dropped && f in s.delivered
    ensures MonitorFragment(f, mtu, overhead) != Some(RunShim(rule, Identity, mtu, overhead, frames).log[k].index)
  {
    IdentityDecides(rule, mtu, overhead, frames, k);
    if CoversDtp(rule) && MonitorFragment(f, mtu, overhead).Some? {
      DeliveredIsKept(rule, mtu, overhead, frames, f);
    }
  }

  function PortOf(rule: Rule): u16 {
    if rule.matchDport >= 0 then rule.matchDport % 0x1_0000 else 0
  }

  /** An RDP SYN with number `q`, on a port the rule means. */
  function SynFrame(rule: Rule, q: u16): Frame {
    Frame(0, PortOf(rule), 0x02, [0x08, q / 0x100, q % 0x100, 0, 0])
  }

  /** SYNs whose numbers climb to position `n` in steps the tracker can follow. */
  function SynRun(rule: Rule, n: nat): seq<Frame> {
    if n < 0x8000 then [SynFrame(rule, n)] else SynRun(rule, n - 0x7FFF) + [SynFrame(rule, n % 0x1_0000)]
  }

  lemma SynInScope(rule: Rule, q: u16)
    ensures var f := SynFrame(rule, q);
            InScope(rule, f) && f.IsRdp() && ParseTrailer(f.data).Some? && ParseTrailer(f.data).value.seq16 == q
  {
    var data := SynFrame(rule, q).data;
    assert data[|data| - 5..] == data;
  }

  /** The last row of the log has index `n`, and the rule decided on it. */
  ghost predicate LastIs(rule: Rule, s: Shim, n: u64) {
    s.log != [] && s.log[|s.log| - 1].index == n && s.log[|s.log| - 1].dropped == Decide(rule, n)
  }

  /** The tracker is at position `n`. */
  ghost predicate At(t: Flow, n: u32) {
    t.have && t.lastSeq == n % 0x1_0000 && t.epoch == n / 0x1_0000
  }

  /** The first number, or a step of 0x7FFF forward, takes the tracker to position `n`. */
  lemma Climb(t: Flow, n: u32)
    requires if n < 0x8000 then !t.have && t.epoch == 0 else At(t, n - 0x7FFF)
    ensures At(Advance(t, n % 0x1_0000), n)
  {
    if n >= 0x8000 {
      WrapIsForwardCrossing(n - 0x7FFF, n);
    }
  }

  lemma AtIndex(t: Flow, n: u32)
    requires At(t, n)
    ensures RdpIndex(t.epoch, n % 0x1_0000) == n
  {}

  /** `f` is in scope and carries the 16-bit number of position `n`. */
  ghost predicate Carries(rule: Rule, f: Frame, n: u32) {
    InScope(rule, f) && f.IsRdp() && ParseTrailer(f.data).Some? && ParseTrailer(f.data).value.seq16 == n % 0x1_0000
  }

  lemma ReachStep(rule: Rule, s: Shim, f: Frame, n: u32)
    requires Carries(rule, f, n) && At(Advance(s.flow, n % 0x1_0000), n)
    ensures LastIs(rule, Nexthop(rule, Identity, s, f), n) && At(Nexthop(rule, Identity, s, f).flow, n)
  {
    AtIndex(Advance(s.flow, n % 0x1_0000), n);
  }

  lemma RunNext(rule: Rule, mtu: u16, overhead: u16, frames: seq<Frame>, f: Frame)
    ensures RunShim(rule, Identity, mtu, overhead, frames + [f])
         == Nexthop(rule, Identity, RunShim(rule, Identity, mtu, overhead, frames), f)
  {
    assert (frames + [f])[..|frames|] == frames;
  }

  /** The SYNs take the tracker to position `n`, across as many wraps as that needs. */
  lemma {:induction false} SynReaches(rule: Rule, mtu: u16, overhead: u16, n: u32)
    ensures var s := RunShim(rule, Identity, mtu, overhead, SynRun(rule, n));
            LastIs(rule, s, n) && At(s.flow, n)
  {
    var init := if n < 0x8000 then [] else SynRun(rule, n - 0x7FFF);
    if n >= 0x8000 {
      SynReaches(rule, mtu, overhead, n - 0x7FFF);
    }
    SynInScope(rule, n % 0x1_0000);
    Reaches(rule, mtu, overhead, init, SynFrame(rule, n % 0x1_0000), n);
  }

  lemma Reaches(rule: Rule, mtu: u16, overhead: u16, init: seq<Frame>, f: Frame, n: u32)
    requires Carries(rule, f, n)
    requires if n < 0x8000 then init == [] else At(RunShim(rule, Identity, mtu, overhead, init).flow, n - 0x7FFF)
    ensures var s := RunShim(rule, Identity, mtu, overhead, init + [f]); LastIs(rule, s, n) && At(s.flow, n)
  {
    var s := RunShim(rule, Identity, mtu, overhead, init);
    Climb(s.flow, n);
    ReachStep(rule, s, f, n);
    RunNext(rule, mtu, overhead, init, f);
  }

  /** A fragment on port 8 that is out of scope passes, and the log stays. */
  lemma FragmentPasses(rule: Rule, mtu: u16, overhead: u16, run: seq<Frame>, data: seq<u8>)
    requires !CoversDtp(rule)
    ensures var f := Frame(0, DTP_DATA_PORT, 0, data);
            var s := RunShim(rule, Identity, mtu, overhead, run + [f]);
            && s.log == RunShim(rule, Identity, mtu, overhead, run).log && f in s.delivered
            && MonitorFragment(f, mtu, overhead) == Some(Fragment(data, mtu, overhead))
  {
    var f := Frame(0, DTP_DATA_PORT, 0, data);
    RunNext(rule, mtu, overhead, run, f);
    assert !f.IsRdp() && !InScope(rule, f);
  }

  /** A rule that drops a fragment index but does not take in DTP data makes both oracles name it. */
  lemma BothNamed(rule: Rule, mtu: u16, overhead: u16, data: seq<u8>)
    requires !CoversDtp(rule) && Decide(rule, Fragment(data, mtu, overhead))
    ensures !NeverBoth(rule, mtu, overhead)
  {
    var n := Fragment(data, mtu, overhead);
    if rule.matchRdpSyn {
      SynReaches(rule, mtu, overhead, n);
      NamedAfter(rule, mtu, overhead, SynRun(rule, n), data);
    } else {
      PlainReaches(rule, mtu, overhead, data);
      NamedAfter(rule, mtu, overhead, [Frame(0, PortOf(rule), 0, data)], data);
    }
  }

  /** After a run whose last row has the fragment's index, the fragment passes and is named by both. */
  lemma NamedAfter(rule: Rule, mtu: u16, overhead: u16, run: seq<Frame>, data: seq<u8>)
    requires !CoversDtp(rule) && Decide(rule, Fragment(data, mtu, overhead))
    requires LastIs(rule, RunShim(rule, Identity, mtu, overhead, run), Fragment(data, mtu, overhead))
    ensures !NeverBoth(rule, mtu, overhead)
  {
    var f := Frame(0, DTP_DATA_PORT, 0, data);
    FragmentPasses(rule, mtu, overhead, run, data);
    NamedByBoth(rule, mtu, overhead, run + [f], f, |RunShim(rule, Identity, mtu, overhead, run).log| - 1);
  }

  lemma NamedByBoth(rule: Rule, mtu: u16, overhead: u16, frames: seq<Frame>, f: Frame, k: nat)
    requires var s := RunShim(rule, Identity, mtu, overhead, frames);
             && k < |s.log| && s.log[k].dropped && f in s.delivered
             && MonitorFragment(f, mtu, overhead) == Some(s.log[k].index)
    ensures !NeverBoth(rule, mtu, overhead)
  {}

  lemma PlainReaches(rule: Rule, mtu: u16, overhead: u16, data: seq<u8>)
    requires !rule.matchRdpSyn
    ensures LastIs(rule, RunShim(rule, Identity, mtu, overhead, [Frame(0, PortOf(rule), 0, data)]), Fragment(data, mtu, overhead))
  {
    var f := Frame(0, PortOf(rule), 0, data);
    assert [f][..0] == [];
    assert RunShim(rule, Identity, mtu, overhead, []) == NewShim(mtu, overhead);
    assert InScope(rule, f) && !f.IsRdp();
  }

  // ---- proxy and shim

  /** The proxy and the shim hold the same thing. */
  ghost predicate Same(p: Proxy, s: Shim) {
    && p.lastSeq == s.flow.lastSeq && p.haveLast == s.flow.have && p.epoch == s.flow.epoch
    && p.log == s.log && p.sent == s.delivered
    && p.drops == s.drops && p.kept == s.forwarded + s.passthrough
  }

  /** With a port to match: over every sequence of frames, same log, same drops, same frames passed on. */
  lemma {:induction false} ProxyEqualsShim(rule: Rule, mtu: u16, overhead: u16, frames: seq<Frame>, coins: seq<bool>)
    requires rule.matchDport >= 0 && |coins| == |frames|
    ensures Same(RunProxy(rule, mtu, overhead, frames, coins), RunShim(rule, Identity, mtu, overhead, frames))
  {
    if frames != [] {
      var n := |frames| - 1;
      var p, s := RunProxy(rule, mtu, overhead, frames[..n], coins[..n]), RunShim(rule, Identity, mtu, overhead, frames[..n]);
      ProxyEqualsShim(rule, mtu, overhead, frames[..n], coins[..n]);
      NothingUnaccounted(rule, Identity, mtu, overhead, frames[..n]);
      SameStep(rule, mtu, overhead, p, s, frames[n], coins[n]);
    }
  }

  lemma SameStep(rule: Rule, mtu: u16, overhead: u16, p: Proxy, s: Shim, f: Frame, coin: bool)
    requires rule.matchDport >= 0 && Same(p, s) && s.flow.mtu == mtu && s.flow.overhead == overhead
    ensures Same(ProxyStep(rule, mtu, overhead, p, f, coin), Nexthop(rule, Identity, s, f))
  {}

  /** How often the coin came down on dropping. */
  function Tosses(coins: seq<bool>): nat {
    if coins == [] then 0 else Tosses(coins[..|coins| - 1]) + if coins[|coins| - 1] then 1 else 0
  }

  /** Without a port the coin alone decides: it drops what it says, passes the rest on in order, and logs nothing. */
  lemma {:induction false} CoinDecides(rule: Rule, mtu: u16, overhead: u16, frames: seq<Frame>, coins: seq<bool>)
    requires rule.matchDport < 0 && |coins| == |frames|
    ensures var p := RunProxy(rule, mtu, overhead, frames, coins);
            && p.log == [] && p.drops == Tosses(coins) && p.kept == |p.sent| == |frames| - Tosses(coins)
            && (frames != [] && !coins[|frames| - 1] ==> p.sent != [] && p.sent[|p.sent| - 1] == frames[|frames| - 1])
  {
    if frames != [] {
      var n := |frames| - 1;
      CoinDecides(rule, mtu, overhead, frames[..n], coins[..n]);
    }
  }

  /** Interchangeable oracles: the two agree over all runs exactly when the rule names a port. */
  lemma InterchangeableIffPort(rule: Rule, mtu: u16, overhead: u16)
    ensures (forall frames, coins | |coins| == |frames| ::
               Same(RunProxy(rule, mtu, overhead, frames, coins), RunShim(rule, Identity, mtu, overhead, frames)))
       <==> rule.matchDport >= 0
  {
    if rule.matchDport >= 0 {
      forall frames, coins: seq<bool> | |coins| == |frames|
        ensures Same(RunProxy(rule, mtu, overhead, frames, coins), RunShim(rule, Identity, mtu, overhead, frames))
      {
        ProxyEqualsShim(rule, mtu, overhead, frames, coins);
      }
    } else {
      var frames, coins := SynRun(rule, 0), [false];
      SynReaches(rule, mtu, overhead, 0);
      assert RunProxy(rule, mtu, overhead, frames, coins).log == [];
      assert !Same(RunProxy(rule, mtu, overhead, frames, coins), RunShim(rule, Identity, mtu, overhead, frames));
    }
  }
}

/** inject/ci_drop_iface.c and proxy/zmqproxy.c as objects that update their fields. */
module Injectors {
  import opened Machine
  import opened Prng
  import opened DropRule
  import opened GilbertElliott
  import opened InjectorSpec

  class DropShim {
    const rule: Rule
    const tracker: FlowTracker
    const perAttempt: bool
    const ge: Chain
    var injectedDrops: nat
    var forwarded: nat
    var passthrough: nat
    var log: seq<LogRow>
    var delivered: seq<Frame>

    ghost predicate Valid()
      reads this, tracker, ge
    {
      ge.Valid() && (perAttempt ==> ge.sent == |log|)
    }

    ghost function ModeOf(): Mode {
      if perAttempt then PerAttempt(ge.draws, ge.g2b, ge.b2g) else Identity
    }

    ghost function View(): Shim
      reads this, tracker
    {
      Shim(tracker.View(), |log|, injectedDrops, forwarded, passthrough, log, delivered)
    }

    /**
     * ci_drop_iface_init for a rule of this seed, and ci_drop_iface_enable_ge when `perAttempt` asks
     * for it: the chain is seeded from the rule's seed.
     */
    constructor (rule: Rule, seed: bv64, mtu: u16, overhead: u16, perAttempt: bool, pG2b: real, pB2g: real)
      requires rule.draws == DrawsOf(seed)
      ensures Valid() && fresh(tracker) && fresh(ge)
      ensures View() == NewShim(mtu, overhead)
      ensures this.rule == rule
      ensures ModeOf() == if perAttempt then PerAttempt(SeededDraws(seed), Threshold(pG2b), Threshold(pB2g)) else Identity
    {
      this.rule, this.perAttempt := rule, perAttempt;
      tracker := new FlowTracker(mtu, overhead);
      ge := new Chain(SeededDraws(seed), pG2b, pB2g);
      injectedDrops, forwarded, passthrough := 0, 0, 0;
      log, delivered := [], [];
    }

    /** ci_drop_iface_nexthop. */
    method Transmit(f: Frame)
      requires Valid()
      modifies this, tracker, ge
      ensures Valid()
      ensures View() == Nexthop(rule, ModeOf(), old(View()), f)
    {
      if !InScope(rule, f) {
        passthrough := passthrough + 1;
        delivered := delivered + [f];
        return;
      }
      var index := tracker.Index(f);
      var drop;
      if perAttempt {
        drop := ge.Step();
      } else {
        drop := Decide(rule, index);
      }
      log := log + [Row(f, index, tracker.epoch, drop)];
      if drop {
        injectedDrops := injectedDrops + 1;
      } else {
        forwarded := forwarded + 1;
        delivered := delivered + [f];
      }
    }
  }

  class LossyProxy {
    const rule: Rule
    const mtu: u16
    const overhead: u16
    var lastSeq: u16
    var haveLast: bool
    var epoch: u32
    var kept: nat
    var drops: nat
    var log: seq<LogRow>
    var sent: seq<Frame>

    ghost function View(): Proxy
      reads this
    {
      Proxy(lastSeq, haveLast, epoch, kept, drops, log, sent)
    }

    constructor (rule: Rule, mtu: u16, overhead: u16)
      ensures View() == NEW_PROXY
      ensures this.rule == rule && this.mtu == mtu && this.overhead == overhead
    {
      this.rule, this.mtu, this.overhead := rule, mtu, overhead;
      lastSeq, haveLast, epoch, kept, drops := 0, false, 0, 0, 0;
      log, sent := [], [];
    }

    /** One frame of the forwarding loop; `coin` is what rand() says, for when no port is matched. */
    method Forward(f: Frame, coin: bool)
      modifies this
      ensures View() == ProxyStep(rule, mtu, overhead, old(View()), f, coin)
    {
      var drop := false;
      if rule.matchDport < 0 {
        drop := coin;
      } else if InScope(rule, f) {
        var index := 0;
        if f.IsRdp() {
          var h := ParseTrailer(f.data);
          if h.Some? {
            if haveLast && IsWrap(lastSeq, h.value.seq16) {
              epoch := (epoch + 1) % 0x1_0000_0000;
            }
            lastSeq := h.value.seq16;
            haveLast := true;
            index := RdpIndex(epoch, h.value.seq16);
          }
        } else {
          index := Fragment(f.data, mtu, overhead);
        }
        drop := Decide(rule, index);
        log := log + [Row(f, index, epoch, drop)];
      }
      if !drop {
        sent := sent + [f];
        kept := kept + 1;
      } else {
        drops := drops + 1;
      }
    }
  }
}
