/** tests/e2e/ci_inject_bridge.c: the split-horizon pump between two media that may reflect what it sends. */
module Bridge {
  import opened Machine
  import opened DropRule
  import opened InjectorSpec
  import opened Injectors

  datatype Side = Ingress | Egress

  /** What becomes of a frame that was read. */
  datatype Outcome = Deduplicated | EchoIn | EchoOut | ToEgress | ToIngress

  /** The pump's decision: ingress forwards only the source's frames, egress only everyone else's. */
  function Classify(srcAddr: u16, side: Side, src: u16, duplicate: bool): Outcome {
    if duplicate then Deduplicated
    else match side
      case Ingress => if src != srcAddr then EchoIn else ToEgress
      case Egress => if src == srcAddr then EchoOut else ToIngress
  }

  predicate Crosses(o: Outcome) {
    o == ToEgress || o == ToIngress
  }

  // ---- the pump

  /** One frame from the queue, and whether the duplicate filter claims it. */
  datatype Read = Read(side: Side, frame: Frame, duplicate: bool)

  function OutcomeOf(srcAddr: u16, r: Read): Outcome {
    Classify(srcAddr, r.side, r.frame.src, r.duplicate)
  }

  /** The frames of the queue with outcome `o`, in order; queue timeouts are `None`. */
  function Selected(srcAddr: u16, queue: seq<Option<Read>>, o: Outcome): seq<Frame> {
    if queue == [] then []
    else
      var n := |queue| - 1;
      Selected(srcAddr, queue[..n], o)
      + if queue[n].Some? && OutcomeOf(srcAddr, queue[n].value) == o then [queue[n].value.frame] else []
  }

  function Count(queue: seq<Option<Read>>): nat {
    if queue == [] then 0 else Count(queue[..|queue| - 1]) + if queue[|queue| - 1].Some? then 1 else 0
  }

  /** What the bridge holds: echo counters, frames sent back out of the ingress, and the shim. */
  datatype Pumped = Pumped(echoIn: nat, echoOut: nat, returned: seq<Frame>, shim: Shim)

  function PumpOne(srcAddr: u16, rule: Rule, mode: Mode, b: Pumped, r: Read): Pumped {
    match OutcomeOf(srcAddr, r)
    case Deduplicated => b
    case EchoIn => b.(echoIn := b.echoIn + 1)
    case EchoOut => b.(echoOut := b.echoOut + 1)
    case ToIngress => b.(returned := b.returned + [r.frame])
    case ToEgress => b.(shim := Nexthop(rule, mode, b.shim, r.frame))
  }

  function PumpAll(srcAddr: u16, rule: Rule, mode: Mode, b: Pumped, queue: seq<Option<Read>>): Pumped {
    if queue == [] then b
    else
      var n := |queue| - 1;
      var before := PumpAll(srcAddr, rule, mode, b, queue[..n]);
      if queue[n].Some? then PumpOne(srcAddr, rule, mode, before, queue[n].value) else before
  }

  function TransmitAll(rule: Rule, mode: Mode, s: Shim, frames: seq<Frame>): Shim {
    if frames == [] then s
    else Nexthop(rule, mode, TransmitAll(rule, mode, s, frames[..|frames| - 1]), frames[|frames| - 1])
  }

  /**
   * The shim sees exactly the source's frames read on the ingress side, in order; the ingress gets
   * exactly the others' frames read on the egress side; the echo counters count the rest.
   */
  lemma {:induction false} PumpSelects(srcAddr: u16, rule: Rule, mode: Mode, b: Pumped, queue: seq<Option<Read>>)
    ensures PumpAll(srcAddr, rule, mode, b, queue) == ByOutcome(srcAddr, rule, mode, b, queue)
  {
    if queue == [] {
      assert b.returned + [] == b.returned;
    } else {
      var n := |queue| - 1;
      PumpSelects(srcAddr, rule, mode, b, queue[..n]);
      if queue[n].Some? {
        ByOutcomeNext(srcAddr, rule, mode, b, queue[..n], queue[n].value);
        assert queue == queue[..n] + [Some(queue[n].value)];
      } else {
        ByOutcomeSkip(srcAddr, rule, mode, b, queue[..n]);
        assert queue == queue[..n] + [None];
      }
    }
  }

  /** The bridge after its reads are sorted by outcome. */
  function ByOutcome(srcAddr: u16, rule: Rule, mode: Mode, b: Pumped, queue: seq<Option<Read>>): Pumped {
    Pumped(b.echoIn + |Selected(srcAddr, queue, EchoIn)|, b.echoOut + |Selected(srcAddr, queue, EchoOut)|,
           b.returned + Selected(srcAddr, queue, ToIngress),
           TransmitAll(rule, mode, b.shim, Selected(srcAddr, queue, ToEgress)))
  }

  lemma ByOutcomeNext(srcAddr: u16, rule: Rule, mode: Mode, b: Pumped, queue: seq<Option<Read>>, r: Read)
    ensures ByOutcome(srcAddr, rule, mode, b, queue + [Some(r)]) == PumpOne(srcAddr, rule, mode, ByOutcome(srcAddr, rule, mode, b, queue), r)
  {
    SelectedNext(srcAddr, queue, r, EchoIn);
    SelectedNext(srcAddr, queue, r, EchoOut);
    SelectedNext(srcAddr, queue, r, ToIngress);
    SelectedNext(srcAddr, queue, r, ToEgress);
    Regroup(b.returned, Selected(srcAddr, queue, ToIngress), [r.frame]);
    TransmitNext(rule, mode, b.shim, Selected(srcAddr, queue, ToEgress), r.frame);
  }

  lemma ByOutcomeSkip(srcAddr: u16, rule: Rule, mode: Mode, b: Pumped, queue: seq<Option<Read>>)
    ensures ByOutcome(srcAddr, rule, mode, b, queue + [None]) == ByOutcome(srcAddr, rule, mode, b, queue)
  {
    SelectedSkip(srcAddr, queue, EchoIn);
    SelectedSkip(srcAddr, queue, EchoOut);
    SelectedSkip(srcAddr, queue, ToIngress);
    SelectedSkip(srcAddr, queue, ToEgress);
  }

  /** Frames the duplicate filter claimed. */
  function Duplicates(queue: seq<Option<Read>>): nat {
    if queue == [] then 0
    else
      var last := queue[|queue| - 1];
      Duplicates(queue[..|queue| - 1]) + if last.Some? && last.value.duplicate then 1 else 0
  }

  /** How often the shim was called. */
  function Calls(s: Shim): nat {
    s.drops + s.forwarded + s.passthrough
  }

  /**
   * The bridge's own counters account for every frame read exactly once: claimed as a duplicate,
   * counted as an echo on one side or the other, sent back out of the ingress, or given to the shim,
   * which counts it as dropped, forwarded or passed through.
   */
  lemma {:induction false} PumpAccounts(srcAddr: u16, rule: Rule, mode: Mode, b: Pumped, queue: seq<Option<Read>>)
    ensures var r := PumpAll(srcAddr, rule, mode, b, queue);
            r.echoIn + r.echoOut + |r.returned| + Calls(r.shim) + Duplicates(queue)
            == b.echoIn + b.echoOut + |b.returned| + Calls(b.shim) + Count(queue)
  {
    if queue != [] {
      PumpAccounts(srcAddr, rule, mode, b, queue[..|queue| - 1]);
    }
  }

  class InjectBridge {
    const srcAddr: u16
    const shim: DropShim
    var echoIn: nat
    var echoOut: nat
    /** Frames sent back out of the ingress interface. */
    var returned: seq<Frame>

    constructor (srcAddr: u16, shim: DropShim)
      ensures this.srcAddr == srcAddr && this.shim == shim
      ensures echoIn == echoOut == 0 && returned == []
    {
      this.srcAddr, this.shim := srcAddr, shim;
      echoIn, echoOut, returned := 0, 0, [];
    }

    ghost function View(): Pumped
      reads this, shim, shim.tracker
    {
      Pumped(echoIn, echoOut, returned, shim.View())
    }

    /** The body of the pump loop, for a frame the queue yielded. */
    method Handle(r: Read)
      requires shim.Valid()
      modifies this, shim, shim.tracker, shim.ge
      ensures shim.Valid()
      ensures View() == PumpOne(srcAddr, shim.rule, shim.ModeOf(), old(View()), r)
    {
      if r.duplicate {
        return;
      }
      if r.side == Ingress {
        if r.frame.src != srcAddr {
          echoIn := echoIn + 1;
          return;
        }
        shim.Transmit(r.frame);
      } else {
        if r.frame.src == srcAddr {
          echoOut := echoOut + 1;
          return;
        }
        returned := returned + [r.frame];
      }
    }

    /** The pump loop, over what the queue yields. */
    method Pump(queue: seq<Option<Read>>)
      requires shim.Valid()
      modifies this, shim, shim.tracker, shim.ge
      ensures shim.Valid()
      ensures View() == PumpAll(srcAddr, shim.rule, shim.ModeOf(), old(View()), queue)
    {
      for i := 0 to |queue|
        invariant shim.Valid()
        invariant View() == PumpAll(srcAddr, shim.rule, shim.ModeOf(), old(View()), queue[..i])
      {
        assert queue[..i + 1][..i] == queue[..i];
        if queue[i].Some? {
          Handle(queue[i].value);
        }
      }
      assert queue[..|queue|] == queue;
    }
  }

  lemma SelectedNext(srcAddr: u16, queue: seq<Option<Read>>, r: Read, o: Outcome)
    ensures Selected(srcAddr, queue + [Some(r)], o)
         == if OutcomeOf(srcAddr, r) == o then Selected(srcAddr, queue, o) + [r.frame] else Selected(srcAddr, queue, o)
  {
    assert (queue + [Some(r)])[..|queue|] == queue;
  }

  lemma SelectedSkip(srcAddr: u16, queue: seq<Option<Read>>, o: Outcome)
    ensures Selected(srcAddr, queue + [None], o) == Selected(srcAddr, queue, o)
  {
    assert (queue + [None])[..|queue|] == queue;
  }

  lemma TransmitNext(rule: Rule, mode: Mode, s: Shim, frames: seq<Frame>, f: Frame)
    ensures TransmitAll(rule, mode, s, frames + [f]) == Nexthop(rule, mode, TransmitAll(rule, mode, s, frames), f)
  {
    assert (frames + [f])[..|frames|] == frames;
  }
}

/** The bridge between two reflecting media, as a system of frames in flight. */
module BridgeNetwork {
  import opened Machine
  import opened DropRule
  import opened InjectorSpec
  import opened Bridge

  /** What the bridge is set up with: the address of the source, and the shim's rule and mode. */
  datatype Setup = Setup(srcAddr: u16, rule: Rule, mode: Mode)

  /** A frame on its way to the bridge: an original, or a reflection of what the bridge sent for one. */
  datatype InFlight = InFlight(side: Side, frame: Frame, reflected: bool)

  /**
   * The frames in flight, the counters, and the originals that were read and handed on: to the shim
   * and through it (`reached`), to the shim and dropped by it (`lost`), or back out of the ingress
   * (`returned`).
   */
  datatype Net = Net(flight: seq<InFlight>, dedup: nat, echoIn: nat, echoOut: nat,
                     reached: seq<InFlight>, lost: seq<InFlight>, returned: seq<InFlight>, shim: Shim)

  /** One read: which frame, what the filter says, and how many copies the far medium reflects if it is sent. */
  datatype Choice = Choice(i: nat, duplicate: bool, copies: nat)

  predicate Enabled(n: Net, c: Choice, limit: nat) {
    c.i < |n.flight| && c.copies <= limit
  }

  function Without(s: seq<InFlight>, i: nat): seq<InFlight>
    requires i < |s|
  {
    s[..i] + s[i + 1..]
  }

  function Copies(x: InFlight, n: nat): (s: seq<InFlight>)
    ensures |s| == n && forall k | 0 <= k < n :: s[k] == x
  {
    seq(n, _ => x)
  }

  function OutcomeAt(b: Setup, n: Net, c: Choice): Outcome
    requires c.i < |n.flight|
  {
    Classify(b.srcAddr, n.flight[c.i].side, n.flight[c.i].frame.src, c.duplicate)
  }

  /** The shim lets `f` through. */
  predicate Passes(b: Setup, s: Shim, f: Frame) {
    |Nexthop(b.rule, b.mode, s, f).delivered| > |s.delivered|
  }

  /** The reflection of `x` on `side`. */
  function Echo(x: InFlight, side: Side): InFlight {
    InFlight(side, x.frame, true)
  }

  /** The bridge reads frame `c.i`; what it sends may come back, reflected, on the side it was sent to. */
  function Step(b: Setup, n: Net, c: Choice): Net
    requires c.i < |n.flight|
  {
    var x := n.flight[c.i];
    var rest := Without(n.flight, c.i);
    match OutcomeAt(b, n, c)
    case Deduplicated => n.(flight := rest, dedup := n.dedup + 1)
    case EchoIn => n.(flight := rest, echoIn := n.echoIn + 1)
    case EchoOut => n.(flight := rest, echoOut := n.echoOut + 1)
    case ToIngress => n.(flight := rest + Copies(Echo(x, Ingress), c.copies), returned := n.returned + [x])
    case ToEgress =>
      var after := n.(shim := Nexthop(b.rule, b.mode, n.shim, x.frame));
      if Passes(b, n.shim, x.frame)
      then after.(flight := rest + Copies(Echo(x, Egress), c.copies), reached := n.reached + [x])
      else after.(flight := rest, lost := n.lost + [x])
  }

  /** Nothing read yet, nothing reflected yet, a new shim. */
  ghost predicate Start(n: Net, mtu: u16, overhead: u16) {
    && n.dedup == n.echoIn == n.echoOut == 0 && n.reached == n.lost == n.returned == []
    && n.shim == NewShim(mtu, overhead)
    && (forall k | 0 <= k < |n.flight| :: !n.flight[k].reflected)
  }

  /** A reflection is on the egress side exactly when it carries the source's address. */
  ghost predicate ReflectionsMarked(b: Setup, n: Net) {
    forall k | 0 <= k < |n.flight| :: n.flight[k].reflected ==> (n.flight[k].side == Egress <==> n.flight[k].frame.src == b.srcAddr)
  }

  /** What the bridge forwards is always an original. */
  lemma OnlyOriginalsCross(b: Setup, n: Net, c: Choice)
    requires ReflectionsMarked(b, n) && c.i < |n.flight| && Crosses(OutcomeAt(b, n, c))
    ensures !n.flight[c.i].reflected
  {}

  lemma FlightAfter(b: Setup, n: Net, c: Choice, k: nat) returns (j: nat)
    requires c.i < |n.flight| && k < |Step(b, n, c).flight|
    requires !Step(b, n, c).flight[k].reflected || k < |n.flight| - 1
    ensures j < |n.flight| && n.flight[j] == Step(b, n, c).flight[k]
  {
    j := if k < c.i then k else k + 1;
  }

  lemma StepKeepsMarks(b: Setup, n: Net, c: Choice)
    requires ReflectionsMarked(b, n) && c.i < |n.flight|
    ensures ReflectionsMarked(b, Step(b, n, c))
  {
    var r := Step(b, n, c);
    forall k | 0 <= k < |r.flight| && r.flight[k].reflected
      ensures r.flight[k].side == Egress <==> r.flight[k].frame.src == b.srcAddr
    {
      if k < |n.flight| - 1 {
        var j := FlightAfter(b, n, c, k);
      }
    }
  }

  // ---- sums over frames

  /** The sum of `w` over the frames of `s`. */
  function Sum(s: seq<InFlight>, w: InFlight -> nat): nat {
    if s == [] then 0 else Sum(s[..|s| - 1], w) + w(s[|s| - 1])
  }

  lemma {:induction false} SumOfConcat(a: seq<InFlight>, b: seq<InFlight>, w: InFlight -> nat)
    ensures Sum(a + b, w) == Sum(a, w) + Sum(b, w)
  {
    if b == [] {
      assert a + b == a;
    } else {
      var n := |b| - 1;
      assert (a + b)[..|a| + n] == a + b[..n];
      SumOfConcat(a, b[..n], w);
    }
  }

  lemma {:induction false} SumOfCopies(x: InFlight, n: nat, w: InFlight -> nat)
    ensures w(x) == 1 ==> Sum(Copies(x, n), w) == n
    ensures w(x) == 0 ==> Sum(Copies(x, n), w) == 0
  {
    if n > 0 {
      assert Copies(x, n)[..n - 1] == Copies(x, n - 1);
      SumOfCopies(x, n - 1, w);
    }
  }

  lemma SumWithout(s: seq<InFlight>, i: nat, w: InFlight -> nat)
    requires i < |s|
    ensures Sum(s, w) == Sum(Without(s, i), w) + w(s[i])
  {
    Pieces(s, i);
    SumOfInsert(s[..i], s[i], s[i + 1..], w);
  }

  lemma SumOfInsert(a: seq<InFlight>, x: InFlight, b: seq<InFlight>, w: InFlight -> nat)
    ensures Sum(a + [x] + b, w) == Sum(a + b, w) + w(x)
  {
    SumOfConcat(a + [x], b, w);
    SumOfConcat(a, b, w);
    assert (a + [x])[..|a|] == a;
  }

  lemma Pieces(s: seq<InFlight>, i: nat)
    requires i < |s|
    ensures s == s[..i] + [s[i]] + s[i + 1..]
  {}

  lemma SumOfNext(s: seq<InFlight>, x: InFlight, w: InFlight -> nat)
    ensures Sum(s + [x], w) == Sum(s, w) + w(x)
  {
    assert (s + [x])[..|s|] == s;
  }

  // ---- originals

  function Is(x: InFlight): InFlight -> nat {
    (y: InFlight) => if y == x then 1 else 0
  }

  /** How often `x` occurs in `s`. */
  function Times(s: seq<InFlight>, x: InFlight): nat {
    Sum(s, Is(x))
  }

  /** How often the bridge has handed `x` on. */
  function Crossings(n: Net, x: InFlight): nat {
    Times(n.reached, x) + Times(n.lost, x) + Times(n.returned, x)
  }

  /** How often `x` is in flight or was handed on. */
  function Accounted(n: Net, x: InFlight): nat {
    Times(n.flight, x) + Crossings(n, x)
  }

  /** A read loses an original only if it is deduplicated or taken for an echo, and never makes one. */
  lemma StepAccounts(b: Setup, n: Net, c: Choice, x: InFlight)
    requires ReflectionsMarked(b, n) && c.i < |n.flight| && !x.reflected
    ensures Accounted(n, x)
         == Accounted(Step(b, n, c), x) + if Crosses(OutcomeAt(b, n, c)) || n.flight[c.i] != x then 0 else 1
  {
    SumWithout(n.flight, c.i, Is(x));
    if Crosses(OutcomeAt(b, n, c)) {
      CrossedNext(b, n, c, x);
      FlightNext(b, n, c, x);
    }
  }

  lemma FlightNext(b: Setup, n: Net, c: Choice, x: InFlight)
    requires c.i < |n.flight| && !x.reflected && Crosses(OutcomeAt(b, n, c))
    ensures Times(Step(b, n, c).flight, x) == Times(Without(n.flight, c.i), x)
  {
    var y := n.flight[c.i];
    var back := Echo(y, if y.side == Ingress then Egress else Ingress);
    SumOfConcat(Without(n.flight, c.i), Copies(back, c.copies), Is(x));
    SumOfCopies(back, c.copies, Is(x));
  }

  lemma CrossedNext(b: Setup, n: Net, c: Choice, x: InFlight)
    requires c.i < |n.flight| && Crosses(OutcomeAt(b, n, c))
    ensures Crossings(Step(b, n, c), x) == Crossings(n, x) + Is(x)(n.flight[c.i])
  {
    var y := n.flight[c.i];
    if OutcomeAt(b, n, c) == ToIngress {
      SumOfNext(n.returned, y, Is(x));
    } else if Passes(b, n.shim, y.frame) {
      SumOfNext(n.reached, y, Is(x));
    } else {
      SumOfNext(n.lost, y, Is(x));
    }
  }

  // ---- the shim

  function Frames(s: seq<InFlight>): seq<Frame> {
    seq(|s|, k requires 0 <= k < |s| => s[k].frame)
  }

  /** What the shim holds: it delivered what reached the egress, in order, and dropped what was lost. */
  ghost predicate ShimAgrees(n: Net) {
    n.shim.delivered == Frames(n.reached) && n.shim.drops == |n.lost|
  }

  lemma StepKeepsShim(b: Setup, n: Net, c: Choice)
    requires ShimAgrees(n) && c.i < |n.flight|
    ensures ShimAgrees(Step(b, n, c))
  {
    var x := n.flight[c.i];
    assert Frames(n.reached + [x]) == Frames(n.reached) + [x.frame];
    NexthopDelivers(b, n.shim, x.frame);
  }

  /** One call delivers the frame or counts a drop. */
  lemma NexthopDelivers(b: Setup, s: Shim, f: Frame)
    ensures var t := Nexthop(b.rule, b.mode, s, f);
            if Passes(b, s, f) then t.delivered == s.delivered + [f] && t.drops == s.drops
            else t.delivered == s.delivered && t.drops == s.drops + 1
  {}

  // ---- weight

  /** An original weighs one more than all its reflections can. */
  function WeightOf(limit: nat): InFlight -> nat {
    (x: InFlight) => if x.reflected then 1 else limit + 1
  }

  function Weight(flight: seq<InFlight>, limit: nat): nat {
    Sum(flight, WeightOf(limit))
  }

  /** Every read makes the weight of what is in flight smaller. */
  lemma StepLosesWeight(b: Setup, n: Net, c: Choice, limit: nat)
    requires ReflectionsMarked(b, n) && Enabled(n, c, limit)
    ensures Weight(Step(b, n, c).flight, limit) < Weight(n.flight, limit)
  {
    var x := n.flight[c.i];
    SumWithout(n.flight, c.i, WeightOf(limit));
    if Crosses(OutcomeAt(b, n, c)) {
      OnlyOriginalsCross(b, n, c);
      var back := Echo(x, if x.side == Ingress then Egress else Ingress);
      SumOfConcat(Without(n.flight, c.i), Copies(back, c.copies), WeightOf(limit));
      SumOfCopies(back, c.copies, WeightOf(limit));
    }
  }

  // ---- runs

  /** `choices` can be made one after the other from `n`, each reflection at most `limit` copies. */
  ghost predicate Possible(b: Setup, n: Net, choices: seq<Choice>, limit: nat)
    decreases |choices|
  {
    choices == [] || (Enabled(n, choices[0], limit) && Possible(b, Step(b, n, choices[0]), choices[1..], limit))
  }

  function After(b: Setup, n: Net, choices: seq<Choice>): Net
    decreases |choices|
  {
    if choices == [] || choices[0].i >= |n.flight| then n else After(b, Step(b, n, choices[0]), choices[1..])
  }

  /** No run is longer than the weight it starts with, so the pump goes quiet whatever is reflected. */
  lemma {:induction false} RunsAreBounded(b: Setup, n: Net, choices: seq<Choice>, limit: nat)
    requires ReflectionsMarked(b, n) && Possible(b, n, choices, limit)
    ensures |choices| + Weight(After(b, n, choices).flight, limit) <= Weight(n.flight, limit)
    decreases |choices|
  {
    if choices != [] {
      StepKeepsMarks(b, n, choices[0]);
      StepLosesWeight(b, n, choices[0], limit);
      RunsAreBounded(b, Step(b, n, choices[0]), choices[1..], limit);
    }
  }

  lemma {:induction false} RunsMakeNoOriginals(b: Setup, n: Net, choices: seq<Choice>, limit: nat, x: InFlight)
    requires ReflectionsMarked(b, n) && Possible(b, n, choices, limit) && !x.reflected
    ensures Accounted(After(b, n, choices), x) <= Accounted(n, x)
    decreases |choices|
  {
    if choices != [] {
      StepKeepsMarks(b, n, choices[0]);
      StepAccounts(b, n, choices[0], x);
      RunsMakeNoOriginals(b, Step(b, n, choices[0]), choices[1..], limit, x);
    }
  }

  /** What was handed on were originals; what the shim got came from the ingress side, what went back from the egress side. */
  ghost predicate Sorted(n: Net) {
    && (forall k | 0 <= k < |n.reached| :: !n.reached[k].reflected && n.reached[k].side == Ingress)
    && (forall k | 0 <= k < |n.lost| :: !n.lost[k].reflected && n.lost[k].side == Ingress)
    && (forall k | 0 <= k < |n.returned| :: !n.returned[k].reflected && n.returned[k].side == Egress)
  }

  lemma StepKeepsSorted(b: Setup, n: Net, c: Choice)
    requires ReflectionsMarked(b, n) && Sorted(n) && c.i < |n.flight|
    ensures Sorted(Step(b, n, c))
  {
    if Crosses(OutcomeAt(b, n, c)) {
      OnlyOriginalsCross(b, n, c);
    }
  }

  lemma {:induction false} RunKeeps(b: Setup, n: Net, choices: seq<Choice>, limit: nat)
    requires ReflectionsMarked(b, n) && ShimAgrees(n) && Sorted(n) && Possible(b, n, choices, limit)
    ensures ShimAgrees(After(b, n, choices)) && Sorted(After(b, n, choices))
    decreases |choices|
  {
    if choices != [] {
      StepKeepsMarks(b, n, choices[0]);
      StepKeepsShim(b, n, choices[0]);
      StepKeepsSorted(b, n, choices[0]);
      RunKeeps(b, Step(b, n, choices[0]), choices[1..], limit);
    }
  }

  /** How many frames were read. */
  function Reads(n: Net): nat {
    n.dedup + n.echoIn + n.echoOut + |n.reached| + |n.lost| + |n.returned|
  }

  /** Every frame read is counted exactly once. */
  lemma {:induction false} ReadsAccounted(b: Setup, n: Net, choices: seq<Choice>, limit: nat)
    requires Possible(b, n, choices, limit)
    ensures Reads(After(b, n, choices)) == Reads(n) + |choices|
    decreases |choices|
  {
    if choices != [] {
      ReadsAccounted(b, Step(b, n, choices[0]), choices[1..], limit);
    }
  }

  /**
   * The bridge never loops: from any originals, over every run and whatever the media reflect, each
   * original crosses at most once, nothing else crosses, the number of reads is bounded, every read
   * is counted once, and what reached the egress is what the shim delivered.
   */
  lemma NeverLoops(b: Setup, n: Net, mtu: u16, overhead: u16, choices: seq<Choice>, limit: nat)
    requires Start(n, mtu, overhead) && Possible(b, n, choices, limit)
    ensures forall x: InFlight | !x.reflected :: Crossings(After(b, n, choices), x) <= Times(n.flight, x)
    ensures Sorted(After(b, n, choices)) && ShimAgrees(After(b, n, choices))
    ensures Reads(After(b, n, choices)) == |choices| <= (limit + 1) * |n.flight|
  {
    RunsAreBounded(b, n, choices, limit);
    RunKeeps(b, n, choices, limit);
    ReadsAccounted(b, n, choices, limit);
    WeightOfOriginals(n.flight, limit);
    forall x: InFlight | !x.reflected
      ensures Crossings(After(b, n, choices), x) <= Times(n.flight, x)
    {
      RunsMakeNoOriginals(b, n, choices, limit, x);
    }
  }

  lemma {:induction false} WeightOfOriginals(s: seq<InFlight>, limit: nat)
    requires forall k | 0 <= k < |s| :: !s[k].reflected
    ensures Weight(s, limit) == (limit + 1) * |s|
  {
    if s != [] {
      WeightOfOriginals(s[..|s| - 1], limit);
    }
  }

  // ---- quiescence

  /** Originals are where the topology puts them: the source's on the ingress side, the others' on the egress side. */
  ghost predicate Placed(b: Setup, n: Net) {
    forall k | 0 <= k < |n.flight| :: !n.flight[k].reflected ==> (n.flight[k].side == Ingress <==> n.flight[k].frame.src == b.srcAddr)
  }

  /** With the source on the ingress side only, what is not a duplicate crosses exactly if it is an original. */
  lemma OriginalsCross(b: Setup, n: Net, c: Choice)
    requires ReflectionsMarked(b, n) && Placed(b, n) && c.i < |n.flight| && !c.duplicate
    ensures var x := n.flight[c.i];
            OutcomeAt(b, n, c)
            == if x.reflected then (if x.side == Ingress then EchoIn else EchoOut)
               else if x.side == Ingress then ToEgress else ToIngress
  {}

  lemma StepKeepsPlaced(b: Setup, n: Net, c: Choice)
    requires Placed(b, n) && c.i < |n.flight|
    ensures Placed(b, Step(b, n, c))
  {
    var r := Step(b, n, c);
    forall k | 0 <= k < |r.flight| && !r.flight[k].reflected
      ensures r.flight[k].side == Ingress <==> r.flight[k].frame.src == b.srcAddr
    {
      var j := FlightAfter(b, n, c, k);
    }
  }

  /** Counts the reflections on one side. */
  function EchoOn(side: Side): InFlight -> nat {
    (x: InFlight) => if x.reflected && x.side == side then 1 else 0
  }

  function Echoes(n: Net, side: Side): nat {
    Sum(n.flight, EchoOn(side))
  }

  /** The copies that the read `c` makes the medium on `side` reflect. */
  function ReflectedBy(b: Setup, n: Net, c: Choice, side: Side): nat
    requires c.i < |n.flight|
  {
    match OutcomeAt(b, n, c)
    case ToIngress => if side == Ingress then c.copies else 0
    case ToEgress => if side == Egress && Passes(b, n.shim, n.flight[c.i].frame) then c.copies else 0
    case _ => 0
  }

  /** All the copies that the medium on `side` reflects in a run. */
  function Reflected(b: Setup, n: Net, choices: seq<Choice>, side: Side): nat
    decreases |choices|
  {
    if choices == [] || choices[0].i >= |n.flight| then 0
    else ReflectedBy(b, n, choices[0], side) + Reflected(b, Step(b, n, choices[0]), choices[1..], side)
  }

  function EchoCount(n: Net, side: Side): nat {
    if side == Ingress then n.echoIn else n.echoOut
  }

  /** A read that is not deduplicated moves a reflection from the medium to its counter, or adds the new ones. */
  lemma StepCountsEchoes(b: Setup, n: Net, c: Choice, side: Side)
    requires ReflectionsMarked(b, n) && Placed(b, n) && c.i < |n.flight| && !c.duplicate
    ensures var r := Step(b, n, c);
            EchoCount(r, side) + Echoes(r, side) == EchoCount(n, side) + Echoes(n, side) + ReflectedBy(b, n, c, side)
  {
    var x := n.flight[c.i];
    OriginalsCross(b, n, c);
    SumWithout(n.flight, c.i, EchoOn(side));
    if !x.reflected {
      EchoesSent(Without(n.flight, c.i), Echo(x, if x.side == Ingress then Egress else Ingress), c.copies, side);
    }
  }

  lemma EchoesSent(rest: seq<InFlight>, back: InFlight, copies: nat, side: Side)
    requires back.reflected
    ensures Sum(rest + Copies(back, copies), EchoOn(side))
         == Sum(rest, EchoOn(side)) + if back.side == side then copies else 0
  {
    SumOfConcat(rest, Copies(back, copies), EchoOn(side));
    SumOfCopies(back, copies, EchoOn(side));
  }

  ghost predicate NoDuplicates(choices: seq<Choice>) {
    forall k | 0 <= k < |choices| :: !choices[k].duplicate
  }

  lemma StepLosesNoOriginal(b: Setup, n: Net, c: Choice, x: InFlight)
    requires ReflectionsMarked(b, n) && Placed(b, n) && c.i < |n.flight| && !c.duplicate && !x.reflected
    ensures Accounted(Step(b, n, c), x) == Accounted(n, x)
  {
    OriginalsCross(b, n, c);
    StepAccounts(b, n, c, x);
  }

  /** Without deduplication no original is lost on the way. */
  lemma {:induction false} RunLosesNoOriginal(b: Setup, n: Net, choices: seq<Choice>, limit: nat, x: InFlight)
    requires ReflectionsMarked(b, n) && Placed(b, n) && Possible(b, n, choices, limit) && NoDuplicates(choices) && !x.reflected
    ensures Accounted(After(b, n, choices), x) == Accounted(n, x)
    decreases |choices|
  {
    if choices != [] {
      var c := choices[0];
      StepKeepsMarks(b, n, c);
      StepKeepsPlaced(b, n, c);
      StepLosesNoOriginal(b, n, c, x);
      RunLosesNoOriginal(b, Step(b, n, c), choices[1..], limit, x);
    }
  }

  lemma {:induction false} RunCountsEchoes(b: Setup, n: Net, choices: seq<Choice>, limit: nat, side: Side)
    requires ReflectionsMarked(b, n) && Placed(b, n) && Possible(b, n, choices, limit) && NoDuplicates(choices)
    ensures var r := After(b, n, choices);
            EchoCount(r, side) + Echoes(r, side) == EchoCount(n, side) + Echoes(n, side) + Reflected(b, n, choices, side)
    decreases |choices|
  {
    if choices != [] {
      var c := choices[0];
      StepKeepsMarks(b, n, c);
      StepKeepsPlaced(b, n, c);
      StepCountsEchoes(b, n, c, side);
      RunCountsEchoes(b, Step(b, n, c), choices[1..], limit, side);
    }
  }

  lemma {:induction false} NoEchoes(s: seq<InFlight>, side: Side)
    requires forall k | 0 <= k < |s| :: !s[k].reflected
    ensures Sum(s, EchoOn(side)) == 0
  {
    if s != [] {
      NoEchoes(s[..|s| - 1], side);
    }
  }

  /**
   * With the source on the ingress side only and nothing deduplicated, once the media are quiet:
   * every original has crossed, exactly once, and nothing else has; the source's reached the egress,
   * in the order in which the shim delivered them, or were dropped by it, and the others went back out
   * of the ingress; each echo counter is the number of copies its medium reflected.
   */
  lemma Quiescence(b: Setup, n: Net, mtu: u16, overhead: u16, choices: seq<Choice>, limit: nat)
    requires Start(n, mtu, overhead) && Placed(b, n) && Possible(b, n, choices, limit) && NoDuplicates(choices)
    requires After(b, n, choices).flight == []
    ensures forall x: InFlight | !x.reflected :: Crossings(After(b, n, choices), x) == Times(n.flight, x)
    ensures Sorted(After(b, n, choices)) && ShimAgrees(After(b, n, choices))
    ensures After(b, n, choices).echoIn == Reflected(b, n, choices, Ingress)
    ensures After(b, n, choices).echoOut == Reflected(b, n, choices, Egress)
  {
    EchoesAtEnd(b, n, choices, limit, Ingress);
    EchoesAtEnd(b, n, choices, limit, Egress);
    RunKeeps(b, n, choices, limit);
    forall x: InFlight | !x.reflected
      ensures Crossings(After(b, n, choices), x) == Times(n.flight, x)
    {
      RunLosesNoOriginal(b, n, choices, limit, x);
    }
  }

  lemma EchoesAtEnd(b: Setup, n: Net, choices: seq<Choice>, limit: nat, side: Side)
    requires ReflectionsMarked(b, n) && Placed(b, n) && Possible(b, n, choices, limit) && NoDuplicates(choices)
    requires EchoCount(n, side) == 0 && (forall k | 0 <= k < |n.flight| :: !n.flight[k].reflected)
    requires After(b, n, choices).flight == []
    ensures EchoCount(After(b, n, choices), side) == Reflected(b, n, choices, side)
  {
    NoEchoes(n.flight, side);
    RunCountsEchoes(b, n, choices, limit, side);
  }
}
