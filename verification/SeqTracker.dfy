/** lib/ci_meas.c, the sequence tracker as values: a 16-bit unwrapper over a 2048-bit circular bitmap. */
module SeqSpec {
  import opened Machine

  const WIN: int := 2048

  /** ci_seq_tracker_t, its bitmap as 2048 flags. */
  datatype Tracker = Tracker(
    have: bool, first: int, max: int,
    nSeen: nat, nDistinct: nat, nDup: nat, nReorder: nat, nGap: nat,
    epoch: u32, bits: seq<bool>
  )

  datatype Kind = InOrder | Gap | Duplicate | Reorder

  /** The bitmap slot of a position; 2048 divides 2^64, so a position below 0 has the slot C gives it. */
  function Slot(pos: int): nat {
    pos % 2048
  }

  /** The signed 16-bit distance from the head. */
  function SignedDiff(seq16: u16, max: int): int {
    var d := (seq16 - max) % 0x1_0000;
    if d >= 0x8000 then d - 0x1_0000 else d
  }

  function Epoch(max: int): u32 {
    max / 0x1_0000 % 0x1_0000_0000
  }

  /** The slots of positions `from` up to but excluding `end` cleared. */
  function Clear(bits: seq<bool>, from: int, end: int): (r: seq<bool>)
    requires |bits| == WIN
    ensures |r| == WIN
    decreases end - from
  {
    if from >= end then bits else Clear(bits, from, end - 1)[Slot(end - 1) := false]
  }

  function ClearFrom(max: int, unwrapped: int): int {
    if unwrapped - max > WIN then unwrapped - WIN else max + 1
  }

  /** ci_seq_tracker_init. */
  function Initial(): Tracker {
    Tracker(false, 0, 0, 0, 0, 0, 0, 0, 0, seq(2048, _ => false))
  }

  /** A feed after the first, once it is counted as seen and its position is known. */
  function FeedAt(t: Tracker, pos: int): (Tracker, Kind)
    requires |t.bits| == WIN
  {
    if pos > t.max then
      (t.(nDistinct := t.nDistinct + 1, max := pos, epoch := Epoch(pos),
          bits := Clear(t.bits, ClearFrom(t.max, pos), pos)[Slot(pos) := true],
          nGap := t.nGap + (pos - t.max) - 1),
       if pos - t.max > 1 then Gap else InOrder)
    else if t.bits[Slot(pos)] then (t.(nDup := t.nDup + 1), Duplicate)
    else
      (t.(nDistinct := t.nDistinct + 1, nReorder := t.nReorder + 1, bits := t.bits[Slot(pos) := true]), Reorder)
  }

  function Counted(t: Tracker): Tracker {
    t.(nSeen := t.nSeen + 1)
  }

  /** ci_seq_tracker_feed. */
  function Feed(t: Tracker, seq16: u16): (Tracker, Kind)
    requires |t.bits| == WIN
  {
    if !t.have then
      (t.(have := true, first := seq16, max := seq16, nSeen := t.nSeen + 1, nDistinct := 1,
          bits := t.bits[Slot(seq16) := true], epoch := Epoch(seq16)), InOrder)
    else FeedAt(Counted(t), t.max + SignedDiff(seq16, t.max))
  }

  /** ci_seq_tracker_loss. */
  function Loss(t: Tracker): nat {
    if !t.have then 0
    else
      var span := t.max - t.first + 1;
      if span > t.nDistinct then span - t.nDistinct else 0
  }

  /** A fresh tracker fed with `seqs` in order. */
  function FeedAll(seqs: seq<u16>): (t: Tracker)
    ensures |t.bits| == WIN
  {
    if seqs == [] then Initial() else Feed(FeedAll(seqs[..|seqs| - 1]), seqs[|seqs| - 1]).0
  }
}

/** What the tracker measures. */
module SeqProperties {
  import opened Machine
  import opened SeqSpec

  // ---- conservation, for every feed sequence

  /** Every feed is distinct or a duplicate, and holes opened less holes filled is the span less what was seen. */
  ghost predicate Conserved(t: Tracker) {
    && t.nSeen == t.nDistinct + t.nDup && t.epoch == Epoch(t.max)
    && (t.have ==> t.first <= t.max && (t.max - t.first + 1) - t.nDistinct == t.nGap - t.nReorder)
    && (!t.have ==> t.nSeen == t.nDistinct == t.nDup == t.nGap == t.nReorder == 0)
  }

  lemma FeedConserves(t: Tracker, seq16: u16)
    requires |t.bits| == WIN && Conserved(t)
    ensures var r := Feed(t, seq16).0; Conserved(r) && r.have && r.nSeen == t.nSeen + 1
  {
    if t.have {
      FeedAtConserves(t, t.max + SignedDiff(seq16, t.max));
    }
  }

  lemma FeedAtConserves(t: Tracker, pos: int)
    requires |t.bits| == WIN && t.have && Conserved(t)
    ensures var r := FeedAt(Counted(t), pos).0; Conserved(r) && r.have && r.nSeen == t.nSeen + 1
  {}

  lemma {:induction false} Conservation(seqs: seq<u16>)
    ensures var t := FeedAll(seqs);
            && t.nSeen == |seqs| == t.nDistinct + t.nDup
            && (t.have <==> seqs != [])
            && (t.have ==> t.first <= t.max && (t.max - t.first + 1) - t.nDistinct == t.nGap - t.nReorder)
            && t.epoch == Epoch(t.max)
    ensures Conserved(FeedAll(seqs))
  {
    if seqs != [] {
      Conservation(seqs[..|seqs| - 1]);
      FeedConserves(FeedAll(seqs[..|seqs| - 1]), seqs[|seqs| - 1]);
    }
  }

  // ---- what each counter counts

  /** How each feed was classified, in order. */
  function Kinds(seqs: seq<u16>): (ks: seq<Kind>)
    ensures |ks| == |seqs|
  {
    if seqs == [] then []
    else
      var n := |seqs| - 1;
      Kinds(seqs[..n]) + [Feed(FeedAll(seqs[..n]), seqs[n]).1]
  }

  function Tally(ks: seq<Kind>, kind: Kind): nat {
    if ks == [] then 0 else Tally(ks[..|ks| - 1], kind) + if ks[|ks| - 1] == kind then 1 else 0
  }

  /** How far the head jumped beyond the next position, over the feeds classified as gaps. */
  function Jumped(seqs: seq<u16>): int {
    if seqs == [] then 0
    else
      var n := |seqs| - 1;
      Jumped(seqs[..n])
      + if Kinds(seqs)[n] == Gap then FeedAll(seqs).max - FeedAll(seqs[..n]).max - 1 else 0
  }

  /** What one feed does to the counters. */
  lemma FeedCounts(t: Tracker, seq16: u16)
    requires |t.bits| == WIN
    ensures var (r, kind) := Feed(t, seq16);
            && r.nReorder == t.nReorder + (if kind == Reorder then 1 else 0)
            && r.nDup == t.nDup + (if kind == Duplicate then 1 else 0)
            && r.nGap == t.nGap + (if kind == Gap then r.max - t.max - 1 else 0)
  {}

  /** Over every feed sequence each counter counts the feeds of its kind, and the gap counter the positions jumped. */
  lemma {:induction false} CountersCount(seqs: seq<u16>)
    ensures var t := FeedAll(seqs);
            && t.nReorder == Tally(Kinds(seqs), Reorder)
            && t.nDup == Tally(Kinds(seqs), Duplicate)
            && t.nGap == Jumped(seqs)
  {
    if seqs != [] {
      var n := |seqs| - 1;
      CountersCount(seqs[..n]);
      FeedCounts(FeedAll(seqs[..n]), seqs[n]);
      TallyNext(Kinds(seqs[..n]), Kinds(seqs)[n], Reorder);
      TallyNext(Kinds(seqs[..n]), Kinds(seqs)[n], Duplicate);
    }
  }

  lemma TallyNext(ks: seq<Kind>, k: Kind, kind: Kind)
    ensures Tally(ks + [k], kind) == Tally(ks, kind) + if k == kind then 1 else 0
  {
    assert (ks + [k])[..|ks|] == ks;
  }

  // ---- the circular bitmap against a set of positions

  /** What an observer with an unbounded memory of positions would answer. */
  ghost function Classify(max: int, seen: set<int>, pos: int): Kind {
    if pos == max + 1 then InOrder
    else if pos > max then Gap
    else if pos in seen then Duplicate
    else Reorder
  }

  /** Positions the tracker can tell apart from its head. */
  predicate InWindow(first: int, max: int, pos: int) {
    max - WIN < pos <= max + 0x7FFF && first <= pos
  }

  /** The tracker stands for the set `seen` of positions. */
  ghost predicate Represents(t: Tracker, seen: set<int>) {
    && t.have && |t.bits| == WIN
    && t.first in seen && t.max in seen
    && (forall p | p in seen :: t.first <= p <= t.max)
    && t.nDistinct == |seen|
    && (forall p | t.max - WIN < p <= t.max :: t.bits[Slot(p)] <==> p in seen)
  }

  lemma DiffIsExact(max: int, pos: int)
    requires -0x8000 <= pos - max <= 0x7FFF
    ensures SignedDiff(pos % 0x1_0000, max) == pos - max
  {
    assert (pos % 0x1_0000 - max) % 0x1_0000 == (pos - max) % 0x1_0000;
  }

  /** Positions less than a window apart share no slot. */
  lemma SlotsDiffer(p: int, q: int)
    requires -WIN < p - q < WIN && p != q
    ensures Slot(p) != Slot(q)
  {}

  lemma {:induction false} ClearedAt(bits: seq<bool>, from: int, end: int, p: int)
    requires |bits| == WIN && from <= end
    ensures from <= p < end ==> !Clear(bits, from, end)[Slot(p)]
    ensures (forall q | from <= q < end :: Slot(q) != Slot(p)) ==> Clear(bits, from, end)[Slot(p)] == bits[Slot(p)]
    decreases end - from
  {
    if from < end {
      ClearedAt(bits, from, end - 1, p);
    }
  }

  /** After a step forward the window still shows exactly what was seen. */
  lemma ForwardWindow(t: Tracker, seen: set<int>, pos: int, p: int)
    requires Represents(t, seen) && t.max < pos && pos - WIN < p <= pos
    ensures Clear(t.bits, ClearFrom(t.max, pos), pos)[Slot(pos) := true][Slot(p)] <==> p in seen + {pos}
  {
    var from := ClearFrom(t.max, pos);
    ClearedAt(t.bits, from, pos, p);
    if p < pos {
      SlotsDiffer(p, pos);
      if p < from {
        forall q | from <= q < pos
          ensures Slot(q) != Slot(p)
        {
          SlotsDiffer(q, p);
        }
      }
    }
  }

  /** One feed inside the window: the answer is the set's, and the tracker stands for the larger set. */
  lemma FeedRefines(t: Tracker, seen: set<int>, pos: int)
    requires Represents(t, seen) && InWindow(t.first, t.max, pos)
    ensures Feed(t, pos % 0x1_0000).1 == Classify(t.max, seen, pos)
    ensures Represents(Feed(t, pos % 0x1_0000).0, seen + {pos})
    ensures Feed(t, pos % 0x1_0000).0.max == (if pos > t.max then pos else t.max)
    ensures Feed(t, pos % 0x1_0000).0.first == t.first
  {
    FeedIsAt(t, pos);
    if pos > t.max {
      ForwardRefines(Counted(t), seen, pos);
    } else {
      BackwardRefines(Counted(t), seen, pos);
    }
  }

  /** In the window the 16-bit number gives the position back. */
  lemma FeedIsAt(t: Tracker, pos: int)
    requires t.have && |t.bits| == WIN && InWindow(t.first, t.max, pos)
    ensures Feed(t, pos % 0x1_0000) == FeedAt(Counted(t), pos)
  {
    DiffIsExact(t.max, pos);
  }

  lemma ForwardRefines(t: Tracker, seen: set<int>, pos: int)
    requires Represents(t, seen) && pos > t.max
    ensures FeedAt(t, pos).1 == Classify(t.max, seen, pos) && Represents(FeedAt(t, pos).0, seen + {pos})
  {
    assert pos !in seen;
    forall p | pos - WIN < p <= pos
      ensures FeedAt(t, pos).0.bits[Slot(p)] <==> p in seen + {pos}
    {
      ForwardWindow(t, seen, pos, p);
    }
  }

  lemma BackwardRefines(t: Tracker, seen: set<int>, pos: int)
    requires Represents(t, seen) && InWindow(t.first, t.max, pos) && pos <= t.max
    ensures FeedAt(t, pos).1 == Classify(t.max, seen, pos) && Represents(FeedAt(t, pos).0, seen + {pos})
  {
    if pos in seen {
      assert seen + {pos} == seen;
    } else {
      forall p | t.max - WIN < p <= t.max && p != pos
        ensures Slot(p) != Slot(pos)
      {
        SlotsDiffer(p, pos);
      }
    }
  }

  // ---- whole runs of true positions

  ghost function Seen(ps: seq<int>): set<int> {
    set p | p in ps
  }

  function Highest(ps: seq<int>): int
    requires ps != []
  {
    if |ps| == 1 then ps[0]
    else
      var m := Highest(ps[..|ps| - 1]);
      if ps[|ps| - 1] > m then ps[|ps| - 1] else m
  }

  /** The 16-bit numbers on the wire. */
  function OnWire(ps: seq<int>): (s: seq<u16>)
    ensures |s| == |ps|
  {
    seq(|ps|, k requires 0 <= k < |ps| => ps[k] % 0x1_0000)
  }

  /** The stream starts in epoch 0, and each position is in the window of the ones before it. */
  ghost predicate Trackable(ps: seq<int>) {
    ps != [] && 0 <= ps[0] < 0x1_0000 && forall k | 0 < k < |ps| :: InWindow(ps[0], Highest(ps[..k]), ps[k])
  }

  lemma FirstFeed(p: int)
    requires 0 <= p < 0x1_0000
    ensures FeedAll([p]) == Feed(Initial(), p).0
    ensures Represents(FeedAll([p]), {p}) && FeedAll([p]).first == p && FeedAll([p]).max == p
  {
    assert [p][..0] == [];
    forall q | p - WIN < q < p
      ensures Slot(q) != Slot(p)
    {
      SlotsDiffer(q, p);
    }
  }

  lemma TrackablePrefix(ps: seq<int>, k: nat)
    requires Trackable(ps) && 0 < k <= |ps|
    ensures Trackable(ps[..k])
  {
    assert forall j | 0 < j < k :: ps[..k][..j] == ps[..j];
  }

  lemma FeedLast(ps: seq<int>)
    requires ps != []
    ensures var n := |ps| - 1;
            FeedAll(OnWire(ps)) == Feed(FeedAll(OnWire(ps[..n])), ps[n] % 0x1_0000).0
  {
    assert OnWire(ps)[..|ps| - 1] == OnWire(ps[..|ps| - 1]);
  }

  /** The fast form refines the simple one over every trackable run, across any number of 16-bit wraps. */
  lemma {:induction false} TrackerRefinesSet(ps: seq<int>)
    requires Trackable(ps)
    ensures Represents(FeedAll(OnWire(ps)), Seen(ps))
    ensures FeedAll(OnWire(ps)).first == ps[0] && FeedAll(OnWire(ps)).max == Highest(ps)
  {
    var n := |ps| - 1;
    if n == 0 {
      FirstFeed(ps[0]);
      assert OnWire(ps) == [ps[0]] && Seen(ps) == {ps[0]};
    } else {
      TrackablePrefix(ps, n);
      TrackerRefinesSet(ps[..n]);
      FeedLast(ps);
      LastPosition(ps);
      FeedRefines(FeedAll(OnWire(ps[..n])), Seen(ps[..n]), ps[n]);
    }
  }

  /** How many positions came for the first time when a higher one had already come. */
  function LateOnes(ps: seq<int>): nat {
    if |ps| <= 1 then 0
    else
      var n := |ps| - 1;
      LateOnes(ps[..n]) + if ps[n] < Highest(ps[..n]) && ps[n] !in ps[..n] then 1 else 0
  }

  /** How many times a position came again. */
  function Repeats(ps: seq<int>): nat {
    if |ps| <= 1 then 0
    else Repeats(ps[..|ps| - 1]) + if ps[|ps| - 1] in ps[..|ps| - 1] then 1 else 0
  }

  /** How many positions were passed over when the highest one rose. */
  function PassedOver(ps: seq<int>): int {
    if |ps| <= 1 then 0
    else
      var n := |ps| - 1;
      PassedOver(ps[..n]) + if ps[n] > Highest(ps[..n]) then ps[n] - Highest(ps[..n]) - 1 else 0
  }

  /** In the window the counters are those of an observer of the true positions. */
  lemma {:induction false} CountersObserve(ps: seq<int>)
    requires Trackable(ps)
    ensures var t := FeedAll(OnWire(ps));
            t.nReorder == LateOnes(ps) && t.nDup == Repeats(ps) && t.nGap == PassedOver(ps)
  {
    var n := |ps| - 1;
    if n == 0 {
      FirstFeed(ps[0]);
      assert OnWire(ps) == [ps[0]];
    } else {
      TrackablePrefix(ps, n);
      CountersObserve(ps[..n]);
      FeedLast(ps);
      LastPosition(ps);
      TrackerRefinesSet(ps[..n]);
      ObservedStep(FeedAll(OnWire(ps[..n])), ps[..n], ps[n]);
    }
  }

  lemma ObservedStep(t: Tracker, ps: seq<int>, pos: int)
    requires ps != [] && Represents(t, Seen(ps)) && t.max == Highest(ps) && InWindow(t.first, t.max, pos)
    ensures var r := Feed(t, pos % 0x1_0000).0;
            && r.nReorder == t.nReorder + (if pos < Highest(ps) && pos !in ps then 1 else 0)
            && r.nDup == t.nDup + (if pos in ps then 1 else 0)
            && r.nGap == t.nGap + (if pos > Highest(ps) then pos - Highest(ps) - 1 else 0)
  {
    FeedRefines(t, Seen(ps), pos);
    FeedCounts(t, pos % 0x1_0000);
    assert pos in ps <==> pos in Seen(ps);
  }

  lemma LastPosition(ps: seq<int>)
    requires Trackable(ps) && |ps| > 1
    ensures var n := |ps| - 1;
            && Seen(ps) == Seen(ps[..n]) + {ps[n]}
            && Highest(ps) == (if ps[n] > Highest(ps[..n]) then ps[n] else Highest(ps[..n]))
            && InWindow(ps[0], Highest(ps[..n]), ps[n])
            && ps[..n][0] == ps[0]
  {}

  /** Each feed of a trackable run is classified as the unbounded observer would. */
  lemma EveryFeedIsClassified(ps: seq<int>, k: nat)
    requires Trackable(ps) && 0 < k < |ps|
    ensures Feed(FeedAll(OnWire(ps[..k])), ps[k] % 0x1_0000).1 == Classify(Highest(ps[..k]), Seen(ps[..k]), ps[k])
  {
    TrackablePrefix(ps, k);
    TrackerRefinesSet(ps[..k]);
    FeedRefines(FeedAll(OnWire(ps[..k])), Seen(ps[..k]), ps[k]);
  }

  predicate Between(lo: int, p: int, hi: int) {
    lo <= p <= hi
  }

  ghost function Range(lo: int, hi: int): set<int> {
    set p | lo <= p <= hi && Between(lo, p, hi)
  }

  ghost function Holes(first: int, max: int, seen: set<int>): set<int> {
    Range(first, max) - seen
  }

  lemma {:induction false} RangeSize(lo: int, hi: int)
    requires lo <= hi + 1
    ensures |Range(lo, hi)| == hi - lo + 1
    decreases hi - lo
  {
    if lo <= hi {
      RangeSize(lo, hi - 1);
      RangeNext(lo, hi);
    } else {
      assert Range(lo, hi) == {};
    }
  }

  lemma RangeNext(lo: int, hi: int)
    requires lo <= hi
    ensures Range(lo, hi) == Range(lo, hi - 1) + {hi} && hi !in Range(lo, hi - 1)
  {}

  /** The inferred loss is exactly the number of positions between first and highest that never came. */
  lemma LossIsHoles(ps: seq<int>)
    requires Trackable(ps)
    ensures Loss(FeedAll(OnWire(ps))) == |Holes(ps[0], Highest(ps), Seen(ps))|
  {
    TrackerRefinesSet(ps);
    LossOfSet(FeedAll(OnWire(ps)), Seen(ps));
  }

  lemma LossOfSet(t: Tracker, seen: set<int>)
    requires Represents(t, seen)
    ensures Loss(t) == |Holes(t.first, t.max, seen)|
  {
    RangeSize(t.first, t.max);
    assert Range(t.first, t.max) == seen + Holes(t.first, t.max, seen);
  }

  /** The window bound is tight: one step further back and a position never seen is called a duplicate. */
  lemma WindowIsTight(t: Tracker, seen: set<int>)
    requires Represents(t, seen) && t.max - WIN !in seen
    ensures Feed(t, (t.max - WIN) % 0x1_0000).1 == Duplicate != Classify(t.max, seen, t.max - WIN)
  {
    DiffIsExact(t.max, t.max - WIN);
    SlotRepeats(t.max);
  }

  lemma SlotRepeats(p: int)
    ensures Slot(p - WIN) == Slot(p)
  {}
}

/** lib/ci_meas.c: the tracker as it is, fields and bitmap updated in place. */
module SeqTracker {
  import opened Machine
  import opened SeqSpec

  /** The byte with bit `k` alone. */
  function Mask(k: nat): bv8 {
    match k
    case 0 => 0x01
    case 1 => 0x02
    case 2 => 0x04
    case 3 => 0x08
    case 4 => 0x10
    case 5 => 0x20
    case 6 => 0x40
    case _ => 0x80
  }

  predicate Hits(b: bv8, m: bv8) { b & m != 0 }
  function With(b: bv8, m: bv8): bv8 { b | m }
  function Without(b: bv8, m: bv8): bv8 { b & !m }
  predicate Test(b: bv8, k: nat) { Hits(b, Mask(k)) }

  lemma MasksDisjoint(k: nat, j: nat)
    requires k < 8 && j < 8
    ensures Mask(k) != 0 && (k != j ==> Mask(k) & Mask(j) == 0)
  {
    assert k == 0 || k == 1 || k == 2 || k == 3 || k == 4 || k == 5 || k == 6 || k == 7;
    assert j == 0 || j == 1 || j == 2 || j == 3 || j == 4 || j == 5 || j == 6 || j == 7;
  }

  lemma MaskedTest(b: bv8, m: bv8, n: bv8)
    requires m != 0
    ensures m & n == 0 ==> Hits(With(b, m), n) == Hits(b, n) && Hits(Without(b, m), n) == Hits(b, n)
    ensures Hits(With(b, m), m) && !Hits(Without(b, m), m)
  {}

  /** Setting or clearing one bit of a byte changes that bit and no other. */
  lemma BitUpdate(b: bv8, k: nat, j: nat)
    requires k < 8 && j < 8
    ensures Test(With(b, Mask(k)), j) == (j == k || Test(b, j))
    ensures Test(Without(b, Mask(k)), j) == (j != k && Test(b, j))
  {
    MasksDisjoint(k, j);
    MaskedTest(b, Mask(k), Mask(j));
  }

  /** Flag `i` of a bitmap. */
  predicate Flag(bytes: seq<bv8>, i: nat)
    requires |bytes| == 256 && i < 2048
  {
    Test(bytes[i / 8], i % 8)
  }

  function Flags(bytes: seq<bv8>): (b: seq<bool>)
    requires |bytes| == 256
    ensures |b| == WIN
  {
    seq(2048, i requires 0 <= i < 2048 => Flag(bytes, i))
  }

  function Updated(b: bv8, k: nat, v: bool): bv8 {
    if v then With(b, Mask(k)) else Without(b, Mask(k))
  }

  lemma FlagUpdate(bytes: seq<bv8>, i: nat, v: bool, j: nat)
    requires |bytes| == 256 && i < 2048 && j < 2048
    ensures Flag(bytes[i / 8 := Updated(bytes[i / 8], i % 8, v)], j) == if j == i then v else Flag(bytes, j)
  {
    BitUpdate(bytes[i / 8], i % 8, j % 8);
    assert j / 8 == i / 8 && j % 8 == i % 8 ==> j == i;
  }

  lemma FlagsUpdate(bytes: seq<bv8>, i: nat, v: bool)
    requires |bytes| == 256 && i < 2048
    ensures Flags(bytes[i / 8 := Updated(bytes[i / 8], i % 8, v)]) == Flags(bytes)[i := v]
  {
    var after := bytes[i / 8 := Updated(bytes[i / 8], i % 8, v)];
    forall j | 0 <= j < 2048
      ensures Flags(after)[j] == Flags(bytes)[i := v][j]
    {
      FlagUpdate(bytes, i, v, j);
    }
  }

  class SequenceTracker {
    var have: bool
    var first: int
    var max: int
    var nSeen: nat
    var nDistinct: nat
    var nDup: nat
    var nReorder: nat
    var nGap: nat
    var epoch: u32
    const seen: array<bv8>

    ghost predicate Valid() {
      seen.Length == 256
    }

    /** The bitmap as flags. */
    ghost function Bits(): (b: seq<bool>)
      requires Valid()
      reads seen
      ensures |b| == WIN
    {
      Flags(seen[..])
    }

    ghost function View(): Tracker
      requires Valid()
      reads this, seen
    {
      Tracker(have, first, max, nSeen, nDistinct, nDup, nReorder, nGap, epoch, Bits())
    }

    constructor ()
      ensures Valid() && fresh(seen)
      ensures View() == Initial()
    {
      have, first, max, epoch := false, 0, 0, 0;
      nSeen, nDistinct, nDup, nReorder, nGap := 0, 0, 0, 0, 0;
      seen := new bv8[256](_ => 0);
    }

    /** seq_bit_get. */
    method BitGet(pos: int) returns (v: bool)
      requires Valid()
      ensures v == Bits()[Slot(pos)]
    {
      var i := Slot(pos);
      v := Test(seen[i / 8], i % 8);
    }

    /** seq_bit_set. */
    method BitSet(pos: int, v: bool)
      requires Valid()
      modifies seen
      ensures Bits() == old(Bits())[Slot(pos) := v]
    {
      var i := Slot(pos);
      FlagsUpdate(seen[..], i, v);
      ghost var after := seen[..][i / 8 := Updated(seen[i / 8], i % 8, v)];
      if v {
        seen[i / 8] := With(seen[i / 8], Mask(i % 8));
      } else {
        seen[i / 8] := Without(seen[i / 8], Mask(i % 8));
      }
      assert seen[..] == after;
    }

    /** ci_seq_tracker_feed. */
    method FeedOne(seq16: u16) returns (r: Kind)
      requires Valid()
      modifies this, seen
      ensures (View(), r) == Feed(old(View()), seq16)
    {
      nSeen := nSeen + 1;
      if !have {
        have := true;
        first := seq16;
        max := seq16;
        nDistinct := 1;
        BitSet(max, true);
        epoch := Epoch(max);
        return InOrder;
      }
      var unwrapped := max + SignedDiff(seq16, max);
      if unwrapped > max {
        r := StepForward(unwrapped);
      } else {
        r := StepBack(unwrapped);
      }
    }

    /** A position beyond the head: clear what the window newly exposes, and move the head. */
    method StepForward(unwrapped: int) returns (r: Kind)
      requires Valid() && unwrapped > max
      modifies this, seen
      ensures (View(), r) == FeedAt(old(View()), unwrapped)
    {
      var diff := unwrapped - max;
      var clearFrom := max + 1;
      if diff > WIN {
        clearFrom := unwrapped - WIN;
      }
      ClearSlots(clearFrom, unwrapped);
      BitSet(unwrapped, true);
      max := unwrapped;
      nDistinct := nDistinct + 1;
      epoch := Epoch(max);
      if diff > 1 {
        nGap := nGap + (diff - 1);
        return Gap;
      }
      return InOrder;
    }

    /** A position at or behind the head: a duplicate, or one that fills a hole. */
    method StepBack(unwrapped: int) returns (r: Kind)
      requires Valid() && unwrapped <= max
      modifies this, seen
      ensures (View(), r) == FeedAt(old(View()), unwrapped)
    {
      var v := BitGet(unwrapped);
      if v {
        nDup := nDup + 1;
        return Duplicate;
      }
      BitSet(unwrapped, true);
      nDistinct := nDistinct + 1;
      nReorder := nReorder + 1;
      return Reorder;
    }

    /** The loop that clears newly exposed positions. */
    method ClearSlots(from: int, end: int)
      requires Valid() && from <= end
      modifies seen
      ensures Bits() == Clear(old(Bits()), from, end)
    {
      var p := from;
      while p < end
        invariant from <= p <= end
        invariant Bits() == Clear(old(Bits()), from, p)
      {
        BitSet(p, false);
        p := p + 1;
      }
    }
  }
}
