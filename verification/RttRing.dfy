/** lib/ci_meas.c, RTT pairing, against the history of every data packet ever recorded. */
module RttSpec {
  import opened Machine

  const RING: nat := 256

  /** A recorded data packet; `open` until an ACK is paired with it. */
  datatype Record = Record(seq16: u16, t: u32, open: bool)

  predicate Matches(r: Record, ack: u16) {
    r.open && r.seq16 == ack
  }

  /** The newest of `hist[lo..n]` that an ACK for `ack` pairs with. */
  function Newest(hist: seq<Record>, ack: u16, lo: nat, n: nat): (j: Option<nat>)
    requires n <= |hist|
    ensures j.Some? ==> lo <= j.value < n && Matches(hist[j.value], ack)
    ensures j.Some? ==> forall k | j.value < k < n :: !Matches(hist[k], ack)
    ensures j.None? ==> forall k | lo <= k < n :: !Matches(hist[k], ack)
  {
    if n <= lo then None
    else if Matches(hist[n - 1], ack) then Some(n - 1)
    else Newest(hist, ack, lo, n - 1)
  }

  function Oldest(n: nat): nat {
    if n > RING then n - RING else 0
  }

  /** The record an ACK pairs with: the newest open one of that number among the last 256. */
  function Partner(hist: seq<Record>, ack: u16): Option<nat> {
    Newest(hist, ack, Oldest(|hist|), |hist|)
  }

  /** The time from record `j` to `at`, on a 32-bit clock. */
  function Elapsed(hist: seq<Record>, j: nat, at: u32): u32
    requires j < |hist|
  {
    (at - hist[j].t) % 0x1_0000_0000
  }

  datatype Event = Data(seq16: u16, t: u32) | Ack(ack: u16, at: u32)

  /** The history after an event, and the record it paired, if any. */
  function Step(hist: seq<Record>, e: Event): (seq<Record>, Option<nat>) {
    match e
    case Data(s, t) => (hist + [Record(s, t, true)], None)
    case Ack(a, _) =>
      match Partner(hist, a)
      case None => (hist, None)
      case Some(j) => (hist[j := hist[j].(open := false)], Some(j))
  }

  /** The history after a run, and the records paired in it, in order. */
  function Run(events: seq<Event>): (seq<Record>, seq<nat>) {
    if events == [] then ([], [])
    else
      var (hist, pairs) := Run(events[..|events| - 1]);
      var (next, j) := Step(hist, events[|events| - 1]);
      (next, if j.Some? then pairs + [j.value] else pairs)
  }

  /** Each paired record is closed, and paired once. */
  ghost predicate PairsClosed(hist: seq<Record>, pairs: seq<nat>) {
    && (forall k | 0 <= k < |pairs| :: pairs[k] < |hist| && !hist[pairs[k]].open)
    && (forall i, k | 0 <= i < k < |pairs| :: pairs[i] != pairs[k])
  }

  lemma StepKeepsPairsClosed(hist: seq<Record>, pairs: seq<nat>, e: Event)
    requires PairsClosed(hist, pairs)
    ensures var (next, j) := Step(hist, e); PairsClosed(next, if j.Some? then pairs + [j.value] else pairs)
  {
    if e.Ack? {
      var j := Partner(hist, e.ack);
      if j.Some? {
        assert hist[j.value].open;
      }
    }
  }

  /** Over any run no data packet is paired twice, and a paired one is never open again. */
  lemma {:induction false} PairedAtMostOnce(events: seq<Event>)
    ensures PairsClosed(Run(events).0, Run(events).1)
  {
    if events != [] {
      var init := events[..|events| - 1];
      PairedAtMostOnce(init);
      StepKeepsPairsClosed(Run(init).0, Run(init).1, events[|events| - 1]);
    }
  }

  // ---- the history in terms of the events

  /** The data packets of a run, in order. */
  function DataOf(events: seq<Event>): (ds: seq<Event>)
    ensures forall j | 0 <= j < |ds| :: ds[j].Data?
  {
    if events == [] then []
    else
      var e := events[|events| - 1];
      DataOf(events[..|events| - 1]) + if e.Data? then [e] else []
  }

  /** The history lists the data packets with their numbers and times, and those never paired are open. */
  ghost predicate Records(hist: seq<Record>, pairs: seq<nat>, ds: seq<Event>) {
    && |hist| == |ds| && (forall j | 0 <= j < |ds| :: ds[j].Data?)
    && (forall j | 0 <= j < |ds| :: hist[j].seq16 == ds[j].seq16 && hist[j].t == ds[j].t)
    && (forall j | 0 <= j < |ds| :: hist[j].open <==> j !in pairs)
  }

  lemma {:induction false} HistoryIsData(events: seq<Event>)
    ensures Records(Run(events).0, Run(events).1, DataOf(events))
  {
    if events != [] {
      var init := events[..|events| - 1];
      HistoryIsData(init);
      PairedAtMostOnce(init);
      RecordsStep(Run(init).0, Run(init).1, DataOf(init), events[|events| - 1]);
    }
  }

  lemma RecordsStep(hist: seq<Record>, pairs: seq<nat>, ds: seq<Event>, e: Event)
    requires Records(hist, pairs, ds) && PairsClosed(hist, pairs)
    ensures var (next, j) := Step(hist, e);
            Records(next, if j.Some? then pairs + [j.value] else pairs, ds + if e.Data? then [e] else [])
  {
    if e.Ack? {
      assert ds + [] == ds;
    } else {
      assert |ds| !in pairs;
    }
  }

  /**
   * What an ACK is paired with after any run, said with the events alone: the newest data packet with
   * that number, among the last 256, that no ACK was paired with before; none if there is no such
   * packet. The time reported for it is the time since that packet, modulo 2^32.
   */
  lemma PairingExplained(events: seq<Event>, ack: u16, at: u32)
    ensures var ds, pairs := DataOf(events), Run(events).1;
            match Step(Run(events).0, Ack(ack, at)).1
            case Some(j) =>
              && |ds| - 256 <= j < |ds| && ds[j].seq16 == ack && j !in pairs
              && (forall k | j < k < |ds| && ds[k].seq16 == ack :: k in pairs)
              && Elapsed(Run(events).0, j, at) == (at - ds[j].t) % 0x1_0000_0000
            case None => forall k | 0 <= k < |ds| && |ds| - 256 <= k && ds[k].seq16 == ack :: k in pairs
  {
    HistoryIsData(events);
  }
}

/** lib/ci_meas.c: the 256-entry ring. */
module RttRing {
  import opened Machine
  import opened RttSpec

  lemma RingIndex(n: nat, k: nat)
    requires k < 256
    ensures (n % 0x1_0000_0000 - 1 - k) % 0x1_0000_0000 % 256 == (n - 1 - k) % 256
  {
    var q := n / 0x1_0000_0000;
    assert n % 0x1_0000_0000 == n - 0x1_0000_0000 * q;
    var x := n % 0x1_0000_0000 - 1 - k;
    assert x % 0x1_0000_0000 == x || x % 0x1_0000_0000 == x + 0x1_0000_0000;
    assert (n - 1 - k) == x + 256 * (0x100_0000 * q);
  }

  /** The wrapped head gives the slot of the next record, because 256 divides 2^32. */
  lemma HeadSlot(n: nat)
    ensures n % 0x1_0000_0000 % 256 == n % 256
    ensures (n % 0x1_0000_0000 + 1) % 0x1_0000_0000 == (n + 1) % 0x1_0000_0000
  {}

  lemma SlotsApart(j: int, k: int)
    requires -256 < j - k < 256 && j != k
    ensures j % 256 != k % 256
  {}

  class Pairing {
    const seqs: array<u16>
    const times: array<u32>
    const valid: array<bool>
    var head: u32
    /** Every data packet recorded so far. */
    ghost var hist: seq<Record>

    ghost predicate Shape() {
      && seqs.Length == times.Length == valid.Length == 256
      && seqs as object != times as object && seqs as object != valid as object && times as object != valid as object
    }

    /** Slot `j % 256` holds record `j`. */
    ghost predicate SlotHolds(j: int)
      requires Shape() && 0 <= j < |hist|
      reads this, seqs, times, valid
    {
      seqs[j % 256] == hist[j].seq16 && times[j % 256] == hist[j].t && valid[j % 256] == hist[j].open
    }

    /** The ring holds the last 256 records; slots never written are not valid. */
    ghost predicate Valid()
      reads this, seqs, times, valid
    {
      && Shape()
      && head == |hist| % 0x1_0000_0000
      && (forall j | Oldest(|hist|) <= j < |hist| :: SlotHolds(j))
      && (forall i | |hist| <= i < 256 :: !valid[i])
    }

    constructor ()
      ensures Valid() && fresh(seqs) && fresh(times) && fresh(valid)
      ensures hist == []
    {
      seqs := new u16[256](_ => 0);
      times := new u32[256](_ => 0);
      valid := new bool[256](_ => false);
      head := 0;
      hist := [];
    }

    /** ci_rtt_on_data. */
    method OnData(seq16: u16, t: u32)
      requires Valid()
      modifies this, seqs, times, valid
      ensures Valid()
      ensures hist == Step(old(hist), Data(seq16, t)).0
    {
      HeadSlot(|hist|);
      var i := head % 256;
      seqs[i] := seq16;
      times[i] := t;
      valid[i] := true;
      head := (head + 1) % 0x1_0000_0000;
      ghost var n := |hist|;
      hist := hist + [Record(seq16, t, true)];
      forall j | Oldest(n + 1) <= j < n
        ensures SlotHolds(j)
      {
        assert old(SlotHolds(j));
        SlotsApart(j, n);
      }
    }

    /**
     * ci_rtt_on_ack: newest first, so the ACK pairs with the newest open record of that number among
     * the last 256, consumes it, and reports the time since, modulo 2^32.
     */
    method OnAck(ack: u16, t: u32) returns (paired: bool, rtt: u32)
      requires Valid()
      modifies this, valid
      ensures Valid()
      ensures hist == Step(old(hist), Ack(ack, t)).0
      ensures paired == Step(old(hist), Ack(ack, t)).1.Some?
      ensures paired ==> rtt == Elapsed(old(hist), Step(old(hist), Ack(ack, t)).1.value, t)
    {
      ghost var n := |hist|;
      paired, rtt := false, 0;
      for k := 0 to 256
        invariant Valid() && hist == old(hist) && !paired
        invariant Partner(hist, ack) == Newest(hist, ack, Oldest(n), if k <= n then n - k else 0)
      {
        var i := (head - 1 - k) % 0x1_0000_0000 % 256;
        RingIndex(n, k);
        if k < n {
          assert SlotHolds(n - 1 - k);
        } else {
          assert i == n - 1 - k + 256;
        }
        if valid[i] && seqs[i] == ack {
          rtt := (t - times[i]) % 0x1_0000_0000;
          Consume(n - 1 - k, i);
          paired := true;
          return;
        }
      }
    }

    /** Record `j` is consumed, in the ring and in the history. */
    method Consume(ghost j: nat, i: nat)
      requires Valid() && Oldest(|hist|) <= j < |hist| && i == j % 256
      modifies this`hist, valid
      ensures Valid() && hist == old(hist)[j := old(hist)[j].(open := false)]
    {
      valid[i] := false;
      hist := hist[j := hist[j].(open := false)];
      forall k | Oldest(|hist|) <= k < |hist|
        ensures SlotHolds(k)
      {
        assert old(SlotHolds(k));
        if k != j {
          SlotsApart(k, j);
        }
      }
    }
  }
}
