/**
 * svu/svu_session.c, drain_data: what any sequence of data packets does to a receiver, and what the
 * packets of a blast do. The channel is not constrained here; `Genuine` packets are those that carry
 * the source's bytes.
 */
module SvuDelivery {
  import opened Machine
  import opened HashSpec
  import opened SvuSpec
  import opened SvuProperties
  import opened SvuWire
  import opened SvuServer

  /** One packet of drain_data. */
  function Deliver(s: Receiver, pkt: Bytes): (r: Receiver)
    requires |s.covered| == |s.data|
    ensures |r.covered| == |r.data| == |s.data|
  {
    if |pkt| > DATA_HDR then Accept(s, Get32(pkt, 0), pkt[DATA_HDR..]) else s
  }

  function DeliverAll(s: Receiver, pkts: seq<Bytes>): (r: Receiver)
    requires |s.covered| == |s.data|
    ensures |r.covered| == |r.data| == |s.data|
  {
    if pkts == [] then s else Deliver(DeliverAll(s, pkts[..|pkts| - 1]), pkts[|pkts| - 1])
  }

  /** `pkt` is stored, and its payload covers position `i`. */
  predicate Lands(total: nat, pkt: Bytes, i: int) {
    && |pkt| > DATA_HDR
    && Fits(total, Get32(pkt, 0), |pkt| - DATA_HDR)
    && Get32(pkt, 0) <= i < Get32(pkt, 0) + |pkt| - DATA_HDR
  }

  ghost predicate LandsAny(total: nat, pkts: seq<Bytes>, i: int) {
    exists p :: p in pkts && Lands(total, p, i)
  }

  /** Wherever `pkt` lands it carries the source's bytes. */
  ghost predicate Genuine(src: Bytes, pkt: Bytes) {
    forall i | Lands(|src|, pkt, i) :: pkt[DATA_HDR + i - Get32(pkt, 0)] == src[i]
  }

  ghost predicate AllGenuine(src: Bytes, pkts: seq<Bytes>) {
    forall p | p in pkts :: Genuine(src, p)
  }

  lemma LandsAnyLast(total: nat, pkts: seq<Bytes>, i: int)
    requires pkts != []
    ensures LandsAny(total, pkts, i)
       <==> LandsAny(total, pkts[..|pkts| - 1], i) || Lands(total, pkts[|pkts| - 1], i)
  {
    assert pkts == pkts[..|pkts| - 1] + [pkts[|pkts| - 1]];
  }

  lemma DeliverAt(s: Receiver, pkt: Bytes, i: nat)
    requires |s.covered| == |s.data| && i < |s.data|
    ensures Deliver(s, pkt).covered[i] == (s.covered[i] || Lands(|s.data|, pkt, i))
    ensures Deliver(s, pkt).data[i]
         == if Lands(|s.data|, pkt, i) then pkt[DATA_HDR + i - Get32(pkt, 0)] else s.data[i]
  {}

  /** Whatever arrives, coverage is exactly what was covered plus where packets landed. */
  lemma {:induction false} CoverageAfter(s: Receiver, pkts: seq<Bytes>)
    requires |s.covered| == |s.data|
    ensures var r := DeliverAll(s, pkts);
            && (r.block, r.nblocks, r.expected) == (s.block, s.nblocks, s.expected)
            && forall i | 0 <= i < |s.data| :: r.covered[i] == (s.covered[i] || LandsAny(|s.data|, pkts, i))
  {
    if pkts != [] {
      var before := DeliverAll(s, pkts[..|pkts| - 1]);
      CoverageAfter(s, pkts[..|pkts| - 1]);
      forall i | 0 <= i < |s.data|
        ensures DeliverAll(s, pkts).covered[i] == (s.covered[i] || LandsAny(|s.data|, pkts, i))
      {
        LandsAnyLast(|s.data|, pkts, i);
        DeliverAt(before, pkts[|pkts| - 1], i);
      }
    }
  }

  /** Genuine packets leave the source's byte wherever one landed, and the old byte elsewhere. */
  lemma {:induction false} DataAfterGenuine(s: Receiver, src: Bytes, pkts: seq<Bytes>)
    requires |s.covered| == |s.data| == |src|
    requires AllGenuine(src, pkts)
    ensures forall i | 0 <= i < |src| ::
              DeliverAll(s, pkts).data[i] == if LandsAny(|src|, pkts, i) then src[i] else s.data[i]
  {
    if pkts != [] {
      var last := pkts[|pkts| - 1];
      var before := DeliverAll(s, pkts[..|pkts| - 1]);
      DataAfterGenuine(s, src, pkts[..|pkts| - 1]);
      assert Genuine(src, last);
      forall i | 0 <= i < |src|
        ensures DeliverAll(s, pkts).data[i] == if LandsAny(|src|, pkts, i) then src[i] else s.data[i]
      {
        LandsAnyLast(|src|, pkts, i);
        DeliverAt(before, last, i);
      }
    }
  }

  /** Order and multiplicity of genuine packets do not matter: equal sets leave equal receivers. */
  lemma OnlyTheSetMatters(s: Receiver, src: Bytes, pkts: seq<Bytes>, others: seq<Bytes>)
    requires |s.covered| == |s.data| == |src|
    requires AllGenuine(src, pkts)
    requires forall p :: p in pkts <==> p in others
    ensures DeliverAll(s, pkts) == DeliverAll(s, others)
  {
    CoverageAfter(s, pkts);
    CoverageAfter(s, others);
    DataAfterGenuine(s, src, pkts);
    DataAfterGenuine(s, src, others);
    assert forall i: int :: LandsAny(|src|, pkts, i) == LandsAny(|src|, others, i);
    assert DeliverAll(s, pkts).data == DeliverAll(s, others).data;
    assert DeliverAll(s, pkts).covered == DeliverAll(s, others).covered;
  }

  /** Every covered byte is the source's. */
  ghost predicate Faithful(s: Receiver, src: Bytes) {
    |s.covered| == |s.data| == |src| && forall i | 0 <= i < |src| :: s.covered[i] ==> s.data[i] == src[i]
  }

  /**
   * A channel that loses, duplicates and reorders genuine packets, and nothing else, never produces
   * Corrupt: a faithful receiver stays faithful, and once everything is covered it is verified.
   */
  lemma LossNeverCorrupts(h: HashFunction, s: Receiver, src: Bytes, pkts: seq<Bytes>)
    requires Expects(h, s, src) && Faithful(s, src)
    requires AllGenuine(src, pkts)
    ensures var r := DeliverAll(s, pkts);
            && Expects(h, r, src) && Faithful(r, src)
            && Verdict(h, r).0 != Corrupt
            && ((forall i | 0 <= i < |src| :: r.covered[i]) ==> Verdict(h, r).0 == CompleteVerified && r.data == src)
  {
    var r := DeliverAll(s, pkts);
    CoverageAfter(s, pkts);
    DataAfterGenuine(s, src, pkts);
    IncompleteNamesARange(h, r);
    if forall i | 0 <= i < |src| :: r.covered[i] {
      assert r.data == src;
      IntactIsVerified(h, r, src);
    }
  }

  // ---- the packets of a blast

  lemma PacketFields(src: Bytes, session: u32, off: u32, len: nat)
    requires off + len <= |src| && len > 0
    ensures var p := Packet(src, session, off, len);
            |p| == DATA_HDR + len && Get32(p, 0) == off && p[DATA_HDR..] == src[off..off + len]
  {
    var p := Packet(src, session, off, len);
    assert p[0..4] == Put32(off);
    Get32IsInverse(p, 0, off);
  }

  lemma PacketLands(src: Bytes, session: u32, off: u32, len: nat)
    requires off + len <= |src| && len > 0
    ensures Genuine(src, Packet(src, session, off, len))
    ensures forall i: int :: Lands(|src|, Packet(src, session, off, len), i) <==> off <= i < off + len
  {
    var p := Packet(src, session, off, len);
    PacketFields(src, session, off, len);
    forall i | Lands(|src|, p, i)
      ensures p[DATA_HDR + i - Get32(p, 0)] == src[i]
    {
      assert p[DATA_HDR + i - off] == p[DATA_HDR..][i - off];
    }
  }

  /** The fragments of a range are genuine and land exactly on it. */
  lemma {:induction false} FragmentsCover(src: Bytes, session: u32, pay: nat, start: nat, end: nat)
    requires pay > 0 && end <= |src| < TWO32
    ensures AllGenuine(src, Fragments(src, session, pay, start, end))
    ensures forall i: int :: LandsAny(|src|, Fragments(src, session, pay, start, end), i) <==> start <= i < end
    decreases end - start
  {
    if start < end {
      var len := Min(pay, end - start);
      var first := Packet(src, session, start, len);
      var rest := Fragments(src, session, pay, start + pay, end);
      FragmentsCover(src, session, pay, start + pay, end);
      PacketLands(src, session, start, len);
      forall i: int
        ensures LandsAny(|src|, [first] + rest, i) <==> start <= i < end
      {
        LandsAnyConcat(|src|, [first], rest, i);
        assert LandsAny(|src|, [first], i) <==> Lands(|src|, first, i) by {
          assert first in [first];
        }
      }
    }
  }

  lemma LandsAnyConcat(total: nat, a: seq<Bytes>, b: seq<Bytes>, i: int)
    ensures LandsAny(total, a + b, i) <==> LandsAny(total, a, i) || LandsAny(total, b, i)
  {
    if LandsAny(total, a, i) {
      var p :| p in a && Lands(total, p, i);
      assert p in a + b;
    }
    if LandsAny(total, b, i) {
      var p :| p in b && Lands(total, p, i);
      assert p in a + b;
    }
  }

  /** What a list of requested ranges stands for. */
  ghost predicate Requested(total: nat, ivs: seq<Interval>, i: int) {
    0 <= i < total && (ivs == [] || InSome(ivs, i))
  }

  lemma {:induction false} BlastRangesCover(src: Bytes, session: u32, pay: nat, ivs: seq<Interval>)
    requires pay > 0 && |src| < TWO32
    ensures AllGenuine(src, BlastRanges(src, session, pay, ivs))
    ensures forall i: int :: LandsAny(|src|, BlastRanges(src, session, pay, ivs), i) <==> i < |src| && InSome(ivs, i)
  {
    if ivs != [] {
      var n := |ivs| - 1;
      var head := BlastRanges(src, session, pay, ivs[..n]);
      var tail := Fragments(src, session, pay, ivs[n].start, Min(ivs[n].end, |src|));
      BlastRangesCover(src, session, pay, ivs[..n]);
      FragmentsCover(src, session, pay, ivs[n].start, Min(ivs[n].end, |src|));
      forall i: int
        ensures LandsAny(|src|, head + tail, i) <==> i < |src| && InSome(ivs, i)
      {
        LandsAnyConcat(|src|, head, tail, i);
        InSomeLast(ivs, i);
      }
    }
  }

  lemma InSomeLast(ivs: seq<Interval>, i: int)
    requires ivs != []
    ensures var n := |ivs| - 1;
            InSome(ivs, i) <==> InSome(ivs[..n], i) || ivs[n].start <= i < ivs[n].end
  {
    var n := |ivs| - 1;
    if InSome(ivs[..n], i) {
      var k :| 0 <= k < n && ivs[..n][k].start <= i < ivs[..n][k].end;
      assert ivs[k].start <= i < ivs[k].end;
    }
    if InSome(ivs, i) {
      var k :| 0 <= k < |ivs| && ivs[k].start <= i < ivs[k].end;
      if k < n {
        assert ivs[..n][k] == ivs[k];
      }
    }
  }

  /** A blast carries the source's bytes, and lands exactly on what was requested. */
  lemma BlastCovers(src: Bytes, session: u32, pay: nat, ivs: seq<Interval>)
    requires pay > 0 && |src| < TWO32
    ensures AllGenuine(src, Blast(src, session, pay, ivs))
    ensures forall i: int :: LandsAny(|src|, Blast(src, session, pay, ivs), i) <==> Requested(|src|, ivs, i)
  {
    FragmentsCover(src, session, pay, 0, |src|);
    BlastRangesCover(src, session, pay, ivs);
  }
}
