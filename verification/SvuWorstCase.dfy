/**
 * How long a good run of the re-request loop (svu/svu_session.c) can take, from what the receiver
 * holds at its start. Fragments that arrive late may split the holes that were not asked for into
 * single bytes, and may spoil wrong blocks that happened to have the right digest. For any hash
 * function there is a number of rounds that is enough and one that may be needed; they are equal,
 * and so exact, unless some wrong block can come to have the right digest.
 */
module SvuWorstCase {
  import opened Machine
  import opened HashSpec
  import opened SvuSpec
  import opened SvuProperties
  import opened SvuWire
  import opened SvuServer
  import opened SvuDelivery
  import opened SvuClient
  import opened SvuConvergence

  // ---- the most holes that missing bytes can make

  /** The most holes into which the missing bytes from `i` on can be split: every other byte of each. */
  function Halves(c: seq<bool>, i: nat): nat
    requires i <= |c|
    decreases |c| - i
  {
    if i == |c| then 0
    else if c[i] then Halves(c, i + 1)
    else 1 + Halves(c, Min(i + 2, |c|))
  }

  /** The position after the first `k` holes from `i` on. */
  function Skip(c: seq<bool>, i: nat, k: nat): (p: nat)
    requires i <= |c|
    ensures i <= p <= |c|
    decreases |c| - i
  {
    if k == 0 || i == |c| then i
    else if c[i] then Skip(c, i + 1, k)
    else Skip(c, RunEnd(c, i), k - 1)
  }

  /** The rounds that covering everything takes at worst: one for the first 32 holes, then one for each 32 bytes left apart. */
  function CoverRounds(c: seq<bool>): nat {
    if Missing(c) == [] then 0 else 1 + Ceil32(Halves(c, Skip(c, 0, 32)))
  }

  lemma {:induction false} HalvesStep(c: seq<bool>, i: nat)
    requires i < |c|
    ensures Halves(c, i + 1) <= Halves(c, i) <= 1 + Halves(c, i + 1)
    decreases |c| - i
  {
    if !c[i] && i + 1 < |c| {
      HalvesStep(c, i + 1);
    }
  }

  lemma {:induction false} HalvesFall(c: seq<bool>, i: nat, j: nat)
    requires i <= j <= |c|
    ensures Halves(c, j) <= Halves(c, i)
    decreases j - i
  {
    if i < j {
      HalvesStep(c, i);
      HalvesFall(c, i + 1, j);
    }
  }

  /** Covering more never makes more holes possible. */
  lemma {:induction false} HalvesMonotone(c: seq<bool>, d: seq<bool>, i: nat)
    requires |c| == |d| && i <= |c| && forall p | i <= p < |c| :: c[p] ==> d[p]
    ensures Halves(d, i) <= Halves(c, i)
    decreases |c| - i
  {
    if i < |c| {
      if d[i] {
        HalvesMonotone(c, d, i + 1);
        HalvesStep(c, i);
      } else {
        HalvesMonotone(c, d, Min(i + 2, |c|));
      }
    }
  }

  lemma HoleCounts(c: seq<bool>, i: nat)
    requires i < |c| && !c[i]
    ensures Halves(c, i) >= 1 + Halves(c, RunEnd(c, i))
  {
    var e := RunEnd(c, i);
    if e >= i + 2 {
      HalvesFall(c, i + 2, e);
    }
  }

  /** The first `k` holes are what `Skip` skips, and each of them is worth at least one. */
  lemma {:induction false} SkipCounts(c: seq<bool>, i: nat, k: nat)
    requires i <= |c|
    ensures var n := Min(k, |MissingFrom(c, i)|);
            && MissingFrom(c, Skip(c, i, k)) == MissingFrom(c, i)[n..]
            && Halves(c, i) >= n + Halves(c, Skip(c, i, k))
    decreases |c| - i
  {
    if k > 0 && i < |c| {
      if c[i] {
        SkipCounts(c, i + 1, k);
      } else {
        HoleCounts(c, i);
        SkipCounts(c, RunEnd(c, i), k - 1);
      }
    }
  }

  /** The first `k` ranges hold every missing byte before the skipped position, and nothing after it. */
  lemma {:induction false} SkipSplits(c: seq<bool>, i: nat, k: nat, p: nat)
    requires i <= p < |c| && !c[p]
    ensures var r := MissingFrom(c, i); InSome(r[..Min(k, |r|)], p) <==> p < Skip(c, i, k)
    decreases |c| - i
  {
    var r := MissingFrom(c, i);
    if k > 0 {
      if c[i] {
        SkipSplits(c, i + 1, k, p);
      } else {
        var e := RunEnd(c, i);
        var rest := MissingFrom(c, e);
        assert r[..Min(k, |r|)] == [Interval(i, e)] + rest[..Min(k - 1, |rest|)];
        InSomeCons(Interval(i, e), rest[..Min(k - 1, |rest|)], p);
        if e <= p {
          SkipSplits(c, e, k - 1, p);
        }
      }
    }
  }

  lemma FirstAreSkipped(c: seq<bool>, p: nat)
    requires p < |c| && !c[p]
    ensures InSome(FirstRanges(Missing(c)), p) <==> p < Skip(c, 0, 32)
  {
    var r := Missing(c);
    SkipSplits(c, 0, 32, p);
    assert FirstRanges(r) == r[..Min(32, |r|)];
  }

  /** Covered bytes in front change nothing. */
  lemma {:induction false} CoveredFront(c: seq<bool>, i: nat, e: nat)
    requires i <= e <= |c| && forall p | i <= p < e :: c[p]
    ensures Halves(c, i) == Halves(c, e) && MissingFrom(c, i) == MissingFrom(c, e)
    decreases e - i
  {
    if i < e {
      CoveredFront(c, i + 1, e);
    }
  }

  lemma {:induction false} NoHolesNoHalves(c: seq<bool>, i: nat)
    requires i <= |c| && MissingFrom(c, i) == []
    ensures Halves(c, i) == 0
    decreases |c| - i
  {
    if i < |c| {
      NoHolesNoHalves(c, i + 1);
    }
  }

  /** One round: whatever else arrives, covering the ranges asked for takes one round off. */
  lemma CoverProgress(c: seq<bool>, d: seq<bool>)
    requires |c| == |d| && Missing(c) != [] && forall p | 0 <= p < |c| :: c[p] ==> d[p]
    requires forall p | 0 <= p < |c| && InSome(FirstRanges(Missing(c)), p) :: d[p]
    ensures CoverRounds(d) < CoverRounds(c)
  {
    var e := Skip(c, 0, 32);
    forall p | 0 <= p < e
      ensures d[p]
    {
      if !c[p] {
        FirstAreSkipped(c, p);
      }
    }
    CoveredFront(d, 0, e);
    HalvesMonotone(c, d, e);
    CoverBound(d, Halves(c, e));
  }

  /** With at most `n` holes possible, covering takes at most ceil(n / 32) rounds. */
  lemma CoverBound(d: seq<bool>, n: nat)
    requires Halves(d, 0) <= n
    ensures CoverRounds(d) <= Ceil32(n)
  {
    var e := Skip(d, 0, 32);
    SkipCounts(d, 0, 32);
    if |Missing(d)| < 32 {
      NoHolesNoHalves(d, e);
    }
    Ceil32Facts(Halves(d, e), n);
    Ceil32Facts(n, 0);
  }

  // ---- the worst that can arrive

  /** Going from `i` on, byte `p` is left missing when every hole is cut into single bytes. */
  predicate Left(c: seq<bool>, i: nat, p: nat)
    requires p < |c|
    decreases |c| - i
  {
    if i >= p then i == p && !c[p]
    else if c[i] then Left(c, i + 1, p)
    else Left(c, i + 2, p)
  }

  /** The first 32 holes filled, and the others cut into single bytes. */
  function Worst(c: seq<bool>): (d: seq<bool>)
    ensures |d| == |c|
  {
    var e := Skip(c, 0, 32);
    seq(|c|, p requires 0 <= p < |c| => p < e || !Left(c, e, p))
  }

  lemma {:induction false} LeftIsMissing(c: seq<bool>, i: nat, p: nat)
    requires p < |c| && Left(c, i, p)
    ensures !c[p]
    decreases |c| - i
  {
    if i < p {
      LeftIsMissing(c, if c[i] then i + 1 else i + 2, p);
    }
  }

  /** No two missing bytes are next to each other. */
  ghost predicate Apart(d: seq<bool>) {
    forall p | 0 <= p < |d| - 1 :: d[p] || d[p + 1]
  }

  lemma {:induction false} LeftApart(c: seq<bool>, i: nat, p: nat)
    requires p + 1 < |c| && Left(c, i, p)
    ensures !Left(c, i, p + 1)
    decreases |c| - i
  {
    if i < p {
      LeftApart(c, if c[i] then i + 1 else i + 2, p);
    }
  }

  /** Cut into single bytes, there are as many holes as there can be. */
  lemma {:induction false} LeftHoles(c: seq<bool>, d: seq<bool>, i: nat)
    requires i <= |c| == |d| && forall p | i <= p < |c| :: d[p] == !Left(c, i, p)
    ensures |MissingFrom(d, i)| == Halves(c, i)
    decreases |c| - i
  {
    if i < |c| {
      if c[i] {
        LeftHoles(c, d, i + 1);
      } else if i + 1 < |c| {
        assert !Left(c, i + 2, i + 1) && d[i + 1];
        LeftHoles(c, d, i + 2);
        assert RunEnd(d, i) == i + 1;
        CoveredFront(d, i + 1, i + 2);
      }
    }
  }

  /** Single-byte holes cannot be split further. */
  lemma {:induction false} ApartHalves(d: seq<bool>, i: nat)
    requires i <= |d| && Apart(d)
    ensures Halves(d, i) == |MissingFrom(d, i)|
    decreases |d| - i
  {
    if i < |d| {
      ApartHalves(d, i + 1);
      if !d[i] {
        assert RunEnd(d, i) == i + 1;
        if i + 1 < |d| {
          CoveredFront(d, i + 1, i + 2);
        }
      }
    }
  }

  /** The worst round takes exactly one round off. */
  lemma WorstStep(c: seq<bool>)
    requires Missing(c) != []
    ensures CoverRounds(Worst(c)) == CoverRounds(c) - 1
  {
    var d, e := Worst(c), Skip(c, 0, 32);
    LeftHoles(c, d, e);
    CoveredFront(d, 0, e);
    assert Apart(d) by {
      forall p | 0 <= p < |d| - 1
        ensures d[p] || d[p + 1]
      {
        if p >= e && !d[p] {
          LeftApart(c, e, p);
        }
      }
    }
    ApartHalves(d, Skip(d, 0, 32));
    SkipCounts(d, 0, 32);
    Ceil32Facts(|Missing(d)|, 0);
  }

  lemma WorstCovers(c: seq<bool>, p: nat)
    requires p < |c| && c[p]
    ensures Worst(c)[p]
  {
    var e := Skip(c, 0, 32);
    if p >= e && Left(c, e, p) {
      LeftIsMissing(c, e, p);
    }
  }

  // ---- wrong blocks

  /** Block `b` holds a covered byte that is not the source's. */
  ghost predicate Tainted(s: Receiver, src: Bytes, b: nat)
    requires |s.covered| == |s.data| == |src|
  {
    exists i :: 0 <= i < |src| && InBlock(|src|, s.block, b, i) && s.covered[i] && s.data[i] != src[i]
  }

  ghost function Wrong(s: Receiver, src: Bytes): set<nat>
    requires |s.covered| == |s.data| == |src|
  {
    set b: nat | b < s.nblocks && Tainted(s, src, b)
  }

  /** Each byte of `x` is the receiver's or the source's. */
  ghost predicate Mixture(x: Bytes, data: Bytes, src: Bytes) {
    |x| == |data| == |src| && forall i | 0 <= i < |x| :: x[i] == data[i] || x[i] == src[i]
  }

  /** Some mixture of the bytes held and the source's has wrong bytes in block `b`, and the right digest. */
  ghost predicate Slips(h: HashFunction, s: Receiver, src: Bytes, b: nat) {
    exists x :: Mixture(x, s.data, src) && Collision(h, x, src, s.block, s.nblocks, b)
  }

  /** The wrong blocks that can come to have the right digest without being right. */
  ghost function Slippery(h: HashFunction, s: Receiver, src: Bytes): set<nat>
    requires |s.covered| == |s.data| == |src|
  {
    set b | b in Wrong(s, src) && Slips(h, s, src, b)
  }

  /** The wrong blocks that fail until they are right. */
  ghost function Firm(h: HashFunction, s: Receiver, src: Bytes): set<nat>
    requires |s.covered| == |s.data| == |src|
  {
    Wrong(s, src) - Slippery(h, s, src)
  }

  /** The rounds that some good run from `s` takes. */
  ghost function Needed(h: HashFunction, s: Receiver, src: Bytes): nat
    requires |s.covered| == |s.data| == |src|
  {
    CoverRounds(s.covered) + Ceil32(|Firm(h, s, src)|)
  }

  /** The rounds that are enough for every good run from `s`. */
  ghost function Enough(h: HashFunction, s: Receiver, src: Bytes): nat
    requires |s.covered| == |s.data| == |src|
  {
    Needed(h, s, src) + |Slippery(h, s, src)|
  }

  /** Genuine packets leave a mixture, so a block that slips afterwards slipped before. */
  lemma SlippedBefore(h: HashFunction, s: Receiver, src: Bytes, pkts: seq<Bytes>, b: nat)
    requires |s.covered| == |s.data| == |src| && AllGenuine(src, pkts) && Slips(h, DeliverAll(s, pkts), src, b)
    ensures Slips(h, s, src, b)
  {
    var r := DeliverAll(s, pkts);
    CoverageAfter(s, pkts);
    DataAfterGenuine(s, src, pkts);
    var x :| Mixture(x, r.data, src) && Collision(h, x, src, r.block, r.nblocks, b);
    assert Mixture(x, s.data, src);
  }

  /** A block that fails is wrong, and a firm one fails, once everything is covered. */
  lemma FailsOrSlips(h: HashFunction, s: Receiver, src: Bytes, b: nat)
    requires Expects(h, s, src) && b < s.nblocks && forall i | 0 <= i < |s.covered| :: s.covered[i]
    ensures BlockFails(h, s, b) ==> b in Wrong(s, src)
    ensures b in Firm(h, s, src) ==> BlockFails(h, s, b)
  {
    FailsMeansDifferentDigest(h, s, src, b);
    if !Tainted(s, src, b) {
      BlockUnchanged(s.data, src, s.block, b);
    } else {
      TaintedDiffers(s, src, b);
      if !BlockFails(h, s, b) {
        assert Mixture(s.data, s.data, src) && Collision(h, s.data, src, s.block, s.nblocks, b);
      }
    }
  }

  lemma TaintedDiffers(s: Receiver, src: Bytes, b: nat)
    requires |s.covered| == |s.data| == |src| && Tainted(s, src, b)
    ensures BlockOf(s.data, s.block, b) != BlockOf(src, s.block, b)
  {
    var i :| 0 <= i < |src| && InBlock(|src|, s.block, b, i) && s.covered[i] && s.data[i] != src[i];
    var k := i - BlockStart(s.block, b);
    assert BlockOf(s.data, s.block, b)[k] == s.data[i] && BlockOf(src, s.block, b)[k] == src[i];
  }

  /** Once everything is covered: the failing blocks, between the firm ones and the wrong ones. */
  lemma FailingBetween(h: HashFunction, s: Receiver, src: Bytes)
    requires Expects(h, s, src) && forall i | 0 <= i < |s.covered| :: s.covered[i]
    ensures var f := FailingBlocks(h, s, s.nblocks);
            Firm(h, s, src) <= SetOf(f) <= Wrong(s, src)
  {
    var f := FailingBlocks(h, s, s.nblocks);
    FailingBlocksAreExact(h, s, s.nblocks);
    forall b | b in SetOf(f)
      ensures b in Wrong(s, src)
    {
      FailsOrSlips(h, s, src, b);
    }
    forall b | b in Firm(h, s, src)
      ensures b in f
    {
      FailsOrSlips(h, s, src, b);
    }
  }

  /** A verified receiver needs no rounds, and one for which none are enough is verified. */
  lemma NoneWhenVerified(h: HashFunction, s: Receiver, src: Bytes)
    requires Expects(h, s, src)
    ensures Verified(h, s) ==> Needed(h, s, src) == 0
    ensures Enough(h, s, src) == 0 ==> Verified(h, s)
  {
    MissingOrCovered(h, s);
    IncompleteNamesARange(h, s);
    Ceil32Facts(|Firm(h, s, src)|, 0);
    if Missing(s.covered) == [] {
      FailingBetween(h, s, src);
      if Enough(h, s, src) == 0 {
        assert Wrong(s, src) == {};
        NoFailures(h, s);
      }
    }
  }

  lemma NoFailures(h: HashFunction, s: Receiver)
    requires s.Valid() && SetOf(FailingBlocks(h, s, s.nblocks)) == {}
    ensures FailingBlocks(h, s, s.nblocks) == []
  {
    FailingBlocksAreExact(h, s, s.nblocks);
    DistinctSize(FailingBlocks(h, s, s.nblocks));
  }

  // ---- no good run takes longer

  /** Genuine packets taint nothing. */
  lemma WrongShrinks(s: Receiver, src: Bytes, pkts: seq<Bytes>)
    requires |s.covered| == |s.data| == |src| && AllGenuine(src, pkts)
    ensures Wrong(DeliverAll(s, pkts), src) <= Wrong(s, src)
  {
    var r := DeliverAll(s, pkts);
    CoverageAfter(s, pkts);
    DataAfterGenuine(s, src, pkts);
    forall b | b in Wrong(r, src)
      ensures b in Wrong(s, src)
    {
      var i :| 0 <= i < |src| && InBlock(|src|, r.block, b, i) && r.covered[i] && r.data[i] != src[i];
      assert s.covered[i] && s.data[i] != src[i];
    }
  }

  /** Genuine packets make nothing slippery. */
  lemma SlipperyShrinks(h: HashFunction, s: Receiver, src: Bytes, pkts: seq<Bytes>)
    requires |s.covered| == |s.data| == |src| && AllGenuine(src, pkts)
    ensures Wrong(DeliverAll(s, pkts), src) <= Wrong(s, src)
    ensures Slippery(h, DeliverAll(s, pkts), src) <= Slippery(h, s, src) * Wrong(DeliverAll(s, pkts), src)
  {
    WrongShrinks(s, src, pkts);
    forall b | b in Slippery(h, DeliverAll(s, pkts), src)
      ensures b in Slippery(h, s, src)
    {
      SlippedBefore(h, s, src, pkts, b);
    }
  }

  /** What blocks cost: the firm ones 32 a round, each slippery one a round of its own. */
  ghost function Cost(wrong: set<nat>, slippery: set<nat>): nat {
    Ceil32(|wrong - slippery|) + |slippery|
  }

  /** A slippery block that turns firm does not cost more. */
  lemma CostOfFewer(wrong: set<nat>, slippery: set<nat>, wrong': set<nat>, slippery': set<nat>)
    requires slippery <= wrong && wrong' <= wrong && slippery' <= slippery * wrong'
    ensures Cost(wrong', slippery') <= Ceil32(|(wrong - slippery) * wrong'|) + |slippery * wrong'|
  {
    var firm, slips := (wrong - slippery) * wrong', slippery * wrong';
    assert wrong' - slippery' == firm + (slips - slippery');
    assert slips == slippery' + (slips - slippery');
    Ceil32Facts(|firm|, |slips - slippery'|);
  }

  lemma CostNeverGrows(wrong: set<nat>, slippery: set<nat>, wrong': set<nat>, slippery': set<nat>)
    requires slippery <= wrong && wrong' <= wrong && slippery' <= slippery * wrong'
    ensures Cost(wrong', slippery') <= Cost(wrong, slippery)
  {
    CostOfFewer(wrong, slippery, wrong', slippery');
    SubsetSize((wrong - slippery) * wrong', wrong - slippery);
    SubsetSize(slippery * wrong', slippery);
    Ceil32Facts(|(wrong - slippery) * wrong'|, |wrong - slippery|);
  }

  /** Repairing 32 wrong blocks, or some that include all the firm ones, costs one round less. */
  lemma RepairsCut(wrong: set<nat>, slippery: set<nat>, wrong': set<nat>, slippery': set<nat>, repaired: set<nat>)
    requires slippery <= wrong && wrong' <= wrong - repaired && slippery' <= slippery * wrong'
    requires repaired != {} && repaired <= wrong && (|repaired| == 32 || wrong - slippery <= repaired)
    ensures Cost(wrong', slippery') < Cost(wrong, slippery)
  {
    CostOfFewer(wrong, slippery, wrong', slippery');
    var firm := wrong - slippery;
    SubsetSize(firm * wrong', firm);
    SubsetSize(slippery * wrong', slippery);
    Ceil32Facts(|firm * wrong'|, |firm|);
    Ceil32Facts(|firm|, 0);
    if b :| b in repaired && b in slippery {
      SubsetSize(slippery * wrong', slippery - {b});
    } else {
      assert repaired <= firm;
      SubsetSize(firm * wrong', firm - repaired);
      SubsetSize(repaired, firm);
    }
  }

  lemma GoodRoundShortens(h: HashFunction, src: Bytes, session: u32, pay: nat, s: Receiver, pkts: seq<Bytes>)
    requires pay > 0 && |src| < TWO32 && Expects(h, s, src) && !Verified(h, s)
    requires FaithfulRound(src, session, pay, NextRanges(h, s), pkts)
    ensures Enough(h, DeliverAll(s, pkts), src) < Enough(h, s, src)
  {
    var r := DeliverAll(s, pkts);
    RequestedLands(src, session, pay, NextRanges(h, s), pkts);
    SlipperyShrinks(h, s, src, pkts);
    MissingOrCovered(h, s);
    if Verdict(h, s).0 == Incomplete {
      IncompleteShortens(h, s, pkts);
      CostNeverGrows(Wrong(s, src), Slippery(h, s, src), Wrong(r, src), Slippery(h, r, src));
    } else {
      CorruptShortens(h, src, s, pkts);
    }
  }

  lemma IncompleteShortens(h: HashFunction, s: Receiver, pkts: seq<Bytes>)
    requires s.Valid() && Verdict(h, s).0 == Incomplete
    requires forall i | Requested(|s.data|, NextRanges(h, s), i) :: LandsAny(|s.data|, pkts, i)
    ensures CoverRounds(DeliverAll(s, pkts).covered) < CoverRounds(s.covered)
  {
    MissingOrCovered(h, s);
    CoverageAfter(s, pkts);
    CoverProgress(s.covered, DeliverAll(s, pkts).covered);
  }

  lemma CorruptShortens(h: HashFunction, src: Bytes, s: Receiver, pkts: seq<Bytes>)
    requires Expects(h, s, src) && Verdict(h, s).0 == Corrupt && AllGenuine(src, pkts)
    requires forall i | Requested(|src|, NextRanges(h, s), i) :: LandsAny(|src|, pkts, i)
    ensures Enough(h, DeliverAll(s, pkts), src) < Enough(h, s, src)
  {
    var r := DeliverAll(s, pkts);
    var asked := AskedBlocks(h, s, src);
    StaysCovered(h, s, pkts);
    SlipperyShrinks(h, s, src, pkts);
    RequestedAreRight(s, src, asked, pkts);
    RepairsCut(Wrong(s, src), Slippery(h, s, src), Wrong(r, src), Slippery(h, r, src), SetOf(asked));
  }

  lemma RequestedAreRight(s: Receiver, src: Bytes, asked: seq<nat>, pkts: seq<Bytes>)
    requires |s.covered| == |s.data| == |src| && AllGenuine(src, pkts)
    requires forall i | Requested(|src|, BlockIntervals(|src|, s.block, asked), i) :: LandsAny(|src|, pkts, i)
    ensures Wrong(DeliverAll(s, pkts), src) <= Wrong(s, src) - SetOf(asked)
  {
    WrongShrinks(s, src, pkts);
    CoverageAfter(s, pkts);
    forall b | b in SetOf(asked)
      ensures b !in Wrong(DeliverAll(s, pkts), src)
    {
      RequestedBlockRepaired(s, src, asked, pkts, b);
      IntactIsUntainted(DeliverAll(s, pkts), src, b);
    }
  }

  /** The blocks a corrupt verdict asks for: wrong ones, 32 of them or all the firm ones. */
  lemma AskedBlocks(h: HashFunction, s: Receiver, src: Bytes) returns (asked: seq<nat>)
    requires Expects(h, s, src) && Verdict(h, s).0 == Corrupt
    ensures NextRanges(h, s) == BlockIntervals(|src|, s.block, asked)
    ensures asked != [] && |SetOf(asked)| <= 32 && SetOf(asked) != {} && SetOf(asked) <= Wrong(s, src)
    ensures |SetOf(asked)| == 32 || Firm(h, s, src) <= SetOf(asked)
    ensures CoverRounds(s.covered) == 0
  {
    var f := FailingBlocks(h, s, s.nblocks);
    CountBound(s.covered);
    NoneMissing(s.covered, 0);
    FailingBetween(h, s, src);
    FailingBlocksAreExact(h, s, s.nblocks);
    asked := f[..Min(32, |f|)];
    DistinctSize(asked);
    assert asked[0] in SetOf(asked);
  }

  lemma IntactIsUntainted(s: Receiver, src: Bytes, b: nat)
    requires |s.covered| == |s.data| == |src| && BlockOf(s.data, s.block, b) == BlockOf(src, s.block, b)
    ensures !Tainted(s, src, b)
  {
    forall i | 0 <= i < |src| && InBlock(|src|, s.block, b, i)
      ensures s.data[i] == src[i]
    {
      var k := i - BlockStart(s.block, b);
      assert BlockOf(s.data, s.block, b)[k] == BlockOf(src, s.block, b)[k];
    }
  }

  /** For any hash function, every good run of `Enough` rounds ends verified. */
  lemma {:induction false} NeverLonger(h: HashFunction, src: Bytes, session: u32, pay: nat, s: Receiver, rounds: seq<seq<Bytes>>)
    requires pay > 0 && |src| < TWO32 && GoodRun(h, src, session, pay, s, rounds)
    requires Enough(h, s, src) <= |rounds|
    ensures EndsVerified(h, s, rounds)
    decreases |rounds|
  {
    NoneWhenVerified(h, s, src);
    if Verified(h, s) {
      VerifiedAlready(h, s, rounds);
    } else {
      GoodRoundShortens(h, src, session, pay, s, rounds[0]);
      NeverLonger(h, src, session, pay, DeliverAll(s, rounds[0]), rounds[1..]);
      VerifiedLater(h, s, rounds);
    }
  }

  /** Whatever the receiver holds, and whatever the hash function, this many rounds are enough. */
  lemma EnoughBound(h: HashFunction, s: Receiver, src: Bytes)
    requires |s.covered| == |s.data| == |src|
    ensures Enough(h, s, src) <= CoverRounds(s.covered) + |Wrong(s, src)|
    ensures Enough(h, s, src) <= 1 + Ceil32((|src| + 1) / 2) + s.nblocks
  {
    var e := Skip(s.covered, 0, 32);
    WrongAtMost(s, src);
    assert Wrong(s, src) == Firm(h, s, src) + Slippery(h, s, src);
    Ceil32Facts(0, |Firm(h, s, src)|);
    HalvesAtMost(s.covered, e);
    Ceil32Facts(Halves(s.covered, e), (|src| + 1) / 2);
  }

  lemma {:induction false} HalvesAtMost(c: seq<bool>, i: nat)
    requires i <= |c|
    ensures Halves(c, i) <= (|c| - i + 1) / 2
    decreases |c| - i
  {
    if i < |c| {
      HalvesAtMost(c, if c[i] then i + 1 else Min(i + 2, |c|));
    }
  }

  // ---- and some good run takes that long

  /** One-byte packets for the positions below `n` that are wanted. */
  function Singles(src: Bytes, session: u32, want: seq<bool>, n: nat): seq<Bytes>
    requires n <= |want| == |src| < TWO32
  {
    if n == 0 then []
    else Singles(src, session, want, n - 1) + if want[n - 1] then [Packet(src, session, n - 1, 1)] else []
  }

  lemma {:induction false} SinglesLand(src: Bytes, session: u32, want: seq<bool>, n: nat)
    requires n <= |want| == |src| < TWO32
    ensures AllGenuine(src, Singles(src, session, want, n))
    ensures forall i: int :: LandsAny(|src|, Singles(src, session, want, n), i) <==> 0 <= i < n && want[i]
  {
    if n > 0 {
      var init := Singles(src, session, want, n - 1);
      SinglesLand(src, session, want, n - 1);
      PacketLands(src, session, n - 1, 1);
      var p := Packet(src, session, n - 1, 1);
      forall i: int
        ensures LandsAny(|src|, Singles(src, session, want, n), i) <==> 0 <= i < n && want[i]
      {
        LandsAnyConcat(|src|, init, [p], i);
        assert p in [p];
      }
    }
  }

  /** The positions that are missing, and that the worst round fills. */
  function Filled(c: seq<bool>): (w: seq<bool>)
    ensures |w| == |c|
  {
    var d := Worst(c);
    seq(|c|, i requires 0 <= i < |c| => d[i] && !c[i])
  }

  /** What arrives in the worst round: the sender's answer, and fragments that cut the other holes. */
  ghost function WorstPackets(h: HashFunction, src: Bytes, session: u32, pay: nat, s: Receiver): seq<Bytes>
    requires pay > 0 && |src| < TWO32 && Expects(h, s, src)
  {
    var blast := Blast(src, session, pay, NextRanges(h, s));
    if Verdict(h, s).0 == Incomplete then blast + Singles(src, session, Filled(s.covered), |src|) else blast
  }

  lemma WorstIsFaithful(h: HashFunction, src: Bytes, session: u32, pay: nat, s: Receiver)
    requires pay > 0 && |src| < TWO32 && Expects(h, s, src)
    ensures FaithfulRound(src, session, pay, NextRanges(h, s), WorstPackets(h, src, session, pay, s))
  {
    BlastCovers(src, session, pay, NextRanges(h, s));
    SinglesLand(src, session, Filled(s.covered), |src|);
  }

  /** While incomplete, the worst round fills exactly the positions of `Filled`, and overwrites nothing. */
  lemma WorstLands(h: HashFunction, src: Bytes, session: u32, pay: nat, s: Receiver, i: nat)
    requires pay > 0 && |src| < TWO32 && Expects(h, s, src) && Verdict(h, s).0 == Incomplete && i < |src|
    ensures LandsAny(|src|, WorstPackets(h, src, session, pay, s), i) <==> Filled(s.covered)[i]
  {
    var ivs := NextRanges(h, s);
    var blast := Blast(src, session, pay, ivs);
    var singles := Singles(src, session, Filled(s.covered), |src|);
    BlastCovers(src, session, pay, ivs);
    SinglesLand(src, session, Filled(s.covered), |src|);
    LandsAnyConcat(|src|, blast, singles, i);
    IncompleteNamesARange(h, s);
    if InSome(ivs, i) {
      MissingFromIsExact(s.covered, 0);
      InSomeFirst(Missing(s.covered), i);
      FirstAreSkipped(s.covered, i);
    }
  }

  lemma WorstIncomplete(h: HashFunction, src: Bytes, session: u32, pay: nat, s: Receiver)
    requires pay > 0 && |src| < TWO32 && Expects(h, s, src) && Verdict(h, s).0 == Incomplete
    ensures var r := DeliverAll(s, WorstPackets(h, src, session, pay, s));
            r.covered == Worst(s.covered) && Wrong(s, src) <= Wrong(r, src)
  {
    var pkts := WorstPackets(h, src, session, pay, s);
    var r := DeliverAll(s, pkts);
    WorstIsFaithful(h, src, session, pay, s);
    CoverageAfter(s, pkts);
    DataAfterGenuine(s, src, pkts);
    forall i | 0 <= i < |src|
      ensures r.covered[i] == Worst(s.covered)[i]
      ensures s.covered[i] ==> r.data[i] == s.data[i]
    {
      WorstLands(h, src, session, pay, s, i);
      if s.covered[i] {
        WorstCovers(s.covered, i);
      }
    }
    forall b | b in Wrong(s, src)
      ensures b in Wrong(r, src)
    {
      var i :| 0 <= i < |src| && InBlock(|src|, s.block, b, i) && s.covered[i] && s.data[i] != src[i];
      assert r.covered[i] && r.data[i] != src[i];
    }
  }

  lemma WorstCorrupt(h: HashFunction, src: Bytes, session: u32, pay: nat, s: Receiver)
    requires pay > 0 && |src| < TWO32 && Expects(h, s, src) && Verdict(h, s).0 == Corrupt
    ensures Needed(h, s, src) <= 1 + Needed(h, DeliverAll(s, WorstPackets(h, src, session, pay, s)), src)
  {
    var asked := AskedBlocks(h, s, src);
    var pkts := WorstPackets(h, src, session, pay, s);
    var r := DeliverAll(s, pkts);
    WorstIsFaithful(h, src, session, pay, s);
    OthersStayWrong(src, session, pay, s, asked);
    FirmStays(h, s, src, pkts, SetOf(asked));
    SubsetSize(Firm(h, s, src) - SetOf(asked), Firm(h, r, src));
    LeftAfter(Firm(h, s, src), SetOf(asked));
    Ceil32Facts(|Firm(h, s, src) - SetOf(asked)|, |Firm(h, r, src)|);
  }

  lemma LeftAfter(a: set<nat>, b: set<nat>)
    requires |b| <= 32
    ensures Ceil32(|a|) <= 1 + Ceil32(|a - b|)
  {
    assert a == (a - b) + (a * b);
    SubsetSize(a * b, b);
  }

  /** Wrong blocks that stay wrong and were firm are firm. */
  lemma FirmStays(h: HashFunction, s: Receiver, src: Bytes, pkts: seq<Bytes>, asked: set<nat>)
    requires |s.covered| == |s.data| == |src| && AllGenuine(src, pkts)
    requires Wrong(s, src) - asked <= Wrong(DeliverAll(s, pkts), src)
    ensures Firm(h, s, src) - asked <= Firm(h, DeliverAll(s, pkts), src)
  {
    SlipperyShrinks(h, s, src, pkts);
  }

  /** A blast of some blocks leaves the other wrong ones wrong. */
  lemma OthersStayWrong(src: Bytes, session: u32, pay: nat, s: Receiver, asked: seq<nat>)
    requires pay > 0 && |src| < TWO32 && |s.covered| == |s.data| == |src| && asked != []
    ensures Wrong(s, src) - SetOf(asked)
         <= Wrong(DeliverAll(s, Blast(src, session, pay, BlockIntervals(|src|, s.block, asked))), src)
  {
    var pkts := Blast(src, session, pay, BlockIntervals(|src|, s.block, asked));
    var r := DeliverAll(s, pkts);
    BlastCovers(src, session, pay, BlockIntervals(|src|, s.block, asked));
    CoverageAfter(s, pkts);
    DataAfterGenuine(s, src, pkts);
    forall b | b in Wrong(s, src) - SetOf(asked)
      ensures b in Wrong(r, src)
    {
      var i :| 0 <= i < |src| && InBlock(|src|, s.block, b, i) && s.covered[i] && s.data[i] != src[i];
      OnlyAskedLand(src, session, pay, s.block, asked, b, i);
      assert r.covered[i] && r.data[i] != src[i];
    }
  }

  lemma OnlyAskedLand(src: Bytes, session: u32, pay: nat, block: nat, asked: seq<nat>, b: nat, i: nat)
    requires pay > 0 && |src| < TWO32 && asked != [] && b !in asked && i < |src| && InBlock(|src|, block, b, i)
    ensures !LandsAny(|src|, Blast(src, session, pay, BlockIntervals(|src|, block, asked)), i)
  {
    var ivs := BlockIntervals(|src|, block, asked);
    BlastCovers(src, session, pay, ivs);
    forall k | 0 <= k < |ivs|
      ensures !(ivs[k].start <= i < ivs[k].end)
    {
      if ivs[k].start <= i < ivs[k].end {
        BlocksDisjoint(|src|, block, asked[k], b, i);
      }
    }
  }

  /** After the worst round at most one round fewer is needed. */
  lemma WorstTakesOne(h: HashFunction, src: Bytes, session: u32, pay: nat, s: Receiver)
    requires pay > 0 && |src| < TWO32 && Expects(h, s, src) && !Verified(h, s)
    ensures Needed(h, s, src) <= 1 + Needed(h, DeliverAll(s, WorstPackets(h, src, session, pay, s)), src)
  {
    var pkts := WorstPackets(h, src, session, pay, s);
    var r := DeliverAll(s, pkts);
    MissingOrCovered(h, s);
    if Verdict(h, s).0 == Incomplete {
      WorstIncomplete(h, src, session, pay, s);
      WorstStep(s.covered);
      WorstIsFaithful(h, src, session, pay, s);
      FirmStays(h, s, src, pkts, {});
      SubsetSize(Firm(h, s, src), Firm(h, r, src));
      Ceil32Facts(|Firm(h, s, src)|, |Firm(h, r, src)|);
    } else {
      WorstCorrupt(h, src, session, pay, s);
    }
  }

  /** Every packet is one that the sender blasts, a byte each, for a request of the whole file. */
  ghost predicate AllSent(src: Bytes, session: u32, rounds: seq<seq<Bytes>>)
    requires |src| < TWO32
  {
    forall k, p | 0 <= k < |rounds| && p in rounds[k] :: p in Blast(src, session, 1, [])
  }

  lemma {:induction false} SentAlone(src: Bytes, session: u32, start: nat, off: nat)
    requires start <= off < |src| < TWO32
    ensures Packet(src, session, off, 1) in Fragments(src, session, 1, start, |src|)
    decreases off - start
  {
    if start < off {
      SentAlone(src, session, start + 1, off);
    }
  }

  lemma {:induction false} FragmentsAreSent(src: Bytes, session: u32, start: nat, end: nat, p: Bytes)
    requires end <= |src| < TWO32 && p in Fragments(src, session, 1, start, end)
    ensures p in Blast(src, session, 1, [])
    decreases end - start
  {
    if p == Packet(src, session, start, 1) {
      SentAlone(src, session, 0, start);
    } else {
      FragmentsAreSent(src, session, start + 1, end, p);
    }
  }

  lemma {:induction false} RangesAreSent(src: Bytes, session: u32, ivs: seq<Interval>, p: Bytes)
    requires |src| < TWO32 && p in BlastRanges(src, session, 1, ivs)
    ensures p in Blast(src, session, 1, [])
  {
    var n := |ivs| - 1;
    if p in BlastRanges(src, session, 1, ivs[..n]) {
      RangesAreSent(src, session, ivs[..n], p);
    } else {
      FragmentsAreSent(src, session, ivs[n].start, Min(ivs[n].end, |src|), p);
    }
  }

  lemma {:induction false} SinglesAreSent(src: Bytes, session: u32, want: seq<bool>, n: nat, p: Bytes)
    requires n <= |want| == |src| < TWO32 && p in Singles(src, session, want, n)
    ensures p in Blast(src, session, 1, [])
  {
    if p in Singles(src, session, want, n - 1) {
      SinglesAreSent(src, session, want, n - 1, p);
    } else {
      SentAlone(src, session, 0, n - 1);
    }
  }

  lemma WorstAreSent(h: HashFunction, src: Bytes, session: u32, pay: nat, s: Receiver)
    requires pay > 0 && |src| < TWO32 && Expects(h, s, src)
    ensures pay == 1 ==> forall p | p in WorstPackets(h, src, session, pay, s) :: p in Blast(src, session, 1, [])
  {
    if pay == 1 {
      var ivs := NextRanges(h, s);
      forall p | p in WorstPackets(h, src, session, pay, s)
        ensures p in Blast(src, session, 1, [])
      {
        if p in Blast(src, session, 1, ivs) {
          if ivs != [] {
            RangesAreSent(src, session, ivs, p);
          }
        } else {
          SinglesAreSent(src, session, Filled(s.covered), |src|, p);
        }
      }
    }
  }

  /** For every smaller number of rounds than `Needed` there is a good run that does not end verified. */
  lemma {:induction false} WorstRun(h: HashFunction, src: Bytes, session: u32, pay: nat, s: Receiver, n: nat) returns (rounds: seq<seq<Bytes>>)
    requires pay > 0 && |src| < TWO32 && Expects(h, s, src)
    requires n < Needed(h, s, src)
    ensures |rounds| == n && GoodRun(h, src, session, pay, s, rounds) && !EndsVerified(h, s, rounds)
    ensures pay == 1 ==> AllSent(src, session, rounds)
    decreases n
  {
    NoneWhenVerified(h, s, src);
    if n == 0 {
      rounds := [];
      NotVerifiedYet(h, s);
    } else {
      var pkts := WorstPackets(h, src, session, pay, s);
      var next := DeliverAll(s, pkts);
      WorstIsFaithful(h, src, session, pay, s);
      WorstTakesOne(h, src, session, pay, s);
      StillExpects(h, s, src, pkts);
      WorstAreSent(h, src, session, pay, s);
      var rest := WorstRun(h, src, session, pay, next, n - 1);
      rounds := [pkts] + rest;
      GoodRunStep(h, src, session, pay, s, pkts, rest);
      VerifiedLater(h, s, rounds);
      assert rounds[1..] == rest;
    }
  }

  /** Every good run of `n` rounds from `s` ends verified. */
  ghost predicate AlwaysVerifies(h: HashFunction, src: Bytes, session: u32, pay: nat, s: Receiver, n: nat)
    requires pay > 0 && |src| < TWO32 && s.Valid()
  {
    forall rounds | |rounds| == n && GoodRun(h, src, session, pay, s, rounds) :: EndsVerified(h, s, rounds)
  }

  /**
   * The worst case, for any hash function: `Enough` rounds always suffice, fewer than `Needed` do
   * not, and both depend on nothing but what the receiver holds. They are equal if no wrong block can
   * slip, and then `n` rounds suffice if and only if `n` is at least that number.
   */
  lemma WorstCaseIsExact(h: HashFunction, src: Bytes, session: u32, pay: nat, s: Receiver, n: nat)
    requires pay > 0 && |src| < TWO32 && Expects(h, s, src)
    ensures Enough(h, s, src) <= n ==> AlwaysVerifies(h, src, session, pay, s, n)
    ensures AlwaysVerifies(h, src, session, pay, s, n) ==> Needed(h, s, src) <= n
    ensures Slippery(h, s, src) == {} ==> (AlwaysVerifies(h, src, session, pay, s, n) <==> Enough(h, s, src) <= n)
  {
    if Enough(h, s, src) <= n {
      forall rounds | |rounds| == n && GoodRun(h, src, session, pay, s, rounds)
        ensures EndsVerified(h, s, rounds)
      {
        NeverLonger(h, src, session, pay, s, rounds);
      }
    } else if n < Needed(h, s, src) {
      var rounds := WorstRun(h, src, session, pay, s, n);
    }
  }

  // ---- ceil(m / 32) + ceil(nblocks / 32) is not enough

  /** The number of rounds one would expect from the 32-range cap alone. */
  function PlainBound(s: Receiver): nat {
    Ceil32(|Missing(s.covered)|) + Ceil32(s.nblocks)
  }

  /** With at most 32 holes and nothing slippery it is enough. */
  lemma FewHolesMeetPlainBound(h: HashFunction, src: Bytes, session: u32, pay: nat, s: Receiver)
    requires pay > 0 && |src| < TWO32 && Expects(h, s, src)
    requires |Missing(s.covered)| <= 32 && Slippery(h, s, src) == {}
    ensures AlwaysVerifies(h, src, session, pay, s, PlainBound(s))
  {
    SkipCounts(s.covered, 0, 32);
    NoHolesNoHalves(s.covered, Skip(s.covered, 0, 32));
    WrongAtMost(s, src);
    Ceil32Facts(|Firm(h, s, src)|, s.nblocks);
    Ceil32Facts(|Missing(s.covered)|, 0);
    WorstCaseIsExact(h, src, session, pay, s, PlainBound(s));
  }

  lemma WrongAtMost(s: Receiver, src: Bytes)
    requires |s.covered| == |s.data| == |src|
    ensures |Wrong(s, src)| <= s.nblocks
  {
    var all := seq(s.nblocks, i => i);
    SetSize(all);
    forall b | b in Wrong(s, src)
      ensures b in SetOf(all)
    {
      assert all[b] == b;
    }
    SubsetSize(Wrong(s, src), SetOf(all));
  }

  /** Thirty-two one-byte holes, and one of 129 bytes. */
  function Comb(): seq<bool> {
    seq(193, i => i < 64 && i % 2 == 1)
  }

  lemma {:induction false} CombTeeth(c: seq<bool>, j: nat)
    requires c == Comb() && j <= 32
    ensures |MissingFrom(c, 64 - 2 * j)| == j + 1
    ensures Halves(c, Skip(c, 64 - 2 * j, j)) == Halves(c, 64)
  {
    var i := 64 - 2 * j;
    if j == 0 {
      assert RunEnd(c, 64) == 193 && MissingFrom(c, 193) == [];
    } else {
      CombTeeth(c, j - 1);
      assert !c[i] && c[i + 1];
      assert RunEnd(c, i) == i + 1;
      CoveredFront(c, i + 1, i + 2);
      assert Skip(c, i, j) == Skip(c, i + 1, j - 1);
    }
  }

  lemma {:induction false} OpenHalves(c: seq<bool>, i: nat)
    requires i <= |c| && forall p | i <= p < |c| :: !c[p]
    ensures Halves(c, i) == (|c| - i + 1) / 2
    decreases |c| - i
  {
    if i < |c| {
      OpenHalves(c, Min(i + 2, |c|));
    }
  }

  /** A receiver of 193 zero bytes, one block, that has got every other of the first 64 bytes. */
  ghost function Combed(h: HashFunction, src: Bytes, session: u32): Receiver
    requires |src| == 193
  {
    DeliverAll(Receiver(193, 1, Manifest(h, src, 193, 1), seq(193, _ => 0), seq(193, _ => false)), Singles(src, session, Comb(), 193))
  }

  lemma CombedHolds(h: HashFunction, src: Bytes, session: u32)
    requires src == seq(193, _ => 0)
    ensures var s := Combed(h, src, session);
            Expects(h, s, src) && s.data == src && s.covered == Comb() && s.nblocks == 1
  {
    var blank := Receiver(193, 1, Manifest(h, src, 193, 1), seq(193, _ => 0), seq(193, _ => false));
    var pkts := Singles(src, session, Comb(), 193);
    SinglesLand(src, session, Comb(), 193);
    CoverageAfter(blank, pkts);
    DataAfterGenuine(blank, src, pkts);
    assert BlockStart(193, 0) == 0 && BlockStart(193, 1) == 193;
    assert DeliverAll(blank, pkts).data == src;
    assert DeliverAll(blank, pkts).covered == Comb();
  }

  /**
   * From that receiver a run of ceil(33 / 32) + ceil(1 / 32) = 3 good rounds need not end verified,
   * for any hash function and any payload size: four are needed. With one byte a packet (an mtu of 9)
   * everything that arrives, the receiver's first bytes included, comes from the sender's first blast.
   */
  lemma PlainBoundFails(h: HashFunction, src: Bytes, session: u32, pay: nat) returns (rounds: seq<seq<Bytes>>)
    requires src == seq(193, _ => 0) && pay > 0
    ensures var s := Combed(h, src, session);
            && Expects(h, s, src) && |Missing(s.covered)| == 33 && Enough(h, s, src) == Needed(h, s, src) == 4
            && |rounds| == PlainBound(s) == 3
            && GoodRun(h, src, session, pay, s, rounds) && !EndsVerified(h, s, rounds)
            && (pay == 1 ==> AllSent(src, session, rounds))
  {
    var s := Combed(h, src, session);
    CombedHolds(h, src, session);
    CombTeeth(s.covered, 32);
    OpenHalves(s.covered, 64);
    assert Wrong(s, src) == {};
    rounds := WorstRun(h, src, session, pay, s, 3);
  }

  /** Four zero bytes in two blocks, held as 1 0 and 1 1. */
  ghost function Spoilt(h: HashFunction, src: Bytes): Receiver {
    Receiver(2, 2, Manifest(h, src, 2, 2), [1, 0, 1, 1], [true, true, true, true])
  }

  lemma TwoBlocks(x: Bytes)
    requires |x| == 4
    ensures Geometry(4, 2, 2)
    ensures BlockOf(x, 2, 0) == [x[0], x[1]] && BlockOf(x, 2, 1) == [x[2], x[3]]
    ensures forall i :: InBlock(4, 2, 0, i) <==> 0 <= i < 2
    ensures forall i :: InBlock(4, 2, 1, i) <==> 2 <= i < 4
  {
    assert BlockStart(2, 0) == 0 && BlockStart(2, 1) == 2 && BlockStart(2, 2) == 4;
  }

  /** The verdict: block 0 fails, and nothing else is asked for. */
  lemma SpoiltAsks(h: HashFunction, src: Bytes)
    requires src == [0, 0, 0, 0] && h([1, 1]) == h([0, 0]) != h([1, 0])
    ensures var s := Spoilt(h, src);
            && Expects(h, s, src) && Missing(s.covered) == [] && PlainBound(s) == 1
            && NextRanges(h, s) == [Interval(0, 2)] && !Verified(h, s)
  {
    var s := Spoilt(h, src);
    TwoBlocks(src);
    TwoBlocks(s.data);
    NoneMissing(s.covered, 0);
    CountBound(s.covered);
    FailsMeansDifferentDigest(h, s, src, 0);
    FailsMeansDifferentDigest(h, s, src, 1);
    assert FailingBlocks(h, s, 0) == [];
    assert FailingBlocks(h, s, 1) == [0];
    assert FailingBlocks(h, s, 2) == [0];
    assert BlockInterval(4, 2, 0) == Interval(0, 2);
  }

  /** Block 0 is firm and block 1 slippery. */
  lemma SpoiltEnough(h: HashFunction, src: Bytes)
    requires src == [0, 0, 0, 0] && h([1, 1]) == h([0, 0]) != h([1, 0])
    ensures var s := Spoilt(h, src); Missing(s.covered) == [] && Enough(h, s, src) == 2
  {
    var s := Spoilt(h, src);
    TwoBlocks(src);
    TwoBlocks(s.data);
    NoneMissing(s.covered, 0);
    assert s.data[0] != src[0] && s.data[2] != src[2];
    assert Tainted(s, src, 0) && Tainted(s, src, 1);
    assert Wrong(s, src) == {0, 1};
    assert Mixture(s.data, s.data, src) && Collision(h, s.data, src, 2, 2, 1);
    forall x | Mixture(x, s.data, src)
      ensures !Collision(h, x, src, 2, 2, 0)
    {
      TwoBlocks(x);
    }
    assert Slippery(h, s, src) == {1};
    assert Firm(h, s, src) == {0};
  }

  /** The blast of block 0 and the late last byte. */
  function SpoiltPackets(src: Bytes, session: u32, pay: nat): seq<Bytes>
    requires |src| == 4 && pay > 0
  {
    Blast(src, session, pay, [Interval(0, 2)]) + [Packet(src, session, 3, 1)]
  }

  lemma SpoiltLands(src: Bytes, session: u32, pay: nat)
    requires |src| == 4 && pay > 0
    ensures FaithfulRound(src, session, pay, [Interval(0, 2)], SpoiltPackets(src, session, pay))
    ensures forall i | 0 <= i < 4 :: LandsAny(4, SpoiltPackets(src, session, pay), i) <==> i != 2
  {
    var ivs := [Interval(0, 2)];
    var late := Packet(src, session, 3, 1);
    BlastCovers(src, session, pay, ivs);
    PacketLands(src, session, 3, 1);
    forall i | 0 <= i < 4
      ensures LandsAny(4, SpoiltPackets(src, session, pay), i) <==> i != 2
    {
      LandsAnyConcat(4, Blast(src, session, pay, ivs), [late], i);
      assert late in [late] && ivs[0] == Interval(0, 2);
    }
  }

  /** They leave 0 0 and 1 0, and the second block fails. */
  lemma SpoiltAfter(h: HashFunction, src: Bytes, s: Receiver, pkts: seq<Bytes>)
    requires src == [0, 0, 0, 0] && h([0, 0]) != h([1, 0])
    requires Expects(h, s, src) && s.block == s.nblocks == 2 && s.data == [1, 0, 1, 1] && AllGenuine(src, pkts)
    requires forall i | 0 <= i < 4 :: LandsAny(4, pkts, i) <==> i != 2
    ensures var r := DeliverAll(s, pkts); Expects(h, r, src) && !Verified(h, r)
  {
    var r := DeliverAll(s, pkts);
    StillExpects(h, s, src, pkts);
    DataAfterGenuine(s, src, pkts);
    TwoBlocks(src);
    TwoBlocks(r.data);
    FailsMeansDifferentDigest(h, r, src, 1);
    FailingBlocksAreExact(h, r, 2);
  }

  /**
   * Nor is it enough for a hash function that takes 1 1 for 0 0 and tells 1 0 from it, even without a
   * hole: the late last byte makes the second block fail in the round that repairs the first one.
   * Two rounds are enough there.
   */
  lemma PlainBoundFailsOnCollision(h: HashFunction, src: Bytes, session: u32, pay: nat) returns (rounds: seq<seq<Bytes>>)
    requires src == [0, 0, 0, 0] && pay > 0 && h([1, 1]) == h([0, 0]) != h([1, 0])
    ensures var s := Spoilt(h, src);
            && Expects(h, s, src) && Missing(s.covered) == [] && Enough(h, s, src) == 2
            && |rounds| == PlainBound(s) == 1
            && GoodRun(h, src, session, pay, s, rounds) && !EndsVerified(h, s, rounds)
  {
    var s := Spoilt(h, src);
    var pkts := SpoiltPackets(src, session, pay);
    SpoiltAsks(h, src);
    SpoiltEnough(h, src);
    SpoiltLands(src, session, pay);
    SpoiltAfter(h, src, s, pkts);
    rounds := [pkts];
    GoodRunStep(h, src, session, pay, s, pkts, []);
    assert [pkts] + [] == rounds && rounds[1..] == [];
    NotVerifiedYet(h, DeliverAll(s, pkts));
    VerifiedLater(h, s, rounds);
  }

  lemma NotVerifiedYet(h: HashFunction, s: Receiver)
    requires s.Valid() && !Verified(h, s)
    ensures !EndsVerified(h, s, [])
  {
    var none: seq<seq<Bytes>> := [];
    assert forall k | 0 <= k <= 0 :: none[..k] == [];
  }

}
