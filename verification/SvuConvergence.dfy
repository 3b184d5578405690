/**
 * Convergence of the re-request loop (svu/svu_session.c, svu/svu_serve.c): once requested fragments
 * get through, the 32-range cap costs a bounded number of rounds. Late genuine fragments may still
 * arrive outside the requested ranges. One that lands in a hole can split it in two, and one that
 * lands in a block whose wrong bytes happen to have the right digest can make that block fail, so
 * both are counted; nothing else that arrives late costs a round.
 */
module SvuConvergence {
  import opened Machine
  import opened HashSpec
  import opened SvuSpec
  import opened SvuProperties
  import opened SvuWire
  import opened SvuServer
  import opened SvuDelivery
  import opened SvuClient

  // ---- holes counted by their first bytes

  /** An uncovered run starts at `i`. */
  predicate StartsAt(c: seq<bool>, i: int) {
    0 <= i < |c| && !c[i] && (i == 0 || c[i - 1])
  }

  ghost function Starts(c: seq<bool>): set<int> {
    set i | 0 <= i < |c| && StartsAt(c, i)
  }

  ghost function SetOf<T>(s: seq<T>): set<T> {
    set x | x in s
  }

  lemma {:induction false} DistinctSize<T>(s: seq<T>)
    requires forall i, j | 0 <= i < j < |s| :: s[i] != s[j]
    ensures |SetOf(s)| == |s|
  {
    if s != [] {
      var n := |s| - 1;
      DistinctSize(s[..n]);
      assert SetOf(s) == SetOf(s[..n]) + {s[n]};
    }
  }

  lemma {:induction false} SetSize<T>(s: seq<T>)
    ensures |SetOf(s)| <= |s|
  {
    if s != [] {
      var n := |s| - 1;
      SetSize(s[..n]);
      assert SetOf(s) == SetOf(s[..n]) + {s[n]};
    }
  }

  function StartsOf(r: seq<Interval>): seq<int> {
    seq(|r|, k requires 0 <= k < |r| => r[k].start)
  }

  lemma StartsOfDistinct(c: seq<bool>, n: nat)
    requires n <= |Missing(c)|
    ensures |SetOf(StartsOf(Missing(c)[..n]))| == n
    ensures SetOf(StartsOf(Missing(c)[..n])) <= Starts(c)
  {
    var r := Missing(c);
    MissingFromIsExact(c, 0);
    forall i, j | 0 <= i < j < n
      ensures StartsOf(r[..n])[i] != StartsOf(r[..n])[j]
    {
      assert r[i].end < r[j].start;
    }
    DistinctSize(StartsOf(r[..n]));
    forall x | x in SetOf(StartsOf(r[..n]))
      ensures x in Starts(c)
    {
      var k :| 0 <= k < n && x == r[k].start;
      MissingRunsAreMaximal(c, k);
    }
  }

  /** There are as many missing ranges as run starts. */
  lemma MissingCount(c: seq<bool>)
    ensures |Missing(c)| == |Starts(c)|
  {
    var r := Missing(c);
    MissingFromIsExact(c, 0);
    StartsOfDistinct(c, |r|);
    assert r[..|r|] == r;
    forall i | i in Starts(c)
      ensures i in SetOf(StartsOf(r))
    {
      assert InSome(r, i);
      var k :| 0 <= k < |r| && r[k].start <= i < r[k].end;
      MissingRunsAreMaximal(c, k);
      assert StartsOf(r)[k] == i;
    }
    assert SetOf(StartsOf(r)) == Starts(c);
  }

  // ---- one faithful round

  /** What a client asks for after the verdict on `s`. */
  ghost function NextRanges(h: HashFunction, s: Receiver): seq<Interval>
    requires s.Valid()
  {
    FirstRanges(Verdict(h, s).1)
  }

  /** Every requested fragment arrives, and whatever arrives carries the source's bytes. */
  ghost predicate FaithfulRound(src: Bytes, session: u32, pay: nat, ivs: seq<Interval>, pkts: seq<Bytes>)
    requires pay > 0 && |src| < TWO32
  {
    AllGenuine(src, pkts) && forall p | p in Blast(src, session, pay, ivs) :: p in pkts
  }

  /** `pkt` lands on a byte that is missing and was not requested. */
  ghost predicate Stray(c: seq<bool>, ivs: seq<Interval>, pkt: Bytes) {
    exists i: int :: Lands(|c|, pkt, i) && 0 <= i < |c| && !c[i] && !Requested(|c|, ivs, i)
  }

  /** All that was requested lands. */
  lemma RequestedLands(src: Bytes, session: u32, pay: nat, ivs: seq<Interval>, pkts: seq<Bytes>)
    requires pay > 0 && |src| < TWO32
    requires FaithfulRound(src, session, pay, ivs, pkts)
    ensures forall i | Requested(|src|, ivs, i) :: LandsAny(|src|, pkts, i)
  {
    BlastCovers(src, session, pay, ivs);
    forall i | Requested(|src|, ivs, i)
      ensures LandsAny(|src|, pkts, i)
    {
      var p :| p in Blast(src, session, pay, ivs) && Lands(|src|, p, i);
      assert p in pkts;
    }
  }

  /** Where the payload of `pkt` ends. */
  function End(pkt: Bytes): int {
    if |pkt| > DATA_HDR then Get32(pkt, 0) + |pkt| - DATA_HDR else 0
  }

  /** Where the strays end. However often one of them arrives, it cuts a hole in one place. */
  ghost function StrayEnds(c: seq<bool>, ivs: seq<Interval>, pkts: seq<Bytes>): set<int> {
    set p | p in pkts && Stray(c, ivs, p) :: End(p)
  }

  /** The byte before an uncovered byte that was not asked for was not asked for either. */
  lemma NotRequestedBefore(c: seq<bool>, n: nat, i: nat)
    requires 0 < n <= |Missing(c)| && 0 < i < |c| && !c[i]
    requires !Requested(|c|, Missing(c)[..n], i)
    ensures !Requested(|c|, Missing(c)[..n], i - 1)
  {
    var ivs := Missing(c)[..n];
    forall k | 0 <= k < |ivs|
      ensures !(ivs[k].start <= i - 1 < ivs[k].end)
    {
      assert ivs[k] == Missing(c)[k];
      assert !(ivs[k].start <= i < ivs[k].end);
      MissingRunsAreMaximal(c, k);
    }
  }

  /** A run start after the round was one before and not requested, or follows the end of a stray. */
  lemma StartAfterRound(s: Receiver, n: nat, pkts: seq<Bytes>, i: int)
    requires |s.covered| == |s.data| && n <= |Missing(s.covered)|
    requires var ivs := Missing(s.covered)[..n];
             && ivs != []
             && forall k | Requested(|s.data|, ivs, k) :: LandsAny(|s.data|, pkts, k)
    requires i in Starts(DeliverAll(s, pkts).covered)
    ensures var ivs := Missing(s.covered)[..n];
            || i in Starts(s.covered) - SetOf(StartsOf(ivs))
            || i in StrayEnds(s.covered, ivs, pkts)
  {
    var total, c, r := |s.data|, s.covered, Missing(s.covered);
    var ivs := r[..n];
    CoverageAfter(s, pkts);
    MissingFromIsExact(c, 0);
    assert !Requested(total, ivs, i);
    if i == 0 || c[i - 1] {
      forall k | 0 <= k < n
        ensures StartsOf(ivs)[k] != i
      {
        assert ivs[k].start < ivs[k].end by { assert ivs[k] == r[k]; }
      }
    } else {
      var p :| p in pkts && Lands(total, p, i - 1);
      assert !Lands(total, p, i);
      assert i == End(p);
      NotRequestedBefore(c, n, i);
      assert Stray(c, ivs, p);
    }
  }

  /** A faithful round that asked for the first `n` holes leaves at most the others, and one more for each place where a stray ends. */
  lemma HolesAfterRound(s: Receiver, n: nat, pkts: seq<Bytes>)
    requires |s.covered| == |s.data| && 0 < n <= |Missing(s.covered)|
    requires forall k | Requested(|s.data|, Missing(s.covered)[..n], k) :: LandsAny(|s.data|, pkts, k)
    ensures |Missing(DeliverAll(s, pkts).covered)|
         <= |Missing(s.covered)| - n + |StrayEnds(s.covered, Missing(s.covered)[..n], pkts)|
  {
    var ivs := Missing(s.covered)[..n];
    var c' := DeliverAll(s, pkts).covered;
    var kept := Starts(s.covered) - SetOf(StartsOf(ivs));
    var ends := StrayEnds(s.covered, ivs, pkts);
    forall i | i in Starts(c')
      ensures i in kept + ends
    {
      StartAfterRound(s, n, pkts, i);
    }
    MissingCount(s.covered);
    MissingCount(c');
    StartsOfDistinct(s.covered, n);
    SubsetSize(Starts(c'), kept + ends);
  }

  lemma SubsetSize<T>(a: set<T>, b: set<T>)
    requires a <= b
    ensures |a| <= |b|
  {
    assert b == a + (b - a);
  }

  /** Asking for every hole leaves none. */
  lemma NoHolesAfterRound(s: Receiver, pkts: seq<Bytes>)
    requires |s.covered| == |s.data|
    requires forall k | 0 <= k < |s.data| && InSome(Missing(s.covered), k) :: LandsAny(|s.data|, pkts, k)
    ensures forall i | 0 <= i < |s.data| :: DeliverAll(s, pkts).covered[i]
    ensures Missing(DeliverAll(s, pkts).covered) == []
  {
    var c' := DeliverAll(s, pkts).covered;
    CoverageAfter(s, pkts);
    MissingFromIsExact(s.covered, 0);
    NoneMissing(c', 0);
  }

  lemma {:induction false} NoneMissing(c: seq<bool>, lo: nat)
    requires lo <= |c| && forall i | lo <= i < |c| :: c[i]
    ensures MissingFrom(c, lo) == []
    decreases |c| - lo
  {
    if lo < |c| {
      NoneMissing(c, lo + 1);
    }
  }

  // ---- one faithful round on a fully covered receiver

  /** Where block `b` lies in the payload. */
  ghost predicate InBlock(total: nat, block: nat, b: nat, i: int) {
    BlockStart(block, b) <= i < BlockEnd(total, block, b)
  }

  lemma BlocksDisjoint(total: nat, block: nat, a: nat, b: nat, i: int)
    requires InBlock(total, block, a, i) && InBlock(total, block, b, i)
    ensures a == b
  {
    if a < b {
      BlockStartMonotone(block, a + 1, b);
    } else if b < a {
      BlockStartMonotone(block, b + 1, a);
    }
  }

  lemma BlockUnchanged(x: Bytes, y: Bytes, block: nat, b: nat)
    requires |x| == |y| && forall i | 0 <= i < |x| && InBlock(|x|, block, b, i) :: x[i] == y[i]
    ensures BlockOf(x, block, b) == BlockOf(y, block, b)
  {}

  /** A requested block holds the source's bytes after the round. */
  lemma RequestedBlockRepaired(s: Receiver, src: Bytes, asked: seq<nat>, pkts: seq<Bytes>, b: nat)
    requires |s.covered| == |s.data| == |src| && AllGenuine(src, pkts)
    requires forall i | Requested(|src|, BlockIntervals(|src|, s.block, asked), i) :: LandsAny(|src|, pkts, i)
    requires b in asked
    ensures BlockOf(DeliverAll(s, pkts).data, s.block, b) == BlockOf(src, s.block, b)
  {
    var ivs := BlockIntervals(|src|, s.block, asked);
    var r := DeliverAll(s, pkts);
    DataAfterGenuine(s, src, pkts);
    var k :| 0 <= k < |asked| && asked[k] == b;
    forall i | 0 <= i < |src| && InBlock(|src|, s.block, b, i)
      ensures r.data[i] == src[i]
    {
      assert ivs[k].start <= i < ivs[k].end;
      assert Requested(|src|, ivs, i);
    }
    BlockUnchanged(r.data, src, s.block, b);
  }

  /** A block that holds the source's bytes keeps them. */
  lemma IntactBlockStays(s: Receiver, src: Bytes, pkts: seq<Bytes>, b: nat)
    requires |s.covered| == |s.data| == |src| && AllGenuine(src, pkts)
    requires BlockOf(s.data, s.block, b) == BlockOf(src, s.block, b)
    ensures BlockOf(DeliverAll(s, pkts).data, s.block, b) == BlockOf(src, s.block, b)
  {
    var r := DeliverAll(s, pkts);
    DataAfterGenuine(s, src, pkts);
    forall i | 0 <= i < |src| && InBlock(|src|, s.block, b, i)
      ensures r.data[i] == src[i]
    {
      var k := i - BlockStart(s.block, b);
      assert BlockOf(s.data, s.block, b)[k] == BlockOf(src, s.block, b)[k];
    }
    BlockUnchanged(r.data, src, s.block, b);
  }

  /** The blocks that pass now and fail after `pkts`. */
  ghost function Disturbed(h: HashFunction, s: Receiver, pkts: seq<Bytes>): set<nat>
    requires s.Valid() && DeliverAll(s, pkts).Valid() && DeliverAll(s, pkts).nblocks == s.nblocks
  {
    set b: nat | b < s.nblocks && !BlockFails(h, s, b) && BlockFails(h, DeliverAll(s, pkts), b)
  }

  /** A block can be disturbed only if its bytes were wrong and had the right digest, and something landed in it. */
  lemma DisturbedMeansCollision(h: HashFunction, s: Receiver, src: Bytes, pkts: seq<Bytes>, b: nat)
    requires Expects(h, s, src) && Expects(h, DeliverAll(s, pkts), src) && AllGenuine(src, pkts)
    requires DeliverAll(s, pkts).block == s.block && DeliverAll(s, pkts).nblocks == s.nblocks
    requires b in Disturbed(h, s, pkts)
    ensures Collision(h, s.data, src, s.block, s.nblocks, b)
    ensures exists i :: InBlock(|src|, s.block, b, i) && LandsAny(|src|, pkts, i)
  {
    var r := DeliverAll(s, pkts);
    FailsMeansDifferentDigest(h, r, src, b);
    FailsMeansDifferentDigest(h, s, src, b);
    if BlockOf(s.data, s.block, b) == BlockOf(src, s.block, b) {
      IntactBlockStays(s, src, pkts, b);
    }
    DataAfterGenuine(s, src, pkts);
    if !exists i :: InBlock(|src|, s.block, b, i) && LandsAny(|src|, pkts, i) {
      BlockUnchanged(r.data, s.data, s.block, b);
    }
  }

  /** A block that fails after the round had failed before and was not requested, or was disturbed. */
  lemma FailsAfterRound(h: HashFunction, s: Receiver, src: Bytes, asked: seq<nat>, pkts: seq<Bytes>, b: nat)
    requires Expects(h, s, src) && Expects(h, DeliverAll(s, pkts), src) && AllGenuine(src, pkts)
    requires DeliverAll(s, pkts).block == s.block && DeliverAll(s, pkts).nblocks == s.nblocks
    requires forall i | Requested(|src|, BlockIntervals(|src|, s.block, asked), i) :: LandsAny(|src|, pkts, i)
    requires b < s.nblocks && BlockFails(h, DeliverAll(s, pkts), b)
    ensures b in SetOf(FailingBlocks(h, s, s.nblocks)) - SetOf(asked) + Disturbed(h, s, pkts)
  {
    FailsMeansDifferentDigest(h, DeliverAll(s, pkts), src, b);
    FailingBlocksAreExact(h, s, s.nblocks);
    if b in asked {
      RequestedBlockRepaired(s, src, asked, pkts, b);
    }
  }

  /** A faithful round that asked for the first `n` failing blocks leaves at most the others, and the disturbed ones. */
  lemma FailuresAfterRound(h: HashFunction, s: Receiver, src: Bytes, n: nat, pkts: seq<Bytes>)
    requires Expects(h, s, src) && Expects(h, DeliverAll(s, pkts), src) && AllGenuine(src, pkts)
    requires DeliverAll(s, pkts).block == s.block && DeliverAll(s, pkts).nblocks == s.nblocks
    requires n <= |FailingBlocks(h, s, s.nblocks)|
    requires forall i | Requested(|src|, BlockIntervals(|src|, s.block, FailingBlocks(h, s, s.nblocks)[..n]), i) :: LandsAny(|src|, pkts, i)
    ensures |FailingBlocks(h, DeliverAll(s, pkts), s.nblocks)|
         <= |FailingBlocks(h, s, s.nblocks)| - n + |Disturbed(h, s, pkts)|
  {
    var r := DeliverAll(s, pkts);
    var f := FailingBlocks(h, s, s.nblocks);
    var f' := FailingBlocks(h, r, s.nblocks);
    FailingBlocksAreExact(h, r, s.nblocks);
    forall b | b in SetOf(f')
      ensures b in SetOf(f) - SetOf(f[..n]) + Disturbed(h, s, pkts)
    {
      FailsAfterRound(h, s, src, f[..n], pkts, b);
    }
    FailingBlocksAreExact(h, s, s.nblocks);
    FewerRemain(f, f', n, Disturbed(h, s, pkts));
  }

  lemma FewerRemain(f: seq<nat>, g: seq<nat>, n: nat, extra: set<nat>)
    requires n <= |f| && SetOf(g) <= SetOf(f) - SetOf(f[..n]) + extra
    requires Ascending(f) && Ascending(g)
    ensures |g| <= |f| - n + |extra|
  {
    DistinctSize(f);
    DistinctSize(f[..n]);
    DistinctSize(g);
    assert SetOf(f[..n]) <= SetOf(f);
    SubsetSize(SetOf(g), SetOf(f) - SetOf(f[..n]) + extra);
  }

  // ---- how many rounds are left

  function Ceil32(n: nat): nat { (n + 31) / 32 }

  lemma Ceil32Facts(a: nat, b: nat)
    ensures a + 32 <= b ==> Ceil32(a) < Ceil32(b)
    ensures a <= b ==> Ceil32(a) <= Ceil32(b)
    ensures Ceil32(a + b) <= Ceil32(a) + b
    ensures 0 < a ==> 0 < Ceil32(a) && Ceil32(a - Min(a, 32)) == Ceil32(a) - 1
  {}

  ghost predicate Verified(h: HashFunction, s: Receiver)
    requires s.Valid()
  {
    Verdict(h, s).0 == CompleteVerified
  }

  /**
   * Rounds enough to finish from `s` if, from now on, at most `strays` fragments stray into holes
   * and at most `disturbed` blocks are disturbed.
   */
  ghost function RoundsLeft(h: HashFunction, s: Receiver, strays: nat, disturbed: nat): nat
    requires s.Valid()
  {
    if Missing(s.covered) == [] then Ceil32(|FailingBlocks(h, s, s.nblocks)|) + disturbed
    else Ceil32(|Missing(s.covered)| + strays) + Ceil32(s.nblocks) + disturbed
  }

  lemma {:induction false} FailingAtMost(h: HashFunction, s: Receiver, n: nat)
    requires s.Valid() && n <= s.nblocks
    ensures |FailingBlocks(h, s, n)| <= n
  {
    if n > 0 {
      FailingAtMost(h, s, n - 1);
    }
  }

  lemma MissingOrCovered(h: HashFunction, s: Receiver)
    requires s.Valid()
    ensures Missing(s.covered) == [] <==> Verdict(h, s).0 != Incomplete
  {
    CountBound(s.covered);
    MissingFromIsExact(s.covered, 0);
    if Verdict(h, s).0 != Incomplete {
      NoneMissing(s.covered, 0);
    } else {
      IncompleteNamesARange(h, s);
    }
  }

  /** The strays of a round that count: with at most 32 holes all of them are requested, and none does. */
  ghost function StraysIn(h: HashFunction, s: Receiver, pkts: seq<Bytes>): nat
    requires s.Valid()
  {
    if |Missing(s.covered)| <= MAX_INTERVALS then 0 else |StrayEnds(s.covered, NextRanges(h, s), pkts)|
  }

  /** The blocks disturbed in a round that count: only once everything is covered. */
  ghost function DisturbedIn(h: HashFunction, s: Receiver, pkts: seq<Bytes>): nat
    requires s.Valid()
  {
    if Verdict(h, s).0 == Corrupt && DeliverAll(s, pkts).Valid() && DeliverAll(s, pkts).nblocks == s.nblocks
    then |Disturbed(h, s, pkts)| else 0
  }

  /** Each faithful round brings the end one round nearer, net of its own strays and disturbed blocks. */
  lemma RoundProgress(h: HashFunction, src: Bytes, session: u32, pay: nat, s: Receiver, pkts: seq<Bytes>,
                      strays: nat, disturbed: nat)
    requires pay > 0 && |src| < TWO32 && Expects(h, s, src) && !Verified(h, s)
    requires FaithfulRound(src, session, pay, NextRanges(h, s), pkts)
    ensures Expects(h, DeliverAll(s, pkts), src)
    ensures RoundsLeft(h, DeliverAll(s, pkts), strays, disturbed)
          < RoundsLeft(h, s, strays + StraysIn(h, s, pkts), disturbed + DisturbedIn(h, s, pkts))
  {
    StillExpects(h, s, src, pkts);
    RequestedLands(src, session, pay, NextRanges(h, s), pkts);
    if Verdict(h, s).0 == Incomplete {
      IncompleteProgress(h, s, pkts, strays, disturbed);
    } else {
      CorruptProgress(h, src, s, pkts, strays, disturbed);
    }
  }

  lemma IncompleteProgress(h: HashFunction, s: Receiver, pkts: seq<Bytes>, strays: nat, disturbed: nat)
    requires s.Valid() && DeliverAll(s, pkts).Valid() && DeliverAll(s, pkts).nblocks == s.nblocks
    requires Verdict(h, s).0 == Incomplete
    requires forall i | Requested(|s.data|, NextRanges(h, s), i) :: LandsAny(|s.data|, pkts, i)
    ensures RoundsLeft(h, DeliverAll(s, pkts), strays, disturbed)
          < RoundsLeft(h, s, strays + StraysIn(h, s, pkts), disturbed)
  {
    var r := DeliverAll(s, pkts);
    var x := StraysIn(h, s, pkts);
    MissingOrCovered(h, s);
    if |Missing(s.covered)| <= MAX_INTERVALS {
      assert NextRanges(h, s) == Missing(s.covered);
      NoHolesAfterRound(s, pkts);
    } else {
      assert NextRanges(h, s) == Missing(s.covered)[..32];
      HolesAfterRound(s, 32, pkts);
    }
    HolesFilled(h, s, r, strays + x, strays, disturbed);
  }

  lemma StillExpects(h: HashFunction, s: Receiver, src: Bytes, pkts: seq<Bytes>)
    requires Expects(h, s, src)
    ensures Expects(h, DeliverAll(s, pkts), src)
    ensures DeliverAll(s, pkts).block == s.block && DeliverAll(s, pkts).nblocks == s.nblocks
  {
    CoverageAfter(s, pkts);
  }

  lemma HolesFilled(h: HashFunction, s: Receiver, r: Receiver, before: nat, after: nat, disturbed: nat)
    requires s.Valid() && r.Valid() && r.nblocks == s.nblocks && Missing(s.covered) != []
    requires Missing(r.covered) == [] || |Missing(r.covered)| + after + 32 <= |Missing(s.covered)| + before
    ensures RoundsLeft(h, r, after, disturbed) < RoundsLeft(h, s, before, disturbed)
  {
    Ceil32Facts(|Missing(s.covered)| + before, 0);
    if Missing(r.covered) == [] {
      FailingAtMost(h, r, r.nblocks);
      Ceil32Facts(|FailingBlocks(h, r, r.nblocks)|, s.nblocks);
    } else {
      Ceil32Facts(|Missing(r.covered)| + after, |Missing(s.covered)| + before);
    }
  }

  lemma CorruptProgress(h: HashFunction, src: Bytes, s: Receiver, pkts: seq<Bytes>, strays: nat, disturbed: nat)
    requires Expects(h, s, src) && AllGenuine(src, pkts) && Expects(h, DeliverAll(s, pkts), src)
    requires DeliverAll(s, pkts).block == s.block && DeliverAll(s, pkts).nblocks == s.nblocks
    requires Verdict(h, s).0 == Corrupt
    requires forall i | Requested(|src|, NextRanges(h, s), i) :: LandsAny(|src|, pkts, i)
    ensures RoundsLeft(h, DeliverAll(s, pkts), strays, disturbed)
          < RoundsLeft(h, s, strays + StraysIn(h, s, pkts), disturbed + DisturbedIn(h, s, pkts))
  {
    CorruptAsks(h, s);
    FailuresAfterRound(h, s, src, Min(|FailingBlocks(h, s, s.nblocks)|, 32), pkts);
    StaysCovered(h, s, pkts);
    CorruptCounts(h, s, DeliverAll(s, pkts), strays + StraysIn(h, s, pkts), strays, disturbed, |Disturbed(h, s, pkts)|);
  }

  /** A corrupt verdict asks for the first failing blocks, and there is one. */
  lemma CorruptAsks(h: HashFunction, s: Receiver)
    requires s.Valid() && Verdict(h, s).0 == Corrupt
    ensures var f := FailingBlocks(h, s, s.nblocks);
            f != [] && Missing(s.covered) == [] && NextRanges(h, s) == BlockIntervals(|s.data|, s.block, f[..Min(|f|, 32)])
  {
    MissingOrCovered(h, s);
  }

  lemma CorruptCounts(h: HashFunction, s: Receiver, r: Receiver, before: nat, after: nat, disturbed: nat, extra: nat)
    requires s.Valid() && r.Valid() && r.nblocks == s.nblocks && Missing(s.covered) == [] == Missing(r.covered)
    requires var f := |FailingBlocks(h, s, s.nblocks)|; 0 < f && |FailingBlocks(h, r, r.nblocks)| <= f - Min(f, 32) + extra
    ensures RoundsLeft(h, r, after, disturbed) < RoundsLeft(h, s, before, disturbed + extra)
  {
    FewerFailures(|FailingBlocks(h, s, s.nblocks)|, |FailingBlocks(h, r, r.nblocks)|, extra);
  }

  lemma FewerFailures(f: nat, g: nat, extra: nat)
    requires 0 < f && g <= f - Min(f, 32) + extra
    ensures Ceil32(g) < Ceil32(f) + extra
  {
    Ceil32Facts(f, 0);
    Ceil32Facts(g, f - Min(f, 32) + extra);
    Ceil32Facts(f - Min(f, 32), extra);
  }

  lemma StaysCovered(h: HashFunction, s: Receiver, pkts: seq<Bytes>)
    requires s.Valid() && Verdict(h, s).0 != Incomplete
    ensures Missing(DeliverAll(s, pkts).covered) == []
  {
    CoverageAfter(s, pkts);
    CountBound(s.covered);
    NoneMissing(DeliverAll(s, pkts).covered, 0);
  }

  // ---- whole runs

  /** Until the receiver is verified, every round is faithful to what was asked. */
  ghost predicate GoodRun(h: HashFunction, src: Bytes, session: u32, pay: nat, s: Receiver, rounds: seq<seq<Bytes>>)
    requires pay > 0 && |src| < TWO32
    decreases |rounds|
  {
    Expects(h, s, src) &&
    (|| rounds == [] || Verified(h, s)
     || (&& FaithfulRound(src, session, pay, NextRanges(h, s), rounds[0])
         && GoodRun(h, src, session, pay, DeliverAll(s, rounds[0]), rounds[1..])))
  }

  /** The stray fragments that count in a run, until it is verified. */
  ghost function StrayCount(h: HashFunction, s: Receiver, rounds: seq<seq<Bytes>>): nat
    requires s.Valid()
    decreases |rounds|
  {
    if rounds == [] || Verified(h, s) || !DeliverAll(s, rounds[0]).Valid() then 0
    else StraysIn(h, s, rounds[0]) + StrayCount(h, DeliverAll(s, rounds[0]), rounds[1..])
  }

  /** The disturbed blocks that count in a run, until it is verified. */
  ghost function DisturbedCount(h: HashFunction, s: Receiver, rounds: seq<seq<Bytes>>): nat
    requires s.Valid()
    decreases |rounds|
  {
    if rounds == [] || Verified(h, s) || !DeliverAll(s, rounds[0]).Valid() then 0
    else DisturbedIn(h, s, rounds[0]) + DisturbedCount(h, DeliverAll(s, rounds[0]), rounds[1..])
  }

  lemma GoodRunStep(h: HashFunction, src: Bytes, session: u32, pay: nat, s: Receiver, pkts: seq<Bytes>, rest: seq<seq<Bytes>>)
    requires pay > 0 && |src| < TWO32 && Expects(h, s, src)
    requires FaithfulRound(src, session, pay, NextRanges(h, s), pkts)
    requires GoodRun(h, src, session, pay, DeliverAll(s, pkts), rest)
    ensures GoodRun(h, src, session, pay, s, [pkts] + rest)
  {
    assert ([pkts] + rest)[1..] == rest;
  }

  function DeliverRounds(s: Receiver, rounds: seq<seq<Bytes>>): (r: Receiver)
    requires |s.covered| == |s.data|
    ensures |r.covered| == |r.data| == |s.data|
    decreases |rounds|
  {
    if rounds == [] then s else DeliverRounds(DeliverAll(s, rounds[0]), rounds[1..])
  }

  /** Some prefix of the rounds leaves the receiver verified. */
  ghost predicate EndsVerified(h: HashFunction, s: Receiver, rounds: seq<seq<Bytes>>)
    requires s.Valid()
  {
    exists k :: 0 <= k <= |rounds| && DeliverRounds(s, rounds[..k]).Valid() && Verified(h, DeliverRounds(s, rounds[..k]))
  }

  /**
   * Convergence: from any receiver of this source, and for any hash function, a good run of at least
   * `RoundsLeft` rounds reaches a verified state, the 32-range cap notwithstanding.
   */
  lemma {:induction false} Converges(h: HashFunction, src: Bytes, session: u32, pay: nat, s: Receiver, rounds: seq<seq<Bytes>>)
    requires pay > 0 && |src| < TWO32 && GoodRun(h, src, session, pay, s, rounds)
    requires RoundsLeft(h, s, StrayCount(h, s, rounds), DisturbedCount(h, s, rounds)) <= |rounds|
    ensures EndsVerified(h, s, rounds)
    decreases |rounds|
  {
    if Verified(h, s) {
      VerifiedAlready(h, s, rounds);
    } else if rounds == [] {
      NoRoundsLeft(h, s, 0, 0);
    } else {
      var next := DeliverAll(s, rounds[0]);
      RoundProgress(h, src, session, pay, s, rounds[0], StrayCount(h, next, rounds[1..]), DisturbedCount(h, next, rounds[1..]));
      Converges(h, src, session, pay, next, rounds[1..]);
      VerifiedLater(h, s, rounds);
    }
  }

  lemma VerifiedAlready(h: HashFunction, s: Receiver, rounds: seq<seq<Bytes>>)
    requires s.Valid() && Verified(h, s)
    ensures EndsVerified(h, s, rounds)
  {
    assert rounds[..0] == [];
    assert DeliverRounds(s, rounds[..0]) == s;
  }

  /** An unverified receiver ends verified exactly when it does so after its next round. */
  lemma VerifiedLater(h: HashFunction, s: Receiver, rounds: seq<seq<Bytes>>)
    requires s.Valid() && !Verified(h, s) && rounds != [] && DeliverAll(s, rounds[0]).Valid()
    ensures EndsVerified(h, s, rounds) <==> EndsVerified(h, DeliverAll(s, rounds[0]), rounds[1..])
  {
    var next, rest := DeliverAll(s, rounds[0]), rounds[1..];
    if EndsVerified(h, next, rest) {
      var k :| 0 <= k <= |rest| && DeliverRounds(next, rest[..k]).Valid() && Verified(h, DeliverRounds(next, rest[..k]));
      assert rounds[..k + 1][1..] == rest[..k];
      assert DeliverRounds(s, rounds[..k + 1]) == DeliverRounds(next, rest[..k]);
    }
    if EndsVerified(h, s, rounds) {
      var k :| 0 <= k <= |rounds| && DeliverRounds(s, rounds[..k]).Valid() && Verified(h, DeliverRounds(s, rounds[..k]));
      if k > 0 {
        assert rounds[..k][1..] == rest[..k - 1];
        assert DeliverRounds(s, rounds[..k]) == DeliverRounds(next, rest[..k - 1]);
      }
    }
  }

  /** No rounds left means verified. */
  lemma NoRoundsLeft(h: HashFunction, s: Receiver, strays: nat, disturbed: nat)
    requires s.Valid() && RoundsLeft(h, s, strays, disturbed) == 0
    ensures Verified(h, s)
  {
    MissingOrCovered(h, s);
    IncompleteNamesARange(h, s);
    Ceil32Facts(|FailingBlocks(h, s, s.nblocks)|, 0);
    Ceil32Facts(|Missing(s.covered)| + strays, 0);
  }

  /** With m holes, n blocks, x strays and d disturbed blocks, ceil((m + x) / 32) + ceil(n / 32) + d rounds are enough. */
  lemma RoundsLeftBound(h: HashFunction, s: Receiver, strays: nat, disturbed: nat)
    requires s.Valid()
    ensures RoundsLeft(h, s, strays, disturbed)
         <= Ceil32(|Missing(s.covered)| + strays) + Ceil32(s.nblocks) + disturbed
  {
    FailingAtMost(h, s, s.nblocks);
    Ceil32Facts(|FailingBlocks(h, s, s.nblocks)|, s.nblocks);
  }

  /** While incomplete, any one requested fragment that gets through makes the number of missing bytes smaller. */
  lemma OneFragmentIsProgress(h: HashFunction, s: Receiver, src: Bytes, session: u32, pay: nat, pkts: seq<Bytes>, p: Bytes)
    requires pay > 0 && |src| < TWO32 && Expects(h, s, src)
    requires Verdict(h, s).0 == Incomplete
    requires p in Blast(src, session, pay, NextRanges(h, s)) && p in pkts
    ensures CountCovered(s.covered) < CountCovered(DeliverAll(s, pkts).covered)
  {
    IncompleteNamesARange(h, s);
    MissingFromIsExact(s.covered, 0);
    CoverageAfter(s, pkts);
    var i := BlastPacketLands(src, session, pay, NextRanges(h, s), p);
    InSomeFirst(Missing(s.covered), i);
    assert !s.covered[i] && DeliverAll(s, pkts).covered[i];
    CountGrows(s.covered, DeliverAll(s, pkts).covered);
  }

  lemma InSomeFirst(r: seq<Interval>, i: int)
    requires InSome(FirstRanges(r), i)
    ensures InSome(r, i)
  {
    var k :| 0 <= k < |FirstRanges(r)| && FirstRanges(r)[k].start <= i < FirstRanges(r)[k].end;
    assert r[k] == FirstRanges(r)[k];
  }

  /** Every packet of a blast lands on some requested byte. */
  lemma BlastPacketLands(src: Bytes, session: u32, pay: nat, ivs: seq<Interval>, p: Bytes) returns (i: int)
    requires pay > 0 && |src| < TWO32 && ivs != []
    requires p in Blast(src, session, pay, ivs)
    ensures Lands(|src|, p, i) && Requested(|src|, ivs, i)
  {
    i := RangesPacketLands(src, session, pay, ivs, p);
    assert LandsAny(|src|, Blast(src, session, pay, ivs), i);
    BlastCovers(src, session, pay, ivs);
  }

  lemma {:induction false} RangesPacketLands(src: Bytes, session: u32, pay: nat, ivs: seq<Interval>, p: Bytes) returns (i: int)
    requires pay > 0 && |src| < TWO32
    requires p in BlastRanges(src, session, pay, ivs)
    ensures Lands(|src|, p, i)
    decreases |ivs|
  {
    var n := |ivs| - 1;
    if p in BlastRanges(src, session, pay, ivs[..n]) {
      i := RangesPacketLands(src, session, pay, ivs[..n], p);
    } else {
      i := FragmentLands(src, session, pay, ivs[n].start, Min(ivs[n].end, |src|), p);
    }
  }

  lemma {:induction false} FragmentLands(src: Bytes, session: u32, pay: nat, start: nat, end: nat, p: Bytes) returns (i: int)
    requires pay > 0 && end <= |src| < TWO32
    requires p in Fragments(src, session, pay, start, end)
    ensures Lands(|src|, p, i)
    decreases end - start
  {
    var len := Min(pay, end - start);
    if p == Packet(src, session, start, len) {
      PacketLands(src, session, start, len);
      i := start;
    } else {
      i := FragmentLands(src, session, pay, start + pay, end, p);
    }
  }
}
