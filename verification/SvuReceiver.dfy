/** lib/ci_svu.c: the manifest, and the receiver that updates its buffers in place. */
module SvuReceiver {
  import opened Machine
  import opened HashSpec
  import opened SvuSpec
  import opened SvuProperties

  /** hash_block. */
  method HashBlock(hash: HashFunction, src: Bytes, block: nat, nblocks: nat, b: nat) returns (out: Digest)
    requires Geometry(|src|, block, nblocks) && b < nblocks
    ensures out == hash(BlockOf(src, block, b))
  {
    BlockRange(|src|, block, nblocks, b);
    BlockStartIsProduct(block, b);
    var start := b * block;
    var end := start + block;
    if end > |src| {
      end := |src|;
    }
    out := hash(src[start..end]);
  }

  /** ci_svu_manifest: the digests of all the blocks, or nothing when there is no block. */
  method BuildManifest(hash: HashFunction, src: Bytes, block: u32) returns (nblocks: u32, digests: Bytes)
    requires |src| < TWO32
    ensures nblocks == NBlocks(|src|, block)
    ensures nblocks > 0 ==> Geometry(|src|, block, nblocks)
    ensures digests == Manifest(hash, src, block, nblocks)
  {
    nblocks := NBlocks(|src|, block);
    NBlocksIsExactOrZero(|src|, block);
    digests := [];
    if nblocks == 0 {
      return;
    }
    for b := 0 to nblocks
      invariant digests == Manifest(hash, src, block, b)
    {
      var d := HashBlock(hash, src, block, nblocks, b);
      digests := digests + d;
    }
  }

  class Session {
    const hash: HashFunction
    const total: u32
    const block: u32
    const nblocks: u32
    const expected: Bytes
    const data: array<bv8>
    const covered: array<bool>
    var coveredCount: u32

    ghost predicate Valid()
      reads this, covered
    {
      && data.Length == total == covered.Length
      && data as object != covered as object
      && Geometry(total, block, nblocks)
      && |expected| == 32 * nblocks
      && coveredCount == CountCovered(covered[..])
    }

    /** Buffers of different element types never overlap; said here because the verifier does not infer it. */
    ghost predicate DistinctFrom(out: array<Interval>) {
      data as object != out as object && covered as object != out as object
    }

    /** What the session holds, as a value. */
    ghost function View(): Receiver
      reads this, data, covered
    {
      Receiver(block, nblocks, expected, data[..], covered[..])
    }

    /** The sizes ci_svu_new accepts. */
    constructor (hash: HashFunction, total: u32, block: u32, expected: Bytes, nblocks: u32)
      requires NBlocks(total, block) == nblocks != 0
      requires |expected| == 32 * nblocks
      ensures Valid() && fresh(data) && fresh(covered)
      ensures this.hash == hash
      ensures View() == Receiver(block, nblocks, expected, seq(total, _ => 0), seq(total, _ => false))
    {
      this.hash := hash;
      this.total, this.block, this.nblocks, this.expected := total, block, nblocks, expected;
      data := new bv8[total](_ => 0);
      covered := new bool[total](_ => false);
      coveredCount := 0;
      new;
      NBlocksIsExactOrZero(total, block);
      assert data[..] == seq(total, _ => 0);
      assert covered[..] == seq(total, _ => false);
      NoneCovered(total);
    }

    /** ci_svu_accept: mark the new bytes, then overwrite. */
    method AcceptFragment(off: u32, buf: Bytes) returns (ok: bool)
      requires Valid()
      modifies this`coveredCount, data, covered
      ensures Valid()
      ensures ok == Fits(total, off, |buf|)
      ensures View() == Accept(old(View()), off, buf)
    {
      var end := off + |buf|;
      if end > total {
        return false;
      }
      MarkCovered(off, end);
      Overwrite(off, buf);
      ok := true;
    }

    method MarkCovered(off: nat, end: nat)
      requires Valid()
      requires off <= end <= total
      modifies this`coveredCount, covered
      ensures Valid()
      ensures covered[..] == Marked(old(covered[..]), off, end)
    {
      for i := off to end
        invariant Valid()
        invariant forall k | 0 <= k < total :: covered[k] == (old(covered[k]) || off <= k < i)
      {
        if !covered[i] {
          ghost var before := covered[..];
          CountSet(before, i);
          covered[i] := true;
          assert covered[..] == before[i := true];
          CountBound(covered[..]);
          coveredCount := coveredCount + 1;
        }
      }
    }

    method Overwrite(off: nat, buf: Bytes)
      requires off + |buf| <= data.Length
      modifies data
      ensures data[..] == old(data[..off]) + buf + old(data[off + |buf|..])
    {
      for i := 0 to |buf|
        invariant forall k | 0 <= k < data.Length ::
                    data[k] == if off <= k < off + i then buf[k - off] else old(data[k])
      {
        data[off + i] := buf[i];
      }
    }

    /** ci_svu_verify: the verdict, its ranges into `out` as far as they fit, and how many there are. */
    method Verify(out: array<Interval>) returns (status: Status, count: nat)
      requires Valid() && DistinctFrom(out)
      modifies out
      ensures View() == old(View()) && Valid()
      ensures var (expectedStatus, ranges) := Verdict(hash, View());
              && status == expectedStatus
              && count == |ranges|
              && Written(old(out[..]), ranges, out[..])
    {
      if coveredCount < total {
        status := Incomplete;
        count := ReportMissing(out);
      } else {
        count := ReportFailing(out);
        status := if count == 0 then CompleteVerified else Corrupt;
      }
    }

    /** The runs of uncovered bytes. */
    method ReportMissing(out: array<Interval>) returns (count: nat)
      requires Valid() && DistinctFrom(out)
      modifies out
      ensures View() == old(View()) && Valid()
      ensures count == |Missing(covered[..])|
      ensures Written(old(out[..]), Missing(covered[..]), out[..])
    {
      ghost var c := covered[..];
      ghost var found: seq<Interval> := [];
      count := 0;
      var i := 0;
      while i < total
        invariant 0 <= i <= total
        invariant View() == old(View()) && Valid() && covered[..] == c
        invariant found + MissingFrom(c, i) == Missing(c)
        invariant count == |found| && Written(old(out[..]), found, out[..])
      {
        if !covered[i] {
          var run := i;
          while run < total && !covered[run]
            invariant i <= run <= total
            invariant RunEnd(c, run) == RunEnd(c, i)
          {
            run := run + 1;
          }
          count := PushInterval(out, count, Interval(i, run), found, old(out[..]));
          Regroup(found, [Interval(i, run)], MissingFrom(c, run));
          found := found + [Interval(i, run)];
          i := run;
        } else {
          i := i + 1;
        }
      }
    }

    /** Hash one block and compare it with its digest in the manifest. */
    method CheckBlock(b: nat) returns (fails: bool, range: Interval)
      requires Valid() && b < nblocks
      ensures fails == BlockFails(hash, View(), b)
      ensures range == BlockInterval(total, block, b)
    {
      var got := HashBlock(hash, data[..], block, nblocks, b);
      fails := got != DigestAt(expected, b);
      BlockStartIsProduct(block, b);
      var start := b * block;
      var end := start + block;
      if end > total {
        end := total;
      }
      range := Interval(start, end);
    }

    /** The blocks whose digest differs from the manifest's. */
    method ReportFailing(out: array<Interval>) returns (count: nat)
      requires Valid() && DistinctFrom(out)
      modifies out
      ensures View() == old(View()) && Valid()
      ensures var failing := FailingBlocks(hash, View(), nblocks);
              count == |failing| && Written(old(out[..]), BlockIntervals(total, block, failing), out[..])
    {
      ghost var s := View();
      ghost var found: seq<Interval> := [];
      count := 0;
      for b := 0 to nblocks
        invariant View() == s && Valid()
        invariant found == FailingRanges(hash, s, b) && count == |found|
        invariant Written(old(out[..]), found, out[..])
      {
        var fails, range := CheckBlock(b);
        NextRange(hash, s, b);
        if fails {
          count := PushInterval(out, count, range, found, old(out[..]));
          found := found + [range];
        }
      }
    }
  }

  /** The ranges of those of the first `n` blocks that fail. */
  ghost function FailingRanges(h: HashFunction, s: Receiver, n: nat): seq<Interval>
    requires s.Valid() && n <= s.nblocks
  {
    BlockIntervals(|s.data|, s.block, FailingBlocks(h, s, n))
  }

  lemma NextRange(h: HashFunction, s: Receiver, b: nat)
    requires s.Valid() && b < s.nblocks
    ensures FailingRanges(h, s, b + 1)
         == if BlockFails(h, s, b) then FailingRanges(h, s, b) + [BlockInterval(|s.data|, s.block, b)] else FailingRanges(h, s, b)
  {
    IntervalAppended(|s.data|, s.block, FailingBlocks(h, s, b), b);
  }

  lemma IntervalAppended(total: nat, block: nat, blocks: seq<nat>, b: nat)
    ensures BlockIntervals(total, block, blocks + [b]) == BlockIntervals(total, block, blocks) + [BlockInterval(total, block, b)]
  {}

  /** `after` is `before` with as many of `ranges` written over its front as fit. */
  ghost predicate Written(before: seq<Interval>, ranges: seq<Interval>, after: seq<Interval>) {
    |after| == |before| &&
    forall k | 0 <= k < |after| :: after[k] == if k < |ranges| then ranges[k] else before[k]
  }

  /** push_interval: stored if there is room, counted always. */
  method PushInterval(out: array<Interval>, count: nat, x: Interval, ghost sofar: seq<Interval>, ghost before: seq<Interval>)
    returns (next: nat)
    requires count == |sofar| && Written(before, sofar, out[..])
    modifies out
    ensures next == count + 1 && Written(before, sofar + [x], out[..])
  {
    if count < out.Length {
      out[count] := x;
    }
    next := count + 1;
  }

  lemma {:induction false} NoneCovered(n: nat)
    ensures CountCovered(seq(n, _ => false)) == 0
  {
    if n > 0 {
      NoneCovered(n - 1);
      assert seq(n, _ => false)[1..] == seq(n - 1, _ => false);
    }
  }
}

/** lib/ci_svu.c, hash_block with the hash it uses. */
module SvuHash {
  import opened HashSpec
  import opened Sha256Spec
  import opened Sha256Message
  import opened SvuSpec

  /** SHA-256 of block `b`, cut at the end of the payload. */
  method Sha256Block(src: Bytes, block: nat, b: nat) returns (digest: Digest)
    ensures digest == Sha256(BlockOf(src, block, b))
  {
    var bytes := BlockOf(src, block, b);
    assert [bytes][..0] == [] && Joined([]) == [];
    assert Joined([bytes]) == [] + bytes == bytes;
    digest := Sha256Pieces([bytes]);
  }
}
