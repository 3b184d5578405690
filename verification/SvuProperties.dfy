/** What the verdict means: exact ranges while incomplete, exact blocks when corrupt, safety when verified. */
module SvuProperties {
  import opened Machine
  import opened HashSpec
  import opened SvuSpec

  ghost predicate InSome(r: seq<Interval>, p: int) {
    exists k :: 0 <= k < |r| && r[k].start <= p < r[k].end
  }

  /** `r` lists exactly the uncovered positions of `c` from `lo` on as sorted, separated, non-empty ranges. */
  ghost predicate ExactRuns(c: seq<bool>, lo: nat, r: seq<Interval>) {
    && (forall k | 0 <= k < |r| :: lo <= r[k].start < r[k].end <= |c|)
    && (forall i, j | 0 <= i < j < |r| :: r[i].end < r[j].start)
    && (forall p | lo <= p < |c| :: !c[p] <==> InSome(r, p))
  }

  lemma {:induction false} MissingFromIsExact(c: seq<bool>, lo: nat)
    requires lo <= |c|
    ensures ExactRuns(c, lo, MissingFrom(c, lo))
    decreases |c| - lo
  {
    if lo < |c| {
      if c[lo] {
        MissingFromIsExact(c, lo + 1);
      } else {
        var e := RunEnd(c, lo);
        MissingFromIsExact(c, e);
        if e < |c| {
          MissingFromIsExact(c, e + 1);
        }
        RunPrepended(c, lo, e, MissingFrom(c, e));
      }
    }
  }

  /** A run in front of an exact list that starts after it is an exact list. */
  lemma RunPrepended(c: seq<bool>, lo: nat, e: nat, rest: seq<Interval>)
    requires lo < e <= |c| && (forall k | lo <= k < e :: !c[k])
    requires ExactRuns(c, e, rest) && (e < |c| ==> c[e])
    ensures ExactRuns(c, lo, [Interval(lo, e)] + rest)
  {
    var r := [Interval(lo, e)] + rest;
    forall i, j | 0 <= i < j < |r|
      ensures r[i].end < r[j].start
    {
      assert r[j] == rest[j - 1];
      if i == 0 {
        StartsLater(c, e, rest, j - 1);
      } else {
        assert r[i] == rest[i - 1];
      }
    }
    forall p | lo <= p < |c|
      ensures !c[p] <==> InSome(r, p)
    {
      InSomeCons(Interval(lo, e), rest, p);
      if p < e {
        NotBefore(c, e, rest, p);
      }
    }
  }

  lemma StartsLater(c: seq<bool>, e: nat, r: seq<Interval>, j: nat)
    requires e <= |c| && ExactRuns(c, e, r) && j < |r| && (e < |c| ==> c[e])
    ensures e < r[j].start
  {
    assert InSome(r, r[j].start);
  }

  lemma NotBefore(c: seq<bool>, lo: nat, r: seq<Interval>, p: int)
    requires ExactRuns(c, lo, r) && p < lo
    ensures !InSome(r, p)
  {}

  lemma InSomeCons(x: Interval, rest: seq<Interval>, p: int)
    ensures InSome([x] + rest, p) <==> x.start <= p < x.end || InSome(rest, p)
  {
    var r := [x] + rest;
    if InSome(rest, p) {
      var k :| 0 <= k < |rest| && rest[k].start <= p < rest[k].end;
      assert r[k + 1] == rest[k];
    }
    if x.start <= p < x.end {
      assert r[0] == x;
    }
  }

  /** Both ends of a reported run are maximal: its neighbours are covered or do not exist. */
  lemma MissingRunsAreMaximal(c: seq<bool>, k: nat)
    requires k < |Missing(c)|
    ensures var x := Missing(c)[k];
            && x.start < x.end <= |c|
            && (x.start > 0 ==> c[x.start - 1])
            && (x.end < |c| ==> c[x.end])
            && (forall p | x.start <= p < x.end :: !c[p])
  {
    MissingFromIsExact(c, 0);
    var r := Missing(c);
    var x := r[k];
    NotBetween(c, r, k, x.start - 1);
    NotBetween(c, r, k, x.end);
    forall p | x.start <= p < x.end
      ensures !c[p]
    {
      assert InSome(r, p);
    }
  }

  lemma NotBetween(c: seq<bool>, r: seq<Interval>, k: nat, p: int)
    requires ExactRuns(c, 0, r) && k < |r|
    requires p == r[k].start - 1 || p == r[k].end
    ensures !InSome(r, p)
  {
    forall j | 0 <= j < |r|
      ensures !(r[j].start <= p < r[j].end)
    {
      assert j < k ==> r[j].end < r[k].start;
      assert k < j ==> r[k].end < r[j].start;
    }
  }

  // ---- counting covered bytes

  lemma {:induction false} CountBound(c: seq<bool>)
    ensures CountCovered(c) <= |c|
    ensures CountCovered(c) == |c| <==> forall i | 0 <= i < |c| :: c[i]
  {
    if c != [] {
      CountBound(c[1..]);
      assert forall i | 0 < i < |c| :: c[i] == c[1..][i - 1];
    }
  }

  /** More covered positions, larger count; strictly larger when some position is new. */
  lemma {:induction false} CountGrows(c: seq<bool>, d: seq<bool>)
    requires |c| == |d|
    requires forall i | 0 <= i < |c| :: c[i] ==> d[i]
    ensures CountCovered(c) <= CountCovered(d)
    ensures (exists i :: 0 <= i < |c| && !c[i] && d[i]) ==> CountCovered(c) < CountCovered(d)
  {
    if c != [] {
      CountGrows(c[1..], d[1..]);
      if i :| 0 <= i < |c| && !c[i] && d[i] {
        if i > 0 {
          assert !c[1..][i - 1] && d[1..][i - 1];
        }
      }
    }
  }

  lemma {:induction false} CountSet(c: seq<bool>, i: nat)
    requires i < |c| && !c[i]
    ensures CountCovered(c[i := true]) == CountCovered(c) + 1
  {
    if i > 0 {
      assert c[i := true][1..] == c[1..][i - 1 := true];
      CountSet(c[1..], i - 1);
    }
  }

  /** The verdict is incomplete exactly when some byte is uncovered, and then it names a range. */
  lemma IncompleteNamesARange(h: HashFunction, s: Receiver)
    requires s.Valid()
    ensures Verdict(h, s).0 == Incomplete <==> exists i :: 0 <= i < |s.covered| && !s.covered[i]
    ensures Verdict(h, s).0 != CompleteVerified ==> |Verdict(h, s).1| >= 1
    ensures Verdict(h, s).0 == CompleteVerified ==> Verdict(h, s).1 == []
  {
    CountBound(s.covered);
    MissingFromIsExact(s.covered, 0);
    if i :| 0 <= i < |s.covered| && !s.covered[i] {
      assert InSome(Missing(s.covered), i);
    }
  }

  // ---- failing blocks

  ghost predicate Ascending(f: seq<nat>) {
    forall i, j | 0 <= i < j < |f| :: f[i] < f[j]
  }

  /** The entries of `f` are exactly the failing ones of the first `n` blocks. */
  ghost predicate Lists(h: HashFunction, s: Receiver, n: nat, f: seq<nat>)
    requires s.Valid() && n <= s.nblocks
  {
    && (forall k | 0 <= k < |f| :: f[k] < n && BlockFails(h, s, f[k]))
    && (forall b: nat | b < n && BlockFails(h, s, b) :: b in f)
  }

  /** The failing blocks are listed exactly, each once and in order. */
  lemma {:induction false} FailingBlocksAreExact(h: HashFunction, s: Receiver, n: nat)
    requires s.Valid() && n <= s.nblocks
    ensures Lists(h, s, n, FailingBlocks(h, s, n)) && Ascending(FailingBlocks(h, s, n))
  {
    if n > 0 {
      FailingBlocksAreExact(h, s, n - 1);
      ExactNext(h, s, n, FailingBlocks(h, s, n - 1));
    }
  }

  /** An exact list of the first n - 1 blocks, extended or not by the next one, is exact. */
  lemma ExactNext(h: HashFunction, s: Receiver, n: nat, f: seq<nat>)
    requires s.Valid() && 0 < n <= s.nblocks && Lists(h, s, n - 1, f) && Ascending(f)
    ensures var g := if BlockFails(h, s, n - 1) then f + [n - 1] else f; Lists(h, s, n, g) && Ascending(g)
  {
    if BlockFails(h, s, n - 1) {
      AscendingNext(f, n - 1);
      ListsNext(h, s, n, f);
    } else {
      ListsOn(h, s, n, f);
    }
  }

  lemma ListsOn(h: HashFunction, s: Receiver, n: nat, f: seq<nat>)
    requires s.Valid() && 0 < n <= s.nblocks && Lists(h, s, n - 1, f) && !BlockFails(h, s, n - 1)
    ensures Lists(h, s, n, f)
  {}

  lemma AscendingNext(f: seq<nat>, x: nat)
    requires Ascending(f) && forall k | 0 <= k < |f| :: f[k] < x
    ensures Ascending(f + [x])
  {}

  lemma ListsNext(h: HashFunction, s: Receiver, n: nat, f: seq<nat>)
    requires s.Valid() && 0 < n <= s.nblocks && Lists(h, s, n - 1, f) && BlockFails(h, s, n - 1)
    ensures Lists(h, s, n, f + [n - 1])
  {
    forall b: nat | b < n && BlockFails(h, s, b)
      ensures b in f + [n - 1]
    {
      InAppended(f, n - 1, b);
    }
  }

  lemma InAppended(f: seq<nat>, x: nat, b: nat)
    ensures b in f + [x] <==> b in f || b == x
  {
    assert b == x ==> (f + [x])[|f|] == b;
  }

  // ---- safety

  /** Block `b` holds different bytes in `x` and `y`, and the two have the same digest. */
  ghost predicate Collision(h: HashFunction, x: Bytes, y: Bytes, block: nat, nblocks: nat, b: nat) {
    && Geometry(|x|, block, nblocks) && |x| == |y| && b < nblocks
    && BlockOf(x, block, b) != BlockOf(y, block, b)
    && h(BlockOf(x, block, b)) == h(BlockOf(y, block, b))
  }

  ghost predicate HasCollision(h: HashFunction, x: Bytes, y: Bytes, block: nat, nblocks: nat) {
    exists b: nat :: Collision(h, x, y, block, nblocks, b)
  }

  /** The receiver was made with the manifest of `src`. */
  ghost predicate Expects(h: HashFunction, s: Receiver, src: Bytes) {
    s.Valid() && |src| == |s.data| && s.expected == Manifest(h, src, s.block, s.nblocks)
  }

  lemma FailsMeansDifferentDigest(h: HashFunction, s: Receiver, src: Bytes, b: nat)
    requires Expects(h, s, src) && b < s.nblocks
    ensures BlockFails(h, s, b) <==> h(BlockOf(s.data, s.block, b)) != h(BlockOf(src, s.block, b))
  {
    ManifestDigest(h, src, s.block, s.nblocks, b);
  }

  lemma EqualBlocks(x: Bytes, y: Bytes, block: nat, nblocks: nat)
    requires |x| == |y| && Geometry(|x|, block, nblocks)
    requires forall b: nat | b < nblocks ::
               BlockOf(x, block, b) == BlockOf(y, block, b)
    ensures x == y
  {
    forall i | 0 <= i < |x|
      ensures x[i] == y[i]
    {
      var b := BlockHolding(block, nblocks, i);
      var k := i - BlockStart(block, b);
      assert BlockOf(x, block, b)[k] == BlockOf(y, block, b)[k];
    }
  }

  /** A verified buffer is the source, or one of its blocks is an explicit collision with the source's. */
  lemma VerifiedMeansIntact(h: HashFunction, s: Receiver, src: Bytes)
    requires Expects(h, s, src)
    requires Verdict(h, s).0 == CompleteVerified
    ensures s.data == src || HasCollision(h, s.data, src, s.block, s.nblocks)
  {
    FailingBlocksAreExact(h, s, s.nblocks);
    if !HasCollision(h, s.data, src, s.block, s.nblocks) {
      forall b: nat | b < s.nblocks
            ensures BlockOf(s.data, s.block, b) == BlockOf(src, s.block, b)
      {
        FailsMeansDifferentDigest(h, s, src, b);
        assert !BlockFails(h, s, b);
        assert !Collision(h, s.data, src, s.block, s.nblocks, b);
      }
      EqualBlocks(s.data, src, s.block, s.nblocks);
    }
  }

  /** A receiver that holds the source entirely is verified. */
  lemma IntactIsVerified(h: HashFunction, s: Receiver, src: Bytes)
    requires Expects(h, s, src)
    requires s.data == src
    requires forall i | 0 <= i < |s.covered| :: s.covered[i]
    ensures Verdict(h, s).0 == CompleteVerified
  {
    CountBound(s.covered);
    FailingBlocksAreExact(h, s, s.nblocks);
    var f := FailingBlocks(h, s, s.nblocks);
    if f != [] {
      FailsMeansDifferentDigest(h, s, src, f[0]);
    }
  }
}
