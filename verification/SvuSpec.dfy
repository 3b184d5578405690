/**
 * lib/ci_svu.c as values: what a receiver holds, what a fragment does to it, and what the verdict
 * says. Everything is stated for an arbitrary hash function.
 */
module SvuSpec {
  import opened Machine
  import opened HashSpec

  type Bytes = seq<bv8>
  type HashFunction = Bytes -> Digest

  /** The byte range [start, end). */
  datatype Interval = Interval(start: nat, end: nat)

  datatype Status = Incomplete | CompleteVerified | Corrupt

  /** ci_svu_nblocks: the sum wraps at 32 bits. */
  function NBlocks(total: u32, block: u32): u32 {
    if total == 0 || block == 0 then 0 else
      var n := (total + block - 1) % 0x1_0000_0000 / block;
      DivideLess((total + block - 1) % 0x1_0000_0000, block);
      n
  }

  lemma QuotientUnique(n: nat, d: nat, q: nat)
    requires d > 0
    requires q * d <= n < (q + 1) * d
    ensures n / d == q
  {
    var p := n / d;
    assert n == p * d + n % d;
    ScaleMonotone(p + 1, q, d);
    ScaleMonotone(q + 1, p, d);
  }

  /** Where block `b` starts. */
  function BlockStart(block: nat, b: nat): nat {
    if b == 0 then 0 else BlockStart(block, b - 1) + block
  }

  lemma {:induction false} BlockStartIsProduct(block: nat, b: nat)
    ensures BlockStart(block, b) == b * block
  {
    if b > 0 {
      BlockStartIsProduct(block, b - 1);
    }
  }

  lemma {:induction false} BlockStartMonotone(block: nat, a: nat, b: nat)
    requires a <= b
    ensures BlockStart(block, a) <= BlockStart(block, b)
    decreases b
  {
    if a < b {
      BlockStartMonotone(block, a, b - 1);
    }
  }

  /** The sizes agree: `nblocks` blocks of `block` bytes, the last one possibly short, make `total`. */
  ghost predicate Geometry(total: nat, block: nat, nblocks: nat) {
    block > 0 && nblocks > 0 && BlockStart(block, nblocks - 1) < total <= BlockStart(block, nblocks)
  }

  /**
   * The wrapped count is either the exact number of blocks or 0, and it is 0 exactly when a size is
   * 0 or the rounding sum does not fit: a receiver never checks too few blocks.
   */
  lemma NBlocksIsExactOrZero(total: u32, block: u32)
    ensures NBlocks(total, block) > 0 ==> Geometry(total, block, NBlocks(total, block))
    ensures NBlocks(total, block) == 0 <==> total == 0 || block == 0 || total + block - 1 >= TWO32
  {
    if total > 0 && block > 0 {
      var sum := total + block - 1;
      if sum >= TWO32 {
        QuotientUnique(sum - TWO32, block, 0);
      } else {
        var n := sum / block;
        assert sum == n * block + sum % block;
        BlockStartIsProduct(block, n);
        assert n > 0;
      }
    }
  }

  function Min(a: nat, b: nat): nat { if a < b then a else b }

  /** Where block `b` ends. */
  function BlockEnd(total: nat, block: nat, b: nat): nat {
    Min(BlockStart(block, b) + block, total)
  }

  lemma BlockRange(total: nat, block: nat, nblocks: nat, b: nat)
    requires Geometry(total, block, nblocks) && b < nblocks
    ensures BlockStart(block, b) < BlockEnd(total, block, b) <= total
  {
    BlockStartMonotone(block, b, nblocks - 1);
  }

  /** Bytes of block `b`; empty past the end. */
  function BlockOf(data: Bytes, block: nat, b: nat): Bytes {
    data[Min(BlockStart(block, b), BlockEnd(|data|, block, b))..BlockEnd(|data|, block, b)]
  }

  /** The block that byte `i` is in. */
  lemma {:induction false} BlockHolding(block: nat, nblocks: nat, i: nat) returns (b: nat)
    requires i < BlockStart(block, nblocks)
    ensures b < nblocks && BlockStart(block, b) <= i < BlockStart(block, b) + block
  {
    if i >= BlockStart(block, nblocks - 1) {
      b := nblocks - 1;
    } else {
      b := BlockHolding(block, nblocks - 1, i);
    }
  }

  /** ci_svu_manifest: the digests of the first `n` blocks, end to end. */
  function Manifest(h: HashFunction, src: Bytes, block: nat, n: nat): (m: Bytes)
    ensures |m| == 32 * n
  {
    if n == 0 then [] else Manifest(h, src, block, n - 1) + h(BlockOf(src, block, n - 1))
  }

  /** Digest `b` of a manifest. */
  function DigestAt(manifest: Bytes, b: nat): Bytes
    requires 32 * b + 32 <= |manifest|
  {
    manifest[32 * b..32 * b + 32]
  }

  lemma {:induction false} ManifestDigest(h: HashFunction, src: Bytes, block: nat, n: nat, b: nat)
    requires b < n
    ensures DigestAt(Manifest(h, src, block, n), b) == h(BlockOf(src, block, b))
  {
    var init := Manifest(h, src, block, n - 1);
    if b < n - 1 {
      ManifestDigest(h, src, block, n - 1, b);
      assert DigestAt(Manifest(h, src, block, n), b) == DigestAt(init, b);
    }
  }

  /** What a receiver holds. `covered_count` is the number of true entries of `covered`. */
  datatype Receiver = Receiver(block: nat, nblocks: nat, expected: Bytes, data: Bytes, covered: seq<bool>) {
    ghost predicate Valid() {
      && |covered| == |data|
      && Geometry(|data|, block, nblocks)
      && |expected| == 32 * nblocks
    }
  }

  function CountCovered(c: seq<bool>): nat {
    if c == [] then 0 else (if c[0] then 1 else 0) + CountCovered(c[1..])
  }

  /** Where a fragment of `len` bytes at `off` lands: nowhere when it runs past the payload. */
  predicate Fits(total: nat, off: nat, len: nat) {
    off + len <= total
  }

  /** Coverage once the positions [start, end) are marked. */
  function Marked(c: seq<bool>, start: nat, end: nat): seq<bool> {
    seq(|c|, i requires 0 <= i < |c| => c[i] || start <= i < end)
  }

  /** ci_svu_accept. */
  function Accept(s: Receiver, off: nat, buf: Bytes): Receiver
    requires |s.covered| == |s.data|
  {
    if !Fits(|s.data|, off, |buf|) then s else
      s.(data := s.data[..off] + buf + s.data[off + |buf|..],
         covered := Marked(s.covered, off, off + |buf|))
  }

  /** First position at or after `i` that is covered, or the end. */
  function RunEnd(c: seq<bool>, i: nat): (e: nat)
    requires i <= |c|
    ensures i <= e <= |c|
    ensures forall k | i <= k < e :: !c[k]
    ensures e < |c| ==> c[e]
    decreases |c| - i
  {
    if i == |c| || c[i] then i else RunEnd(c, i + 1)
  }

  /** The uncovered runs from position `i` on, left to right. */
  function MissingFrom(c: seq<bool>, i: nat): seq<Interval>
    requires i <= |c|
    decreases |c| - i
  {
    if i == |c| then []
    else if c[i] then MissingFrom(c, i + 1)
    else [Interval(i, RunEnd(c, i))] + MissingFrom(c, RunEnd(c, i))
  }

  function Missing(c: seq<bool>): seq<Interval> {
    MissingFrom(c, 0)
  }

  predicate BlockFails(h: HashFunction, s: Receiver, b: nat)
    requires s.Valid() && b < s.nblocks
  {
    h(BlockOf(s.data, s.block, b)) != DigestAt(s.expected, b)
  }

  /** Those of the first `n` blocks that fail their digest, in order. */
  function FailingBlocks(h: HashFunction, s: Receiver, n: nat): seq<nat>
    requires s.Valid() && n <= s.nblocks
  {
    if n == 0 then []
    else if BlockFails(h, s, n - 1) then FailingBlocks(h, s, n - 1) + [n - 1]
    else FailingBlocks(h, s, n - 1)
  }

  function BlockInterval(total: nat, block: nat, b: nat): Interval {
    Interval(BlockStart(block, b), BlockEnd(total, block, b))
  }

  function BlockIntervals(total: nat, block: nat, blocks: seq<nat>): seq<Interval> {
    seq(|blocks|, k requires 0 <= k < |blocks| => BlockInterval(total, block, blocks[k]))
  }

  /** ci_svu_verify: the status, and every range to ask for again. */
  function Verdict(h: HashFunction, s: Receiver): (Status, seq<Interval>)
    requires s.Valid()
  {
    if CountCovered(s.covered) < |s.covered| then (Incomplete, Missing(s.covered))
    else
      var failing := FailingBlocks(h, s, s.nblocks);
      (if failing == [] then CompleteVerified else Corrupt, BlockIntervals(|s.data|, s.block, failing))
  }
}
