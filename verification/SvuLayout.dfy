/**
 * What goes on the wire, byte by byte and in plain numbers: little-endian words, spelled magics, field
 * offsets, packet sizes (svu/svu_proto.h, svu/svu_serve.c, svu/svu_session.c).
 */
module SvuLayout {
  import opened Machine
  import opened Words
  import opened SvuSpec
  import opened SvuWire
  import opened SvuServer
  import opened SvuDelivery
  import opened SvuClient

  // ---- words

  lemma FourDigits(s: Bytes)
    requires |s| == 4
    ensures NumberOf(s) == Ord(s[0]) + 0x100 * Ord(s[1]) + 0x1_0000 * Ord(s[2]) + 0x100_0000 * Ord(s[3])
  {
    NumberStep(s);
    NumberStep(s[1..]);
    NumberStep(s[2..]);
    NumberStep(s[3..]);
    assert s[1..][1..] == s[2..] && s[2..][1..] == s[3..] && s[3..][1..] == [];
  }

  lemma NumberStep(s: Bytes)
    requires s != []
    ensures NumberOf(s) == Ord(s[0]) + 0x100 * NumberOf(s[1..])
  {}

  /** A word is read least significant byte first. */
  lemma WordIsLittleEndian(p: Bytes, at: nat)
    requires at + 4 <= |p|
    ensures Get32(p, at)
         == Ord(p[at]) + 0x100 * Ord(p[at + 1]) + 0x1_0000 * Ord(p[at + 2]) + 0x100_0000 * Ord(p[at + 3])
  {
    FourDigits(p[at..at + 4]);
  }

  /** Four bytes are the word they denote. */
  lemma WrittenAs(v: u32, a: bv8, b: bv8, c: bv8, d: bv8)
    requires v == Ord(a) + 0x100 * Ord(b) + 0x1_0000 * Ord(c) + 0x100_0000 * Ord(d)
    ensures Put32(v) == [a, b, c, d]
  {
    var s := [a, b, c, d];
    FourDigits(s);
    assert s[0..0 + 4] == s;
    Get32IsInverse(s, 0, v);
  }

  /** The magics spell SVUQ, SVUR and PUVS. */
  lemma MagicsSpelled()
    ensures Put32(MAGIC_REQ) == [0x53, 0x56, 0x55, 0x51]
    ensures Put32(MAGIC_RESP) == [0x53, 0x56, 0x55, 0x52]
    ensures Put32(PUSH_MAGIC) == [0x50, 0x55, 0x56, 0x53]
  {
    WrittenAs(MAGIC_REQ, 0x53, 0x56, 0x55, 0x51);
    WrittenAs(MAGIC_RESP, 0x53, 0x56, 0x55, 0x52);
    WrittenAs(PUSH_MAGIC, 0x50, 0x55, 0x56, 0x53);
  }

  // ---- packets

  /** A data packet: offset, session, and the bytes of the source from that offset on. */
  lemma PacketLayout(src: Bytes, session: u32, off: u32, len: nat)
    requires off + len <= |src|
    ensures var p := Packet(src, session, off, len);
            |p| == 8 + len && Get32(p, 0) == off && Get32(p, 4) == session && p[8..] == src[off..off + len]
  {
    var p := Packet(src, session, off, len);
    assert p[0..4] == Put32(off) && p[4..8] == Put32(session);
    Get32IsInverse(p, 0, off);
    Get32IsInverse(p, 4, session);
  }

  /** The same with offsets as sums, which is how they come about. */
  lemma {:induction false} FragmentAfter(src: Bytes, session: u32, pay: nat, start: nat, end: nat, k: nat)
    requires pay > 0 && end <= |src| < TWO32
    ensures var f := Fragments(src, session, pay, start, end);
            var off := start + BlockStart(pay, k);
            && (k < |f| <==> off < end)
            && (k < |f| ==> f[k] == Packet(src, session, off, Min(pay, end - off)))
    decreases k
  {
    if k > 0 {
      FirstBlock(pay, k);
      FragmentAfter(src, session, pay, start + pay, end, k - 1);
    }
  }

  lemma {:induction false} FirstBlock(pay: nat, k: nat)
    requires k > 0
    ensures BlockStart(pay, k) == pay + BlockStart(pay, k - 1)
  {
    if k > 1 {
      FirstBlock(pay, k - 1);
    }
  }

  /**
   * Fragment `k` of a range starts `k` payloads into it and is a whole payload, or what is left of
   * the range; there are as many fragments as it takes.
   */
  lemma FragmentAt(src: Bytes, session: u32, pay: nat, start: nat, end: nat, k: nat)
    requires pay > 0 && end <= |src| < TWO32
    ensures var f := Fragments(src, session, pay, start, end);
            && (k < |f| <==> start + k * pay < end)
            && (k < |f| ==> f[k] == Packet(src, session, start + k * pay, Min(pay, end - (start + k * pay))))
  {
    FragmentAfter(src, session, pay, start, end, k);
    BlockStartIsProduct(pay, k);
  }

  /** What the payload of an mtu leaves for the header. */
  lemma PacketFillsMtu(mtu: u32)
    ensures 8 + Payload(mtu) == if mtu > 8 then mtu else 9
  {}

  /** Every packet of a range but the last is exactly as long as the mtu allows, and none is longer. */
  lemma RangeSizes(src: Bytes, session: u32, mtu: u32, start: nat, end: nat, k: nat)
    requires mtu > 8 && end <= |src| < TWO32
    requires k < |Fragments(src, session, Payload(mtu), start, end)|
    ensures var f := Fragments(src, session, Payload(mtu), start, end);
            && 8 < |f[k]| <= mtu
            && (k + 1 < |f| ==> |f[k]| == mtu)
  {
    PacketFillsMtu(mtu);
    FragmentSize(src, session, Payload(mtu), start, end, k);
  }

  lemma FragmentSize(src: Bytes, session: u32, pay: nat, start: nat, end: nat, k: nat)
    requires pay > 0 && end <= |src| < TWO32
    requires k < |Fragments(src, session, pay, start, end)|
    ensures var f := Fragments(src, session, pay, start, end);
            && 8 < |f[k]| <= 8 + pay
            && (k + 1 < |f| ==> |f[k]| == 8 + pay)
  {
    var off := start + BlockStart(pay, k);
    FragmentAfter(src, session, pay, start, end, k);
    FragmentAfter(src, session, pay, start, end, k + 1);
    PacketLayout(src, session, off, Min(pay, end - off));
  }

  lemma {:induction false} BlastRangesSizes(src: Bytes, session: u32, mtu: u32, ivs: seq<Interval>, p: Bytes)
    requires mtu > 8 && |src| < TWO32 && p in BlastRanges(src, session, Payload(mtu), ivs)
    ensures 8 < |p| <= mtu
  {
    var n := |ivs| - 1;
    if p in BlastRanges(src, session, Payload(mtu), ivs[..n]) {
      BlastRangesSizes(src, session, mtu, ivs[..n], p);
    } else {
      var f := Fragments(src, session, Payload(mtu), ivs[n].start, Min(ivs[n].end, |src|));
      var k :| 0 <= k < |f| && f[k] == p;
      RangeSizes(src, session, mtu, ivs[n].start, Min(ivs[n].end, |src|), k);
    }
  }

  /** No packet of a blast is longer than the mtu, and none is without payload. */
  lemma BlastSizes(src: Bytes, session: u32, mtu: u32, ivs: seq<Interval>, p: Bytes)
    requires mtu > 8 && |src| < TWO32 && p in Blast(src, session, Payload(mtu), ivs)
    ensures 8 < |p| <= mtu
  {
    if ivs == [] {
      var f := Fragments(src, session, Payload(mtu), 0, |src|);
      var k :| 0 <= k < |f| && f[k] == p;
      RangeSizes(src, session, mtu, 0, |src|, k);
    } else {
      BlastRangesSizes(src, session, mtu, ivs, p);
    }
  }

  /** The data packets of an answer fit the mtu of the request, or 256 where it asks for 8 or less. */
  lemma AnswerSizes(src: Bytes, block: u32, nblocks: u32, manifest: Bytes, request: Bytes, p: Bytes)
    requires |src| < TWO32 && Carried(request).Some?
    requires p in Answer(src, block, nblocks, manifest, request).1
    ensures var mtu := Carried(request).value.mtu; 8 < |p| <= if mtu > 8 then mtu else 256
    ensures Get32(p, 4) == Carried(request).value.session
  {
    var q := Carried(request).value;
    BlastSizes(src, q.session, ServeMtu(q.mtu), q.intervals, p);
    BlastSession(src, q.session, Payload(ServeMtu(q.mtu)), q.intervals, p);
  }

  lemma {:induction false} FragmentsSession(src: Bytes, session: u32, pay: nat, start: nat, end: nat, p: Bytes)
    requires pay > 0 && end <= |src| < TWO32 && p in Fragments(src, session, pay, start, end)
    ensures |p| >= 8 && Get32(p, 4) == session
    decreases end - start
  {
    if p == Packet(src, session, start, Min(pay, end - start)) {
      PacketLayout(src, session, start, Min(pay, end - start));
    } else {
      FragmentsSession(src, session, pay, start + pay, end, p);
    }
  }

  lemma {:induction false} BlastSession(src: Bytes, session: u32, pay: nat, ivs: seq<Interval>, p: Bytes)
    requires pay > 0 && |src| < TWO32 && p in Blast(src, session, pay, ivs)
    ensures |p| >= 8 && Get32(p, 4) == session
    decreases |ivs|
  {
    if ivs == [] {
      FragmentsSession(src, session, pay, 0, |src|, p);
    } else {
      var n := |ivs| - 1;
      if p in BlastRanges(src, session, pay, ivs[..n]) {
        assert ivs[..n] != [];
        BlastSession(src, session, pay, ivs[..n], p);
      } else {
        FragmentsSession(src, session, pay, ivs[n].start, Min(ivs[n].end, |src|), p);
      }
    }
  }

  // ---- the control stream

  /** Chunk `k` of a manifest is its bytes from 200 k on, 200 of them or what is left. */
  lemma {:induction false} ChunkAt(m: Bytes, k: nat)
    ensures k < |Chunks(m)| <==> 200 * k < |m|
    ensures k < |Chunks(m)| ==> Chunks(m)[k] == m[200 * k..Min(200 * k + 200, |m|)]
    decreases k
  {
    if m != [] {
      var n := Min(200, |m|);
      var rest := Chunks(m[n..]);
      assert Chunks(m) == [m[..n]] + rest;
      if k > 0 {
        ChunkAt(m[n..], k - 1);
        if k < |Chunks(m)| {
          assert Chunks(m)[k] == rest[k - 1];
          assert n == 200 && m[n..][200 * (k - 1)..Min(200 * k, |m| - n)] == m[200 * k..Min(200 * k + 200, |m|)];
        }
      }
    }
  }

  /** The response header: 20 bytes, the magic, the session, the size, the block size and the number of blocks. */
  lemma HeaderLayout(session: u32, total: u32, block: u32, nblocks: u32)
    ensures var p := Header(session, total, block, nblocks);
            && |p| == 20 && Get32(p, 0) == 0x52555653 && Get32(p, 4) == session
            && Get32(p, 8) == total && Get32(p, 12) == block && Get32(p, 16) == nblocks
  {
    var ws := [MAGIC_RESP, session, total, block, nblocks];
    var p := PutWords(ws);
    PrefixIsWords(p, ws);
    assert Get32(p, 4 * 0) == ws[0] && Get32(p, 4 * 1) == ws[1] && Get32(p, 4 * 2) == ws[2];
    assert Get32(p, 4 * 3) == ws[3] && Get32(p, 4 * 4) == ws[4];
  }

  // ---- requests

  /** A request as the client sends it: magic, session 1, mtu, block size, number of ranges, address 0, the ranges. */
  lemma RequestLayout(h: HashFunction, mtu: u32, blockSize: u32, m: Meta, env: seq<RoundInput>, k: nat, bytes: Bytes)
    requires k <= |env| && Sends(h, mtu, blockSize, m, env, k, bytes)
    ensures var ivs := AskedFor(h, m, env, k);
            && |bytes| == 24 + 8 * |ivs| && |ivs| <= 32
            && Get32(bytes, 0) == 0x51555653 && Get32(bytes, 4) == 1 && Get32(bytes, 8) == mtu
            && Get32(bytes, 12) == blockSize && Get32(bytes, 16) == |ivs| && Get32(bytes, 20) == 0
            && forall j | 0 <= j < |ivs| ::
                 Get32(bytes, 24 + 8 * j) == ivs[j].start && Get32(bytes, 28 + 8 * j) == ivs[j].end
  {
    RequestBytes(RequestFor(mtu, blockSize, AskedFor(h, m, env, k)), bytes);
  }

  lemma RequestBytes(q: Request, bytes: Bytes)
    requires q.Acceptable() && bytes == Encoding(q)
    ensures |bytes| == 24 + 8 * |q.intervals| && |q.intervals| <= 32
    ensures Get32(bytes, 0) == 0x51555653 && Get32(bytes, 4) == q.session && Get32(bytes, 8) == q.mtu
    ensures Get32(bytes, 12) == q.block && Get32(bytes, 16) == |q.intervals| && Get32(bytes, 20) == q.client
    ensures forall j | 0 <= j < |q.intervals| ::
              Get32(bytes, 24 + 8 * j) == q.intervals[j].start && Get32(bytes, 28 + 8 * j) == q.intervals[j].end
  {
    EncodedFields(q, bytes);
    RequestLength(q);
    forall j | 0 <= j < |q.intervals|
      ensures Get32(bytes, 24 + 8 * j) == q.intervals[j].start && Get32(bytes, 28 + 8 * j) == q.intervals[j].end
    {
      RangeAt(q, bytes, j);
    }
  }

  lemma RequestLength(q: Request)
    requires q.Acceptable()
    ensures |Encoding(q)| == 24 + 8 * |q.intervals|
  {}

  lemma RangeAt(q: Request, bytes: Bytes, j: nat)
    requires q.Acceptable() && Encoding(q) <= bytes && j < |q.intervals|
    ensures |bytes| >= 24 + 8 * |q.intervals|
    ensures Get32(bytes, 24 + 8 * j) == q.intervals[j].start && Get32(bytes, 28 + 8 * j) == q.intervals[j].end
  {
    EncodedFields(q, bytes);
    assert Get32(bytes, REQ_HDR + j * 8) == q.intervals[j].start;
  }

  /**
   * An announce: without a mode the bare path, as much of it as fits; with one the magic, the mode
   * and as much of the path as fits after them.
   */
  lemma AnnounceLayout(mode: u32, path: Bytes, cap: nat)
    requires cap >= 8
    ensures var a := AnnounceEncode(mode, path, cap);
            if mode == 0 then a == path[..Min(|path|, cap)]
            else
              && |a| == Min(8 + |path|, cap) && Get32(a, 0) == 0x53565550 && Get32(a, 4) == mode
              && a[8..] == path[..|a| - 8]
  {
    var kept := path[..Min(|path|, cap - 8)];
    FramedFields(PUSH_MAGIC, mode, kept);
    assert kept[..|kept|] == kept;
  }

  /** Of what is announced a path buffer of `cap` bytes keeps all but the last byte, which ends it. */
  lemma AnnounceCut(buf: Bytes, cap: nat)
    requires cap > 0
    ensures var (mode, path) := AnnounceDecode(buf, cap);
            if |buf| >= 8 && Get32(buf, 0) == 0x53565550
            then mode == Get32(buf, 4) && path == buf[8..][..Min(|buf| - 8, cap - 1)]
            else mode == 0 && path == buf[..Min(|buf|, cap - 1)]
  {}

  // ---- attempts

  /** Eight attempts are made and no ninth: what the others would read makes no difference. */
  lemma EightAttempts(x: RoundInput)
    ensures Negotiated(x).Some? <==> exists k :: 0 <= k < 8 && Exchange(AttemptAt(x, k)).Some?
  {
    FirstAnswer(x, 0);
  }

  lemma {:induction false} FirstAnswer(x: RoundInput, n: nat)
    requires n <= 8
    ensures NegotiatedFrom(x, n).Some? <==> exists k :: n <= k < 8 && Exchange(AttemptAt(x, k)).Some?
    decreases 8 - n
  {
    if n < 8 {
      FirstAnswer(x, n + 1);
    }
  }
}
