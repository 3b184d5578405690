/**
 * svu/svu_session.c: the control exchange and the round loop. What the two channels deliver is an
 * input: any packets at all on the data channel, and on the control channel any part of what the
 * sender wrote, in order.
 */
module SvuClient {
  import opened Machine
  import opened Words
  import opened HashSpec
  import opened SvuSpec
  import opened SvuProperties
  import opened SvuReceiver
  import opened SvuWire
  import opened SvuServer
  import opened SvuDelivery

  // ---- lossy, in-order delivery

  /** `r` is what is left of `s` when some packets are lost. */
  ghost predicate Kept(r: seq<Bytes>, s: seq<Bytes>) {
    r == [] || (s != [] && ((r[0] == s[0] && Kept(r[1..], s[1..])) || Kept(r, s[1..])))
  }

  function Flatten(ss: seq<Bytes>): Bytes {
    if ss == [] then [] else ss[0] + Flatten(ss[1..])
  }

  lemma {:induction false} KeptTail(r: seq<Bytes>, s: seq<Bytes>)
    requires r != [] && Kept(r, s)
    ensures s != [] && Kept(r[1..], s[1..])
  {
    if !(r[0] == s[0] && Kept(r[1..], s[1..])) {
      KeptTail(r, s[1..]);
    }
  }

  /** What arrives is never longer than what was sent, and as long only if nothing was lost. */
  lemma {:induction false} KeptLength(r: seq<Bytes>, s: seq<Bytes>)
    requires Kept(r, s)
    requires forall k | 0 <= k < |s| :: s[k] != []
    ensures |Flatten(r)| <= |Flatten(s)|
    ensures |Flatten(r)| == |Flatten(s)| ==> r == s
    decreases |s|
  {
    if s == [] {
    } else if r == [] {
    } else if r[0] == s[0] && Kept(r[1..], s[1..]) {
      KeptLength(r[1..], s[1..]);
      assert r == [r[0]] + r[1..] && s == [s[0]] + s[1..];
    } else {
      KeptLength(r, s[1..]);
    }
  }

  lemma {:induction false} FlattenConcat(a: seq<Bytes>, b: seq<Bytes>)
    ensures Flatten(a + b) == Flatten(a) + Flatten(b)
  {
    if a == [] {
      assert a + b == b;
    } else {
      FlattenConcat(a[1..], b);
      assert (a + b)[1..] == a[1..] + b;
      Regroup(a[0], Flatten(a[1..]), Flatten(b));
    }
  }

  /** The packets up to number `i`, and the rest, make up the whole. */
  lemma FlattenSplit(ss: seq<Bytes>, i: nat)
    requires i <= |ss|
    ensures Flatten(ss) == Flatten(ss[..i]) + Flatten(ss[i..])
  {
    assert ss == ss[..i] + ss[i..];
    FlattenConcat(ss[..i], ss[i..]);
  }

  lemma FlattenNext(ss: seq<Bytes>, i: nat)
    requires i < |ss|
    ensures Flatten(ss[..i + 1]) == Flatten(ss[..i]) + ss[i]
  {
    assert ss[..i + 1] == ss[..i] + [ss[i]];
    FlattenConcat(ss[..i], [ss[i]]);
    assert [ss[i]][1..] == [];
  }

  /** Losing the first `k` packets is one way of losing some. */
  lemma {:induction false} KeptSuffix(s: seq<Bytes>, k: nat)
    requires k <= |s|
    ensures Kept(s[k..], s)
    decreases |s|
  {
    if s != [] {
      if k == 0 {
        KeptSuffix(s[1..], 0);
      } else {
        KeptSuffix(s[1..], k - 1);
        assert s[1..][k - 1..] == s[k..];
      }
    }
  }

  /** The first packet that arrives was sent, and what arrives after it was sent after it. */
  lemma {:induction false} KeptFirst(r: seq<Bytes>, s: seq<Bytes>) returns (k: nat)
    requires r != [] && Kept(r, s)
    ensures k < |s| && s[k] == r[0] && Kept(r[1..], s[k + 1..])
    decreases |s|
  {
    if r[0] == s[0] && Kept(r[1..], s[1..]) {
      k := 0;
    } else {
      k := KeptFirst(r, s[1..]);
      k := k + 1;
      assert s[1..][k..] == s[k + 1..];
    }
  }

  /** The chunked manifest reassembles to itself, and no chunk is empty. */
  lemma {:induction false} ChunksFlatten(m: Bytes)
    ensures Flatten(Chunks(m)) == m
    ensures forall k | 0 <= k < |Chunks(m)| :: Chunks(m)[k] != []
    decreases |m|
  {
    if m != [] {
      var n := Min(CHUNK, |m|);
      ChunksFlatten(m[n..]);
      assert Chunks(m)[1..] == Chunks(m[n..]);
      assert m == m[..n] + m[n..];
    }
  }

  // ---- the control exchange

  datatype Meta = Meta(total: u32, block: u32, nblocks: u32, manifest: Bytes)

  predicate LooksLikeHeader(p: Bytes) {
    |p| >= RESP_HDR && Get32(p, 0) == MAGIC_RESP
  }

  function StreamOf(session: u32, m: Meta): seq<Bytes> {
    ControlStream(session, m.total, m.block, m.nblocks, m.manifest)
  }

  /** The manifest has one digest a block, and its size fits the 32-bit counters. */
  ghost predicate WellSized(m: Meta) {
    |m.manifest| == 32 * m.nblocks && |m.manifest| + CHUNK <= TWO32
  }

  lemma HeaderFields(session: u32, m: Meta)
    ensures var p := StreamOf(session, m)[0];
            && LooksLikeHeader(p) && Get32(p, 8) == m.total && Get32(p, 12) == m.block && Get32(p, 16) == m.nblocks
  {
    var ws := [MAGIC_RESP, session, m.total, m.block, m.nblocks];
    var p := PutWords(ws);
    PrefixIsWords(p, ws);
    assert Get32(p, 4 * 0) == ws[0] && Get32(p, 4 * 2) == ws[2] && Get32(p, 4 * 3) == ws[3] && Get32(p, 4 * 4) == ws[4];
  }

  /** How many manifest bytes a packet taken for a header announces. */
  function ManifestSize(p: Bytes): u32
    requires LooksLikeHeader(p)
  {
    32 * Get32(p, 16) % 0x1_0000_0000
  }

  /** The first packet is taken for a header, and as many bytes as it announces come after it. */
  predicate ReadsAsAnswer(replies: seq<Bytes>) {
    replies != [] && LooksLikeHeader(replies[0]) && ManifestSize(replies[0]) <= |Flatten(replies[1..])|
  }

  /** What ctrl_exchange makes of the packets it reads, whatever they are. */
  function Exchange(replies: seq<Bytes>): Option<Meta> {
    if !ReadsAsAnswer(replies) then None
    else
      var p := replies[0];
      Some(Meta(Get32(p, 8), Get32(p, 12), Get32(p, 16), Flatten(replies[1..])[..ManifestSize(p)]))
  }

  /**
   * The 32-bit count of manifest bytes read never wraps. Where it would, the C code copies past the
   * end of its buffer, so this is exactly where the exchange is defined.
   */
  ghost predicate CountFits(replies: seq<Bytes>, size: u32) {
    forall i | 0 <= i < |replies| && |Flatten(replies[..i])| < size :: |Flatten(replies[..i])| + |replies[i]| < TWO32
  }

  ghost predicate Readable(replies: seq<Bytes>) {
    replies != [] && LooksLikeHeader(replies[0]) ==> CountFits(replies[1..], ManifestSize(replies[0]))
  }

  /** ctrl_exchange, after the request is sent. */
  method CtrlExchange(replies: seq<Bytes>) returns (r: Option<Meta>)
    requires Readable(replies)
    ensures r == Exchange(replies)
  {
    if replies == [] || |replies[0]| < RESP_HDR || Get32(replies[0], 0) != MAGIC_RESP {
      return None;
    }
    var hp := replies[0];
    var total, block, nblocks := Get32(hp, 8), Get32(hp, 12), Get32(hp, 16);
    var manifest := ReadManifest(replies[1..], ManifestSize(hp));
    if manifest.None? {
      return None;
    }
    r := Some(Meta(total, block, nblocks, manifest.value));
  }

  /** The manifest loop: take packets until the announced number of bytes is in. */
  method ReadManifest(replies: seq<Bytes>, size: u32) returns (r: Option<Bytes>)
    requires CountFits(replies, size)
    ensures r == if |Flatten(replies)| < size then None else Some(Flatten(replies)[..size])
  {
    var got: Bytes := [];
    var i := 0;
    while |got| < size
      invariant 0 <= i <= |replies|
      invariant got == FirstBytes(Flatten(replies[..i]), size)
      decreases |replies| - i
    {
      if i == |replies| {
        assert replies[..i] == replies;
        return None;
      }
      FlattenNext(replies, i);
      var take := TakeLength(|got|, |replies[i]|, size);
      MoreBytes(Flatten(replies[..i]), replies[i], size);
      got := got + replies[i][..take];
      i := i + 1;
    }
    FlattenSplit(replies, i);
    EnoughBytes(Flatten(replies[..i]), Flatten(replies[i..]), size);
    r := Some(got);
  }

  /** How much of a packet of `len` bytes is taken; the sum is a 32-bit one. */
  method TakeLength(got: nat, len: nat, size: u32) returns (take: nat)
    requires got < size && got + len < TWO32
    ensures take == Min(len, size - got)
  {
    take := len;
    if (got + take) % 0x1_0000_0000 > size {
      take := size - got;
    }
  }

  function FirstBytes(s: Bytes, n: nat): Bytes {
    s[..Min(|s|, n)]
  }

  lemma MoreBytes(s: Bytes, p: Bytes, n: nat)
    requires |s| < n
    ensures FirstBytes(s, n) == s
    ensures FirstBytes(s + p, n) == s + p[..Min(|p|, n - |s|)]
  {}

  lemma EnoughBytes(s: Bytes, rest: Bytes, n: nat)
    requires |FirstBytes(s, n)| >= n
    ensures |s + rest| >= n && (s + rest)[..n] == FirstBytes(s, n)
  {}

  // ---- what can go wrong on a lossy control channel

  /** The header was lost, and what arrives instead reads as an answer. */
  predicate Misread(replies: seq<Bytes>, session: u32, m: Meta) {
    ReadsAsAnswer(replies) && replies[0] != StreamOf(session, m)[0]
  }

  lemma {:induction false} StreamSize(session: u32, m: Meta)
    ensures Flatten(StreamOf(session, m)[1..]) == m.manifest
    ensures |Flatten(StreamOf(session, m))| == RESP_HDR + |m.manifest|
    ensures forall k | 0 <= k < |StreamOf(session, m)| :: StreamOf(session, m)[k] != []
  {
    ChunksFlatten(m.manifest);
    assert StreamOf(session, m)[1..] == Chunks(m.manifest);
  }

  /** What arrives of the sender's stream can be read. */
  lemma KeptIsReadable(session: u32, m: Meta, replies: seq<Bytes>)
    requires WellSized(m) && Kept(replies, StreamOf(session, m))
    ensures Readable(replies)
  {
    StreamSize(session, m);
    KeptLength(replies, StreamOf(session, m));
    if replies != [] {
      var rest := replies[1..];
      forall i | 0 <= i < |rest|
        ensures |Flatten(rest[..i])| + |rest[i]| < TWO32
      {
        FlattenNext(rest, i);
        FlattenSplit(rest, i + 1);
      }
    }
  }

  /**
   * For every part of the sender's stream that can arrive: the exchange returns what was announced
   * exactly when nothing was lost, and something else exactly when the header was lost and the first
   * chunk that arrives reads as an answer. In every other case it fails.
   */
  lemma ExchangeIsExact(session: u32, m: Meta, replies: seq<Bytes>)
    requires WellSized(m) && Kept(replies, StreamOf(session, m))
    ensures Exchange(replies) == Some(m) <==> replies == StreamOf(session, m)
    ensures Exchange(replies).Some? && Exchange(replies) != Some(m) <==> Misread(replies, session, m)
  {
    var stream := StreamOf(session, m);
    HeaderFields(session, m);
    StreamSize(session, m);
    if replies != [] {
      if replies[0] == stream[0] {
        HeaderArrived(session, m, replies);
      } else {
        HeaderLost(session, m, replies);
      }
    }
  }

  lemma HeaderArrived(session: u32, m: Meta, replies: seq<Bytes>)
    requires WellSized(m) && Kept(replies, StreamOf(session, m))
    requires replies != [] && replies[0] == StreamOf(session, m)[0]
    ensures Exchange(replies) == if replies == StreamOf(session, m) then Some(m) else None
  {
    var stream := StreamOf(session, m);
    HeaderFields(session, m);
    StreamSize(session, m);
    KeptTail(replies, stream);
    KeptLength(replies[1..], stream[1..]);
    assert replies == [replies[0]] + replies[1..] && stream == [stream[0]] + stream[1..];
    assert ManifestSize(replies[0]) == |m.manifest|;
    assert m.manifest[..|m.manifest|] == m.manifest;
  }

  lemma HeaderLost(session: u32, m: Meta, replies: seq<Bytes>)
    requires WellSized(m) && Kept(replies, StreamOf(session, m))
    requires replies != [] && replies[0] != StreamOf(session, m)[0]
    ensures Exchange(replies) != Some(m)
  {
    StreamSize(session, m);
    KeptLength(replies, StreamOf(session, m)[1..]);
  }

  /** No chunk of the manifest reads as an answer, even with all the chunks after it. */
  ghost predicate Unmistakable(m: Meta) {
    forall k | 0 <= k < |Chunks(m.manifest)| :: !ReadsAsAnswer(Chunks(m.manifest)[k..])
  }

  /**
   * The condition a sender can check on its manifest: it holds exactly when no loss on the control
   * channel can make the client take anything but the announced values.
   */
  lemma UnmistakableIsExact(session: u32, m: Meta)
    requires WellSized(m)
    ensures Unmistakable(m)
       <==> forall replies | Kept(replies, StreamOf(session, m)) :: Exchange(replies).None? || Exchange(replies) == Some(m)
  {
    if Unmistakable(m) {
      forall replies | Kept(replies, StreamOf(session, m))
        ensures Exchange(replies).None? || Exchange(replies) == Some(m)
      {
        NeverMisread(session, m, replies);
      }
    } else {
      var k :| 0 <= k < |Chunks(m.manifest)| && ReadsAsAnswer(Chunks(m.manifest)[k..]);
      SuffixArrives(session, m, k);
      MisreadFrom(session, m, k, Chunks(m.manifest)[k..]);
    }
  }

  /** A delivery that begins with a chunk and reads as an answer misleads the client. */
  lemma MisreadFrom(session: u32, m: Meta, k: nat, replies: seq<Bytes>)
    requires WellSized(m) && Kept(replies, StreamOf(session, m)) && ReadsAsAnswer(replies)
    requires k < |Chunks(m.manifest)| && replies[0] == Chunks(m.manifest)[k]
    ensures Exchange(replies).Some? && Exchange(replies) != Some(m)
  {
    WholeDigests(m.nblocks);
    ChunkIsNoHeader(session, m, k);
    HeaderLost(session, m, replies);
  }

  lemma WholeDigests(n: nat)
    ensures 32 * n % 8 == 0
  {}

  lemma SuffixArrives(session: u32, m: Meta, k: nat)
    requires k <= |Chunks(m.manifest)|
    ensures Kept(Chunks(m.manifest)[k..], StreamOf(session, m))
  {
    assert StreamOf(session, m)[k + 1..] == Chunks(m.manifest)[k..];
    KeptSuffix(StreamOf(session, m), k + 1);
  }

  lemma NeverMisread(session: u32, m: Meta, replies: seq<Bytes>)
    requires WellSized(m) && Unmistakable(m) && Kept(replies, StreamOf(session, m))
    ensures Exchange(replies).None? || Exchange(replies) == Some(m)
  {
    ExchangeIsExact(session, m, replies);
    if Misread(replies, session, m) {
      var k := MisreadChunk(session, m, replies);
    }
  }

  /** A misread delivery starts with a chunk that reads as an answer. */
  lemma MisreadChunk(session: u32, m: Meta, replies: seq<Bytes>) returns (k: nat)
    requires Misread(replies, session, m) && Kept(replies, StreamOf(session, m))
    ensures k < |Chunks(m.manifest)| && ReadsAsAnswer(Chunks(m.manifest)[k..])
  {
    var chunks := Chunks(m.manifest);
    assert StreamOf(session, m)[1..] == chunks;
    ChunksFlatten(m.manifest);
    k := KeptFirst(replies, chunks);
    KeptLength(replies[1..], chunks[k + 1..]);
    assert chunks[k..][1..] == chunks[k + 1..];
  }

  /** The length of a chunk is a multiple of 8, and a header's is not. */
  lemma {:induction false} ChunkIsNoHeader(session: u32, m: Meta, k: nat)
    requires |m.manifest| % 8 == 0 && k < |Chunks(m.manifest)|
    ensures Chunks(m.manifest)[k] != StreamOf(session, m)[0]
    decreases |m.manifest|
  {
    var n := Min(CHUNK, |m.manifest|);
    if k > 0 {
      var rest := m.(manifest := m.manifest[n..]);
      ChunkIsNoHeader(session, rest, k - 1);
      assert Chunks(m.manifest)[k] == Chunks(rest.manifest)[k - 1];
    }
  }

  /**
   * The condition is not idle: for a file of one block whose digest reads as a header that announces
   * no manifest, losing the real header makes the client take what the digest says.
   */
  lemma LostHeaderMisleads(h: HashFunction, src: Bytes, block: u32, session: u32)
    requires 0 < |src| <= block && |src| + block <= TWO32
    requires LooksLikeHeader(h(src)) && ManifestSize(h(src)) == 0
    ensures var d := h(src);
            var m := Meta(|src|, block, 1, d);
            && Announces(h, src, m) && Kept([d], StreamOf(session, m))
            && Exchange([d]) == Some(Meta(Get32(d, 8), Get32(d, 12), Get32(d, 16), []))
            && Exchange([d]) != Some(m)
  {
    OneBlockAnnounced(h, src, block);
    OneDigest(session, Meta(|src|, block, 1, h(src)));
    ReadAlone(h(src));
  }

  lemma ReadAlone(d: Bytes)
    requires LooksLikeHeader(d) && ManifestSize(d) == 0
    ensures Exchange([d]) == Some(Meta(Get32(d, 8), Get32(d, 12), Get32(d, 16), []))
  {
    assert [d][1..] == [];
  }

  lemma OneBlockAnnounced(h: HashFunction, src: Bytes, block: u32)
    requires 0 < |src| <= block && |src| + block <= TWO32
    ensures Announces(h, src, Meta(|src|, block, 1, h(src)))
  {
    NBlocksIsExactOrZero(|src|, block);
    assert BlockStart(block, 0) == 0 && BlockStart(block, 1) == block;
    assert BlockOf(src, block, 0) == src;
    assert Manifest(h, src, block, 0) == [];
    assert Manifest(h, src, block, 1) == [] + h(src);
  }

  /** What is left of a one-digest announcement without the header. */
  lemma OneDigest(session: u32, m: Meta)
    requires |m.manifest| == 32
    ensures Kept([m.manifest], StreamOf(session, m))
  {
    var d := m.manifest;
    assert Chunks(d) == [d] by {
      assert d[..32] == d && d[32..] == [];
    }
    KeptSuffix(StreamOf(session, m), 1);
    assert StreamOf(session, m)[1..] == [d];
  }

  /** There is such a digest: the response magic, then zeros. */
  lemma MagicDigest() returns (d: Digest)
    ensures LooksLikeHeader(d) && ManifestSize(d) == 0
  {
    d := MagicThen(MAGIC_RESP, seq(28, _ => 0));
    ZeroWord(d, 16);
  }

  lemma MagicThen(magic: u32, rest: Bytes) returns (p: Bytes)
    ensures |p| == 4 + |rest| && Get32(p, 0) == magic && forall k | 4 <= k < |p| :: p[k] == rest[k - 4]
  {
    p := Put32(magic) + rest;
    StartsMagic(magic, rest);
  }

  lemma StartsMagic(magic: u32, rest: Bytes)
    ensures Get32(Put32(magic) + rest, 0) == magic
  {
    assert (Put32(magic) + rest)[0..4] == Put32(magic);
    Get32IsInverse(Put32(magic) + rest, 0, magic);
  }

  lemma ZeroWord(p: Bytes, at: nat)
    requires at + 4 <= |p| && p[at] == p[at + 1] == p[at + 2] == p[at + 3] == 0
    ensures Get32(p, at) == 0
  {
    ZeroNumber(p[at..at + 4]);
  }

  // ---- the round loop

  /** What one round meets: what each attempt at the control exchange reads, and the data packets drained. */
  datatype RoundInput = RoundInput(attempts: seq<seq<Bytes>>, packets: seq<Bytes>)

  const ATTEMPTS: nat := 8

  function AttemptAt(x: RoundInput, k: nat): seq<Bytes> {
    if k < |x.attempts| then x.attempts[k] else []
  }

  /** What the retried exchange of a round makes of its attempts, from number `k` on: the first answer read. */
  function NegotiatedFrom(x: RoundInput, k: nat): Option<Meta>
    decreases ATTEMPTS - k
  {
    if k >= ATTEMPTS then None
    else if Exchange(AttemptAt(x, k)).Some? then Exchange(AttemptAt(x, k))
    else NegotiatedFrom(x, k + 1)
  }

  function Negotiated(x: RoundInput): Option<Meta> {
    NegotiatedFrom(x, 0)
  }

  /** Every attempt reads some of the sender's stream, in order, or nothing. */
  ghost predicate FromStream(x: RoundInput, m: Meta) {
    forall k: nat :: Kept(AttemptAt(x, k), StreamOf(SESSION, m))
  }

  /** No attempt takes a chunk for the header. */
  ghost predicate NoMisread(x: RoundInput, m: Meta) {
    forall k: nat :: !Misread(AttemptAt(x, k), SESSION, m)
  }

  /**
   * The control channel loses what it likes of the sender's stream. In the first round, the only one
   * whose answer is used, no chunk is taken for the header.
   */
  ghost predicate ControlFromSender(env: seq<RoundInput>, m: Meta) {
    && (forall r | 0 <= r < |env| :: FromStream(env[r], m))
    && (env != [] ==> NoMisread(env[0], m))
  }

  /** The sender's condition is enough, whatever is lost. */
  lemma UnmistakableIsEnough(env: seq<RoundInput>, m: Meta)
    requires WellSized(m) && Unmistakable(m) && forall r | 0 <= r < |env| :: FromStream(env[r], m)
    ensures ControlFromSender(env, m)
  {
    if env != [] {
      forall k: nat
        ensures !Misread(AttemptAt(env[0], k), SESSION, m)
      {
        NeverMisread(SESSION, m, AttemptAt(env[0], k));
        ExchangeIsExact(SESSION, m, AttemptAt(env[0], k));
      }
    }
  }

  /** No attempt of the round got the whole of the sender's stream. */
  ghost predicate ControlLost(x: RoundInput, stream: seq<Bytes>) {
    forall k | 0 <= k < ATTEMPTS :: AttemptAt(x, k) != stream
  }

  const SESSION: u32 := 1

  function Blank(m: Meta): Receiver {
    Receiver(m.block, m.nblocks, m.manifest, seq(m.total, _ => 0), seq(m.total, _ => false))
  }

  /** The receiver after the first `k` rounds. */
  function After(m: Meta, env: seq<RoundInput>, k: nat): (s: Receiver)
    requires k <= |env|
    ensures |s.covered| == |s.data| == m.total
  {
    if k == 0 then Blank(m) else DeliverAll(After(m, env, k - 1), env[k - 1].packets)
  }

  function FirstRanges(ranges: seq<Interval>): seq<Interval> {
    if |ranges| > MAX_INTERVALS then ranges[..MAX_INTERVALS] else ranges
  }

  /** What round `k` asks for: everything first, then the first 32 ranges of the last verdict. */
  ghost function AskedFor(h: HashFunction, m: Meta, env: seq<RoundInput>, k: nat): seq<Interval>
    requires k <= |env| && (k > 0 ==> After(m, env, k).Valid())
  {
    if k == 0 then [] else FirstRanges(Verdict(h, After(m, env, k)).1)
  }

  lemma {:induction false} AfterKeeps(m: Meta, env: seq<RoundInput>, k: nat)
    requires k <= |env|
    ensures var s := After(m, env, k); (s.block, s.nblocks, s.expected) == (m.block, m.nblocks, m.manifest)
  {
    if k > 0 {
      AfterKeeps(m, env, k - 1);
      CoverageAfter(After(m, env, k - 1), env[k - 1].packets);
    }
  }

  /** drain_data. */
  method DrainData(recv: Session, packets: seq<Bytes>)
    requires recv.Valid()
    modifies recv`coveredCount, recv.data, recv.covered
    ensures recv.Valid()
    ensures recv.View() == DeliverAll(old(recv.View()), packets)
  {
    for i := 0 to |packets|
      invariant recv.Valid()
      invariant recv.View() == DeliverAll(old(recv.View()), packets[..i])
    {
      var pkt := packets[i];
      assert packets[..i + 1][..i] == packets[..i];
      if |pkt| > DATA_HDR {
        var _ := recv.AcceptFragment(Get32(pkt, 0), pkt[DATA_HDR..]);
      }
    }
    assert packets[..|packets|] == packets;
  }

  /** The retried control exchange of one round. */
  method Negotiate(x: RoundInput) returns (r: Option<Meta>)
    requires forall k: nat :: Readable(AttemptAt(x, k))
    ensures r == Negotiated(x)
  {
    r := None;
    for attempt := 0 to ATTEMPTS
      invariant r.None? && Negotiated(x) == NegotiatedFrom(x, attempt)
    {
      r := CtrlExchange(AttemptAt(x, attempt));
      if r.Some? {
        return;
      }
    }
  }

  /** A round without an answer lost part of the stream in every attempt. */
  lemma {:induction false} NoAnswerMeansLost(x: RoundInput, m: Meta, n: nat, k: nat)
    requires WellSized(m) && FromStream(x, m) && NegotiatedFrom(x, n).None? && n <= k < ATTEMPTS
    ensures AttemptAt(x, k) != StreamOf(SESSION, m)
    decreases ATTEMPTS - n
  {
    if n == k {
      ExchangeIsExact(SESSION, m, AttemptAt(x, k));
    } else {
      NoAnswerMeansLost(x, m, n + 1, k);
    }
  }

  lemma {:induction false} AnswerIsAnnounced(x: RoundInput, m: Meta, n: nat)
    requires WellSized(m) && FromStream(x, m) && NoMisread(x, m)
    ensures NegotiatedFrom(x, n).None? || NegotiatedFrom(x, n) == Some(m)
    decreases ATTEMPTS - n
  {
    if n < ATTEMPTS {
      ExchangeIsExact(SESSION, m, AttemptAt(x, n));
      AnswerIsAnnounced(x, m, n + 1);
    }
  }

  /** What the round loop needs of the control channel: attempts that can be read, and in the first round the sender's answer or none. */
  ghost predicate Settled(env: seq<RoundInput>, m: Meta) {
    && (forall r, k: nat | 0 <= r < |env| :: Readable(AttemptAt(env[r], k)))
    && (env != [] ==> Negotiated(env[0]).None? || Negotiated(env[0]) == Some(m))
  }

  lemma SenderSettles(env: seq<RoundInput>, m: Meta)
    requires WellSized(m) && ControlFromSender(env, m)
    ensures Settled(env, m)
  {
    forall r, k: nat | 0 <= r < |env|
      ensures Readable(AttemptAt(env[r], k))
    {
      assert FromStream(env[r], m);
      KeptIsReadable(SESSION, m, AttemptAt(env[r], k));
    }
    if env != [] {
      AnswerIsAnnounced(env[0], m, 0);
    }
  }

  /** What the sender announces for `src`. */
  ghost predicate Announces(h: HashFunction, src: Bytes, m: Meta) {
    && |src| == m.total
    && m.nblocks == NBlocks(m.total, m.block)
    && (m.nblocks > 0 ==> Geometry(m.total, m.block, m.nblocks))
    && m.manifest == Manifest(h, src, m.block, m.nblocks)
    && WellSized(m)
  }

  lemma AfterExpects(h: HashFunction, src: Bytes, m: Meta, env: seq<RoundInput>, k: nat)
    requires Announces(h, src, m) && m.nblocks > 0 && k <= |env|
    ensures Expects(h, After(m, env, k), src)
  {
    AfterKeeps(m, env, k);
  }

  /** The ranges of a verdict lie inside the payload. */
  lemma RangesInside(h: HashFunction, s: Receiver, k: nat)
    requires s.Valid() && k < |Verdict(h, s).1|
    ensures Verdict(h, s).1[k].start < Verdict(h, s).1[k].end <= |s.data|
  {
    MissingFromIsExact(s.covered, 0);
    FailingBlocksAreExact(h, s, s.nblocks);
    if Verdict(h, s).0 != Incomplete {
      BlockRange(|s.data|, s.block, s.nblocks, FailingBlocks(h, s, s.nblocks)[k]);
    }
  }

  /** Everything a later round asks for: at least one range, at most 32, all inside the payload. */
  lemma AskedForIsSane(h: HashFunction, s: Receiver)
    requires s.Valid() && Verdict(h, s).0 != CompleteVerified
    ensures 1 <= |FirstRanges(Verdict(h, s).1)| <= MAX_INTERVALS
    ensures forall k | 0 <= k < |FirstRanges(Verdict(h, s).1)| ::
              var x := FirstRanges(Verdict(h, s).1)[k]; x.start < x.end <= |s.data|
  {
    IncompleteNamesARange(h, s);
    forall k | 0 <= k < |Verdict(h, s).1|
      ensures Verdict(h, s).1[k].start < Verdict(h, s).1[k].end <= |s.data|
    {
      RangesInside(h, s, k);
    }
  }

  /** Round `k` has not ended verified. */
  ghost predicate Unverified(h: HashFunction, m: Meta, env: seq<RoundInput>, k: nat)
    requires k <= |env|
  {
    After(m, env, k).Valid() && Verdict(h, After(m, env, k)).0 != CompleteVerified
  }

  /** Round `k` has something to ask for: everything first, later at least one range of an unverified verdict. */
  ghost predicate Asks(h: HashFunction, m: Meta, env: seq<RoundInput>, k: nat)
    requires k <= |env|
  {
    k > 0 ==> Unverified(h, m, env, k) && 0 < |AskedFor(h, m, env, k)| <= MAX_INTERVALS
  }

  function RequestFor(mtu: u32, blockSize: u32, ivs: seq<Interval>): Request {
    Request(MAGIC_REQ, SESSION, mtu, blockSize, 0, ivs)
  }

  /** `bytes` is the request of round `k`: exactly the ranges of the last verdict, and none at all only in round 0. */
  ghost predicate Sends(h: HashFunction, mtu: u32, blockSize: u32, m: Meta, env: seq<RoundInput>, k: nat, bytes: Bytes)
    requires k <= |env|
  {
    && Asks(h, m, env, k)
    && RequestFor(mtu, blockSize, AskedFor(h, m, env, k)).Acceptable()
    && bytes == Encoding(RequestFor(mtu, blockSize, AskedFor(h, m, env, k)))
  }

  /** `requests` are the requests of the first rounds, in order. */
  ghost predicate AskedInTurn(h: HashFunction, mtu: u32, blockSize: u32, m: Meta, env: seq<RoundInput>, requests: seq<Bytes>) {
    |requests| <= |env| && forall k | 0 <= k < |requests| :: Sends(h, mtu, blockSize, m, env, k, requests[k])
  }

  /**
   * `right` holds of everything that `Sends` describes. The loop keeps `right` of its requests, so
   * that its proof need not look into the encoding.
   */
  ghost predicate AllowsSends(right: (nat, Bytes) -> bool, h: HashFunction, mtu: u32, blockSize: u32, m: Meta, env: seq<RoundInput>) {
    forall k: nat, bytes {:trigger Sends(h, mtu, blockSize, m, env, k, bytes)} |
      k <= |env| && Sends(h, mtu, blockSize, m, env, k, bytes) :: right(k, bytes)
  }

  lemma AskedUnverified(h: HashFunction, mtu: u32, blockSize: u32, m: Meta, env: seq<RoundInput>, requests: seq<Bytes>, k: nat)
    requires AskedInTurn(h, mtu, blockSize, m, env, requests) && 0 < k < |requests|
    ensures Unverified(h, m, env, k)
  {
    assert Sends(h, mtu, blockSize, m, env, k, requests[k]);
  }

  ghost predicate AllRight(right: (nat, Bytes) -> bool, requests: seq<Bytes>) {
    forall k | 0 <= k < |requests| :: right(k, requests[k])
  }

  lemma RightNext(right: (nat, Bytes) -> bool, requests: seq<Bytes>, next: Bytes)
    requires AllRight(right, requests) && right(|requests|, next)
    ensures AllRight(right, requests + [next])
  {}

  /** No round is asked for after a verified one. */
  lemma StopsAt(h: HashFunction, mtu: u32, blockSize: u32, m: Meta, env: seq<RoundInput>, requests: seq<Bytes>, k: nat)
    requires AskedInTurn(h, mtu, blockSize, m, env, requests)
    requires 0 < k <= |env| && !Unverified(h, m, env, k)
    ensures |requests| <= k
  {
    if k < |requests| {
      AskedUnverified(h, mtu, blockSize, m, env, requests, k);
    }
  }

  /** The request of round `k`, from the ranges kept in the client's array, as the bytes that carry it. */
  method AskAgain(hash: HashFunction, mtu: u32, blockSize: u32, ivs: seq<Interval>,
                  ghost m: Meta, ghost env: seq<RoundInput>, ghost k: nat)
    returns (bytes: Bytes)
    requires k <= |env| && (k > 0 ==> Unverified(hash, m, env, k))
    requires ivs == AskedFor(hash, m, env, k)
    ensures Sends(hash, mtu, blockSize, m, env, k, bytes)
  {
    if k > 0 {
      AskedForIsSane(hash, After(m, env, k));
    }
    bytes := EncodeRequest(Request(MAGIC_REQ, SESSION, mtu, blockSize, 0, ivs));
  }

  /** One round after its control exchange: drain the data, verify, keep the ranges that fit the array. */
  method DrainAndVerify(recv: Session, packets: seq<Bytes>) returns (st: Status, ivs: seq<Interval>)
    requires recv.Valid()
    modifies recv`coveredCount, recv.data, recv.covered
    ensures recv.Valid() && recv.View() == DeliverAll(old(recv.View()), packets)
    ensures st == Verdict(recv.hash, recv.View()).0
    ensures ivs == FirstRanges(Verdict(recv.hash, recv.View()).1)
  {
    DrainData(recv, packets);
    var out := new Interval[MAX_INTERVALS](_ => Interval(0, 0));
    var nout;
    st, nout := recv.Verify(out);
    var nreq := if nout < MAX_INTERVALS then nout else MAX_INTERVALS;
    ivs := out[..nreq];
  }

  /** ci_svu_new for what was announced, or nothing when the announced sizes disagree. */
  method Open(hash: HashFunction, meta: Meta) returns (recv: Session?)
    requires WellSized(meta)
    ensures recv == null <==> NBlocks(meta.total, meta.block) == 0 || NBlocks(meta.total, meta.block) != meta.nblocks
    ensures recv != null ==> fresh(recv) && fresh(recv.data) && fresh(recv.covered)
    ensures recv != null ==> recv.Valid() && recv.hash == hash && recv.View() == Blank(meta)
  {
    if NBlocks(meta.total, meta.block) == 0 || NBlocks(meta.total, meta.block) != meta.nblocks {
      return null;
    }
    recv := new Session(hash, meta.total, meta.block, meta.manifest, meta.nblocks);
  }

  /** The file of a verified round is the source, or holds a collision with it. */
  lemma VerifiedRound(h: HashFunction, src: Bytes, m: Meta, env: seq<RoundInput>, k: nat, file: Bytes)
    requires Announces(h, src, m) && m.nblocks > 0 && k <= |env| && EndedVerified(h, m, env, k, file)
    ensures file == src || HasCollision(h, file, src, m.block, m.nblocks)
  {
    AfterExpects(h, src, m, env, k);
    AfterKeeps(m, env, k);
    VerifiedMeansIntact(h, After(m, env, k), src);
  }

  /** The session belongs to this run and holds what the first `round` rounds left. */
  ghost predicate Holds(recv: Session, hash: HashFunction, m: Meta, env: seq<RoundInput>, round: nat)
    requires round <= |env|
    reads recv, recv.data, recv.covered
  {
    recv.Valid() && recv.hash == hash && recv.View() == After(m, env, round)
  }

  /** The verdict after `round` rounds, and the ranges kept of it. */
  ghost predicate Concludes(h: HashFunction, m: Meta, env: seq<RoundInput>, round: nat, st: Status, ivs: seq<Interval>)
    requires 0 < round <= |env|
  {
    Ends(h, m, env, round, st) && ivs == AskedFor(h, m, env, round)
  }

  ghost predicate Ends(h: HashFunction, m: Meta, env: seq<RoundInput>, round: nat, st: Status)
    requires 0 < round <= |env|
  {
    After(m, env, round).Valid() && st == Verdict(h, After(m, env, round)).0
  }

  /** No session can be opened: no answer came, or the announcement is of no use. */
  ghost predicate Refused(x: RoundInput, m: Meta) {
    Negotiated(x).None? || m.nblocks == 0
  }

  lemma RefusedMeansLost(x: RoundInput, m: Meta)
    requires WellSized(m) && FromStream(x, m) && m.nblocks > 0 && Refused(x, m)
    ensures ControlLost(x, StreamOf(SESSION, m))
  {
    forall k | 0 <= k < ATTEMPTS
      ensures AttemptAt(x, k) != StreamOf(SESSION, m)
    {
      NoAnswerMeansLost(x, m, 0, k);
    }
  }

  /** Round `round` ended verified, with this file. */
  ghost predicate EndedVerified(h: HashFunction, m: Meta, env: seq<RoundInput>, round: nat, file: Bytes)
    requires round <= |env|
  {
    var s := After(m, env, round);
    s.Valid() && Verdict(h, s).0 == CompleteVerified && file == s.data
  }

  /** The first round: ask for everything, negotiate, open the session, drain, verify. */
  method FirstRound(hash: HashFunction, mtu: u32, blockSize: u32, env: seq<RoundInput>, ghost m: Meta, ghost right: (nat, Bytes) -> bool)
    returns (recv: Session?, st: Status, ivs: seq<Interval>, request: Bytes)
    requires 0 < |env| && Settled(env, m) && WellSized(m) && m.nblocks == NBlocks(m.total, m.block)
    requires AllowsSends(right, hash, mtu, blockSize, m, env)
    ensures right(0, request)
    ensures recv == null ==> Refused(env[0], m)
    ensures recv != null ==> m.nblocks > 0 && fresh(recv) && fresh(recv.data) && fresh(recv.covered)
    ensures recv != null ==> Holds(recv, hash, m, env, 1) && Concludes(hash, m, env, 1, st, ivs)
  {
    recv, st, ivs := null, Incomplete, [];
    request := AskAgain(hash, mtu, blockSize, [], m, env, 0);
    var meta := Negotiate(env[0]);
    if meta.None? {
      return;
    }
    recv := Open(hash, meta.value);
    if recv == null {
      return;
    }
    st, ivs := DrainAndVerify(recv, env[0].packets);
  }

  /** A later round: ask for the ranges kept, negotiate, drain, verify. The answer is not used. */
  method LaterRound(recv: Session, hash: HashFunction, mtu: u32, blockSize: u32, ghost st0: Status, asked: seq<Interval>,
                    env: seq<RoundInput>, round: nat, ghost m: Meta, ghost right: (nat, Bytes) -> bool)
    returns (answered: bool, st: Status, ivs: seq<Interval>, request: Bytes)
    requires 0 < round < |env| && Settled(env, m) && AllowsSends(right, hash, mtu, blockSize, m, env)
    requires Holds(recv, hash, m, env, round)
    requires Concludes(hash, m, env, round, st0, asked) && st0 != CompleteVerified
    modifies recv`coveredCount, recv.data, recv.covered
    ensures right(round, request)
    ensures !answered ==> Refused(env[round], m)
    ensures answered ==> Holds(recv, hash, m, env, round + 1) && Concludes(hash, m, env, round + 1, st, ivs)
  {
    answered, st, ivs := false, Incomplete, [];
    request := AskAgain(hash, mtu, blockSize, asked, m, env, round);
    var meta := Negotiate(env[round]);
    if meta.None? {
      return;
    }
    answered := true;
    st, ivs := DrainAndVerify(recv, env[round].packets);
  }

  /** Why a run can end without a file: empty or oversized announcement, rounds used up, or control lost. */
  ghost predicate GaveUp(h: HashFunction, m: Meta, env: seq<RoundInput>, maxRounds: nat, rounds: nat)
    requires rounds <= maxRounds <= |env|
  {
    || (rounds == maxRounds && (maxRounds > 0 ==> Unverified(h, m, env, maxRounds)))
    || (0 < rounds && Refused(env[rounds - 1], m))
  }

  /** The rounds after the first, until one ends verified or is refused: what was asked for, and how it ended. */
  method LaterRounds(recv: Session, hash: HashFunction, mtu: u32, blockSize: u32, maxRounds: nat, env: seq<RoundInput>,
                     st0: Status, ivs0: seq<Interval>, first: Bytes, ghost m: Meta, ghost right: (nat, Bytes) -> bool)
    returns (answered: bool, st: Status, requests: seq<Bytes>)
    requires 0 < maxRounds <= |env| && Settled(env, m) && AllowsSends(right, hash, mtu, blockSize, m, env)
    requires Holds(recv, hash, m, env, 1) && Concludes(hash, m, env, 1, st0, ivs0) && right(0, first)
    modifies recv`coveredCount, recv.data, recv.covered
    ensures 0 < |requests| <= maxRounds && AllRight(right, requests)
    ensures !answered ==> Refused(env[|requests| - 1], m)
    ensures answered ==> Holds(recv, hash, m, env, |requests|) && Ends(hash, m, env, |requests|, st)
    ensures answered && st != CompleteVerified ==> |requests| == maxRounds
  {
    answered, st, requests := true, st0, [first];
    var ivs := ivs0;
    while answered && st != CompleteVerified && |requests| < maxRounds
      invariant 0 < |requests| <= maxRounds && AllRight(right, requests)
      invariant !answered ==> Refused(env[|requests| - 1], m)
      invariant answered ==> Holds(recv, hash, m, env, |requests|) && Concludes(hash, m, env, |requests|, st, ivs)
      decreases maxRounds - |requests|
    {
      var request;
      answered, st, ivs, request := LaterRound(recv, hash, mtu, blockSize, st, ivs, env, |requests|, m, right);
      RightNext(right, requests, request);
      requests := requests + [request];
    }
  }

  /** The round loop. Its first round, which opens the session, is taken out of the loop. */
  method RoundLoop(hash: HashFunction, mtu: u32, blockSize: u32, maxRounds: nat, env: seq<RoundInput>,
                   ghost m: Meta, ghost right: (nat, Bytes) -> bool)
    returns (ok: bool, file: Bytes, requests: seq<Bytes>)
    requires maxRounds <= |env| && Settled(env, m) && WellSized(m) && m.nblocks == NBlocks(m.total, m.block)
    requires AllowsSends(right, hash, mtu, blockSize, m, env)
    ensures |requests| <= maxRounds && AllRight(right, requests)
    ensures ok ==> |requests| > 0 && m.nblocks > 0 && EndedVerified(hash, m, env, |requests|, file)
    ensures !ok ==> GaveUp(hash, m, env, maxRounds, |requests|)
  {
    ok, file, requests := false, [], [];
    if maxRounds == 0 {
      return;
    }
    var recv, st, ivs, request := FirstRound(hash, mtu, blockSize, env, m, right);
    requests := [request];
    if recv == null {
      return;
    }
    var answered;
    answered, st, requests := LaterRounds(recv, hash, mtu, blockSize, maxRounds, env, st, ivs, request, m, right);
    ok := answered && st == CompleteVerified;
    if ok {
      file := recv.data[..];
    }
  }

  /**
   * svu_client_run. The data channel is adversarial: any packets may arrive in any round. The file
   * is handed over only if it is the source or holds an explicit collision with it; the loop stops
   * at the first verified round; the requests are exactly those of the verdicts so far, and every
   * one after the first names at least one range, so the whole-file convention is never triggered
   * again.
   */
  method ClientRun(hash: HashFunction, mtu: u32, blockSize: u32, maxRounds: nat, env: seq<RoundInput>,
                   ghost src: Bytes, ghost m: Meta)
    returns (ok: bool, file: Bytes, requests: seq<Bytes>)
    requires maxRounds <= |env|
    requires Announces(hash, src, m) && ControlFromSender(env, m)
    ensures |requests| <= maxRounds && AskedInTurn(hash, mtu, blockSize, m, env, requests)
    ensures ok ==> file == src || HasCollision(hash, file, src, m.block, m.nblocks)
    ensures ok ==> |requests| > 0 && EndedVerified(hash, m, env, |requests|, file)
    ensures !ok ==> GaveUp(hash, m, env, maxRounds, |requests|)
  {
    SenderSettles(env, m);
    ghost var right := (k: nat, bytes: Bytes) => k <= |env| && Sends(hash, mtu, blockSize, m, env, k, bytes);
    ok, file, requests := RoundLoop(hash, mtu, blockSize, maxRounds, env, m, right);
    if ok {
      VerifiedRound(hash, src, m, env, |requests|, file);
    }
  }
}
