/** svu/svu_serve.c: what the sender puts on the two channels for one request. */
module SvuServer {
  import opened Machine
  import opened SvuSpec
  import opened SvuWire

  const CHUNK: nat := 200

  /** A data packet: offset, session, payload. */
  function Packet(src: Bytes, session: u32, off: u32, len: nat): Bytes
    requires off + len <= |src|
  {
    Put32(off) + Put32(session) + src[off..off + len]
  }

  /** The fragments of [start, end), `pay` payload bytes each, the last one possibly shorter. */
  function Fragments(src: Bytes, session: u32, pay: nat, start: nat, end: nat): seq<Bytes>
    requires pay > 0 && end <= |src| < TWO32
    decreases end - start
  {
    if start >= end then []
    else [Packet(src, session, start, Min(pay, end - start))] + Fragments(src, session, pay, start + pay, end)
  }

  lemma NextFragment(src: Bytes, session: u32, pay: nat, off: nat, end: nat, done: seq<Bytes>)
    requires pay > 0 && off < end <= |src| < TWO32
    ensures done + Fragments(src, session, pay, off, end)
         == done + [Packet(src, session, off, Min(pay, end - off))] + Fragments(src, session, pay, off + pay, end)
  {
    Regroup(done, [Packet(src, session, off, Min(pay, end - off))], Fragments(src, session, pay, off + pay, end));
  }

  function Payload(mtu: u32): (pay: nat)
    ensures pay > 0
  {
    if mtu > DATA_HDR then mtu - DATA_HDR else 1
  }

  /**
   * Going from `start` to `end` in steps of `step`, the 32-bit offset does not wrap. A C loop whose
   * offset wraps copies from beyond its buffer, so this is exactly where the loops below are defined.
   */
  ghost predicate NoWrap(step: nat, start: nat, end: nat)
    requires step > 0
    decreases end - start
  {
    start >= end || (start + step < TWO32 && NoWrap(step, start + step, end))
  }

  lemma {:induction false} RoomToStep(step: nat, start: nat, end: nat)
    requires step > 0 && end + step <= TWO32
    ensures NoWrap(step, start, end)
    decreases end - start
  {
    if start < end {
      RoomToStep(step, start + step, end);
    }
  }

  /** blast_interval. */
  method BlastInterval(src: Bytes, session: u32, mtu: u32, start: nat, end: nat) returns (pkts: seq<Bytes>)
    requires end <= |src| < TWO32 && NoWrap(Payload(mtu), start, end)
    ensures pkts == Fragments(src, session, Payload(mtu), start, end)
  {
    var pay := if mtu > DATA_HDR then mtu - DATA_HDR else 1;
    pkts := [];
    var off := start;
    while off < end
      invariant NoWrap(pay, off, end)
      invariant pkts + Fragments(src, session, pay, off, end) == Fragments(src, session, pay, start, end)
      decreases end - off
    {
      var len := if off + pay <= end then pay else end - off;
      NextFragment(src, session, pay, off, end, pkts);
      pkts := pkts + [Packet(src, session, off, len)];
      off := off + pay;
    }
  }

  /** The manifest in 200-byte chunks. */
  function Chunks(m: Bytes): seq<Bytes> {
    if m == [] then [] else [m[..Min(CHUNK, |m|)]] + Chunks(m[Min(CHUNK, |m|)..])
  }

  /** send_manifest. */
  method SendManifest(manifest: Bytes) returns (pkts: seq<Bytes>)
    requires |manifest| < TWO32 && NoWrap(CHUNK, 0, |manifest|)
    ensures pkts == Chunks(manifest)
  {
    pkts := [];
    var off := 0;
    while off < |manifest|
      invariant 0 <= off && NoWrap(CHUNK, off, |manifest|)
      invariant pkts + Chunks(manifest[Min(off, |manifest|)..]) == Chunks(manifest)
      decreases |manifest| - off
    {
      var len := if off + CHUNK <= |manifest| then CHUNK else |manifest| - off;
      ghost var left := manifest[off..];
      assert manifest[off..off + len] == left[..Min(CHUNK, |left|)];
      assert manifest[Min(off + CHUNK, |manifest|)..] == left[Min(CHUNK, |left|)..];
      ghost var rest := Chunks(manifest[Min(off + CHUNK, |manifest|)..]);
      Regroup(pkts, [manifest[off..off + len]], rest);
      pkts := pkts + [manifest[off..off + len]];
      off := off + CHUNK;
    }
  }

  /** The response header. */
  function Header(session: u32, total: u32, block: u32, nblocks: u32): Bytes {
    PutWords([MAGIC_RESP, session, total, block, nblocks])
  }

  /** Everything the sender writes to the control channel for one request. */
  function ControlStream(session: u32, total: u32, block: u32, nblocks: u32, manifest: Bytes): seq<Bytes> {
    [Header(session, total, block, nblocks)] + Chunks(manifest)
  }

  /** The fragments of the requested ranges, each clipped to the payload. */
  function BlastRanges(src: Bytes, session: u32, pay: nat, ivs: seq<Interval>): seq<Bytes>
    requires pay > 0 && |src| < TWO32
  {
    if ivs == [] then [] else
      var n := |ivs| - 1;
      BlastRanges(src, session, pay, ivs[..n])
      + Fragments(src, session, pay, ivs[n].start, Min(ivs[n].end, |src|))
  }

  /** The data a request asks for: no range at all means the whole file. */
  function Blast(src: Bytes, session: u32, pay: nat, ivs: seq<Interval>): seq<Bytes>
    requires pay > 0 && |src| < TWO32
  {
    if ivs == [] then Fragments(src, session, pay, 0, |src|) else BlastRanges(src, session, pay, ivs)
  }

  function ServeMtu(mtu: u32): u32 {
    if mtu > DATA_HDR then mtu else 256
  }

  /** The request that a packet carries, if it carries an acceptable one. */
  ghost function Carried(request: Bytes): Option<Request> {
    if exists q: Request :: q.Acceptable() && Encoding(q) <= request then
      var q: Request :| q.Acceptable() && Encoding(q) <= request;
      Some(q)
    else None
  }

  lemma CarriedIs(request: Bytes, q: Request)
    requires q.Acceptable() && Encoding(q) <= request
    ensures Carried(request) == Some(q)
  {
    EncodingIsUnambiguous(q, Carried(request).value, request);
  }

  /** What the sender of `src` puts on the control and on the data channel for one request packet. */
  ghost function Answer(src: Bytes, block: u32, nblocks: u32, manifest: Bytes, request: Bytes): (seq<Bytes>, seq<Bytes>)
    requires |src| < TWO32
  {
    match Carried(request)
    case None => ([], [])
    case Some(q) => (ControlStream(q.session, |src|, block, nblocks, manifest),
                     Blast(src, q.session, Payload(ServeMtu(q.mtu)), q.intervals))
  }

  /** No offset of the blast for `q` wraps. */
  ghost predicate Servable(total: nat, q: Request) {
    var pay := Payload(ServeMtu(q.mtu));
    if q.intervals == [] then NoWrap(pay, 0, total)
    else forall k | 0 <= k < |q.intervals| :: NoWrap(pay, q.intervals[k].start, Min(q.intervals[k].end, total))
  }

  /** One request of svu_serve_loop, from the bytes of the request packet. */
  method Serve(src: Bytes, block: u32, nblocks: u32, manifest: Bytes, request: Bytes)
    returns (served: Option<Request>, control: seq<Bytes>, data: seq<Bytes>)
    requires |src| < TWO32 && |manifest| < TWO32 && NoWrap(CHUNK, 0, |manifest|)
    requires Carried(request).Some? ==> Servable(|src|, Carried(request).value)
    ensures served == Carried(request)
    ensures (control, data) == Answer(src, block, nblocks, manifest, request)
  {
    served := DecodeRequest(request);
    control, data := [], [];
    if served.None? {
      return;
    }
    var req := served.value;
    CarriedIs(request, req);
    var mtu := if req.mtu > DATA_HDR then req.mtu else 256;
    var chunks := SendManifest(manifest);
    control := [Header(req.session, |src|, block, nblocks)] + chunks;
    data := BlastRequested(src, req, mtu);
  }

  /** The blast of svu_serve_loop: the whole file, or the ranges one by one. */
  method BlastRequested(src: Bytes, req: Request, mtu: u32) returns (data: seq<Bytes>)
    requires |src| < TWO32 && mtu == ServeMtu(req.mtu) && Servable(|src|, req)
    ensures data == Blast(src, req.session, Payload(mtu), req.intervals)
  {
    if |req.intervals| == 0 {
      data := BlastInterval(src, req.session, mtu, 0, |src|);
      return;
    }
    data := [];
    for i := 0 to |req.intervals|
      invariant data == BlastRanges(src, req.session, Payload(mtu), req.intervals[..i])
    {
      var s, e := req.intervals[i].start, req.intervals[i].end;
      if e > |src| {
        e := |src|;
      }
      assert req.intervals[..i + 1][..i] == req.intervals[..i];
      if s < e {
        assert e == Min(req.intervals[i].end, |src|);
        var more := BlastInterval(src, req.session, mtu, s, e);
        data := data + more;
      }
    }
    assert req.intervals[..|req.intervals|] == req.intervals;
  }
}
