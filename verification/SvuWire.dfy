/** svu/svu_proto.h: the little-endian words, the meta request and the push announce. */
module SvuWire {
  import opened Machine
  import opened Words
  import opened SvuSpec

  const MAGIC_REQ: u32 := 0x51555653
  const MAGIC_RESP: u32 := 0x52555653
  const PUSH_MAGIC: u32 := 0x53565550
  const MAX_INTERVALS: nat := 32
  const REQ_HDR: nat := 24
  const RESP_HDR: nat := 20
  const DATA_HDR: nat := 8

  /** svu_put32. */
  function Put32(v: u32): (s: Bytes)
    ensures |s| == 4
  {
    DigitsOf(v, 4)
  }

  /** svu_get32 at byte `at`. */
  function Get32(p: Bytes, at: nat): u32
    requires at + 4 <= |p|
  {
    NumberBound(p[at..at + 4]);
    Pow256Of4();
    NumberOf(p[at..at + 4])
  }

  /** Reading a word at `at` gives `v` exactly when the four bytes there are those of `v`. */
  lemma Get32IsInverse(p: Bytes, at: nat, v: u32)
    requires at + 4 <= |p|
    ensures Get32(p, at) == v <==> p[at..at + 4] == Put32(v)
  {
    Pow256Of4();
    NumberOfDigits(v, 4);
    DigitsOfNumber(p[at..at + 4]);
  }

  /** Words end to end. */
  function PutWords(ws: seq<u32>): (s: Bytes)
    ensures |s| == 4 * |ws|
  {
    if ws == [] then [] else PutWords(ws[..|ws| - 1]) + Put32(ws[|ws| - 1])
  }

  lemma PutNext(ws: seq<u32>, j: nat)
    requires j < |ws|
    ensures PutWords(ws[..j + 1]) == PutWords(ws[..j]) + Put32(ws[j])
  {
    assert ws[..j + 1][..j] == ws[..j];
  }

  /** `buf` starts with the words `ws`, read one by one. */
  ghost predicate StartsWith(buf: Bytes, ws: seq<u32>) {
    4 * |ws| <= |buf| && forall k | 0 <= k < |ws| :: Get32(buf, 4 * k) == ws[k]
  }

  /** Starting with the encoded words and reading those words are the same thing. */
  lemma {:induction false} PrefixIsWords(buf: Bytes, ws: seq<u32>)
    ensures PutWords(ws) <= buf <==> StartsWith(buf, ws)
  {
    if ws != [] && 4 * |ws| <= |buf| {
      var n := |ws| - 1;
      PrefixIsWords(buf, ws[..n]);
      Get32IsInverse(buf, 4 * n, ws[n]);
      PrefixOfConcat(PutWords(ws[..n]), Put32(ws[n]), buf);
    }
  }

  lemma PrefixOfConcat(a: Bytes, b: Bytes, buf: Bytes)
    requires |a| + |b| <= |buf|
    ensures a + b <= buf <==> a <= buf && buf[|a|..|a| + |b|] == b
  {
    assert buf[..|a| + |b|] == buf[..|a|] + buf[|a|..|a| + |b|];
  }

  // ---- meta request

  /** A parsed meta request; `nof_intervals` is the number of intervals. */
  datatype Request = Request(magic: u32, session: u32, mtu: u32, block: u32, client: u32, intervals: seq<Interval>) {
    ghost predicate Valid() {
      forall k | 0 <= k < |intervals| :: intervals[k].start < TWO32 && intervals[k].end < TWO32
    }

    /** What a server accepts. */
    ghost predicate Acceptable() {
      Valid() && magic == MAGIC_REQ && |intervals| <= MAX_INTERVALS
    }
  }

  function IntervalWords(ivs: seq<Interval>): (ws: seq<u32>)
    requires forall k | 0 <= k < |ivs| :: ivs[k].start < TWO32 && ivs[k].end < TWO32
    ensures |ws| == 2 * |ivs|
    ensures forall k | 0 <= k < |ivs| :: ws[2 * k] == ivs[k].start && ws[2 * k + 1] == ivs[k].end
  {
    if ivs == [] then [] else
      var n := |ivs| - 1;
      IntervalWords(ivs[..n]) + [ivs[n].start, ivs[n].end]
  }

  /** The words of a request as it goes on the wire. */
  function RequestWords(r: Request): seq<u32>
    requires r.Valid() && |r.intervals| <= MAX_INTERVALS
  {
    [r.magic, r.session, r.mtu, r.block, |r.intervals|, r.client] + IntervalWords(r.intervals)
  }

  function Encoding(r: Request): Bytes
    requires r.Valid() && |r.intervals| <= MAX_INTERVALS
  {
    PutWords(RequestWords(r))
  }

  function Capped(r: Request): Request {
    if |r.intervals| > MAX_INTERVALS then r.(intervals := r.intervals[..MAX_INTERVALS]) else r
  }

  /** svu_req_encode: at most 32 intervals are written, and the count says so. */
  method EncodeRequest(r: Request) returns (buf: Bytes)
    requires r.Valid()
    ensures buf == Encoding(Capped(r))
  {
    var n := |r.intervals|;
    if n > MAX_INTERVALS {
      n := MAX_INTERVALS;
    }
    ghost var ws := RequestWords(Capped(r));
    buf := Put32(r.magic) + Put32(r.session) + Put32(r.mtu) + Put32(r.block) + Put32(n) + Put32(r.client);
    SixWords(ws);
    buf := AppendIntervals(buf, r.intervals[..n], ws);
  }

  method AppendIntervals(header: Bytes, ivs: seq<Interval>, ghost ws: seq<u32>) returns (buf: Bytes)
    requires |ws| == 6 + 2 * |ivs| && header == PutWords(ws[..6])
    requires forall i | 0 <= i < |ivs| :: ws[6 + 2 * i] == ivs[i].start && ws[7 + 2 * i] == ivs[i].end
    ensures buf == PutWords(ws)
  {
    buf := header;
    for i := 0 to |ivs|
      invariant buf == PutWords(ws[..6 + 2 * i])
    {
      assert ws[6 + 2 * i] == ivs[i].start;
      PutNext(ws, 6 + 2 * i);
      PutNext(ws, 7 + 2 * i);
      buf := buf + Put32(ivs[i].start);
      buf := buf + Put32(ivs[i].end);
    }
    assert ws[..|ws|] == ws;
  }

  lemma SixWords(ws: seq<u32>)
    requires |ws| >= 6
    ensures PutWords(ws[..6])
         == Put32(ws[0]) + Put32(ws[1]) + Put32(ws[2]) + Put32(ws[3]) + Put32(ws[4]) + Put32(ws[5])
  {
    PutNext(ws, 0);
    PutNext(ws, 1);
    PutNext(ws, 2);
    PutNext(ws, 3);
    PutNext(ws, 4);
    PutNext(ws, 5);
  }

  /**
   * svu_req_decode. A request is returned exactly when `buf` starts with the encoding of an
   * acceptable one, and re-encoding what was returned gives back that prefix.
   */
  method DecodeRequest(buf: Bytes) returns (r: Option<Request>)
    ensures r.Some? ==> r.value.Acceptable() && Encoding(r.value) <= buf
    ensures r.None? ==> forall q: Request | q.Acceptable() :: !(Encoding(q) <= buf)
  {
    if |buf| < REQ_HDR {
      return None;
    }
    var magic, session, mtu, block := Get32(buf, 0), Get32(buf, 4), Get32(buf, 8), Get32(buf, 12);
    var n, client := Get32(buf, 16), Get32(buf, 20);
    forall q: Request | q.Acceptable() && Encoding(q) <= buf
      ensures magic == q.magic && n == |q.intervals| && |buf| >= REQ_HDR + 8 * n
    {
      EncodedFields(q, buf);
    }
    if magic != MAGIC_REQ || n > MAX_INTERVALS {
      return None;
    }
    if |buf| < REQ_HDR + n * 8 {
      return None;
    }
    var intervals: seq<Interval> := [];
    for i := 0 to n
      invariant |intervals| == i
      invariant forall k | 0 <= k < i ::
                  intervals[k] == Interval(Get32(buf, REQ_HDR + k * 8), Get32(buf, REQ_HDR + k * 8 + 4))
    {
      intervals := intervals + [Interval(Get32(buf, REQ_HDR + i * 8), Get32(buf, REQ_HDR + i * 8 + 4))];
    }
    var q := Request(magic, session, mtu, block, client, intervals);
    ReadBack(q, buf);
    r := Some(q);
  }

  lemma EncodedFields(q: Request, buf: Bytes)
    requires q.Acceptable() && Encoding(q) <= buf
    ensures |buf| >= REQ_HDR + 8 * |q.intervals|
    ensures Get32(buf, 0) == q.magic && Get32(buf, 4) == q.session && Get32(buf, 8) == q.mtu
    ensures Get32(buf, 12) == q.block && Get32(buf, 16) == |q.intervals| && Get32(buf, 20) == q.client
    ensures forall k | 0 <= k < |q.intervals| ::
              Get32(buf, REQ_HDR + k * 8) == q.intervals[k].start && Get32(buf, REQ_HDR + k * 8 + 4) == q.intervals[k].end
  {
    PrefixIsWords(buf, RequestWords(q));
    HeaderRead(buf, RequestWords(q));
    forall k | 0 <= k < |q.intervals|
      ensures Get32(buf, REQ_HDR + k * 8) == q.intervals[k].start && Get32(buf, REQ_HDR + k * 8 + 4) == q.intervals[k].end
    {
      IntervalRead(q, buf, k);
    }
  }

  lemma IntervalRead(q: Request, buf: Bytes, k: nat)
    requires q.Acceptable() && StartsWith(buf, RequestWords(q)) && k < |q.intervals|
    ensures Get32(buf, REQ_HDR + k * 8) == q.intervals[k].start && Get32(buf, REQ_HDR + k * 8 + 4) == q.intervals[k].end
  {
    WordsRead(buf, RequestWords(q), 6 + 2 * k);
    WordsRead(buf, RequestWords(q), 7 + 2 * k);
  }

  lemma WordsRead(buf: Bytes, ws: seq<u32>, k: nat)
    requires StartsWith(buf, ws) && k < |ws|
    ensures Get32(buf, 4 * k) == ws[k]
  {}

  lemma HeaderRead(buf: Bytes, ws: seq<u32>)
    requires StartsWith(buf, ws) && |ws| >= 6
    ensures Get32(buf, 0) == ws[0] && Get32(buf, 4) == ws[1] && Get32(buf, 8) == ws[2]
    ensures Get32(buf, 12) == ws[3] && Get32(buf, 16) == ws[4] && Get32(buf, 20) == ws[5]
  {
    WordsRead(buf, ws, 0);
    WordsRead(buf, ws, 1);
    WordsRead(buf, ws, 2);
    WordsRead(buf, ws, 3);
    WordsRead(buf, ws, 4);
    WordsRead(buf, ws, 5);
  }

  lemma ReadBack(q: Request, buf: Bytes)
    requires q.Acceptable() && |buf| >= REQ_HDR + 8 * |q.intervals|
    requires Get32(buf, 0) == q.magic && Get32(buf, 4) == q.session && Get32(buf, 8) == q.mtu
    requires Get32(buf, 12) == q.block && Get32(buf, 16) == |q.intervals| && Get32(buf, 20) == q.client
    requires forall k | 0 <= k < |q.intervals| ::
               q.intervals[k] == Interval(Get32(buf, REQ_HDR + k * 8), Get32(buf, REQ_HDR + k * 8 + 4))
    ensures Encoding(q) <= buf
  {
    var ws := RequestWords(q);
    forall k | 0 <= k < |ws|
      ensures 4 * k + 4 <= |buf| && Get32(buf, 4 * k) == ws[k]
    {
      if k >= 6 {
        var j := Half(k - 6);
        IntervalBack(q, buf, j, k);
      } else {
        HeaderBack(q, buf, k);
      }
    }
    PrefixIsWords(buf, ws);
  }

  lemma Half(n: nat) returns (j: nat)
    ensures n == 2 * j || n == 2 * j + 1
  {
    j := n / 2;
  }

  lemma HeaderBack(q: Request, buf: Bytes, k: nat)
    requires q.Acceptable() && |buf| >= REQ_HDR && k < 6
    requires Get32(buf, 0) == q.magic && Get32(buf, 4) == q.session && Get32(buf, 8) == q.mtu
    requires Get32(buf, 12) == q.block && Get32(buf, 16) == |q.intervals| && Get32(buf, 20) == q.client
    ensures Get32(buf, 4 * k) == RequestWords(q)[k]
  {
    assert k == 0 || k == 1 || k == 2 || k == 3 || k == 4 || k == 5;
  }

  lemma IntervalBack(q: Request, buf: Bytes, j: nat, k: nat)
    requires q.Acceptable() && j < |q.intervals| && |buf| >= REQ_HDR + 8 * |q.intervals|
    requires k == 6 + 2 * j || k == 7 + 2 * j
    requires q.intervals[j] == Interval(Get32(buf, REQ_HDR + j * 8), Get32(buf, REQ_HDR + j * 8 + 4))
    ensures 4 * k + 4 <= |buf| && Get32(buf, 4 * k) == RequestWords(q)[k]
  {
    assert RequestWords(q)[k] == IntervalWords(q.intervals)[k - 6];
  }

  /** A buffer starts with the encoding of at most one acceptable request. */
  lemma EncodingIsUnambiguous(q: Request, r: Request, buf: Bytes)
    requires q.Acceptable() && r.Acceptable()
    requires Encoding(q) <= buf && Encoding(r) <= buf
    ensures q == r
  {
    EncodedFields(q, buf);
    EncodedFields(r, buf);
    assert forall k | 0 <= k < |q.intervals| :: q.intervals[k] == r.intervals[k] by {
      forall k | 0 <= k < |q.intervals|
        ensures q.intervals[k] == r.intervals[k]
      {
        assert q.intervals[k].start == Get32(buf, REQ_HDR + k * 8);
      }
    }
  }

  // ---- push announce

  /** svu_announce_encode into a buffer of `cap` bytes: path only when `mode` is 0. */
  function AnnounceEncode(mode: u32, path: Bytes, cap: nat): Bytes {
    if mode == 0 then path[..Min(|path|, cap)]
    else
      var plen := if |path| + 8 > cap then (if cap > 8 then cap - 8 else 0) else |path|;
      Put32(PUSH_MAGIC) + Put32(mode) + path[..plen]
  }

  /** svu_announce_decode into a path buffer of `cap` bytes, terminator included. */
  function AnnounceDecode(buf: Bytes, cap: nat): (u32, Bytes) {
    var framed := |buf| >= 8 && Get32(buf, 0) == PUSH_MAGIC;
    var mode := if framed then Get32(buf, 4) else 0;
    var psrc := if framed then buf[8..] else buf;
    (mode, if cap == 0 then [] else psrc[..Min(|psrc|, cap - 1)])
  }

  /** The path, and the framing when there is a mode, fit both buffers. */
  predicate AnnounceFits(mode: u32, path: Bytes, encodeCap: nat, decodeCap: nat) {
    |path| + (if mode == 0 then 0 else 8) <= encodeCap && |path| < decodeCap
  }

  /**
   * Announcing round-trips every mode and path that fit, except exactly the bare paths that are long
   * enough to be framed and begin with the four magic bytes.
   */
  lemma AnnounceRoundTrip(mode: u32, path: Bytes, encodeCap: nat, decodeCap: nat)
    requires AnnounceFits(mode, path, encodeCap, decodeCap)
    ensures AnnounceDecode(AnnounceEncode(mode, path, encodeCap), decodeCap) == (mode, path)
       <==> !(mode == 0 && |path| >= 8 && path[..4] == Put32(PUSH_MAGIC))
  {
    assert path[..|path|] == path;
    if mode == 0 {
      if |path| >= 8 {
        BareFields(PUSH_MAGIC, path);
      }
    } else {
      FramedFields(PUSH_MAGIC, mode, path);
    }
  }

  lemma BareFields(magic: u32, path: Bytes)
    requires |path| >= 4
    ensures Get32(path, 0) == magic <==> path[..4] == Put32(magic)
  {
    Get32IsInverse(path, 0, magic);
    assert path[..4] == path[0..4];
  }

  lemma FramedFields(magic: u32, mode: u32, path: Bytes)
    ensures var buf := Put32(magic) + Put32(mode) + path[..|path|];
            Get32(buf, 0) == magic && Get32(buf, 4) == mode && buf[8..] == path
  {
    var buf := Put32(magic) + Put32(mode) + path[..|path|];
    assert buf[0..4] == Put32(magic) && buf[4..8] == Put32(mode) && buf[8..] == path;
    Get32IsInverse(buf, 0, magic);
    Get32IsInverse(buf, 4, mode);
  }
}
