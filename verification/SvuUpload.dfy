/**
 * The client, the sender and the channel together: request, answer, blast, accept, verify. Once the
 * channel delivers what the sender answers, the client ends with the file.
 */
module SvuUpload {
  import opened Machine
  import opened HashSpec
  import opened SvuSpec
  import opened SvuProperties
  import opened SvuWire
  import opened SvuServer
  import opened SvuDelivery
  import opened SvuClient
  import opened SvuConvergence
  import opened SvuWorstCase

  /** The data packets of the `n` rounds from round `k` on. */
  function PacketsOf(env: seq<RoundInput>, k: nat, n: nat): (p: seq<seq<Bytes>>)
    requires k + n <= |env|
    ensures |p| == n
  {
    seq(n, j requires 0 <= j < n => env[k + j].packets)
  }

  lemma {:induction false} AfterIsDelivery(m: Meta, env: seq<RoundInput>, k: nat, n: nat)
    requires k + n <= |env|
    ensures DeliverRounds(After(m, env, k), PacketsOf(env, k, n)) == After(m, env, k + n)
    decreases n
  {
    if n > 0 {
      AfterIsDelivery(m, env, k + 1, n - 1);
      assert PacketsOf(env, k, n)[1..] == PacketsOf(env, k + 1, n - 1);
    }
  }

  /** The payload of a data packet of this client: what its requests make the sender use. */
  function PayloadFor(mtu: u32): nat {
    Payload(ServeMtu(mtu))
  }

  /** The request of round `k` makes the sender answer with its control stream and with the ranges asked for. */
  lemma AnswerToRequest(h: HashFunction, src: Bytes, mtu: u32, blockSize: u32, m: Meta, env: seq<RoundInput>, k: nat, request: Bytes)
    requires k <= |env| && |src| == m.total && Sends(h, mtu, blockSize, m, env, k, request)
    ensures Answer(src, m.block, m.nblocks, m.manifest, request)
         == (StreamOf(SESSION, m), Blast(src, SESSION, PayloadFor(mtu), AskedFor(h, m, env, k)))
  {
    CarriedIs(request, RequestFor(mtu, blockSize, AskedFor(h, m, env, k)));
  }

  /** `Serve` can answer the request: it is acceptable, and no offset of the answer wraps. */
  ghost predicate Answerable(src: Bytes, m: Meta, request: Bytes) {
    && Carried(request).Some? && Servable(|src|, Carried(request).value)
    && |m.manifest| < TWO32 && NoWrap(CHUNK, 0, |m.manifest|)
  }

  /** Where payload size and mtu fit 32 bits, the sender can answer every request of the client. */
  lemma RequestIsServable(h: HashFunction, src: Bytes, mtu: u32, blockSize: u32, m: Meta, env: seq<RoundInput>, k: nat, request: Bytes)
    requires k <= |env| && Announces(h, src, m) && Sends(h, mtu, blockSize, m, env, k, request)
    requires |src| + ServeMtu(mtu) <= TWO32
    ensures Answerable(src, m, request)
  {
    var q := RequestFor(mtu, blockSize, AskedFor(h, m, env, k));
    CarriedIs(request, q);
    RoomToStep(CHUNK, 0, |m.manifest|);
    RoomToStep(PayloadFor(mtu), 0, |src|);
    forall j | 0 <= j < |q.intervals|
      ensures NoWrap(PayloadFor(mtu), q.intervals[j].start, Min(q.intervals[j].end, |src|))
    {
      RoomToStep(PayloadFor(mtu), q.intervals[j].start, Min(q.intervals[j].end, |src|));
    }
  }

  lemma AllServable(h: HashFunction, src: Bytes, mtu: u32, blockSize: u32, m: Meta, env: seq<RoundInput>, requests: seq<Bytes>)
    requires Announces(h, src, m) && |src| + ServeMtu(mtu) <= TWO32
    requires AskedInTurn(h, mtu, blockSize, m, env, requests)
    ensures forall k | 0 <= k < |requests| :: Answerable(src, m, requests[k])
  {
    forall k | 0 <= k < |requests|
      ensures Answerable(src, m, requests[k])
    {
      RequestIsServable(h, src, mtu, blockSize, m, env, k, requests[k]);
    }
  }

  /**
   * Round `k` is good: everything the sender puts on the data channel for the request of the round
   * arrives, and whatever arrives carries the source's bytes.
   */
  ghost predicate GoodAt(h: HashFunction, src: Bytes, mtu: u32, blockSize: u32, m: Meta, env: seq<RoundInput>, k: nat)
    requires k < |env| && |src| < TWO32
  {
    && AllGenuine(src, env[k].packets)
    && forall request, p | Sends(h, mtu, blockSize, m, env, k, request)
                           && p in Answer(src, m.block, m.nblocks, m.manifest, request).1 :: p in env[k].packets
  }

  /** An empty receiver has one hole, and asking for it is asking for the whole file. */
  lemma BlankAsks(src: Bytes, session: u32, pay: nat, c: seq<bool>)
    requires pay > 0 && 0 < |src| < TWO32 && |c| == |src| && forall i | 0 <= i < |c| :: !c[i]
    ensures Missing(c) == [Interval(0, |c|)]
    ensures Blast(src, session, pay, [Interval(0, |c|)]) == Blast(src, session, pay, [])
  {
    assert RunEnd(c, 0) == |c| && MissingFrom(c, |c|) == [];
    var ivs := [Interval(0, |c|)];
    assert ivs[..0] == [];
    assert BlastRanges(src, session, pay, []) == [];
  }

  /** What round `k` asks the sender for is what the verdict before it lacks, in the first round too. */
  lemma AskedIsNext(h: HashFunction, src: Bytes, pay: nat, m: Meta, env: seq<RoundInput>, k: nat)
    requires pay > 0 && k <= |env| && Announces(h, src, m) && m.nblocks > 0
    ensures Expects(h, After(m, env, k), src)
    ensures Blast(src, SESSION, pay, AskedFor(h, m, env, k)) == Blast(src, SESSION, pay, NextRanges(h, After(m, env, k)))
  {
    AfterExpects(h, src, m, env, k);
    if k == 0 {
      var c := After(m, env, 0).covered;
      BlankAsks(src, SESSION, pay, c);
      CountBound(c);
      assert !c[0];
    }
  }

  /** A round that is good for an unverified client is a faithful one. */
  lemma GoodIsFaithful(h: HashFunction, src: Bytes, mtu: u32, blockSize: u32, m: Meta, env: seq<RoundInput>, k: nat)
    requires k < |env| && Announces(h, src, m) && m.nblocks > 0
    requires Unverified(h, m, env, k) && GoodAt(h, src, mtu, blockSize, m, env, k)
    ensures FaithfulRound(src, SESSION, PayloadFor(mtu), NextRanges(h, After(m, env, k)), env[k].packets)
  {
    var request := RequestExists(h, mtu, blockSize, m, env, k);
    AnswerToRequest(h, src, mtu, blockSize, m, env, k, request);
    AskedIsNext(h, src, PayloadFor(mtu), m, env, k);
  }

  lemma RequestExists(h: HashFunction, mtu: u32, blockSize: u32, m: Meta, env: seq<RoundInput>, k: nat) returns (request: Bytes)
    requires k <= |env| && Unverified(h, m, env, k)
    ensures Sends(h, mtu, blockSize, m, env, k, request)
  {
    if k > 0 {
      AskedForIsSane(h, After(m, env, k));
    }
    request := Encoding(RequestFor(mtu, blockSize, AskedFor(h, m, env, k)));
  }

  /** The `n` rounds from round `k` on are good until one ends verified. */
  ghost predicate GoodStretch(h: HashFunction, src: Bytes, mtu: u32, blockSize: u32, m: Meta, env: seq<RoundInput>, k: nat, n: nat)
    requires |src| < TWO32 && k + n <= |env|
  {
    forall j | k <= j < k + n && Unverified(h, m, env, j) :: GoodAt(h, src, mtu, blockSize, m, env, j)
  }

  lemma {:induction false} FaithfulStretchRuns(h: HashFunction, src: Bytes, pay: nat, m: Meta, env: seq<RoundInput>, k: nat, n: nat)
    requires pay > 0 && k + n <= |env| && Announces(h, src, m) && m.nblocks > 0
    requires forall j | k <= j < k + n && Unverified(h, m, env, j) ::
               FaithfulRound(src, SESSION, pay, NextRanges(h, After(m, env, j)), env[j].packets)
    ensures GoodRun(h, src, SESSION, pay, After(m, env, k), PacketsOf(env, k, n))
    decreases n
  {
    AfterExpects(h, src, m, env, k);
    if n > 0 && !Verified(h, After(m, env, k)) {
      assert Unverified(h, m, env, k);
      FaithfulStretchRuns(h, src, pay, m, env, k + 1, n - 1);
      FirstOfStretch(m, env, k, n);
      GoodRunStep(h, src, SESSION, pay, After(m, env, k), env[k].packets, PacketsOf(env, k + 1, n - 1));
    }
  }

  lemma FirstOfStretch(m: Meta, env: seq<RoundInput>, k: nat, n: nat)
    requires 0 < n && k + n <= |env|
    ensures PacketsOf(env, k, n) == [env[k].packets] + PacketsOf(env, k + 1, n - 1)
    ensures After(m, env, k + 1) == DeliverAll(After(m, env, k), env[k].packets)
  {}

  lemma GoodStretchVerifies(h: HashFunction, src: Bytes, mtu: u32, blockSize: u32, m: Meta, env: seq<RoundInput>, k: nat, n: nat)
    requires k + n <= |env| && Announces(h, src, m) && m.nblocks > 0
    requires GoodStretch(h, src, mtu, blockSize, m, env, k, n) && Enough(h, After(m, env, k), src) <= n
    ensures exists j :: k <= j <= k + n && !Unverified(h, m, env, j)
  {
    GoodStretchRuns(h, src, mtu, blockSize, m, env, k, n);
    NeverLonger(h, src, SESSION, PayloadFor(mtu), After(m, env, k), PacketsOf(env, k, n));
    EndsWithin(h, m, env, k, n);
  }

  lemma GoodStretchRuns(h: HashFunction, src: Bytes, mtu: u32, blockSize: u32, m: Meta, env: seq<RoundInput>, k: nat, n: nat)
    requires k + n <= |env| && Announces(h, src, m) && m.nblocks > 0
    requires GoodStretch(h, src, mtu, blockSize, m, env, k, n)
    ensures GoodRun(h, src, SESSION, PayloadFor(mtu), After(m, env, k), PacketsOf(env, k, n))
  {
    forall j | k <= j < k + n && Unverified(h, m, env, j)
      ensures FaithfulRound(src, SESSION, PayloadFor(mtu), NextRanges(h, After(m, env, j)), env[j].packets)
    {
      GoodIsFaithful(h, src, mtu, blockSize, m, env, j);
    }
    FaithfulStretchRuns(h, src, PayloadFor(mtu), m, env, k, n);
  }

  /** A run that ends verified does so after one of the client's rounds. */
  lemma EndsWithin(h: HashFunction, m: Meta, env: seq<RoundInput>, k: nat, n: nat)
    requires k + n <= |env| && After(m, env, k).Valid() && EndsVerified(h, After(m, env, k), PacketsOf(env, k, n))
    ensures exists j :: k <= j <= k + n && !Unverified(h, m, env, j)
  {
    var s, rounds := After(m, env, k), PacketsOf(env, k, n);
    var j :| 0 <= j <= n && DeliverRounds(s, rounds[..j]).Valid() && Verified(h, DeliverRounds(s, rounds[..j]));
    assert rounds[..j] == PacketsOf(env, k, j);
    AfterIsDelivery(m, env, k, j);
    assert !Unverified(h, m, env, k + j);
  }

  /**
   * The client, the sender and a channel that is arbitrary for the first `k` rounds and good
   * afterwards, for as many rounds as are enough for what the receiver then holds: if every round
   * gets one control exchange through, the run ends with the file, for any hash function.
   */
  method Upload(hash: HashFunction, mtu: u32, blockSize: u32, maxRounds: nat, env: seq<RoundInput>,
                ghost src: Bytes, ghost m: Meta, ghost k: nat)
    returns (file: Bytes, requests: seq<Bytes>)
    requires Announces(hash, src, m) && m.nblocks > 0 && ControlFromSender(env, m)
    requires |src| + ServeMtu(mtu) <= TWO32
    requires forall r | 0 <= r < |env| :: !ControlLost(env[r], StreamOf(SESSION, m))
    requires k <= maxRounds <= |env| && GoodStretch(hash, src, mtu, blockSize, m, env, k, maxRounds - k)
    requires Enough(hash, After(m, env, k), src) <= maxRounds - k
    ensures file == src || HasCollision(hash, file, src, m.block, m.nblocks)
    ensures |requests| <= maxRounds && AskedInTurn(hash, mtu, blockSize, m, env, requests)
    ensures forall r | 0 <= r < |requests| :: Answerable(src, m, requests[r])
  {
    GoodStretchVerifies(hash, src, mtu, blockSize, m, env, k, maxRounds - k);
    ghost var j :| k <= j <= maxRounds && !Unverified(hash, m, env, j);
    var ok;
    ok, file, requests := ClientRun(hash, mtu, blockSize, maxRounds, env, src, m);
    BlankIsUnverified(hash, src, m, env);
    StopsAt(hash, mtu, blockSize, m, env, requests, j);
    NeverRefused(env, m);
    CannotGiveUp(hash, m, env, maxRounds, |requests|, j);
    AllServable(hash, src, mtu, blockSize, m, env, requests);
  }

  lemma BlankIsUnverified(h: HashFunction, src: Bytes, m: Meta, env: seq<RoundInput>)
    requires Announces(h, src, m) && m.nblocks > 0
    ensures Unverified(h, m, env, 0)
  {
    AfterExpects(h, src, m, env, 0);
    CountBound(After(m, env, 0).covered);
    assert !After(m, env, 0).covered[0];
  }

  /** A control channel that lets an exchange through in every round is never refused. */
  lemma NeverRefused(env: seq<RoundInput>, m: Meta)
    requires WellSized(m) && m.nblocks > 0 && ControlFromSender(env, m)
    requires forall r | 0 <= r < |env| :: !ControlLost(env[r], StreamOf(SESSION, m))
    ensures forall r | 0 <= r < |env| :: !Refused(env[r], m)
  {
    forall r | 0 <= r < |env|
      ensures !Refused(env[r], m)
    {
      NotRefused(env[r], m);
    }
  }

  lemma NotRefused(x: RoundInput, m: Meta)
    requires WellSized(m) && m.nblocks > 0 && FromStream(x, m) && !ControlLost(x, StreamOf(SESSION, m))
    ensures !Refused(x, m)
  {
    if Refused(x, m) {
      RefusedMeansLost(x, m);
    }
  }

  /** A run that could not go past a verified round, and is not refused, does not give up. */
  lemma CannotGiveUp(h: HashFunction, m: Meta, env: seq<RoundInput>, maxRounds: nat, rounds: nat, j: nat)
    requires rounds <= j <= maxRounds <= |env| && 0 < j && !Unverified(h, m, env, j)
    requires rounds > 0 ==> !Refused(env[rounds - 1], m)
    ensures !GaveUp(h, m, env, maxRounds, rounds)
  {
    if rounds == maxRounds {
      assert j == maxRounds;
    } else {
      assert rounds < maxRounds;
    }
  }
}
