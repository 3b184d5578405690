/** lib/ci_sha256.c: the streaming context, proved against the padded-message definition. */
module Sha256Stream {
  import opened Machine
  import opened Words
  import opened HashSpec
  import opened CompressionSpec
  import opened Sha256Transform

  class Context<W(0,!new)> {
    const primitives: Primitives<W>
    const algorithm: Algorithm<Vars<W>>
    var state: Vars<W>
    var bitlen: u64
    const buf: array<bv8>
    var buflen: nat
    /** The bytes already compressed into `state`, and how many blocks they make. */
    ghost var done: seq<bv8>
    ghost var blocks: nat

    ghost predicate Valid()
      reads this
    {
      && Compresses(primitives, algorithm.compress)
      && buf.Length == 64
      && buflen < 64
      && |done| == 64 * blocks
      && state == Absorb(algorithm.compress, algorithm.initial, done)
      && bitlen == BitLength(|done|)
    }

    /** Every byte given to `Update` since the context was made. */
    ghost function Absorbed(): seq<bv8>
      requires Valid()
      reads this, buf
    {
      done + buf[..buflen]
    }

    constructor (primitives: Primitives<W>, algorithm: Algorithm<Vars<W>>)
      requires Compresses(primitives, algorithm.compress)
      ensures Valid() && fresh(buf)
      ensures this.primitives == primitives && this.algorithm == algorithm
      ensures Absorbed() == []
    {
      this.primitives, this.algorithm := primitives, algorithm;
      state := algorithm.initial;
      bitlen := 0;
      buflen := 0;
      buf := new bv8[64](_ => 0);
      done, blocks := [], 0;
    }

    /** A full buffer becomes one more compressed block. */
    method Flush()
      requires Compresses(primitives, algorithm.compress) && buf.Length == 64 && |done| == 64 * blocks
      requires state == Absorb(algorithm.compress, algorithm.initial, done)
      modifies this`state, this`done, this`blocks
      ensures done == old(done) + buf[..] && blocks == old(blocks) + 1
      ensures state == Absorb(algorithm.compress, algorithm.initial, done)
    {
      AbsorbBlock(algorithm.compress, algorithm.initial, done, blocks, buf[..]);
      state := Transform(primitives, state, buf);
      done, blocks := done + buf[..], blocks + 1;
    }

    /** One byte into the buffer, and the block compressed once it is full. */
    method Push(x: bv8)
      requires Valid()
      modifies this, buf
      ensures Valid()
      ensures Absorbed() == old(Absorbed()) + [x]
    {
      ghost var tail := buf[..buflen];
      buf[buflen] := x;
      buflen := buflen + 1;
      assert buf[..buflen] == tail + [x];
      if buflen == 64 {
        assert buf[..64] == buf[..];
        BitLengthAdds(|done|, 64);
        Flush();
        bitlen := (bitlen + 512) % 0x1_0000_0000_0000_0000;
        buflen := 0;
      }
    }

    method Update(data: seq<bv8>)
      requires Valid()
      modifies this, buf
      ensures Valid()
      ensures Absorbed() == old(Absorbed()) + data
    {
      for i := 0 to |data|
        invariant Valid()
        invariant Absorbed() == old(Absorbed()) + data[..i]
      {
        Push(data[i]);
        assert data[..i + 1] == data[..i] + [data[i]];
      }
      assert data[..|data|] == data;
    }

    /** Padding in place, one block or two, then the digest. */
    method Final() returns (out: Digest)
      requires Valid()
      modifies this, buf
      ensures out == Hash(algorithm, old(Absorbed()))
    {
      ghost var message := Absorbed();
      CountTail();
      assert bitlen == BitLength(|message|);
      PadToLengthField();
      ghost var head := done + buf[..56];
      assert head == message + [0x80] + Zeros(ZeroCount(|message|));
      AppendLength();
      PaddedMessage(message, done, head, bitlen);
      out := algorithm.emit(state);
    }

    /** The bytes still in the buffer join the bit count. */
    method CountTail()
      requires Valid()
      modifies this`bitlen
      ensures bitlen == BitLength(|done| + buflen)
    {
      BitLengthAdds(|done|, buflen);
      bitlen := (bitlen + buflen * 8) % 0x1_0000_0000_0000_0000;
    }

    /** The 0x80 byte and the zeros, up to the eight bytes of the length; a full block is compressed. */
    method PadToLengthField()
      requires Compresses(primitives, algorithm.compress) && buf.Length == 64 && buflen < 64 && |done| == 64 * blocks
      requires state == Absorb(algorithm.compress, algorithm.initial, done)
      modifies this`state, this`done, this`blocks, buf
      ensures |done| == 64 * blocks
      ensures state == Absorb(algorithm.compress, algorithm.initial, done)
      ensures var m := old(done + buf[..buflen]); done + buf[..56] == m + [0x80] + Zeros(ZeroCount(|m|))
    {
      ghost var n := |done| + buflen;
      ghost var tail := buf[..buflen];
      ZeroCountOf(blocks, buflen);
      var i := buflen;
      buf[i] := 0x80;
      i := i + 1;
      ghost var head := buf[..i];
      assert head == tail + [0x80];
      if i > 56 {
        FillZeros(i, 64);
        assert buf[..] == head + Zeros(64 - i);
        Flush();
        FillZeros(0, 56);
        assert buf[..56] == Zeros(56);
        assert Zeros(64 - i) + Zeros(56) == Zeros(ZeroCount(n));
      } else {
        FillZeros(i, 56);
        assert buf[..56] == head + Zeros(56 - i);
      }
    }

    /** The length field completes the last block. */
    method AppendLength()
      requires Compresses(primitives, algorithm.compress) && buf.Length == 64 && |done| == 64 * blocks
      requires state == Absorb(algorithm.compress, algorithm.initial, done)
      modifies this`state, this`done, this`blocks, buf
      ensures state == Absorb(algorithm.compress, algorithm.initial, done)
      ensures done == old(done + buf[..56]) + BigEndian(bitlen, 8)
    {
      PutLength();
      assert buf[..] == buf[..56] + buf[56..];
      Flush();
    }

    /** Zero bytes into positions `start` up to `end` of the buffer. */
    method FillZeros(start: nat, end: nat)
      requires start <= end <= buf.Length
      modifies buf
      ensures buf[..start] == old(buf[..start])
      ensures buf[start..end] == Zeros(end - start)
    {
      var i := start;
      while i < end
        invariant start <= i <= end
        invariant buf[..start] == old(buf[..start])
        invariant forall k | start <= k < i :: buf[k] == 0
      {
        buf[i] := 0;
        i := i + 1;
      }
    }

    /** The bit length into the last eight bytes, most significant first. */
    method PutLength()
      requires buf.Length == 64
      modifies buf
      ensures buf[..56] == old(buf[..56])
      ensures buf[56..] == BigEndian(bitlen, 8)
    {
      var i := 56;
      for j := 8 downto 0
        invariant i == 64 - j
        invariant buf[..56] == old(buf[..56])
        invariant forall k | 56 <= k < i :: buf[k] == BigEndian(bitlen, 8)[k - 56]
      {
        BigEndianAt(bitlen, 8, 7 - j);
        buf[i] := Byte(ShiftRight(bitlen, j) % 0x100);
        i := i + 1;
      }
    }
  }

}

/** Init, any sequence of updates, final: the digest does not depend on how the message is cut. */
module Sha256Message {
  import opened HashSpec
  import opened CompressionSpec
  import opened Sha256Stream
  import opened Sha256Spec

  /** The message the pieces make. */
  function Joined(pieces: seq<seq<bv8>>): seq<bv8> {
    if pieces == [] then [] else Joined(pieces[..|pieces| - 1]) + pieces[|pieces| - 1]
  }

  method HashPieces<W(0,!new)>(primitives: Primitives<W>, algorithm: Algorithm<Vars<W>>, pieces: seq<seq<bv8>>)
    returns (digest: Digest)
    requires Compresses(primitives, algorithm.compress)
    ensures digest == Hash(algorithm, Joined(pieces))
  {
    var ctx := new Context(primitives, algorithm);
    for i := 0 to |pieces|
      invariant fresh(ctx) && fresh(ctx.buf) && ctx.Valid() && ctx.algorithm == algorithm
      invariant ctx.Absorbed() == Joined(pieces[..i])
    {
      assert pieces[..i + 1][..i] == pieces[..i];
      ctx.Update(pieces[i]);
    }
    assert pieces[..|pieces|] == pieces;
    digest := ctx.Final();
  }

  /** SHA-256 of a message given in pieces. */
  method Sha256Pieces(pieces: seq<seq<bv8>>) returns (digest: Digest)
    ensures digest == Sha256(Joined(pieces))
  {
    digest := HashPieces(FIPS, SHA256, pieces);
  }
}

/** lib/ci_sha256.c: the compression of one block, as loops over the schedule and the rounds. */
module Sha256Transform {
  import opened HashSpec
  import opened CompressionSpec

  /** One block: expand the schedule, run the rounds, add into the hash value. */
  method Transform<W(0)>(p: Primitives<W>, v: Vars<W>, buf: array<bv8>) returns (r: Vars<W>)
    requires buf.Length == 64
    ensures r == Compress(p, v, buf[..])
  {
    var m := Expand(p, buf);
    var w := RunRounds(p, v, m, buf[..]);
    r := Add(p, v, w);
  }

  /** The message schedule of the block in `buf`. */
  method Expand<W(0)>(p: Primitives<W>, buf: array<bv8>) returns (m: array<W>)
    requires buf.Length == 64
    ensures fresh(m) && m.Length == 64
    ensures forall t | 0 <= t < 64 :: m[t] == Schedule(p, buf[..], t)
  {
    ghost var block: Block := buf[..];
    m := new W[64];
    for i := 0 to 16
      invariant forall t | 0 <= t < i :: m[t] == Schedule(p, block, t)
    {
      m[i] := p.load(buf[i * 4], buf[i * 4 + 1], buf[i * 4 + 2], buf[i * 4 + 3]);
    }
    ExpandRest(p, m, block);
  }

  method ExpandRest<W>(p: Primitives<W>, m: array<W>, ghost block: Block)
    requires m.Length == 64
    requires forall t | 0 <= t < 16 :: m[t] == Schedule(p, block, t)
    modifies m
    ensures forall t | 0 <= t < 64 :: m[t] == Schedule(p, block, t)
  {
    for i := 16 to 64
      invariant forall t | 0 <= t < i :: m[t] == Schedule(p, block, t)
    {
      assert m[i - 2] == Schedule(p, block, i - 2) && m[i - 7] == Schedule(p, block, i - 7);
      assert m[i - 15] == Schedule(p, block, i - 15) && m[i - 16] == Schedule(p, block, i - 16);
      m[i] := p.add(p.add(p.add(p.smallSigma1(m[i - 2]), m[i - 7]), p.smallSigma0(m[i - 15])), m[i - 16]);
    }
  }

  /** The 64 rounds over a message schedule. */
  method RunRounds<W>(p: Primitives<W>, v: Vars<W>, m: array<W>, ghost block: Block) returns (r: Vars<W>)
    requires m.Length == 64
    requires forall t | 0 <= t < 64 :: m[t] == Schedule(p, block, t)
    ensures r == Rounds(p, v, block, 64)
  {
    var a, b, c, d := v.a, v.b, v.c, v.d;
    var e, f, g, h := v.e, v.f, v.g, v.h;
    for i := 0 to 64
      invariant Vars(a, b, c, d, e, f, g, h) == Rounds(p, v, block, i)
    {
      var t1 := p.add(p.add(p.add(p.add(h, p.bigSigma1(e)), p.ch(e, f, g)), p.k(i)), m[i]);
      var t2 := p.add(p.bigSigma0(a), p.maj(a, b, c));
      h := g; g := f; f := e; e := p.add(d, t1);
      d := c; c := b; b := a; a := p.add(t1, t2);
    }
    r := Vars(a, b, c, d, e, f, g, h);
  }
}
