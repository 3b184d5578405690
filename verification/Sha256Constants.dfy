/**
 * The constants of SHA-256: the first 32 bits of the fractional parts of the cube roots of the first
 * 64 primes (section 4.2.2 of FIPS 180-4), and of the square roots of the first eight (section 5.3.3).
 */
module Sha256Constants {
  import opened Machine
  import opened CompressionSpec
  import opened Sha256Spec

  const PRIMES: seq<seq<nat>> := [
    [2, 3, 5, 7, 11, 13, 17, 19],
    [23, 29, 31, 37, 41, 43, 47, 53],
    [59, 61, 67, 71, 73, 79, 83, 89],
    [97, 101, 103, 107, 109, 113, 127, 131],
    [137, 139, 149, 151, 157, 163, 167, 173],
    [179, 181, 191, 193, 197, 199, 211, 223],
    [227, 229, 233, 239, 241, 251, 257, 263],
    [269, 271, 277, 281, 283, 293, 307, 311]]

  /** Prime number `t`, 2 being number 0. */
  function Prime(t: nat): nat
    requires t < 64
  {
    PRIMES[t / 8][t % 8]
  }

  ghost predicate Divides(d: nat, n: nat)
    requires d > 0
  {
    n % d == 0
  }

  ghost predicate IsPrime(n: nat) {
    n >= 2 && forall d | 2 <= d < n :: !Divides(d, n)
  }

  /** `q` is the first prime after `p`. */
  ghost predicate Follows(p: nat, q: nat) {
    p < q && IsPrime(q) && forall n | p < n < q :: !IsPrime(n)
  }

  /** `n` has a proper divisor among the primes up to 17. */
  predicate Sieved(n: nat) {
    || (n > 2 && n % 2 == 0) || (n > 3 && n % 3 == 0) || (n > 5 && n % 5 == 0) || (n > 7 && n % 7 == 0)
    || (n > 11 && n % 11 == 0) || (n > 13 && n % 13 == 0) || (n > 17 && n % 17 == 0)
  }

  lemma SievedIsNoPrime(n: nat)
    requires Sieved(n)
    ensures !IsPrime(n)
  {
    assert Divides(2, n) || Divides(3, n) || Divides(5, n) || Divides(7, n) || Divides(11, n) || Divides(13, n) || Divides(17, n);
  }

  lemma FactorDivides(n: nat, a: nat, b: nat)
    requires a > 0 && b > 0 && n % (a * b) == 0
    ensures n % a == 0
  {
    var q := n / (a * b);
    assert n == (a * b) * q == a * (b * q);
    MultipleOf(a, b * q);
  }

  lemma MultipleOf(a: nat, k: nat)
    requires a > 0
    ensures a * k % a == 0
  {
    DivisionIs(a * k, a, k, 0);
  }

  lemma SmallDivisor(n: nat, d: nat)
    requires 2 <= d <= 18 && d < n && n % d == 0
    ensures Sieved(n)
  {
    if d % 2 == 0 {
      FactorDivides(n, 2, d / 2);
    } else if d % 3 == 0 {
      FactorDivides(n, 3, d / 3);
    } else {
      assert d == 5 || d == 7 || d == 11 || d == 13 || d == 17;
    }
  }

  /** Below 19 squared the sieve is complete. */
  lemma UnsievedIsPrime(n: nat)
    requires 2 <= n < 361 && !Sieved(n)
    ensures IsPrime(n)
  {
    forall d | 2 <= d < n
      ensures !Divides(d, n)
    {
      if Divides(d, n) {
        var f := SmallOfPair(n, d);
        SmallDivisor(n, f);
      }
    }
  }

  /** Of two factors of a number below 19 squared one is below 19. */
  lemma SmallOfPair(n: nat, d: nat) returns (f: nat)
    requires 2 <= d < n < 361 && n % d == 0
    ensures 2 <= f <= 18 && f < n && n % f == 0
  {
    var e := n / d;
    assert n == d * e;
    if d <= 18 {
      f := d;
    } else {
      Cofactor(d, e);
      f := e;
    }
  }

  lemma Cofactor(d: nat, e: nat)
    requires 19 <= d < d * e < 361
    ensures 2 <= e <= 18 && e < d * e && d * e % e == 0
  {
    ScaleMonotone(19, d, e);
    ScaleMonotone(e, 1, d);
    MultipleOf(e, d);
  }

  /** The `k` numbers after `p` are all sieved. */
  predicate SievedAfter(p: nat, k: nat) {
    k == 0 || (Sieved(p + k) && SievedAfter(p, k - 1))
  }

  lemma {:induction false} SievedAt(p: nat, k: nat, n: nat)
    requires SievedAfter(p, k) && p < n <= p + k
    ensures Sieved(n)
  {
    if n < p + k {
      SievedAt(p, k - 1, n);
    }
  }

  lemma Next(p: nat, gap: nat)
    requires 1 <= p && 1 <= gap && p + gap < 361 && SievedAfter(p, gap - 1) && !Sieved(p + gap)
    ensures Follows(p, p + gap)
  {
    UnsievedIsPrime(p + gap);
    forall n | p < n < p + gap
      ensures !IsPrime(n)
    {
      SievedAt(p, gap - 1, n);
      SievedIsNoPrime(n);
    }
  }

  /** Entry `t` of the table is not sieved, and everything between it and the entry before is. */
  predicate Stepped(t: nat)
    requires 0 < t < 64
  {
    var p, q := Prime(t - 1), Prime(t);
    1 <= p < q < 361 && SievedAfter(p, q - p - 1) && !Sieved(q)
  }

  lemma SteppedFrom1(t: nat)
    requires 1 <= t < 4
    ensures Stepped(t)
  {
    assert SievedAfter(2, 0) && !Sieved(3);
    assert SievedAfter(3, 1) && !Sieved(5);
    assert SievedAfter(5, 1) && !Sieved(7);
    assert t == 1 || t == 2 || t == 3;
  }

  lemma SteppedFrom4(t: nat)
    requires 4 <= t < 8
    ensures Stepped(t)
  {
    assert SievedAfter(7, 3) && !Sieved(11);
    assert SievedAfter(11, 1) && !Sieved(13);
    assert SievedAfter(13, 3) && !Sieved(17);
    assert SievedAfter(17, 1) && !Sieved(19);
    assert t == 4 || t == 5 || t == 6 || t == 7;
  }

  lemma SteppedFrom8(t: nat)
    requires 8 <= t < 12
    ensures Stepped(t)
  {
    assert SievedAfter(19, 3) && !Sieved(23);
    assert SievedAfter(23, 5) && !Sieved(29);
    assert SievedAfter(29, 1) && !Sieved(31);
    assert SievedAfter(31, 5) && !Sieved(37);
    assert t == 8 || t == 9 || t == 10 || t == 11;
  }

  lemma SteppedFrom12(t: nat)
    requires 12 <= t < 16
    ensures Stepped(t)
  {
    assert SievedAfter(37, 3) && !Sieved(41);
    assert SievedAfter(41, 1) && !Sieved(43);
    assert SievedAfter(43, 3) && !Sieved(47);
    assert SievedAfter(47, 5) && !Sieved(53);
    assert t == 12 || t == 13 || t == 14 || t == 15;
  }

  lemma SteppedFrom16(t: nat)
    requires 16 <= t < 20
    ensures Stepped(t)
  {
    assert SievedAfter(53, 5) && !Sieved(59);
    assert SievedAfter(59, 1) && !Sieved(61);
    assert SievedAfter(61, 5) && !Sieved(67);
    assert SievedAfter(67, 3) && !Sieved(71);
    assert t == 16 || t == 17 || t == 18 || t == 19;
  }

  lemma SteppedFrom20(t: nat)
    requires 20 <= t < 24
    ensures Stepped(t)
  {
    assert SievedAfter(71, 1) && !Sieved(73);
    assert SievedAfter(73, 5) && !Sieved(79);
    assert SievedAfter(79, 3) && !Sieved(83);
    assert SievedAfter(83, 5) && !Sieved(89);
    assert t == 20 || t == 21 || t == 22 || t == 23;
  }

  lemma SteppedFrom24(t: nat)
    requires 24 <= t < 28
    ensures Stepped(t)
  {
    assert SievedAfter(89, 7) && !Sieved(97);
    assert SievedAfter(97, 3) && !Sieved(101);
    assert SievedAfter(101, 1) && !Sieved(103);
    assert SievedAfter(103, 3) && !Sieved(107);
    assert t == 24 || t == 25 || t == 26 || t == 27;
  }

  lemma SteppedFrom28(t: nat)
    requires 28 <= t < 32
    ensures Stepped(t)
  {
    assert SievedAfter(107, 1) && !Sieved(109);
    assert SievedAfter(109, 3) && !Sieved(113);
    assert SievedAfter(113, 13) && !Sieved(127);
    assert SievedAfter(127, 3) && !Sieved(131);
    assert t == 28 || t == 29 || t == 30 || t == 31;
  }

  lemma SteppedFrom32(t: nat)
    requires 32 <= t < 36
    ensures Stepped(t)
  {
    assert SievedAfter(131, 5) && !Sieved(137);
    assert SievedAfter(137, 1) && !Sieved(139);
    assert SievedAfter(139, 9) && !Sieved(149);
    assert SievedAfter(149, 1) && !Sieved(151);
    assert t == 32 || t == 33 || t == 34 || t == 35;
  }

  lemma SteppedFrom36(t: nat)
    requires 36 <= t < 40
    ensures Stepped(t)
  {
    assert SievedAfter(151, 5) && !Sieved(157);
    assert SievedAfter(157, 5) && !Sieved(163);
    assert SievedAfter(163, 3) && !Sieved(167);
    assert SievedAfter(167, 5) && !Sieved(173);
    assert t == 36 || t == 37 || t == 38 || t == 39;
  }

  lemma SteppedFrom40(t: nat)
    requires 40 <= t < 44
    ensures Stepped(t)
  {
    assert SievedAfter(173, 5) && !Sieved(179);
    assert SievedAfter(179, 1) && !Sieved(181);
    assert SievedAfter(181, 9) && !Sieved(191);
    assert SievedAfter(191, 1) && !Sieved(193);
    assert t == 40 || t == 41 || t == 42 || t == 43;
  }

  lemma SteppedFrom44(t: nat)
    requires 44 <= t < 48
    ensures Stepped(t)
  {
    assert SievedAfter(193, 3) && !Sieved(197);
    assert SievedAfter(197, 1) && !Sieved(199);
    assert SievedAfter(199, 11) && !Sieved(211);
    assert SievedAfter(211, 11) && !Sieved(223);
    assert t == 44 || t == 45 || t == 46 || t == 47;
  }

  lemma SteppedFrom48(t: nat)
    requires 48 <= t < 52
    ensures Stepped(t)
  {
    assert SievedAfter(223, 3) && !Sieved(227);
    assert SievedAfter(227, 1) && !Sieved(229);
    assert SievedAfter(229, 3) && !Sieved(233);
    assert SievedAfter(233, 5) && !Sieved(239);
    assert t == 48 || t == 49 || t == 50 || t == 51;
  }

  lemma SteppedFrom52(t: nat)
    requires 52 <= t < 56
    ensures Stepped(t)
  {
    assert SievedAfter(239, 1) && !Sieved(241);
    assert SievedAfter(241, 9) && !Sieved(251);
    assert SievedAfter(251, 5) && !Sieved(257);
    assert SievedAfter(257, 5) && !Sieved(263);
    assert t == 52 || t == 53 || t == 54 || t == 55;
  }

  lemma SteppedFrom56(t: nat)
    requires 56 <= t < 60
    ensures Stepped(t)
  {
    assert SievedAfter(263, 5) && !Sieved(269);
    assert SievedAfter(269, 1) && !Sieved(271);
    assert SievedAfter(271, 5) && !Sieved(277);
    assert SievedAfter(277, 3) && !Sieved(281);
    assert t == 56 || t == 57 || t == 58 || t == 59;
  }

  lemma SteppedFrom60(t: nat)
    requires 60 <= t < 64
    ensures Stepped(t)
  {
    assert SievedAfter(281, 1) && !Sieved(283);
    assert SievedAfter(283, 9) && !Sieved(293);
    assert SievedAfter(293, 13) && !Sieved(307);
    assert SievedAfter(307, 3) && !Sieved(311);
    assert t == 60 || t == 61 || t == 62 || t == 63;
  }

  lemma AllStepped(t: nat)
    requires 0 < t < 64
    ensures Stepped(t)
  {
    if t < 4 {
      SteppedFrom1(t);
    } else if t < 8 {
      SteppedFrom4(t);
    } else if t < 12 {
      SteppedFrom8(t);
    } else if t < 16 {
      SteppedFrom12(t);
    } else if t < 20 {
      SteppedFrom16(t);
    } else if t < 24 {
      SteppedFrom20(t);
    } else if t < 28 {
      SteppedFrom24(t);
    } else if t < 32 {
      SteppedFrom28(t);
    } else if t < 36 {
      SteppedFrom32(t);
    } else if t < 40 {
      SteppedFrom36(t);
    } else if t < 44 {
      SteppedFrom40(t);
    } else if t < 48 {
      SteppedFrom44(t);
    } else if t < 52 {
      SteppedFrom48(t);
    } else if t < 56 {
      SteppedFrom52(t);
    } else if t < 60 {
      SteppedFrom56(t);
    } else if t < 64 {
      SteppedFrom60(t);
    }
  }

  /** `Prime` lists the first 64 primes: 2, and after each the next one. */
  lemma PrimesInOrder(t: nat)
    requires t < 64
    ensures if t == 0 then Prime(t) == 2 && IsPrime(2) else Follows(Prime(t - 1), Prime(t))
  {
    if t > 0 {
      AllStepped(t);
      Next(Prime(t - 1), Prime(t) - Prime(t - 1));
    }
  }

  /** The whole part of the cube root of `p`, for `p` up to 342. */
  function WholeCubeRoot(p: nat): nat {
    if p < 8 then 1 else if p < 27 then 2 else if p < 64 then 3 else if p < 125 then 4 else if p < 216 then 5 else 6
  }

  /** The whole part of the square root of `p`, for `p` up to 24. */
  function WholeSquareRoot(p: nat): nat {
    if p < 4 then 1 else if p < 9 then 2 else if p < 16 then 3 else 4
  }

  /** `part` is the first 32 bits of the fractional part of the cube root of `p`. */
  predicate CubeRoot(p: nat, part: nat) {
    var c := 0x1_0000_0000 * WholeCubeRoot(p) + part;
    part < 0x1_0000_0000 && c * c * c <= p * 0x1_0000_0000_0000_0000_0000_0000 < (c + 1) * (c + 1) * (c + 1)
  }

  predicate SquareRoot(p: nat, part: nat) {
    var c := 0x1_0000_0000 * WholeSquareRoot(p) + part;
    part < 0x1_0000_0000 && c * c <= p * 0x1_0000_0000_0000_0000 < (c + 1) * (c + 1)
  }

  lemma CubeRootsFrom0(t: nat)
    requires 0 <= t < 4
    ensures CubeRoot(Prime(t), RoundConstant(t) as int)
  {
    assert t == 0 ==> CubeRoot(Prime(t), RoundConstant(t) as int);
    assert t == 1 ==> CubeRoot(Prime(t), RoundConstant(t) as int);
    assert t == 2 ==> CubeRoot(Prime(t), RoundConstant(t) as int);
    assert t == 3 ==> CubeRoot(Prime(t), RoundConstant(t) as int);
  }

  lemma CubeRootsFrom4(t: nat)
    requires 4 <= t < 8
    ensures CubeRoot(Prime(t), RoundConstant(t) as int)
  {
    assert t == 4 ==> CubeRoot(Prime(t), RoundConstant(t) as int);
    assert t == 5 ==> CubeRoot(Prime(t), RoundConstant(t) as int);
    assert t == 6 ==> CubeRoot(Prime(t), RoundConstant(t) as int);
    assert t == 7 ==> CubeRoot(Prime(t), RoundConstant(t) as int);
  }

  lemma CubeRootsFrom8(t: nat)
    requires 8 <= t < 12
    ensures CubeRoot(Prime(t), RoundConstant(t) as int)
  {
    assert t == 8 ==> CubeRoot(Prime(t), RoundConstant(t) as int);
    assert t == 9 ==> CubeRoot(Prime(t), RoundConstant(t) as int);
    assert t == 10 ==> CubeRoot(Prime(t), RoundConstant(t) as int);
    assert t == 11 ==> CubeRoot(Prime(t), RoundConstant(t) as int);
  }

  lemma CubeRootsFrom12(t: nat)
    requires 12 <= t < 16
    ensures CubeRoot(Prime(t), RoundConstant(t) as int)
  {
    assert t == 12 ==> CubeRoot(Prime(t), RoundConstant(t) as int);
    assert t == 13 ==> CubeRoot(Prime(t), RoundConstant(t) as int);
    assert t == 14 ==> CubeRoot(Prime(t), RoundConstant(t) as int);
    assert t == 15 ==> CubeRoot(Prime(t), RoundConstant(t) as int);
  }

  lemma CubeRootsFrom16(t: nat)
    requires 16 <= t < 20
    ensures CubeRoot(Prime(t), RoundConstant(t) as int)
  {
    assert t == 16 ==> CubeRoot(Prime(t), RoundConstant(t) as int);
    assert t == 17 ==> CubeRoot(Prime(t), RoundConstant(t) as int);
    assert t == 18 ==> CubeRoot(Prime(t), RoundConstant(t) as int);
    assert t == 19 ==> CubeRoot(Prime(t), RoundConstant(t) as int);
  }

  lemma CubeRootsFrom20(t: nat)
    requires 20 <= t < 24
    ensures CubeRoot(Prime(t), RoundConstant(t) as int)
  {
    assert t == 20 ==> CubeRoot(Prime(t), RoundConstant(t) as int);
    assert t == 21 ==> CubeRoot(Prime(t), RoundConstant(t) as int);
    assert t == 22 ==> CubeRoot(Prime(t), RoundConstant(t) as int);
    assert t == 23 ==> CubeRoot(Prime(t), RoundConstant(t) as int);
  }

  lemma CubeRootsFrom24(t: nat)
    requires 24 <= t < 28
    ensures CubeRoot(Prime(t), RoundConstant(t) as int)
  {
    assert t == 24 ==> CubeRoot(Prime(t), RoundConstant(t) as int);
    assert t == 25 ==> CubeRoot(Prime(t), RoundConstant(t) as int);
    assert t == 26 ==> CubeRoot(Prime(t), RoundConstant(t) as int);
    assert t == 27 ==> CubeRoot(Prime(t), RoundConstant(t) as int);
  }

  lemma CubeRootsFrom28(t: nat)
    requires 28 <= t < 32
    ensures CubeRoot(Prime(t), RoundConstant(t) as int)
  {
    assert t == 28 ==> CubeRoot(Prime(t), RoundConstant(t) as int);
    assert t == 29 ==> CubeRoot(Prime(t), RoundConstant(t) as int);
    assert t == 30 ==> CubeRoot(Prime(t), RoundConstant(t) as int);
    assert t == 31 ==> CubeRoot(Prime(t), RoundConstant(t) as int);
  }

  lemma CubeRootsFrom32(t: nat)
    requires 32 <= t < 36
    ensures CubeRoot(Prime(t), RoundConstant(t) as int)
  {
    assert t == 32 ==> CubeRoot(Prime(t), RoundConstant(t) as int);
    assert t == 33 ==> CubeRoot(Prime(t), RoundConstant(t) as int);
    assert t == 34 ==> CubeRoot(Prime(t), RoundConstant(t) as int);
    assert t == 35 ==> CubeRoot(Prime(t), RoundConstant(t) as int);
  }

  lemma CubeRootsFrom36(t: nat)
    requires 36 <= t < 40
    ensures CubeRoot(Prime(t), RoundConstant(t) as int)
  {
    assert t == 36 ==> CubeRoot(Prime(t), RoundConstant(t) as int);
    assert t == 37 ==> CubeRoot(Prime(t), RoundConstant(t) as int);
    assert t == 38 ==> CubeRoot(Prime(t), RoundConstant(t) as int);
    assert t == 39 ==> CubeRoot(Prime(t), RoundConstant(t) as int);
  }

  lemma CubeRootsFrom40(t: nat)
    requires 40 <= t < 44
    ensures CubeRoot(Prime(t), RoundConstant(t) as int)
  {
    assert t == 40 ==> CubeRoot(Prime(t), RoundConstant(t) as int);
    assert t == 41 ==> CubeRoot(Prime(t), RoundConstant(t) as int);
    assert t == 42 ==> CubeRoot(Prime(t), RoundConstant(t) as int);
    assert t == 43 ==> CubeRoot(Prime(t), RoundConstant(t) as int);
  }

  lemma CubeRootsFrom44(t: nat)
    requires 44 <= t < 48
    ensures CubeRoot(Prime(t), RoundConstant(t) as int)
  {
    assert t == 44 ==> CubeRoot(Prime(t), RoundConstant(t) as int);
    assert t == 45 ==> CubeRoot(Prime(t), RoundConstant(t) as int);
    assert t == 46 ==> CubeRoot(Prime(t), RoundConstant(t) as int);
    assert t == 47 ==> CubeRoot(Prime(t), RoundConstant(t) as int);
  }

  lemma CubeRootsFrom48(t: nat)
    requires 48 <= t < 52
    ensures CubeRoot(Prime(t), RoundConstant(t) as int)
  {
    assert t == 48 ==> CubeRoot(Prime(t), RoundConstant(t) as int);
    assert t == 49 ==> CubeRoot(Prime(t), RoundConstant(t) as int);
    assert t == 50 ==> CubeRoot(Prime(t), RoundConstant(t) as int);
    assert t == 51 ==> CubeRoot(Prime(t), RoundConstant(t) as int);
  }

  lemma CubeRootsFrom52(t: nat)
    requires 52 <= t < 56
    ensures CubeRoot(Prime(t), RoundConstant(t) as int)
  {
    assert t == 52 ==> CubeRoot(Prime(t), RoundConstant(t) as int);
    assert t == 53 ==> CubeRoot(Prime(t), RoundConstant(t) as int);
    assert t == 54 ==> CubeRoot(Prime(t), RoundConstant(t) as int);
    assert t == 55 ==> CubeRoot(Prime(t), RoundConstant(t) as int);
  }

  lemma CubeRootsFrom56(t: nat)
    requires 56 <= t < 60
    ensures CubeRoot(Prime(t), RoundConstant(t) as int)
  {
    assert t == 56 ==> CubeRoot(Prime(t), RoundConstant(t) as int);
    assert t == 57 ==> CubeRoot(Prime(t), RoundConstant(t) as int);
    assert t == 58 ==> CubeRoot(Prime(t), RoundConstant(t) as int);
    assert t == 59 ==> CubeRoot(Prime(t), RoundConstant(t) as int);
  }

  lemma CubeRootsFrom60(t: nat)
    requires 60 <= t < 64
    ensures CubeRoot(Prime(t), RoundConstant(t) as int)
  {
    assert t == 60 ==> CubeRoot(Prime(t), RoundConstant(t) as int);
    assert t == 61 ==> CubeRoot(Prime(t), RoundConstant(t) as int);
    assert t == 62 ==> CubeRoot(Prime(t), RoundConstant(t) as int);
    assert t == 63 ==> CubeRoot(Prime(t), RoundConstant(t) as int);
  }

  /** Round constant `t` comes from the cube root of prime `t`. */
  lemma RoundConstantsAreCubeRoots(t: nat)
    requires t < 64
    ensures CubeRoot(Prime(t), RoundConstant(t) as int)
  {
    if t < 4 {
      CubeRootsFrom0(t);
    } else if t < 8 {
      CubeRootsFrom4(t);
    } else if t < 12 {
      CubeRootsFrom8(t);
    } else if t < 16 {
      CubeRootsFrom12(t);
    } else if t < 20 {
      CubeRootsFrom16(t);
    } else if t < 24 {
      CubeRootsFrom20(t);
    } else if t < 28 {
      CubeRootsFrom24(t);
    } else if t < 32 {
      CubeRootsFrom28(t);
    } else if t < 36 {
      CubeRootsFrom32(t);
    } else if t < 40 {
      CubeRootsFrom36(t);
    } else if t < 44 {
      CubeRootsFrom40(t);
    } else if t < 48 {
      CubeRootsFrom44(t);
    } else if t < 52 {
      CubeRootsFrom48(t);
    } else if t < 56 {
      CubeRootsFrom52(t);
    } else if t < 60 {
      CubeRootsFrom56(t);
    } else if t < 64 {
      CubeRootsFrom60(t);
    }
  }

  /** The initial hash value, word by word. */
  function InitialWord(t: nat): bv32
    requires t < 8
  {
    [INITIAL.a, INITIAL.b, INITIAL.c, INITIAL.d, INITIAL.e, INITIAL.f, INITIAL.g, INITIAL.h][t]
  }

  /** Word `t` of the initial hash value comes from the square root of prime `t`. */
  lemma InitialWordsAreSquareRoots(t: nat)
    requires t < 8
    ensures SquareRoot(Prime(t), InitialWord(t) as int)
  {
    assert t == 0 ==> SquareRoot(Prime(t), InitialWord(t) as int);
    assert t == 1 ==> SquareRoot(Prime(t), InitialWord(t) as int);
    assert t == 2 ==> SquareRoot(Prime(t), InitialWord(t) as int);
    assert t == 3 ==> SquareRoot(Prime(t), InitialWord(t) as int);
    assert t == 4 ==> SquareRoot(Prime(t), InitialWord(t) as int);
    assert t == 5 ==> SquareRoot(Prime(t), InitialWord(t) as int);
    assert t == 6 ==> SquareRoot(Prime(t), InitialWord(t) as int);
    assert t == 7 ==> SquareRoot(Prime(t), InitialWord(t) as int);
  }
}
