/** Fixed-width machine integers of the C sources, as ranges of the mathematical integers. */
module Machine {
  const TWO32: int := 0x1_0000_0000
  const TWO64: int := 0x1_0000_0000_0000_0000

  type u8 = x: int | 0 <= x < 0x100
  type u16 = x: int | 0 <= x < 0x1_0000
  type u32 = x: int | 0 <= x < 0x1_0000_0000
  type u64 = x: int | 0 <= x < 0x1_0000_0000_0000_0000

  datatype Option<+T> = None | Some(value: T)

  lemma ScaleMonotone(a: int, b: int, d: nat)
    ensures a <= b ==> a * d <= b * d
  {}

  /** Quotient and remainder are determined by what they are for. */
  lemma DivisionIs(n: nat, d: nat, q: nat, r: nat)
    requires r < d && n == q * d + r
    ensures n / d == q && n % d == r
  {
    var p := n / d;
    assert n == p * d + n % d;
    ScaleMonotone(p + 1, q, d);
    ScaleMonotone(q + 1, p, d);
  }

  lemma DivideLess(n: nat, d: nat)
    requires d > 0
    ensures 0 <= n / d <= n
  {
    ScaleMonotone(1, d, n / d);
    assert n == n / d * d + n % d;
  }

  /** Concatenation associates; called where a loop moves one piece from the rest to what is done. */
  lemma Regroup<T>(a: seq<T>, b: seq<T>, c: seq<T>)
    ensures a + (b + c) == (a + b) + c
  {}
}

/** The number a 64-bit word denotes, and the word that denotes a number, through base-256 digits. */
module Words {
  import opened Machine

  /** The bytes of `w`, least significant first. */
  function Octets(w: bv64): seq<bv8> {
    [(w & 0xFF) as bv8, ((w >> 8) & 0xFF) as bv8, ((w >> 16) & 0xFF) as bv8, ((w >> 24) & 0xFF) as bv8,
     ((w >> 32) & 0xFF) as bv8, ((w >> 40) & 0xFF) as bv8, ((w >> 48) & 0xFF) as bv8, ((w >> 56) & 0xFF) as bv8]
  }

  function Join(a: bv8, b: bv8, c: bv8, d: bv8, e: bv8, f: bv8, g: bv8, h: bv8): bv64 {
    (a as bv64) | ((b as bv64) << 8) | ((c as bv64) << 16) | ((d as bv64) << 24)
    | ((e as bv64) << 32) | ((f as bv64) << 40) | ((g as bv64) << 48) | ((h as bv64) << 56)
  }

  function FromOctets(s: seq<bv8>): bv64
    requires |s| == 8
  {
    Join(s[0], s[1], s[2], s[3], s[4], s[5], s[6], s[7])
  }

  function Ord(b: bv8): u8 { b as int }

  /** The byte with value `n`. */
  function Byte(n: u8): (b: bv8)
    ensures b as int == n
  {
    ByteExists(n);
    BytesDiffer();
    var b: bv8 :| Ord(b) == n;
    b
  }

  lemma Successor(b: bv8)
    requires b != 0xFF
    ensures Ord(b + 1) == Ord(b) + 1
  {}

  lemma OrdInjective(a: bv8, b: bv8)
    requires Ord(a) == Ord(b)
    ensures a == b
  {}

  lemma {:induction false} ByteExists(n: u8)
    ensures exists b: bv8 :: Ord(b) == n
  {
    if n == 0 {
      assert Ord(0) == 0;
    } else {
      ByteExists(n - 1);
      var b: bv8 :| Ord(b) == n - 1;
      Successor(b);
    }
  }

  lemma BytesDiffer()
    ensures forall a: bv8, b: bv8 :: Ord(a) == Ord(b) ==> a == b
  {
    forall a: bv8, b: bv8 | Ord(a) == Ord(b)
      ensures a == b
    {
      OrdInjective(a, b);
    }
  }

  function NumberOf(s: seq<bv8>): nat {
    if s == [] then 0 else s[0] as int + 0x100 * NumberOf(s[1..])
  }

  function DigitsOf(n: nat, k: nat): (s: seq<bv8>)
    ensures |s| == k
  {
    if k == 0 then [] else [Byte(n % 0x100)] + DigitsOf(n / 0x100, k - 1)
  }

  function Pow256(k: nat): nat {
    if k == 0 then 1 else 0x100 * Pow256(k - 1)
  }

  lemma Pow256Of4()
    ensures Pow256(4) == TWO32
  {}

  lemma Pow256Of8()
    ensures Pow256(8) == TWO64
  {
    Pow256Of4();
  }

  lemma {:induction false} NumberBound(s: seq<bv8>)
    ensures NumberOf(s) < Pow256(|s|)
  {
    if s != [] {
      NumberBound(s[1..]);
    }
  }

  lemma DigitRoundTrip(b: bv8, rest: nat)
    ensures Byte((b as int + 0x100 * rest) % 0x100) == b
    ensures (b as int + 0x100 * rest) / 0x100 == rest
  {
    var n: u8 := Ord(b);
    assert (n + 0x100 * rest) % 0x100 == n;
    OrdInjective(Byte(n), b);
  }

  lemma {:induction false} NumberOfDigits(n: nat, k: nat)
    requires n < Pow256(k)
    ensures NumberOf(DigitsOf(n, k)) == n
  {
    if k > 0 {
      NumberOfDigits(n / 0x100, k - 1);
      assert DigitsOf(n, k)[1..] == DigitsOf(n / 0x100, k - 1);
    }
  }

  lemma {:induction false} DigitsOfNumber(s: seq<bv8>)
    ensures DigitsOf(NumberOf(s), |s|) == s
  {
    if s != [] {
      DigitsOfNumber(s[1..]);
      DigitRoundTrip(s[0], NumberOf(s[1..]));
      assert s == [s[0]] + s[1..];
    }
  }

  lemma OctetsOfJoin(a: bv8, b: bv8, c: bv8, d: bv8, e: bv8, f: bv8, g: bv8, h: bv8)
    ensures Octets(Join(a, b, c, d, e, f, g, h)) == [a, b, c, d, e, f, g, h]
  {
    // stated on the joined expression itself, so that each octet simplifies to its byte
    assert Octets((a as bv64) | ((b as bv64) << 8) | ((c as bv64) << 16) | ((d as bv64) << 24)
                  | ((e as bv64) << 32) | ((f as bv64) << 40) | ((g as bv64) << 48) | ((h as bv64) << 56))
        == [a, b, c, d, e, f, g, h];
  }

  lemma JoinOfOctets(w: bv64)
    ensures FromOctets(Octets(w)) == w
  {
    assert Join((w & 0xFF) as bv8, ((w >> 8) & 0xFF) as bv8, ((w >> 16) & 0xFF) as bv8, ((w >> 24) & 0xFF) as bv8,
                ((w >> 32) & 0xFF) as bv8, ((w >> 40) & 0xFF) as bv8, ((w >> 48) & 0xFF) as bv8,
                ((w >> 56) & 0xFF) as bv8) == w;
  }

  /** The number denoted by `w`. */
  function Value(w: bv64): u64 {
    NumberBound(Octets(w));
    Pow256Of8();
    NumberOf(Octets(w))
  }

  /** The word that denotes `n`. */
  function Word(n: u64): bv64 {
    FromOctets(DigitsOf(n, 8))
  }

  /** `Value` and `Word` are mutually inverse: first half. */
  lemma ValueOfWord(n: u64)
    ensures Value(Word(n)) == n
  {
    var s := DigitsOf(n, 8);
    OctetsOfJoin(s[0], s[1], s[2], s[3], s[4], s[5], s[6], s[7]);
    assert Octets(Word(n)) == s;
    Pow256Of8();
    NumberOfDigits(n, 8);
  }

  /** `Value` and `Word` are mutually inverse: second half. */
  lemma WordOfValue(w: bv64)
    ensures Word(Value(w)) == w
  {
    DigitsOfNumber(Octets(w));
    JoinOfOctets(w);
  }

  lemma ValueOfZero()
    ensures Value(0) == 0
  {
    ZeroNumber(Octets(0));
  }

  lemma {:induction false} ZeroNumber(s: seq<bv8>)
    requires forall k | 0 <= k < |s| :: s[k] == 0
    ensures NumberOf(s) == 0
  {
    if s != [] {
      ZeroNumber(s[1..]);
    }
  }

  lemma {:induction false} LeadingZero(s: seq<bv8>)
    ensures NumberOf(s + [0]) == NumberOf(s)
  {
    if s == [] {
      assert [0 as bv8][1..] == [];
    } else {
      assert (s + [0])[1..] == s[1..] + [0];
      LeadingZero(s[1..]);
    }
  }

  lemma OctetsShift(w: bv64)
    ensures Octets(w >> 8) == Octets(w)[1..] + [0]
  {}

  /** The low byte counts once, the rest 256 times. */
  lemma ValueShifts(w: bv64)
    ensures Value(w) == Ord((w & 0xFF) as bv8) + 0x100 * Value(w >> 8)
  {
    OctetsShift(w);
    LeadingZero(Octets(w)[1..]);
  }

  /** `v` reads the low byte of a word once and the rest 256 times. */
  ghost predicate ReadsLow(v: bv64 -> u64, w: bv64) {
    v(w) == Ord((w & 0xFF) as bv8) + 0x100 * (v(w >> 8) as int)
  }

  lemma {:induction false} NextOf(v: bv64 -> u64, w: bv64)
    requires w != 0xFFFF_FFFF_FFFF_FFFF && forall u: bv64 :: ReadsLow(v, u)
    ensures v(w + 1) == v(w) + 1
    decreases v(w)
  {
    var low := (w & 0xFF) as bv8;
    assert ReadsLow(v, w) && ReadsLow(v, w + 1);
    if low == 0xFF {
      CarryLow(w);
      CarryHigh(w);
      HighPart(w);
      NextOf(v, w >> 8);
    } else {
      NoCarryLow(w);
      NoCarryHigh(w);
      Successor(low);
    }
  }

  /** The next word denotes the next number. */
  lemma ValueNext(w: bv64)
    requires w != 0xFFFF_FFFF_FFFF_FFFF
    ensures Value(w + 1) == Value(w) + 1
  {
    forall u: bv64
      ensures ReadsLow(Value, u)
    {
      ValueShifts(u);
    }
    NextOf(Value, w);
  }

  lemma CarryLow(w: bv64)
    requires (w & 0xFF) as bv8 == 0xFF
    ensures ((w + 1) & 0xFF) as bv8 == 0
  {}

  lemma CarryHigh(w: bv64)
    requires (w & 0xFF) as bv8 == 0xFF
    ensures (w + 1) >> 8 == ((w >> 8) + 1) & 0x00FF_FFFF_FFFF_FFFF
  {}

  lemma HighPart(w: bv64)
    requires (w & 0xFF) as bv8 == 0xFF && w != 0xFFFF_FFFF_FFFF_FFFF
    ensures ((w >> 8) + 1) & 0x00FF_FFFF_FFFF_FFFF == (w >> 8) + 1
    ensures w >> 8 != 0xFFFF_FFFF_FFFF_FFFF
  {}

  lemma NoCarryLow(w: bv64)
    requires (w & 0xFF) as bv8 != 0xFF
    ensures ((w + 1) & 0xFF) as bv8 == ((w & 0xFF) as bv8) + 1
  {}

  lemma NoCarryHigh(w: bv64)
    requires (w & 0xFF) as bv8 != 0xFF
    ensures (w + 1) >> 8 == w >> 8
  {}
}
