/** The size classes of the caching buffer pool. */
module SizeClasses {
  import opened Base

  // ---------------------------------------------------------------- bits of a non-negative int

  function Pow2(k: nat): (p: nat)
    ensures 0 < p
  {
    if k == 0 then 1 else 2 * Pow2(k - 1)
  }

  /** Bitwise conjunction of two non-negative ints. */
  function BitAnd(a: nat, b: nat): nat
    decreases a
  {
    if a == 0 || b == 0 then 0 else 2 * BitAnd(a / 2, b / 2) + (a % 2) * (b % 2)
  }

  /** Number of significant bits. */
  function BitLength(x: nat): nat {
    if x == 0 then 0 else 1 + BitLength(x / 2)
  }

  /** `Integer.numberOfLeadingZeros` of a non-negative int. */
  function NumberOfLeadingZeros(x: nat): int { 32 - BitLength(x) }

  /** Between two powers of two, the number of bits is known up to the exponents. */
  lemma {:induction false} BitLengthBetween(x: nat, lo: nat, hi: nat)
    requires Pow2(lo) <= x < Pow2(hi)
    ensures lo < BitLength(x) <= hi
    decreases x
  {
    if lo != 0 && hi != 0 {
      BitLengthBetween(x / 2, lo - 1, hi - 1);
    } else if hi != 0 && x != 1 {
      BitLengthBetween(x / 2, 0, hi - 1);
    }
  }

  lemma {:induction false} BitLengthBelow(x: nat, hi: nat)
    requires x < Pow2(hi)
    ensures BitLength(x) <= hi
    decreases x
  {
    if x != 0 {
      BitLengthBelow(x / 2, hi - 1);
    }
  }

  /** Right shift. */
  function Shr(x: nat, k: nat): nat
    decreases k
  {
    if k == 0 then x else Shr(x / 2, k - 1)
  }

  lemma {:induction false} ShrBounds(x: nat, k: nat)
    ensures Shr(x, k) * Pow2(k) <= x < Shr(x, k) * Pow2(k) + Pow2(k)
    decreases k
  {
    if k != 0 {
      ShrBounds(x / 2, k - 1);
      DoubleProduct(Shr(x, k), Pow2(k - 1));
    }
  }

  lemma DoubleProduct(q: nat, p: nat)
    ensures q * (2 * p) == 2 * (q * p)
  {}

  lemma {:induction false} ShrOnes(m: nat, k: nat)
    requires k <= m
    ensures Shr(Pow2(m) - 1, k) == Pow2(m - k) - 1
    decreases k
  {
    if k != 0 {
      ShrOnes(m - 1, k - 1);
    }
  }

  lemma {:induction false} BitAndOnes(n: nat, m: nat)
    requires n < Pow2(m)
    ensures BitAnd(n, Pow2(m) - 1) == n
  {
    if m != 0 && n != 0 {
      assert (Pow2(m) - 1) / 2 == Pow2(m - 1) - 1 && (Pow2(m) - 1) % 2 == 1;
      BitAndOnes(n / 2, m - 1);
    }
  }

  lemma BitAndEven(n: nat, half: nat)
    ensures BitAnd(n, 2 * half) == 2 * BitAnd(n / 2, half)
  {
    assert (2 * half) / 2 == half && (2 * half) % 2 == 0;
    assert (n % 2) * 0 == 0;
  }

  /** A mask whose low `k` bits are clear cuts off exactly those bits. */
  lemma {:induction false} BitAndMask(n: nat, m: nat, k: nat)
    requires n < Pow2(m) && k <= m
    ensures BitAnd(n, (Pow2(m - k) - 1) * Pow2(k)) == Shr(n, k) * Pow2(k)
    decreases k
  {
    hide BitAnd;
    if k == 0 {
      BitAndOnes(n, m);
    } else {
      var half := (Pow2(m - k) - 1) * Pow2(k - 1);
      DoubleProduct(Pow2(m - k) - 1, Pow2(k - 1));
      DoubleProduct(Shr(n, k), Pow2(k - 1));
      BitAndMask(n / 2, m - 1, k - 1);
      BitAndEven(n, half);
    }
  }

  // ---------------------------------------------------------------- rounding

  /** `number` rounded up to a multiple of `1 << bits`, by masking off the low bits. */
  function RoundToPowers(number: nat, bits: nat): nat {
    var mask := Shr(MAX_INT, bits) * Pow2(bits);
    var floor := BitAnd(number, mask);
    if floor == number then number else floor + Pow2(bits)
  }

  /** `r` is the least multiple of `g` that is at least `n`. */
  ghost predicate IsRoundUp(r: nat, n: nat, g: nat) {
    n <= r < n + g && exists q: nat :: r == q * g
  }

  /** The bit-mask computation is arithmetic rounding up. */
  lemma RoundToPowersIsRoundUp(n: nat, bits: nat)
    requires n <= MAX_INT && bits <= 31
    ensures IsRoundUp(RoundToPowers(n, bits), n, Pow2(bits))
  {
    hide BitAnd, Shr, Pow2;
    assert Pow2(31) == 0x8000_0000 by { Pow2s(); }
    ShrOnes(31, bits);
    BitAndMask(n, 31, bits);
    ShrBounds(n, bits);
    var q, p := Shr(n, bits), Pow2(bits);
    assert (q + 1) * p == q * p + p;
  }

  /** The granularities and class boundaries in use. */
  lemma Pow2s()
    ensures Pow2(11) == 0x800 && Pow2(12) == 0x1000 && Pow2(14) == 0x4000 && Pow2(15) == 0x8000
    ensures Pow2(17) == 0x2_0000 && Pow2(19) == 0x8_0000 && Pow2(21) == 0x20_0000 && Pow2(22) == 0x40_0000
    ensures Pow2(24) == 0x100_0000 && Pow2(27) == 0x800_0000 && Pow2(29) == 0x2000_0000 && Pow2(31) == 0x8000_0000
  {
  }

  // ---------------------------------------------------------------- size classes

  /** The size handed out when `size` is asked for. */
  function AdjustSize(size: nat): nat
    requires 0 < size <= MAX_INT
  {
    match NumberOfLeadingZeros(size)
    case 1 | 2 => if size <= 0x6000_0000 then RoundToPowers(size, 27) else MAX_INT
    case 3 | 4 => RoundToPowers(size, 24)
    case 5 | 6 | 7 => RoundToPowers(size, 22)
    case 8 | 9 | 10 => RoundToPowers(size, 19)
    case 11 | 12 => RoundToPowers(size, 17)
    case 13 | 14 | 15 | 16 => RoundToPowers(size, 14)
    case 17 | 18 | 19 => RoundToPowers(size, 11)
    case _ => 4 * 1024
  }

  /** The documented granularity of each class from 4 KiB to 1.5 GiB. */
  function Granularity(size: nat): nat {
    if size < 0x8000 then 0x800
    else if size < 0x8_0000 then 0x4000
    else if size < 0x20_0000 then 0x2_0000
    else if size < 0x100_0000 then 0x8_0000
    else if size < 0x800_0000 then 0x40_0000
    else if size < 0x2000_0000 then 0x100_0000
    else 0x800_0000
  }

  /** The class documentation, as a relation. */
  ghost predicate IsClassOf(a: nat, size: nat) {
    if size < 0x1000 then a == 0x1000
    else if 0x6000_0000 < size then a == MAX_INT
    else IsRoundUp(a, size, Granularity(size))
  }

  /** The switch over leading zeros and bit masks computes the documented class. */
  lemma AdjustSizeClass(size: nat)
    requires 0 < size <= MAX_INT
    ensures IsClassOf(AdjustSize(size), size)
  {
    hide BitLength, RoundToPowers, IsRoundUp, Pow2;
    Pow2s();
    if size < 0x1000 {
      BitLengthBelow(size, 12);
    } else if size < 0x8000 {
      BitLengthBetween(size, 12, 15);
      RoundToPowersIsRoundUp(size, 11);
    } else if size < 0x8_0000 {
      BitLengthBetween(size, 15, 19);
      RoundToPowersIsRoundUp(size, 14);
    } else if size < 0x20_0000 {
      BitLengthBetween(size, 19, 21);
      RoundToPowersIsRoundUp(size, 17);
    } else if size < 0x100_0000 {
      BitLengthBetween(size, 21, 24);
      RoundToPowersIsRoundUp(size, 19);
    } else if size < 0x800_0000 {
      BitLengthBetween(size, 24, 27);
      RoundToPowersIsRoundUp(size, 22);
    } else if size < 0x2000_0000 {
      BitLengthBetween(size, 27, 29);
      RoundToPowersIsRoundUp(size, 24);
    } else {
      BitLengthBetween(size, 29, 31);
      RoundToPowersIsRoundUp(size, 27);
    }
  }

  lemma KnownSmallClasses()
    ensures AdjustSize(2) == 4096 && AdjustSize(1023) == 4096
    ensures AdjustSize(1024) == 4096 && AdjustSize(1025) == 4096
    ensures AdjustSize(4096) == 4096 && AdjustSize(4097) == 6144
    ensures AdjustSize(5120) == 6144 && AdjustSize(5121) == 6144
    ensures AdjustSize(0x8000) == 0x8000 && AdjustSize(0x8001) == 0xC000
  {
    hide AdjustSize;
    AdjustSizeClass(2);
    AdjustSizeClass(1023);
    AdjustSizeClass(1024);
    AdjustSizeClass(1025);
    AdjustSizeClass(4096);
    AdjustSizeClass(4097);
    AdjustSizeClass(5120);
    AdjustSizeClass(5121);
    AdjustSizeClass(0x8000);
    AdjustSizeClass(0x8001);
  }

  lemma KnownLargeClasses()
    ensures AdjustSize(0x20_0000) == 0x20_0000 && AdjustSize(0x20_0001) == 0x28_0000
    ensures AdjustSize(0x100_0000) == 0x100_0000 && AdjustSize(0x100_0001) == 0x140_0000
    ensures AdjustSize(0x800_0000) == 0x800_0000 && AdjustSize(0x800_0001) == 0x900_0000
    ensures AdjustSize(0x2000_0000) == 0x2000_0000 && AdjustSize(0x2000_0001) == 0x2800_0000
    ensures AdjustSize(0x6000_0000) == 0x6000_0000 && AdjustSize(0x5FFF_FFFF) == 0x6000_0000
  {
    hide AdjustSize;
    AdjustSizeClass(0x20_0000);
    AdjustSizeClass(0x20_0001);
    AdjustSizeClass(0x100_0000);
    AdjustSizeClass(0x100_0001);
    AdjustSizeClass(0x800_0000);
    AdjustSizeClass(0x800_0001);
    AdjustSizeClass(0x2000_0000);
    AdjustSizeClass(0x2000_0001);
    AdjustSizeClass(0x6000_0000);
    AdjustSizeClass(0x5FFF_FFFF);
  }

  /** Known answers, as the tests of the pool have them. */
  lemma KnownClasses()
    ensures AdjustSize(2) == 4096 && AdjustSize(1023) == 4096
    ensures AdjustSize(1024) == 4096 && AdjustSize(1025) == 4096
    ensures AdjustSize(4096) == 4096 && AdjustSize(4097) == 6144
    ensures AdjustSize(5120) == 6144 && AdjustSize(5121) == 6144
    ensures AdjustSize(0x8000) == 0x8000 && AdjustSize(0x8001) == 0xC000
    ensures AdjustSize(0x20_0000) == 0x20_0000 && AdjustSize(0x20_0001) == 0x28_0000
    ensures AdjustSize(0x100_0000) == 0x100_0000 && AdjustSize(0x100_0001) == 0x140_0000
    ensures AdjustSize(0x800_0000) == 0x800_0000 && AdjustSize(0x800_0001) == 0x900_0000
    ensures AdjustSize(0x2000_0000) == 0x2000_0000 && AdjustSize(0x2000_0001) == 0x2800_0000
    ensures AdjustSize(0x6000_0000) == 0x6000_0000 && AdjustSize(0x5FFF_FFFF) == 0x6000_0000
    ensures AdjustSize(0x6000_0001) == AdjustSize(0x7FFF_FFFE) == AdjustSize(0x7FFF_FFFF) == 0x7FFF_FFFF
  {
    hide AdjustSize;
    KnownSmallClasses();
    KnownLargeClasses();
    AdjustSizeClass(0x6000_0001);
    AdjustSizeClass(0x7FFF_FFFE);
    AdjustSizeClass(0x7FFF_FFFF);
  }

  /** A class is never too small, never overflows an int, and wastes less than half of the request. */
  lemma AdjustSizeBounds(size: nat)
    requires 0 < size <= MAX_INT
    ensures size <= AdjustSize(size) <= MAX_INT
    ensures 4096 <= size ==> 2 * (AdjustSize(size) - size) < size
  {
    hide AdjustSize;
    AdjustSizeClass(size);
    RoundUpBelow(AdjustSize(size), size);
  }

  /** Within a class, rounding up does not leave it: its upper end is a multiple of its granularity. */
  lemma RoundUpBelow(a: nat, size: nat)
    requires IsClassOf(a, size)
    ensures 0x1000 <= size < 0x8000 ==> a <= 0x8000
    ensures 0x8000 <= size < 0x8_0000 ==> a <= 0x8_0000
    ensures 0x8_0000 <= size < 0x20_0000 ==> a <= 0x20_0000
    ensures 0x20_0000 <= size < 0x100_0000 ==> a <= 0x100_0000
    ensures 0x100_0000 <= size < 0x800_0000 ==> a <= 0x800_0000
    ensures 0x800_0000 <= size < 0x2000_0000 ==> a <= 0x2000_0000
    ensures 0x2000_0000 <= size <= 0x6000_0000 ==> a <= 0x6000_0000
  {
  }

  lemma AdjustSizeMonotone(s: nat, t: nat)
    requires 0 < s <= t <= MAX_INT
    ensures AdjustSize(s) <= AdjustSize(t)
  {
    hide AdjustSize;
    AdjustSizeClass(s);
    AdjustSizeClass(t);
    RoundUpBelow(AdjustSize(s), s);
    AdjustSizeBounds(t);
  }

  /** A buffer goes back to the class it came from. */
  lemma AdjustSizeIdempotent(s: nat)
    requires 0 < s <= MAX_INT
    ensures 0 < AdjustSize(s) <= MAX_INT
    ensures AdjustSize(AdjustSize(s)) == AdjustSize(s)
  {
    hide AdjustSize;
    AdjustSizeBounds(s);
    var a := AdjustSize(s);
    AdjustSizeClass(s);
    RoundUpBelow(a, s);
    AdjustSizeClass(a);
  }
}
