/**
 * The 32-bit arithmetic behind the pool set's size classes
 * (memory_pool.hpp:100-148): rounding a request up to a multiple of four,
 * the branch-free ceiling logarithm `integer_log` and the population count
 * `bits_set` it relies on.  A `u32` of the source is a `bv32` here, so every
 * u32 wrap-around of the C++ code is reproduced exactly.  For the `s32 l`
 * of `integer_log` the model takes two's complement throughout: `-l` of
 * 0x80000000 is 0x80000000 (undefined in C++) and `l >>= 31` shifts in the
 * sign bit (implementation-defined before C++20).
 */
module Bits {

  /** 2 to the power k. */
  function Pow2(k: nat): (r: nat)
    ensures r >= 1
  {
    if k == 0 then 1 else 2 * Pow2(k - 1)
  }

  /** Pow2 is strictly increasing. */
  lemma {:induction false} Pow2Increasing(i: nat, j: nat)
    requires i < j
    ensures Pow2(i) < Pow2(j)
    decreases j - i
  {
    if i + 1 < j {
      Pow2Increasing(i + 1, j);
    }
  }

  /** Comparing two powers of two is comparing their exponents. */
  lemma Pow2Monotone(i: nat, j: nat)
    ensures i < j <==> Pow2(i) < Pow2(j)
    ensures i <= j <==> Pow2(i) <= Pow2(j)
  {
    if i < j {
      Pow2Increasing(i, j);
    } else if j < i {
      Pow2Increasing(j, i);
    }
  }

  lemma Pow2Table()
    ensures Pow2(0) == 0x1 && Pow2(1) == 0x2 && Pow2(2) == 0x4 && Pow2(3) == 0x8
    ensures Pow2(4) == 0x10 && Pow2(5) == 0x20 && Pow2(6) == 0x40 && Pow2(7) == 0x80
    ensures Pow2(8) == 0x100 && Pow2(9) == 0x200 && Pow2(10) == 0x400 && Pow2(11) == 0x800
    ensures Pow2(12) == 0x1000 && Pow2(13) == 0x2000 && Pow2(14) == 0x4000 && Pow2(15) == 0x8000
    ensures Pow2(16) == 0x1_0000 && Pow2(17) == 0x2_0000 && Pow2(18) == 0x4_0000 && Pow2(19) == 0x8_0000
    ensures Pow2(20) == 0x10_0000 && Pow2(21) == 0x20_0000 && Pow2(22) == 0x40_0000 && Pow2(23) == 0x80_0000
    ensures Pow2(24) == 0x100_0000 && Pow2(25) == 0x200_0000 && Pow2(26) == 0x400_0000 && Pow2(27) == 0x800_0000
    ensures Pow2(28) == 0x1000_0000 && Pow2(29) == 0x2000_0000 && Pow2(30) == 0x4000_0000 && Pow2(31) == 0x8000_0000
    ensures Pow2(32) == 0x1_0000_0000
  {
  }

  // ---------------------------------------------------------------------
  // Rounding a request to whole words (memory_pool.hpp:103, :174)

  /**
   * `(size + 3) & ~3` in u32 arithmetic: the least multiple of four that is
   * at least `size`, except that a size within three of the top of the
   * range wraps around to 0.
   */
  function RoundUp4(size: bv32): (r: bv32)
    ensures r & 3 == 0
  {
    (size + 3) & !3
  }

  /** Below the wrap-around point, RoundUp4 is the least multiple of four not below size. */
  lemma RoundUp4RoundsUp(size: bv32)
    requires size <= 0xFFFF_FFFC
    ensures size <= RoundUp4(size) <= size + 3
  {
  }

  /** The three largest sizes wrap around to 0. */
  lemma RoundUp4Wraps(size: bv32)
    requires size > 0xFFFF_FFFC
    ensures RoundUp4(size) == 0
  {
  }

  /** Rounding twice is rounding once: the pool set re-rounds what the fixed pool already rounded. */
  lemma RoundUp4Idempotent(size: bv32)
    ensures RoundUp4(RoundUp4(size)) == RoundUp4(size)
  {
  }

  // ---------------------------------------------------------------------
  // bits_set (memory_pool.hpp:139-148)

  /** The 1-bits of the low byte of b, counted one bit at a time. */
  function Pop8(b: bv32): bv32
  {
    (b & 1) + ((b >> 1) & 1) + ((b >> 2) & 1) + ((b >> 3) & 1)
      + ((b >> 4) & 1) + ((b >> 5) & 1) + ((b >> 6) & 1) + ((b >> 7) & 1)
  }

  /** The sum of four 32-bit words. */
  function Add4(a: bv32, b: bv32, c: bv32, d: bv32): bv32
  {
    a + b + c + d
  }

  /** The number of 1-bits of x, byte by byte: the reference bits_set is proved against. */
  function Popcount(x: bv32): bv32
  {
    Add4(Pop8(x & 0xFF), Pop8((x >> 8) & 0xFF), Pop8((x >> 16) & 0xFF), Pop8(x >> 24))
  }

  /** First three steps of bits_set: each byte then holds the number of 1-bits of that byte. */
  function ByteCounts(x: bv32): bv32
  {
    var x1 := x - ((x >> 1) & 0x5555_5555);
    var x2 := ((x1 >> 2) & 0x3333_3333) + (x1 & 0x3333_3333);
    ((x2 >> 4) + x2) & 0x0f0f_0f0f
  }

  /** Last steps of bits_set: add the four bytes and keep six bits. */
  function SumBytes(x3: bv32): bv32
  {
    var x4 := x3 + (x3 >> 8);
    var x5 := x4 + (x4 >> 16);
    x5 & 0x3f
  }

  /** bits_set: the branch-free population count of the source. */
  function BitsSet(x: bv32): bv32
  {
    SumBytes(ByteCounts(x))
  }

  /** On one byte, the first three steps of bits_set count the 1-bits. */
  lemma ByteCountsOfByte(b: bv32)
    requires b < 256
    ensures ByteCounts(b) == Pop8(b)
  {
  }

  // The lemmas from here to BitsSetByLanes each state a fact about one or two
  // byte lanes, or one unfolding of a definition.  Stated for the whole word
  // at once the same bit-vector facts are too costly for the solver, so
  // BitsSetIsPopcount assembles the result from these pieces.

  lemma LaneBounds(x: bv32)
    ensures x & 0xFF < 256 && (x >> 8) & 0xFF < 256 && (x >> 16) & 0xFF < 256 && x >> 24 < 256
  {
  }

  lemma LowLanesCounted(x: bv32)
    ensures ByteCounts(x & 0xFF) == Pop8(x & 0xFF)
    ensures ByteCounts((x >> 8) & 0xFF) == Pop8((x >> 8) & 0xFF)
  {
    LaneBounds(x);
    ByteCountsOfByte(x & 0xFF);
    ByteCountsOfByte((x >> 8) & 0xFF);
  }

  lemma ThirdLaneCounted(x: bv32)
    ensures ByteCounts((x >> 16) & 0xFF) == Pop8((x >> 16) & 0xFF)
  {
    LaneBounds(x);
    ByteCountsOfByte((x >> 16) & 0xFF);
  }

  lemma TopLaneCounted(x: bv32)
    ensures ByteCounts(x >> 24) == Pop8(x >> 24)
  {
    LaneBounds(x);
    ByteCountsOfByte(x >> 24);
  }

  /** One unfolding of Popcount, kept apart so that its callers see only the four lanes. */
  lemma PopcountUnfold(x: bv32)
    ensures Popcount(x) == Add4(Pop8(x & 0xFF), Pop8((x >> 8) & 0xFF), Pop8((x >> 16) & 0xFF), Pop8(x >> 24))
  {
  }

  /** The reference count is the sum of what the first three steps leave in each byte. */
  lemma PopcountByLanes(x: bv32)
    ensures Popcount(x) == Add4(ByteCounts(x & 0xFF), ByteCounts((x >> 8) & 0xFF),
                                ByteCounts((x >> 16) & 0xFF), ByteCounts(x >> 24))
  {
    PopcountUnfold(x);
    LowLanesCounted(x);
    ThirdLaneCounted(x);
    TopLaneCounted(x);
  }

  /** No carry crosses a byte boundary in the first three steps. */
  lemma LowLanesIndependent(x: bv32)
    ensures ByteCounts(x) & 0xFF == ByteCounts(x & 0xFF)
    ensures (ByteCounts(x) >> 8) & 0xFF == ByteCounts((x >> 8) & 0xFF)
  {
  }

  lemma HighLanesIndependent(x: bv32)
    ensures (ByteCounts(x) >> 16) & 0xFF == ByteCounts((x >> 16) & 0xFF)
    ensures ByteCounts(x) >> 24 == ByteCounts(x >> 24)
  {
  }

  lemma LanesStaySmall(x: bv32)
    ensures ByteCounts(x) & 0xF0F0_F0F0 == 0
  {
  }

  /** With every byte below 16, the last steps add the four bytes. */
  lemma SumOfBytes(z: bv32)
    requires z & 0xF0F0_F0F0 == 0
    ensures SumBytes(z) == Add4(z & 0xFF, (z >> 8) & 0xFF, (z >> 16) & 0xFF, z >> 24)
  {
  }

  /** One unfolding of BitsSet, kept apart for the same reason as PopcountUnfold. */
  lemma BitsSetUnfold(x: bv32)
    ensures BitsSet(x) == SumBytes(ByteCounts(x))
  {
  }

  lemma BitsSetByLanes(x: bv32)
    ensures BitsSet(x) == Add4(ByteCounts(x & 0xFF), ByteCounts((x >> 8) & 0xFF),
                               ByteCounts((x >> 16) & 0xFF), ByteCounts(x >> 24))
  {
    BitsSetUnfold(x);
    LowLanesIndependent(x);
    HighLanesIndependent(x);
    LanesStaySmall(x);
    SumOfBytes(ByteCounts(x));
  }

  /** bits_set(x) is the number of 1-bits of x, for every 32-bit x. */
  lemma BitsSetIsPopcount(x: bv32)
    ensures BitsSet(x) == Popcount(x)
  {
    BitsSetByLanes(x);
    PopcountByLanes(x);
  }

  // ---------------------------------------------------------------------
  // integer_log (memory_pool.hpp:124-137)

  /** `l >>= 31` on the signed word l: an arithmetic shift, all ones when l is negative. */
  function SignFill(l: bv32): bv32
  {
    if l & 0x8000_0000 == 0 then 0 else 0xFFFF_FFFF
  }

  /** `x |= x >> 1; ... x |= x >> 16`: every bit below the highest 1-bit of x is set. */
  function Smear(x0: bv32): bv32
  {
    var x1 := x0 | (x0 >> 1);
    var x2 := x1 | (x1 >> 2);
    var x3 := x2 | (x2 >> 4);
    var x4 := x3 | (x3 >> 8);
    x4 | (x4 >> 16)
  }

  /**
   * integer_log: l is -1 exactly when x is not a power of two (x & (x - 1)
   * is then non-zero, so either it or its negation has the sign bit), and
   * the smeared x shifted right once has floor(log2 x) ones.  The u32
   * subtraction of the signed l adds one in that case.
   */
  function IntegerLog(x: bv32): bv32
  {
    var l0 := x & (x - 1);
    var l1 := l0 | -l0;
    var l := SignFill(l1);
    BitsSet(Smear(x) >> 1) - l
  }

  /** integer_log(0) is 0, the value the pool set's index arithmetic relies on. */
  lemma IntegerLogOfZero()
    ensures IntegerLog(0) == 0
  {
  }

  /**
   * u = Smear(x) >> 1 is a mask of low ones, strictly below x and at least
   * half of x.
   */
  lemma SmearFacts(x: bv32, u: bv32)
    requires x != 0 && u == Smear(x) >> 1
    ensures u & (u + 1) == 0 && u < x && x <= u + u + 1 && u < 0x8000_0000
  {
  }

  /** l is -1 exactly when x has a second 1-bit besides its highest. */
  lemma SignTrick(x: bv32)
    ensures var l0 := x & (x - 1); SignFill(l0 | -l0) == if l0 == 0 then 0 else 0xFFFF_FFFF
  {
  }

  /** x is a power of two exactly when it is the successor of its smeared mask. */
  lemma PowerIsMaskSucc(x: bv32, u: bv32)
    requires x != 0 && u == Smear(x) >> 1
    ensures x & (x - 1) == 0 <==> x == u + 1
  {
  }

  /** The sign trick adds one exactly when x is not the power of two u + 1. */
  lemma IntegerLogParts(x: bv32, u: bv32)
    requires x != 0 && u == Smear(x) >> 1
    ensures x == u + 1 ==> IntegerLog(x) == BitsSet(u)
    ensures x != u + 1 ==> IntegerLog(x) == BitsSet(u) + 1
  {
    SignTrick(x);
    PowerIsMaskSucc(x, u);
  }

  /** A word whose successor shares no bit with it is one of the 33 masks of low ones. */
  lemma LowMaskCases(u: bv32)
    requires u & (u + 1) == 0
    ensures u == 0x0 || u == 0x1 || u == 0x3 || u == 0x7 || u == 0xF || u == 0x1F || u == 0x3F || u == 0x7F || u == 0xFF || u == 0x1FF || u == 0x3FF || u == 0x7FF || u == 0xFFF || u == 0x1FFF || u == 0x3FFF || u == 0x7FFF || u == 0xFFFF || u == 0x1FFFF || u == 0x3FFFF || u == 0x7FFFF || u == 0xFFFFF || u == 0x1FFFFF || u == 0x3FFFFF || u == 0x7FFFFF || u == 0xFFFFFF || u == 0x1FFFFFF || u == 0x3FFFFFF || u == 0x7FFFFFF || u == 0xFFFFFFF || u == 0x1FFFFFFF || u == 0x3FFFFFFF || u == 0x7FFFFFFF || u == 0xFFFFFFFF
  {
  }

  /** A mask of c low ones, c = bits_set(u), is 2^c - 1. */
  lemma {:induction false} LowMaskLog(u: bv32)
    requires u & (u + 1) == 0 && u < 0x8000_0000
    ensures BitsSet(u) <= 31
    ensures u as bv64 + 1 == (1 as bv64) << BitsSet(u)
  {
    LowMaskCases(u);
  }

  /** k is the ceiling of log2 x: the least k with x <= 2^k. */
  predicate IsCeilLog2(x: bv32, k: bv32)
  {
    k <= 32 && x as bv64 <= (1 as bv64) << k && (k == 0 || (1 as bv64) << (k - 1) < x as bv64)
  }

  lemma ShiftSucc(c: bv32)
    requires c <= 31
    ensures (1 as bv64) << (c + 1) == ((1 as bv64) << c) + ((1 as bv64) << c)
  {
  }

  /** A power of two 2^c has ceiling logarithm c. */
  lemma CeilOfPower(x: bv32, u: bv32, c: bv32)
    requires x == u + 1 && u < 0x8000_0000
    requires c <= 31 && u as bv64 + 1 == (1 as bv64) << c
    ensures IsCeilLog2(x, c)
  {
    if c != 0 {
      ShiftSucc(c - 1);
    }
  }

  /** Strictly between 2^c and 2^(c+1), the ceiling logarithm is c + 1. */
  lemma CeilBetweenPowers(x: bv32, u: bv32, c: bv32)
    requires u < x && x != u + 1 && x <= u + u + 1 && u < 0x8000_0000
    requires c <= 31 && u as bv64 + 1 == (1 as bv64) << c
    ensures IsCeilLog2(x, c + 1)
  {
    ShiftSucc(c);
  }

  lemma IntegerLogOfPower(x: bv32, u: bv32)
    requires x != 0 && u == Smear(x) >> 1 && x == u + 1
    ensures IsCeilLog2(x, IntegerLog(x))
  {
    SmearFacts(x, u);
    IntegerLogParts(x, u);
    LowMaskLog(u);
    CeilOfPower(x, u, BitsSet(u));
  }

  lemma IntegerLogBetweenPowers(x: bv32, u: bv32)
    requires x != 0 && u == Smear(x) >> 1 && x != u + 1
    ensures IsCeilLog2(x, IntegerLog(x))
  {
    SmearFacts(x, u);
    IntegerLogParts(x, u);
    LowMaskLog(u);
    CeilBetweenPowers(x, u, BitsSet(u));
  }

  /** integer_log(x) is the ceiling of log2 x, for every non-zero 32-bit x. */
  lemma IntegerLogIsCeilLog2(x: bv32)
    requires x != 0
    ensures IsCeilLog2(x, IntegerLog(x))
  {
    var u := Smear(x) >> 1;
    if x == u + 1 {
      IntegerLogOfPower(x, u);
    } else {
      IntegerLogBetweenPowers(x, u);
    }
  }

  // The four Bridge lemmas carry the 64-bit bounds of IsCeilLog2 over to
  // unbounded integers, a quarter of the exponents each: all 33 exponents in
  // one proof are too costly for the solver.

  lemma Bridge1To8(x: bv32, k: bv32)
    requires 1 <= k <= 8
    requires (1 as bv64) << (k - 1) < x as bv64 <= (1 as bv64) << k
    ensures Pow2(k as int - 1) < x as int <= Pow2(k as int)
  {
    Pow2Table();
  }

  lemma Bridge9To16(x: bv32, k: bv32)
    requires 9 <= k <= 16
    requires (1 as bv64) << (k - 1) < x as bv64 <= (1 as bv64) << k
    ensures Pow2(k as int - 1) < x as int <= Pow2(k as int)
  {
    Pow2Table();
  }

  lemma Bridge17To24(x: bv32, k: bv32)
    requires 17 <= k <= 24
    requires (1 as bv64) << (k - 1) < x as bv64 <= (1 as bv64) << k
    ensures Pow2(k as int - 1) < x as int <= Pow2(k as int)
  {
    Pow2Table();
  }

  lemma Bridge25To32(x: bv32, k: bv32)
    requires 25 <= k <= 32
    requires (1 as bv64) << (k - 1) < x as bv64 <= (1 as bv64) << k
    ensures Pow2(k as int - 1) < x as int <= Pow2(k as int)
  {
    Pow2Table();
  }

  /** The ceiling logarithm in terms of Pow2. */
  lemma IntegerLogBounds(x: bv32)
    requires x != 0
    ensures IntegerLog(x) as int <= 32
    ensures x as int <= Pow2(IntegerLog(x) as int)
    ensures IntegerLog(x) as int == 0 || Pow2(IntegerLog(x) as int - 1) < x as int
  {
    IntegerLogIsCeilLog2(x);
    var k := IntegerLog(x);
    if k == 0 {
      assert x == 1;
      Pow2Table();
    } else if k <= 8 {
      Bridge1To8(x, k);
    } else if k <= 16 {
      Bridge9To16(x, k);
    } else if k <= 24 {
      Bridge17To24(x, k);
    } else {
      Bridge25To32(x, k);
    }
  }

  /** A value between 2^(l-1) and 2^l fits under 2^k exactly when l <= k. */
  lemma CeilIsLeast(v: int, l: nat, k: nat)
    requires v <= Pow2(l) && (l == 0 || Pow2(l - 1) < v)
    ensures v <= Pow2(k) <==> l <= k
  {
    Pow2Monotone(l, k);
    if l >= 1 {
      Pow2Monotone(l - 1, k);
    }
  }

  /** integer_log(x) is the least k with x <= 2^k: the defining property of a ceiling logarithm. */
  lemma IntegerLogIsLeast(x: bv32, k: nat)
    requires x != 0
    ensures x as int <= Pow2(k) <==> IntegerLog(x) as int <= k
  {
    IntegerLogBounds(x);
    CeilIsLeast(x as int, IntegerLog(x) as int, k);
  }
}
