/** The bit helpers of the smoothsort behind `qsort`
    (`stdlib_qsort_helpers.c`): the de Bruijn trailing-zero count
    `a_ctz_64`, the two-word bitmap `size_t p[2]` with its shifts, and
    `pntz`.

    On wasm32 `size_t` is 32 bits, so the bitmap is a 64-bit value held as
    a low word `p[0]` and a high word `p[1]`. A wasm `i32` shift takes its
    count modulo 32; the word shifts below make that explicit, because the
    source shifts a word by 32 whenever its count is 0 or 32. */
module QsortBits {

  // ------------------------------------------------------------ lowest bit

  /** Bit `k` is the lowest set bit of `x`: isolating the lowest set bit of
      `x` leaves exactly bit `k`. */
  predicate LowestBit(x: bv64, k: bv64) {
    k < 64 && x & -x == 1 << k
  }

  /** The lowest set bit is set, and every bit below it is clear. */
  lemma LowestBitMeans(x: bv64, k: bv64)
    requires LowestBit(x, k)
    ensures (x >> k) & 1 == 1 && x & ((1 << k) - 1) == 0
  {
  }

  /** A value has at most one lowest set bit. */
  lemma LowestBitUnique(x: bv64, k: bv64, j: bv64)
    requires LowestBit(x, k) && LowestBit(x, j)
    ensures k == j
  {
  }

  /** The number of trailing zero bits of a non-zero value, found by
      halving the window in which the lowest set bit can lie: the reference
      the table lookup is measured against. */
  function Ctz(x: bv64): (k: bv64)
    requires x != 0
    ensures LowestBit(x, k)
  {
    var k5: bv64 := if x & 0xFFFF_FFFF == 0 then 32 else 0;
    var x5 := if x & 0xFFFF_FFFF == 0 then x >> 32 else x;
    var k4: bv64 := if x5 & 0xFFFF == 0 then 16 else 0;
    var x4 := if x5 & 0xFFFF == 0 then x5 >> 16 else x5;
    var k3: bv64 := if x4 & 0xFF == 0 then 8 else 0;
    var x3 := if x4 & 0xFF == 0 then x4 >> 8 else x4;
    var k2: bv64 := if x3 & 0xF == 0 then 4 else 0;
    var x2 := if x3 & 0xF == 0 then x3 >> 4 else x3;
    var k1: bv64 := if x2 & 0x3 == 0 then 2 else 0;
    var x1 := if x2 & 0x3 == 0 then x2 >> 2 else x2;
    var k0: bv64 := if x1 & 0x1 == 0 then 1 else 0;
    k5 + k4 + k3 + k2 + k1 + k0
  }

  // --------------------------------------------------------------- a_ctz_64

  /** The `debruijn64` table, eight entries at a time. */
  function DeBruijn0(): seq<bv6> { [0, 1, 2, 53, 3, 7, 54, 27] }
  function DeBruijn1(): seq<bv6> { [4, 38, 41, 8, 34, 55, 48, 28] }
  function DeBruijn2(): seq<bv6> { [62, 5, 39, 46, 44, 42, 22, 9] }
  function DeBruijn3(): seq<bv6> { [24, 35, 59, 56, 49, 18, 29, 11] }
  function DeBruijn4(): seq<bv6> { [63, 52, 6, 26, 37, 40, 33, 47] }
  function DeBruijn5(): seq<bv6> { [61, 45, 43, 21, 23, 58, 17, 10] }
  function DeBruijn6(): seq<bv6> { [51, 25, 36, 32, 60, 20, 57, 16] }
  function DeBruijn7(): seq<bv6> { [50, 31, 19, 15, 30, 14, 13, 12] }

  /** The whole table, built as a balanced concatenation so that a lookup
      never walks a long chain of entries. */
  function DeBruijn(): (t: seq<bv6>)
    ensures |t| == 64
  {
    ((DeBruijn0() + DeBruijn1()) + (DeBruijn2() + DeBruijn3()))
    + ((DeBruijn4() + DeBruijn5()) + (DeBruijn6() + DeBruijn7()))
  }

  /** `(y * 0x022FDD63CC95386D) >> 58`: the top six bits of the product
      with the de Bruijn multiplier. */
  function DeBruijnIndex(y: bv64): bv6 {
    ((y * 0x022FDD63CC95386D) >> 58) as bv6
  }

  /** `a_ctz_64(x)`: the table entry at the index the isolated lowest bit
      `x & -x` selects. */
  function ACtz64(x: bv64): bv6 {
    DeBruijn()[DeBruijnIndex(x & -x) as int]
  }

  /** The table entry that the single bit `k` selects is `k`. */
  predicate Entry(k: bv64) {
    k < 64 ==> DeBruijn()[DeBruijnIndex(1 << k) as int] as bv64 == k
  }

  lemma Entries0()
    ensures forall k: bv64 | k < 4 :: Entry(k)
  {
    assert Entry(0); assert Entry(1); assert Entry(2); assert Entry(3);
  }

  lemma Entries1()
    ensures forall k: bv64 | 4 <= k < 8 :: Entry(k)
  {
    assert Entry(4); assert Entry(5); assert Entry(6); assert Entry(7);
  }

  lemma Entries2()
    ensures forall k: bv64 | 8 <= k < 12 :: Entry(k)
  {
    assert Entry(8); assert Entry(9); assert Entry(10); assert Entry(11);
  }

  lemma Entries3()
    ensures forall k: bv64 | 12 <= k < 16 :: Entry(k)
  {
    assert Entry(12); assert Entry(13); assert Entry(14); assert Entry(15);
  }

  lemma Entries4()
    ensures forall k: bv64 | 16 <= k < 20 :: Entry(k)
  {
    assert Entry(16); assert Entry(17); assert Entry(18); assert Entry(19);
  }

  lemma Entries5()
    ensures forall k: bv64 | 20 <= k < 24 :: Entry(k)
  {
    assert Entry(20); assert Entry(21); assert Entry(22); assert Entry(23);
  }

  lemma Entries6()
    ensures forall k: bv64 | 24 <= k < 28 :: Entry(k)
  {
    assert Entry(24); assert Entry(25); assert Entry(26); assert Entry(27);
  }

  lemma Entries7()
    ensures forall k: bv64 | 28 <= k < 32 :: Entry(k)
  {
    assert Entry(28); assert Entry(29); assert Entry(30); assert Entry(31);
  }

  lemma Entries8()
    ensures forall k: bv64 | 32 <= k < 36 :: Entry(k)
  {
    assert Entry(32); assert Entry(33); assert Entry(34); assert Entry(35);
  }

  lemma Entries9()
    ensures forall k: bv64 | 36 <= k < 40 :: Entry(k)
  {
    assert Entry(36); assert Entry(37); assert Entry(38); assert Entry(39);
  }

  lemma Entries10()
    ensures forall k: bv64 | 40 <= k < 44 :: Entry(k)
  {
    assert Entry(40); assert Entry(41); assert Entry(42); assert Entry(43);
  }

  lemma Entries11()
    ensures forall k: bv64 | 44 <= k < 48 :: Entry(k)
  {
    assert Entry(44); assert Entry(45); assert Entry(46); assert Entry(47);
  }

  lemma Entries12()
    ensures forall k: bv64 | 48 <= k < 52 :: Entry(k)
  {
    assert Entry(48); assert Entry(49); assert Entry(50); assert Entry(51);
  }

  lemma Entries13()
    ensures forall k: bv64 | 52 <= k < 56 :: Entry(k)
  {
    assert Entry(52); assert Entry(53); assert Entry(54); assert Entry(55);
  }

  lemma Entries14()
    ensures forall k: bv64 | 56 <= k < 60 :: Entry(k)
  {
    assert Entry(56); assert Entry(57); assert Entry(58); assert Entry(59);
  }

  lemma Entries15()
    ensures forall k: bv64 | 60 <= k < 64 :: Entry(k)
  {
    assert Entry(60); assert Entry(61); assert Entry(62); assert Entry(63);
  }

  /** For every non-zero `x`, `a_ctz_64(x)` is the number of trailing zero
      bits of `x`. */
  lemma ACtz64Counts(x: bv64)
    requires x != 0
    ensures ACtz64(x) as bv64 == Ctz(x)
    ensures LowestBit(x, ACtz64(x) as bv64)
  {
    var k := Ctz(x);
    Entries0(); Entries1(); Entries2(); Entries3();
    Entries4(); Entries5(); Entries6(); Entries7();
    Entries8(); Entries9(); Entries10(); Entries11();
    Entries12(); Entries13(); Entries14(); Entries15();
    assert Entry(k);
  }

  /** `a_ctz_64(0)` is 0: `0 & -0` is 0, which selects entry 0. */
  lemma ACtz64Zero()
    ensures ACtz64(0) == 0
  {
  }

  // ------------------------------------------------------------ the bitmap

  /** `size_t p[2]`: `lo` is `p[0]`, `hi` is `p[1]`. */
  datatype Words = Words(lo: bv32, hi: bv32)

  /** The 64-bit value with low word `lo` and high word `hi`. */
  function Join(lo: bv32, hi: bv32): bv64 {
    ((hi as bv64) << 32) | (lo as bv64)
  }

  /** The 64-bit value the two words hold. */
  function Value(p: Words): bv64 {
    Join(p.lo, p.hi)
  }

  /** wasm `i32.shl`: the count is taken modulo 32. */
  function Shl32(x: bv32, count: bv32): bv32 {
    x << (count & 31)
  }

  /** wasm `i32.shr_u`: the count is taken modulo 32. */
  function Shr32(x: bv32, count: bv32): bv32 {
    x >> (count & 31)
  }

  /** `shiftLeft(p, numBits)`. The `int` count is held as its 32-bit
      pattern, which is also what the comparison with the unsigned
      `8 * sizeof(size_t)` sees. A count of 32 or more first moves the low
      word into the high word and drops 32 from the count. */
  function ShiftLeft(p: Words, n: bv32): Words {
    if n >= 32 then
      var m := n - 32;
      Words(Shl32(0, m), Shl32(p.lo, m) | Shr32(0, 32 - m))
    else
      Words(Shl32(p.lo, n), Shl32(p.hi, n) | Shr32(p.lo, 32 - n))
  }

  /** `shiftRight(p, numBits)`, the mirror image of `ShiftLeft`. */
  function ShiftRight(p: Words, n: bv32): Words {
    if n >= 32 then
      var m := n - 32;
      Words(Shr32(p.hi, m) | Shl32(0, 32 - m), Shr32(0, m))
    else
      Words(Shr32(p.lo, n) | Shl32(p.hi, 32 - n), Shr32(p.hi, n))
  }

  /** `shiftLeft` by `n` is the 64-bit left shift by `n`. */
  predicate LeftOk(p: Words, n: bv32) {
    n < 64 ==> Value(ShiftLeft(p, n)) == Value(p) << n
  }

  /** `shiftRight` by `n` is the 64-bit logical right shift by `n`. */
  predicate RightOk(p: Words, n: bv32) {
    n < 64 ==> Value(ShiftRight(p, n)) == Value(p) >> n
  }

  /** A shift by 0, which the source's comment rules out, is not the
      identity: the word shifted by `32 - 0` is shifted by 0 instead, and is
      OR-ed into the other word. */
  lemma ShiftByZero(p: Words)
    ensures ShiftRight(p, 0).lo == p.lo | p.hi && ShiftRight(p, 0).hi == p.hi
    ensures ShiftLeft(p, 0).lo == p.lo && ShiftLeft(p, 0).hi == p.hi | p.lo
  {
  }

  // ------------------------------------------------------------------ pntz

  /** `pntz(p)` as written, on the words `lo == p[0]` and `hi == p[1]`: the
      trailing zeros of `p[0] - 1` (a 32-bit difference, widened to 64
      bits) if there are any, otherwise `32 + a_ctz_64(p[1])` unless that
      is exactly 32, otherwise 0. */
  function Pntz(lo: bv32, hi: bv32): bv32 {
    var d := ACtz64((lo - 1) as bv64) as bv32;
    if d != 0 then d
    else
      var e := 32 + ACtz64(hi as bv64) as bv32;
      if e != 32 then e else 0
  }

  /** Subtracting 1 from an odd bitmap only touches the low word. */
  lemma OddMinusOne(lo: bv32, hi: bv32)
    requires lo & 1 == 1
    ensures Join(lo, hi) - 1 == Join(lo - 1, hi)
  {
  }

  /** When the low word is zero, the lowest set bit of the bitmap is 32
      above that of the high word. */
  lemma HighWordLowest(hi: bv32, k: bv64)
    requires LowestBit(hi as bv64, k) && k < 32
    ensures LowestBit(Join(0, hi), k + 32)
  {
    IsolateHigh(hi);
    ShiftMore(k);
  }

  lemma IsolateHigh(hi: bv32)
    ensures Join(0, hi) & -Join(0, hi) == ((hi as bv64) & -(hi as bv64)) << 32
  {
  }

  lemma ShiftMore(k: bv64)
    requires k < 32
    ensures (1 << k) << 32 == (1 as bv64) << (k + 32)
  {
  }

  /** A 32-bit value has its lowest set bit below 32. */
  lemma WordLowestBelow32(w: bv32, k: bv64)
    requires LowestBit(w as bv64, k)
    ensures k < 32
  {
  }

  /** An even value's lowest set bit is not bit 0. */
  lemma EvenLowestNotZero(x: bv64, k: bv64)
    requires x & 1 == 0 && LowestBit(x, k)
    ensures k != 0
  {
  }

  /** An odd value's lowest set bit is bit 0. */
  lemma OddLowestZero(x: bv64, k: bv64)
    requires x & 1 == 1 && LowestBit(x, k)
    ensures k == 0
  {
  }

  /** The trailing-zero count of `p[0] - 1` for an odd `p[0]` other than 1:
      at least 1, because `p[0] - 1` is even and not zero. */
  lemma LowGap(lo: bv32)
    requires lo & 1 == 1 && lo != 1
    ensures ACtz64((lo - 1) as bv64) != 0
    ensures ACtz64((lo - 1) as bv64) as bv64 == Ctz((lo - 1) as bv64)
  {
    var x := (lo - 1) as bv64;
    ACtz64Counts(x);
    EvenLowestNotZero(x, ACtz64(x) as bv64);
  }

  /** The trailing-zero count of a non-zero `p[1]`: below 32, and 0 exactly
      when `p[1]` is odd. */
  lemma HighCount(hi: bv32)
    requires hi != 0
    ensures ACtz64(hi as bv64) as bv64 == Ctz(hi as bv64) < 32
    ensures ACtz64(hi as bv64) == 0 <==> hi & 1 == 1
  {
    var y := hi as bv64;
    ACtz64Counts(y);
    WordLowestBelow32(hi, ACtz64(y) as bv64);
    if hi & 1 == 1 {
      OddLowestZero(y, ACtz64(y) as bv64);
    } else {
      EvenLowestNotZero(y, ACtz64(y) as bv64);
    }
  }

  /** The three outcomes of `pntz` on a bitmap whose bit 0 is set, which
      is every bitmap the sort passes it. */
  lemma PntzCases(lo: bv32, hi: bv32)
    requires lo & 1 == 1
    ensures lo != 1 ==> Pntz(lo, hi) as bv64 == Ctz((lo - 1) as bv64)
    ensures lo == 1 && hi & 1 == 0 && hi != 0 ==> Pntz(lo, hi) as bv64 == 32 + Ctz(hi as bv64)
    ensures lo == 1 && (hi == 0 || hi & 1 == 1) ==> Pntz(lo, hi) == 0
  {
    if lo != 1 {
      LowGap(lo);
    } else {
      ACtz64Zero();
      if hi != 0 {
        HighCount(hi);
      } else {
        ACtz64Zero();
      }
    }
  }

  /** Below 32 the lowest set bit of `p - 1` is that of `p[0] - 1`. */
  lemma GapInLowWord(lo: bv32, hi: bv32)
    requires lo & 1 == 1 && lo != 1
    ensures Join(lo, hi) - 1 != 0
    ensures Ctz(Join(lo, hi) - 1) == Ctz((lo - 1) as bv64)
  {
    var k := Ctz((lo - 1) as bv64);
    OddLowWordLowest(lo, hi, k);
    LowestBitUnique(Join(lo, hi) - 1, k, Ctz(Join(lo, hi) - 1));
  }

  /** For an odd `p[0]` other than 1, the bits of `p - 1` below the high
      word are those of `p[0] - 1`, which is not zero. */
  lemma OddLowWordLowest(lo: bv32, hi: bv32, k: bv64)
    requires lo & 1 == 1 && lo != 1 && LowestBit((lo - 1) as bv64, k)
    ensures LowestBit(Join(lo, hi) - 1, k)
  {
  }

  /** When `p[0]` is 1 the lowest set bit of `p - 1` is 32 above that of
      `p[1]`. */
  lemma GapInHighWord(hi: bv32)
    requires hi != 0
    ensures Join(1, hi) - 1 != 0
    ensures Ctz(Join(1, hi) - 1) == 32 + Ctz(hi as bv64)
  {
    OddMinusOne(1, hi);
    var k := Ctz(hi as bv64);
    WordLowestBelow32(hi, k);
    HighWordLowest(hi, k);
    LowestBitUnique(Join(0, hi), k + 32, Ctz(Join(0, hi)));
  }

  /** `pntz` is the distance from the lowest tree to the next one, the
      number of trailing zero bits of `p - 1`, for every odd bitmap other
      than 1 except those of the form `{1, odd}` (see `PntzMissesBit32`). */
  lemma PntzIsGap(lo: bv32, hi: bv32)
    requires lo & 1 == 1 && Join(lo, hi) != 1
    requires !(lo == 1 && hi & 1 == 1)
    ensures Join(lo, hi) - 1 != 0 && Pntz(lo, hi) as bv64 == Ctz(Join(lo, hi) - 1)
  {
    PntzCases(lo, hi);
    if lo != 1 {
      GapInLowWord(lo, hi);
    } else {
      GapInHighWord(hi);
    }
  }

  /** The discrepancy: for `p == {1, hi}` with `hi` odd the next tree is 32
      bits up, but `pntz` returns 0, because `32 + a_ctz_64(hi)` is exactly
      32 and the source takes that value to mean "no bit found". */
  lemma PntzMissesBit32(hi: bv32)
    requires hi & 1 == 1
    ensures Pntz(1, hi) == 0
    ensures Join(1, hi) - 1 != 0 && Ctz(Join(1, hi) - 1) == 32
  {
    PntzCases(1, hi);
    GapInHighWord(hi);
    HighCount(hi);
  }

  /** `pntz` as evidently intended: when `p[0]` is exactly 1 the answer is
      `32 + a_ctz_64(p[1])`, whatever the parity of `p[1]`. */
  function NextTreeGap(lo: bv32, hi: bv32): (r: bv32)
    requires lo & 1 == 1 && Join(lo, hi) != 1
    ensures Join(lo, hi) - 1 != 0 && r as bv64 == Ctz(Join(lo, hi) - 1)
    ensures 1 <= r < 64
  {
    if lo != 1 then
      LowGap(lo);
      GapInLowWord(lo, hi);
      ACtz64((lo - 1) as bv64) as bv32
    else
      HighCount(hi);
      GapInHighWord(hi);
      32 + ACtz64(hi as bv64) as bv32
  }

  /** Away from the `{1, odd}` bitmaps the corrected `pntz` agrees with the
      source's. */
  lemma NextTreeGapAgrees(lo: bv32, hi: bv32)
    requires lo & 1 == 1 && Join(lo, hi) != 1
    requires !(lo == 1 && hi & 1 == 1)
    ensures NextTreeGap(lo, hi) == Pntz(lo, hi)
  {
    PntzIsGap(lo, hi);
  }

  // ------------------------------------------------------ the shrink loop

  /** The bitmap and `pshift` that `__qsort_r`'s dismantling loop
      (`stdlib_qsort_helpers.c:219-239`) steps; the trinkles in its body
      copy the bitmap and never change it. */
  datatype Forest = Forest(p: Words, pshift: int)

  /** The loop's guard: something other than one tree of order 1 is left. */
  predicate Dismantling(f: Forest) {
    f.pshift != 1 || f.p != Words(1, 0)
  }

  /** One pass of the loop body on the bitmap, as written. With
      `pshift <= 1` it steps to the next tree by `pntz`. Otherwise it
      splits the rightmost tree into its two subtrees: shift left by 2,
      flip the low three bits, shift right by 1, then left by 1 and set
      bit 0. */
  function ShrinkStepAsWritten(f: Forest): Forest {
    if f.pshift <= 1 then
      var trail := Pntz(f.p.lo, f.p.hi);
      Forest(ShiftRight(f.p, trail), f.pshift + trail as int)
    else
      var q := ShiftLeft(f.p, 2);
      var r := ShiftLeft(ShiftRight(Words(q.lo ^ 7, q.hi), 1), 1);
      Forest(Words(r.lo | 1, r.hi), f.pshift - 2)
  }

  /** The loop run for at most `k` passes, stopping when its guard fails. */
  function ShrinkRunAsWritten(f: Forest, k: nat): Forest
    decreases k
  {
    if k == 0 || !Dismantling(f) then f
    else ShrinkRunAsWritten(ShrinkStepAsWritten(f), k - 1)
  }

  /** The state `p == {1, 1}`, `pshift == 1` (a tree of order 1 followed
      by one of order 33) is a fixed point of the as-written pass:
      `pntz` returns 0 and shifting by 0 leaves the bitmap as it is. */
  lemma ShrinkStuckAsWritten()
    ensures Pntz(1, 1) == 0 && ShiftRight(Words(1, 1), Pntz(1, 1)) == Words(1, 1)
    ensures Dismantling(Forest(Words(1, 1), 1))
    ensures ShrinkStepAsWritten(Forest(Words(1, 1), 1)) == Forest(Words(1, 1), 1)
  {
  }

  /** So the as-written loop never leaves that state: after any number of
      passes it is still there, and its guard still holds. */
  lemma {:induction false} ShrinkNeverEndsAsWritten(k: nat)
    ensures ShrinkRunAsWritten(Forest(Words(1, 1), 1), k) == Forest(Words(1, 1), 1)
    ensures Dismantling(ShrinkRunAsWritten(Forest(Words(1, 1), 1), k))
  {
    ShrinkStuckAsWritten();
    if k > 0 {
      ShrinkNeverEndsAsWritten(k - 1);
    }
  }

  /** With the corrected `pntz` the same state steps 32 orders up, to the
      single tree of order 33, which the next passes split. */
  lemma ShrinkLeavesCorrected()
    ensures Join(1, 1) != 1
    ensures NextTreeGap(1, 1) == 32 && ShiftRight(Words(1, 1), NextTreeGap(1, 1)) == Words(1, 0)
  {
  }

  // ---------------------------------------------------------------- shifts

  /** For `0 < numBits < 64`, `shiftLeft` is the 64-bit left shift. */
  lemma ShiftLeftCorrect(p: Words, n: bv32)
    requires 0 < n < 64
    ensures Value(ShiftLeft(p, n)) == Value(p) << n
  {
    if n <= 3 {
      ShiftLeftCounts1To3(p, n);
    } else if n <= 7 {
      ShiftLeftCounts4To7(p, n);
    } else if n <= 11 {
      ShiftLeftCounts8To11(p, n);
    } else if n <= 15 {
      ShiftLeftCounts12To15(p, n);
    } else if n <= 23 {
      ShiftLeftCounts16To23(p, n);
    } else if n <= 31 {
      ShiftLeftCounts24To31(p, n);
    } else if n <= 47 {
      ShiftLeftCounts32To47(p, n);
    } else {
      ShiftLeftCounts48To63(p, n);
    }
  }

  /** For `0 < numBits < 64`, `shiftRight` is the 64-bit logical right
      shift. */
  lemma ShiftRightCorrect(p: Words, n: bv32)
    requires 0 < n < 64
    ensures Value(ShiftRight(p, n)) == Value(p) >> n
  {
    if n <= 3 {
      ShiftRightCounts1To3(p, n);
    } else if n <= 7 {
      ShiftRightCounts4To7(p, n);
    } else if n <= 11 {
      ShiftRightCounts8To11(p, n);
    } else if n <= 15 {
      ShiftRightCounts12To15(p, n);
    } else if n <= 23 {
      ShiftRightCounts16To23(p, n);
    } else if n <= 31 {
      ShiftRightCounts24To31(p, n);
    } else if n <= 47 {
      ShiftRightCounts32To47(p, n);
    } else {
      ShiftRightCounts48To63(p, n);
    }
  }

  // The solver settles the shifts by bit-blasting, a range of counts at a
  // time; much wider ranges run out of resource.

  lemma ShiftLeftCounts1To3(p: Words, n: bv32)
    requires 1 <= n <= 3
    ensures LeftOk(p, n)
  {
  }

  lemma ShiftLeftCounts4To7(p: Words, n: bv32)
    requires 4 <= n <= 7
    ensures LeftOk(p, n)
  {
  }

  lemma ShiftLeftCounts8To11(p: Words, n: bv32)
    requires 8 <= n <= 11
    ensures LeftOk(p, n)
  {
  }

  lemma ShiftLeftCounts12To15(p: Words, n: bv32)
    requires 12 <= n <= 15
    ensures LeftOk(p, n)
  {
  }

  lemma ShiftLeftCounts16To23(p: Words, n: bv32)
    requires 16 <= n <= 23
    ensures LeftOk(p, n)
  {
  }

  lemma ShiftLeftCounts24To31(p: Words, n: bv32)
    requires 24 <= n <= 31
    ensures LeftOk(p, n)
  {
  }

  lemma ShiftLeftCounts32To47(p: Words, n: bv32)
    requires 32 <= n <= 47
    ensures LeftOk(p, n)
  {
  }

  lemma ShiftLeftCounts48To63(p: Words, n: bv32)
    requires 48 <= n <= 63
    ensures LeftOk(p, n)
  {
  }

  lemma ShiftRightCounts1To3(p: Words, n: bv32)
    requires 1 <= n <= 3
    ensures RightOk(p, n)
  {
  }

  lemma ShiftRightCounts4To7(p: Words, n: bv32)
    requires 4 <= n <= 7
    ensures RightOk(p, n)
  {
  }

  lemma ShiftRightCounts8To11(p: Words, n: bv32)
    requires 8 <= n <= 11
    ensures RightOk(p, n)
  {
  }

  lemma ShiftRightCounts12To15(p: Words, n: bv32)
    requires 12 <= n <= 15
    ensures RightOk(p, n)
  {
  }

  lemma ShiftRightCounts16To23(p: Words, n: bv32)
    requires 16 <= n <= 23
    ensures RightOk(p, n)
  {
  }

  lemma ShiftRightCounts24To31(p: Words, n: bv32)
    requires 24 <= n <= 31
    ensures RightOk(p, n)
  {
  }

  lemma ShiftRightCounts32To47(p: Words, n: bv32)
    requires 32 <= n <= 47
    ensures RightOk(p, n)
  {
  }

  lemma ShiftRightCounts48To63(p: Words, n: bv32)
    requires 48 <= n <= 63
    ensures RightOk(p, n)
  {
  }
}
