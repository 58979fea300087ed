/** `twoway_strstr` of `string_strstr_helpers.c`: the Crochemore–Perrin
    two-way search used for needles of five bytes or more. It builds a byte
    set and a last-occurrence shift table, factorizes the needle at the
    larger of two maximal suffixes, and then slides a window along the
    haystack, extending a lazily found end of the haystack as it goes.

    The model works on the contents of the two strings (`CStr`); every byte
    the source reads is shown to lie inside them, so reading the string or
    the memory behind it is the same. */
module TwoWay {
  import opened Words
  import opened CStrings
  import opened Search

  /** A byte string without zero bytes: the contents of a C string. */
  predicate ZeroFree(s: seq<bv8>) {
    forall k | 0 <= k < |s| :: s[k] != 0
  }

  function Max(a: int, b: int): int {
    if a < b then b else a
  }

  // ------------------------------------------------------------- byte set

  /** `strstr_BITOP` on the `size_t byteset[32 / sizeof(size_t)]` array: with
      a 32-bit `size_t`, eight words of 32 bits, byte `c` living in word
      `c / 32` at bit `c % 32`. */
  const ByteSetWords: nat := 8

  function WordOf(c: bv8): nat {
    (c >> 5) as nat
  }

  function BitOf(c: bv8): bv32 {
    (1 as bv32) << ((c & 31) as bv32)
  }

  /** The `&` form of the macro: is `c` in the set? */
  predicate InSet(bs: seq<bv32>, c: bv8)
    requires |bs| == ByteSetWords
  {
    bs[WordOf(c)] & BitOf(c) != 0
  }

  /** The zero-initialised set. */
  function EmptySet(): (bs: seq<bv32>)
    ensures |bs| == ByteSetWords && forall c: bv8 :: !InSet(bs, c)
  {
    [0, 0, 0, 0, 0, 0, 0, 0]
  }

  /** The `|=` form of the macro: add `c` and nothing else. */
  function AddToSet(bs: seq<bv32>, c: bv8): (r: seq<bv32>)
    requires |bs| == ByteSetWords
    ensures |r| == ByteSetWords && InSet(r, c)
    ensures forall d: bv8 | d != c :: InSet(r, d) == InSet(bs, d)
  {
    var r := bs[WordOf(c) := bs[WordOf(c)] | BitOf(c)];
    BitSet(bs[WordOf(c)], c);
    forall d: bv8 | d != c
      ensures InSet(r, d) == InSet(bs, d)
    {
      KeepOther(bs, c, d);
    }
    r
  }

  lemma KeepOther(bs: seq<bv32>, c: bv8, d: bv8)
    requires |bs| == ByteSetWords && c != d
    ensures InSet(bs[WordOf(c) := bs[WordOf(c)] | BitOf(c)], d) == InSet(bs, d)
  {
    if WordOf(d) == WordOf(c) {
      BitsDistinct(bs[WordOf(c)], c, d);
    }
  }

  lemma BitSet(x: bv32, c: bv8)
    ensures (x | BitOf(c)) & BitOf(c) != 0
  {
  }

  /** Distinct bytes of the same word own distinct bits. */
  lemma BitsDistinct(x: bv32, c: bv8, d: bv8)
    requires c != d && WordOf(c) == WordOf(d)
    ensures (x | BitOf(c)) & BitOf(d) == x & BitOf(d)
  {
  }

  // ---------------------------------------------------------- shift table

  /** The byte set and `size_t shiftBuffer[256]` after the first loop:
      for a byte in the set, `shift[c]` is one more than the last index of
      `c` among the first `len` needle bytes. The source leaves the other
      entries uninitialised; the model starts them at 0, and only entries of
      bytes in the set are ever read. */
  datatype Table = Table(len: nat, bytes: seq<bv32>, shift: seq<nat>)

  /** `x - 1` is the last index below `l` where `ndl` holds `c`. */
  predicate LastAt(ndl: seq<bv8>, l: nat, c: bv8, x: nat) {
    1 <= x <= l <= |ndl| && ndl[x - 1] == c && forall t | x <= t < l :: ndl[t] != c
  }

  /** The table describes exactly the first `t.len` bytes of `ndl`. */
  ghost predicate TableOf(ndl: seq<bv8>, t: Table) {
    t.len <= |ndl| && |t.bytes| == ByteSetWords && |t.shift| == 256
    && (forall k | 0 <= k < t.len :: InSet(t.bytes, ndl[k]))
    && (forall c: bv8 | InSet(t.bytes, c) :: LastAt(ndl, t.len, c, t.shift[c as int]))
  }

  /** The first loop of `twoway_strstr`: walks needle and haystack together
      until either ends, recording every needle byte. When the needle is the
      one left unfinished it is longer than the haystack. */
  method BuildTable(hay: seq<bv8>, ndl: seq<bv8>) returns (t: Table)
    ensures TableOf(ndl, t)
    ensures t.len == if |ndl| <= |hay| then |ndl| else |hay|
  {
    t := EmptyTable(ndl);
    while t.len < |ndl| && t.len < |hay|
      invariant t.len <= |ndl| && t.len <= |hay|
      invariant TableOf(ndl, t)
      decreases |ndl| - t.len
    {
      t := Record(ndl, t);
    }
  }

  /** The table before any byte is recorded. */
  function EmptyTable(ndl: seq<bv8>): (t: Table)
    ensures TableOf(ndl, t) && t.len == 0
  {
    Table(0, EmptySet(), seq(256, _ => 0))
  }

  /** The body of the first loop: `strstr_BITOP(byteset, needle[i], |=)` and
      `shift[needle[i]] = i + 1`. */
  function Record(ndl: seq<bv8>, t: Table): (r: Table)
    requires TableOf(ndl, t) && t.len < |ndl|
    ensures TableOf(ndl, r) && r.len == t.len + 1
  {
    var c := ndl[t.len];
    TableStep(ndl, t);
    Table(t.len + 1, AddToSet(t.bytes, c), t.shift[c as int := t.len + 1])
  }

  /** Recording one more needle byte keeps the table exact. */
  lemma TableStep(ndl: seq<bv8>, t: Table)
    requires TableOf(ndl, t) && t.len < |ndl|
    ensures var c := ndl[t.len];
            TableOf(ndl, Table(t.len + 1, AddToSet(t.bytes, c), t.shift[c as int := t.len + 1]))
  {
    TableEntries(ndl, t);
    TableCovers(ndl, t);
  }

  /** After recording `ndl[t.len]`, every byte in the set has its last
      occurrence in its entry. */
  lemma TableEntries(ndl: seq<bv8>, t: Table)
    requires TableOf(ndl, t) && t.len < |ndl|
    ensures forall d: bv8 | InSet(AddToSet(t.bytes, ndl[t.len]), d)
              :: LastAt(ndl, t.len + 1, d, t.shift[ndl[t.len] as int := t.len + 1][d as int])
  {
    forall d: bv8 | InSet(AddToSet(t.bytes, ndl[t.len]), d)
      ensures LastAt(ndl, t.len + 1, d, t.shift[ndl[t.len] as int := t.len + 1][d as int])
    {
      EntryAfter(ndl, t, d);
    }
  }

  /** The entry of one byte after recording `ndl[t.len]`. */
  lemma EntryAfter(ndl: seq<bv8>, t: Table, d: bv8)
    requires t.len < |ndl| && |t.bytes| == ByteSetWords && |t.shift| == 256
    requires InSet(t.bytes, d) ==> LastAt(ndl, t.len, d, t.shift[d as int])
    requires InSet(AddToSet(t.bytes, ndl[t.len]), d)
    ensures LastAt(ndl, t.len + 1, d, t.shift[ndl[t.len] as int := t.len + 1][d as int])
  {
    var c := ndl[t.len];
    AddedOrOld(t.bytes, c, d);
    if d != c {
      IndexDistinct(c, d);
      LastAtStep(ndl, t.len, d, t.shift[d as int]);
    }
  }

  /** Distinct bytes index distinct table entries. */
  lemma IndexDistinct(c: bv8, d: bv8)
    requires c != d
    ensures c as int != d as int
  {
  }

  /** A byte of the enlarged set is the added one or was there before. */
  lemma AddedOrOld(bs: seq<bv32>, c: bv8, d: bv8)
    requires |bs| == ByteSetWords && InSet(AddToSet(bs, c), d)
    ensures d == c || InSet(bs, d)
  {
  }

  /** After recording `ndl[t.len]`, every recorded byte is in the set. */
  lemma TableCovers(ndl: seq<bv8>, t: Table)
    requires TableOf(ndl, t) && t.len < |ndl|
    ensures forall k | 0 <= k < t.len + 1 :: InSet(AddToSet(t.bytes, ndl[t.len]), ndl[k])
  {
    var bs := AddToSet(t.bytes, ndl[t.len]);
    forall k | 0 <= k < t.len + 1
      ensures InSet(bs, ndl[k])
    {
      if k < t.len {
        assert InSet(t.bytes, ndl[k]);
      }
    }
  }

  /** A last occurrence stays the last when a different byte follows. */
  lemma LastAtStep(ndl: seq<bv8>, l: nat, c: bv8, x: nat)
    requires LastAt(ndl, l, c, x) && l < |ndl| && ndl[l] != c
    ensures LastAt(ndl, l + 1, c, x)
  {
  }

  // ------------------------------------------------------ maximal suffix

  /** `s` has period `p` between `lo` and `hi`: every byte in that range
      reappears `p` places later while still inside it. */
  predicate PeriodOn(s: seq<bv8>, lo: int, hi: int, p: nat) {
    0 <= lo && hi <= |s| && forall t | lo <= t < hi - p :: s[t] == s[t + p]
  }

  /** `p` is a period of the whole of `s`. */
  predicate IsPeriod(s: seq<bv8>, p: nat) {
    PeriodOn(s, 0, |s|, p)
  }

  /** Following a period `m` times from `a`. */
  lemma PeriodChain(s: seq<bv8>, lo: int, hi: int, p: nat, a: int, m: nat)
    requires PeriodOn(s, lo, hi, p) && lo <= a && a + m * p < hi
    ensures s[a] == s[a + m * p]
    decreases m
  {
    if m > 0 {
      assert (m - 1) * p + p == m * p;
      PeriodChain(s, lo, hi, p, a, m - 1);
    }
  }

  /** The variables `iVar, jVar, vVar, pVar` of the maximal-suffix loops:
      the candidate suffix starts at `i + 1`, the rival at `j + 1`, `k` bytes
      of the rival have been compared and `p` is the candidate's period. */
  datatype Scan = Scan(i: int, j: nat, k: nat, p: nat)

  /** What holds at the head of the loop: the compared part of the candidate,
      up to `j + k`, has period `p`, and the rival starts a whole number of
      periods after the candidate. */
  ghost predicate ScanInv(ndl: seq<bv8>, s: Scan) {
    -1 <= s.i < s.j && 1 <= s.k <= s.p && s.j + s.k <= |ndl|
    && PeriodOn(ndl, s.i + 1, s.j + s.k, s.p)
    && exists m: nat :: s.j - s.i == m * s.p
  }

  /** The byte order a pass ranks suffixes by: the first pass lets a greater
      byte extend the candidate, the second pass a smaller one. */
  predicate Beats(a: bv8, b: bv8, reversed: bool) {
    if reversed then a < b else a > b
  }

  /** One pass of the maximal-suffix loop (lines 71-93, and 102-124 with the
      comparison reversed), from state `s` until `j + k` reaches the end.
      The source starts `iVar` at `(size_t)-1`; `iVar + vVar` then wraps
      round to `vVar - 1`, which is what the signed `i` computes. */
  function MaxSuffixFrom(ndl: seq<bv8>, reversed: bool, s: Scan): (r: Scan)
    requires ScanInv(ndl, s)
    ensures ScanInv(ndl, r) && r.j + r.k == |ndl|
    decreases |ndl| - s.j, |ndl| - s.k
  {
    if s.j + s.k >= |ndl| then s
    else
      var a, b := ndl[s.i + s.k], ndl[s.j + s.k];
      if a == b then
        StepEqual(ndl, s);
        if s.k == s.p then MaxSuffixFrom(ndl, reversed, Scan(s.i, s.j + s.p, 1, s.p))
        else MaxSuffixFrom(ndl, reversed, Scan(s.i, s.j, s.k + 1, s.p))
      else if Beats(a, b, reversed) then
        StepExtend(ndl, s);
        MaxSuffixFrom(ndl, reversed, Scan(s.i, s.j + s.k, 1, s.j + s.k - s.i))
      else
        StepRestart(ndl, s);
        MaxSuffixFrom(ndl, reversed, Scan(s.j, s.j + 1, 1, 1))
  }

  /** Matching bytes keep the period and advance the rival. */
  lemma StepEqual(ndl: seq<bv8>, s: Scan)
    requires ScanInv(ndl, s) && s.j + s.k < |ndl| && ndl[s.i + s.k] == ndl[s.j + s.k]
    ensures s.k == s.p ==> ScanInv(ndl, Scan(s.i, s.j + s.p, 1, s.p))
    ensures s.k < s.p ==> ScanInv(ndl, Scan(s.i, s.j, s.k + 1, s.p))
  {
    var m: nat :| s.j - s.i == m * s.p;
    Multiples(s.j - s.i, m, s.p);
    PeriodChain(ndl, s.i + 1, s.j + s.k, s.p, s.i + s.k, m - 1);
    assert ndl[s.j + s.k - s.p] == ndl[s.j + s.k];
    PeriodExtend(ndl, s.i + 1, s.j + s.k, s.p);
  }

  /** A positive multiple `m * p` of `p` is at least `p`, and one period
      less is `(m - 1) * p`. */
  lemma Multiples(d: int, m: nat, p: nat)
    requires d == m * p && d > 0
    ensures m >= 1 && d >= p && d - p == (m - 1) * p && d + p == (m + 1) * p
  {
  }

  /** A period that also holds for the next byte extends by one. */
  lemma PeriodExtend(s: seq<bv8>, lo: int, hi: int, p: nat)
    requires PeriodOn(s, lo, hi, p) && hi < |s| && lo <= hi - p && s[hi - p] == s[hi]
    ensures PeriodOn(s, lo, hi + 1, p)
  {
  }

  /** A byte that beats the candidate's makes the whole compared stretch the
      new period. */
  lemma StepExtend(ndl: seq<bv8>, s: Scan)
    requires ScanInv(ndl, s) && s.j + s.k < |ndl|
    ensures ScanInv(ndl, Scan(s.i, s.j + s.k, 1, s.j + s.k - s.i))
  {
    assert s.j + s.k - s.i == 1 * (s.j + s.k - s.i);
  }

  /** A byte that loses makes the rival the new candidate. */
  lemma StepRestart(ndl: seq<bv8>, s: Scan)
    requires ScanInv(ndl, s) && s.j + s.k < |ndl|
    ensures ScanInv(ndl, Scan(s.j, s.j + 1, 1, 1))
  {
    assert s.j + 1 - s.j == 1 * 1;
  }

  /** A full pass from `iVar = -1, jVar = 0, vVar = pVar = 1`: the suffix from
      `i + 1` has period `p`, and at least one period fits into it. */
  function MaxSuffix(ndl: seq<bv8>, reversed: bool): (r: Scan)
    requires 1 <= |ndl|
    ensures -1 <= r.i && 1 <= r.p && r.i + 1 + r.p <= |ndl|
    ensures PeriodOn(ndl, r.i + 1, |ndl|, r.p)
  {
    StartScan(ndl);
    var r := MaxSuffixFrom(ndl, reversed, Scan(-1, 0, 1, 1));
    FullPass(ndl, r);
    r
  }

  /** The state before the first comparison. */
  lemma StartScan(ndl: seq<bv8>)
    requires 1 <= |ndl|
    ensures ScanInv(ndl, Scan(-1, 0, 1, 1))
  {
    assert 0 - (-1) == 1 * 1;
  }

  /** At the end of a pass the rival starts at least one period after the
      candidate, so a whole period of the candidate fits in the needle. */
  lemma FullPass(ndl: seq<bv8>, r: Scan)
    requires ScanInv(ndl, r) && r.j + r.k == |ndl|
    ensures r.i + 1 + r.p <= |ndl|
  {
    var m: nat :| r.j - r.i == m * r.p;
    Multiples(r.j - r.i, m, r.p);
  }

  // -------------------------------------------------------- factorization

  /** The factorization the search uses: the needle splits after `ms`; the
      search shifts by `period` after a full right-half match, and `memory`
      is the number of needle bytes it may then take as already matched
      (`iVar0`, `pVar`, `wVar0` at line 135). */
  datatype Factor = Factor(ms: int, period: nat, memory: nat)

  /** Lines 94-134: keep the pass whose suffix starts later (the
      comparison `iVar + 1 > iVar0 + 1` is on the unsigned values, so -1
      ranks lowest), then test whether the prefix before the split repeats
      one period later. If it does the needle is periodic: the period is a
      period of the whole needle and a match can carry `len - period` bytes
      of memory into the next window. If not, the shift is one more than the
      longer of the two halves and nothing is remembered. */
  function Factorization(ndl: seq<bv8>): (f: Factor)
    requires 1 <= |ndl|
    ensures -1 <= f.ms && f.ms + 1 < |ndl| && 1 <= f.period <= |ndl|
    ensures (f.memory == |ndl| - f.period && IsPeriod(ndl, f.period))
            || (f.memory == 0 && 0 <= f.ms && f.period == Max(f.ms, |ndl| - f.ms - 1) + 1)
  {
    var a, b := MaxSuffix(ndl, false), MaxSuffix(ndl, true);
    var c := if b.i + 1 > a.i + 1 then b else a;
    Split(ndl, c.i, c.p)
  }

  /** Lines 126-134 for the chosen suffix, which starts at `ms + 1` and has
      period `p`: whether the prefix before the split repeats one period
      later decides between the periodic and the non-periodic factor. */
  function Split(ndl: seq<bv8>, ms: int, p: nat): (f: Factor)
    requires -1 <= ms && 1 <= p && ms + 1 + p <= |ndl|
    requires PeriodOn(ndl, ms + 1, |ndl|, p)
    ensures f.ms == ms && 1 <= f.period <= |ndl|
    ensures (f.memory == |ndl| - f.period && IsPeriod(ndl, f.period))
            || (f.memory == 0 && 0 <= f.ms && f.period == Max(f.ms, |ndl| - f.ms - 1) + 1)
  {
    EmptyPrefix(ndl, ms, p);
    if ndl[..ms + 1] != ndl[p..p + ms + 1] then
      Factor(ms, Max(ms, |ndl| - ms - 1) + 1, 0)
    else
      PeriodicNeedle(ndl, ms, p);
      Factor(ms, p, |ndl| - p)
  }

  /** With nothing before the split the prefix test always passes. */
  lemma EmptyPrefix(ndl: seq<bv8>, ms: int, p: nat)
    requires -1 <= ms && ms + 1 + p <= |ndl|
    ensures ndl[..ms + 1] != ndl[p..p + ms + 1] ==> 0 <= ms
  {
    if ms == -1 {
      assert ndl[..0] == ndl[p..p];
    }
  }

  /** A period of the suffix after the split that the prefix before it also
      follows is a period of the whole needle. */
  lemma PeriodicNeedle(ndl: seq<bv8>, ms: int, p: nat)
    requires -1 <= ms && ms + 1 + p <= |ndl|
    requires PeriodOn(ndl, ms + 1, |ndl|, p)
    requires ndl[..ms + 1] == ndl[p..p + ms + 1]
    ensures IsPeriod(ndl, p)
  {
    forall t | 0 <= t < |ndl| - p
      ensures ndl[t] == ndl[t + p]
    {
      if t < ms + 1 {
        assert ndl[..ms + 1][t] == ndl[p..p + ms + 1][t];
      }
    }
  }

  /** What the search relies on: the split and the shift are inside the
      needle, and a remembered prefix only comes with a true period. */
  predicate Factored(ndl: seq<bv8>, f: Factor) {
    -1 <= f.ms && f.ms + 1 < |ndl| && 1 <= f.period <= |ndl|
    && (f.memory == 0 || (f.memory == |ndl| - f.period && IsPeriod(ndl, f.period)))
  }

  /** The two-way search is guaranteed to find only real occurrences when
      the remembered prefix lies before the split: `ms < period`. For the
      factorization above that is the critical factorization theorem of
      Crochemore and Perrin; with `memory == 0` it holds trivially. */
  predicate Critical(f: Factor) {
    f.memory > 0 ==> f.ms < f.period
  }

  // ---------------------------------------------------------- search loop

  /** `index | 63`, the "fast estimate for MAX(index, 63)": setting the six
      low bits is rounding down to a multiple of 64 and adding 63 (see
      `GrowIsOr`). */
  function Grow(l: nat): (g: nat)
    ensures l <= g && 63 <= g && g % 64 == 63
  {
    l - l % 64 + 63
  }

  /** The arithmetic form of `Grow` is the bitwise one on `size_t`. */
  lemma GrowIsOr(x: bv32)
    ensures x | 63 == x - x % 64 + 63
  {
  }

  /** The haystack window at `hp` agrees with the needle on `[lo, hi)`. */
  predicate Agrees(hay: seq<bv8>, ndl: seq<bv8>, hp: nat, lo: nat, hi: nat) {
    hi <= |ndl| && hp + hi <= |hay| && forall x | hp + lo <= x < hp + hi :: hay[x] == ndl[x - hp]
  }

  /** Lines 158-174: the window's last byte decides a skip. A byte absent
      from the needle skips the whole window; otherwise the skip lines the
      byte up with its last occurrence in the needle, but is at least the
      remembered prefix. A zero skip means the window must be compared. */
  method BadByte(hay: seq<bv8>, ndl: seq<bv8>, t: Table, hp: nat, w: nat) returns (skip: nat)
    requires 1 <= |ndl| && hp + |ndl| <= |hay| && w < |ndl|
    requires TableOf(ndl, t) && t.len == |ndl|
    ensures skip <= |ndl|
    ensures !InSet(t.bytes, hay[hp + |ndl| - 1]) ==> skip == |ndl|
    ensures InSet(t.bytes, hay[hp + |ndl| - 1])
            ==> var k := |ndl| - t.shift[hay[hp + |ndl| - 1] as int];
                skip == if k == 0 then 0 else Max(k, w)
  {
    var l := |ndl|;
    var c := hay[hp + l - 1];
    if InSet(t.bytes, c) {
      skip := l - t.shift[c as int];
      if skip != 0 && skip < w {
        skip := w;
      }
    } else {
      skip := l;
    }
  }

  /** Line 177: compare the right half from `v0` upwards. */
  method RightHalf(hay: seq<bv8>, ndl: seq<bv8>, hp: nat, v0: nat) returns (v: nat)
    requires hp + |ndl| <= |hay| && v0 <= |ndl|
    ensures v0 <= v <= |ndl| && Agrees(hay, ndl, hp, v0, v)
    ensures v < |ndl| ==> hay[hp + v] != ndl[v]
  {
    v := v0;
    while v < |ndl| && ndl[v] == hay[hp + v]
      invariant v0 <= v <= |ndl| && Agrees(hay, ndl, hp, v0, v)
    {
      v := v + 1;
    }
  }

  /** Line 185: compare the left half from `v0` downwards, never below the
      remembered prefix `w`. */
  method LeftHalf(hay: seq<bv8>, ndl: seq<bv8>, hp: nat, v0: nat, w: nat) returns (v: nat)
    requires hp + |ndl| <= |hay| && v0 <= |ndl|
    ensures v <= v0 && Agrees(hay, ndl, hp, v, v0)
    ensures v0 > w ==> v >= w
    ensures v > w ==> hay[hp + v - 1] != ndl[v - 1]
  {
    v := v0;
    while v > w && ndl[v - 1] == hay[hp + v - 1]
      invariant v <= v0 && Agrees(hay, ndl, hp, v, v0)
      invariant v0 > w ==> v >= w
    {
      v := v - 1;
    }
  }

  /** Lines 141-189 over the haystack contents `hay` (offsets instead of
      pointers). `hp` is `haystack`, `cp` the incremental end pointer
      `charPntr`, `w` the remembered prefix `wVar`. The `memchr` for the
      terminator finds it exactly when it lies within `grow` bytes of `cp`.
      The loop always ends; a returned window lies inside the haystack, and
      under `Critical` it is an occurrence of the needle. */
  method SearchLoop(hay: seq<bv8>, ndl: seq<bv8>, t: Table, f: Factor) returns (r: Ptr)
    requires 1 <= |ndl| <= |hay|
    requires TableOf(ndl, t) && t.len == |ndl|
    requires Factored(ndl, f)
    ensures r.Addr? ==> r.addr + |ndl| <= |hay|
    ensures r.Addr? && Critical(f) ==> MatchAt(hay, ndl, r.addr)
  {
    var l := |ndl|;
    var hp, cp, w := 0, 0, 0;
    while true
      invariant hp <= cp <= |hay|
      invariant w == 0 || w == f.memory
      invariant w < l
      invariant Critical(f) ==> Agrees(hay, ndl, hp, 0, w)
      decreases |hay| - hp
    {
      if cp - hp < l {
        var grow := Grow(l);
        if |hay| - cp < grow {
          cp := |hay|;
          if cp - hp < l {
            return Null;
          }
        } else {
          cp := cp + grow;
        }
      }
      var found;
      found, hp, w := Window(hay, ndl, t, f, hp, w);
      if found {
        return Addr(hp);
      }
    }
  }

  /** One pass of the search loop body once the window `[hp, hp + len)` is
      known to lie inside the haystack: either the window is reported, or
      the search moves on by between one and `len` bytes with the next
      remembered prefix. The bad-byte test looks at the window's last byte
      (lines 158-174), then the right half and the left half are compared
      (lines 177-188). */
  method Window(hay: seq<bv8>, ndl: seq<bv8>, t: Table, f: Factor, hp: nat, w: nat)
    returns (found: bool, next: nat, w': nat)
    requires 1 <= |ndl| && hp + |ndl| <= |hay|
    requires TableOf(ndl, t) && t.len == |ndl|
    requires Factored(ndl, f)
    requires (w == 0 || w == f.memory) && w < |ndl|
    requires Critical(f) ==> Agrees(hay, ndl, hp, 0, w)
    ensures found ==> next == hp && (Critical(f) ==> MatchAt(hay, ndl, hp))
    ensures !found ==> hp < next <= hp + |ndl|
    ensures (w' == 0 || w' == f.memory) && w' < |ndl|
    ensures !found && Critical(f) ==> Agrees(hay, ndl, next, 0, w')
  {
    var l := |ndl|;
    var skip := BadByte(hay, ndl, t, hp, w);
    if skip != 0 {
      return false, hp + skip, 0;
    }
    var v := RightHalf(hay, ndl, hp, Max(f.ms + 1, w));
    if v < l {
      return false, hp + v - f.ms, 0;
    }
    var u := LeftHalf(hay, ndl, hp, f.ms + 1, w);
    if u <= w {
      if Critical(f) {
        WindowMatches(hay, ndl, hp, f.ms + 1, u, w);
      }
      return true, hp, w;
    }
    if Critical(f) {
      Remembered(hay, ndl, hp, f, w);
    }
    return false, hp + f.period, f.memory;
  }

  /** Left part, remembered prefix and right part together cover the whole
      needle. */
  lemma WindowMatches(hay: seq<bv8>, ndl: seq<bv8>, hp: nat, split: nat, u: nat, w: nat)
    requires split <= |ndl| && u <= w && (split > w ==> u >= w)
    requires Agrees(hay, ndl, hp, 0, w) && Agrees(hay, ndl, hp, u, split)
    requires Agrees(hay, ndl, hp, Max(split, w), |ndl|)
    ensures MatchAt(hay, ndl, hp)
  {
    MatchAtBytes(hay, ndl, hp);
    forall j | 0 <= j < |ndl|
      ensures ndl[j] == hay[hp + j]
    {
      assert hay[hp + j] == ndl[(hp + j) - hp];
    }
  }

  /** After a full right-half match and a failed left half, the next window,
      one period on, agrees with the needle on its first `memory` bytes. */
  lemma Remembered(hay: seq<bv8>, ndl: seq<bv8>, hp: nat, f: Factor, w: nat)
    requires Factored(ndl, f) && Critical(f)
    requires Agrees(hay, ndl, hp, 0, w)
    requires Agrees(hay, ndl, hp, Max(f.ms + 1, w), |ndl|)
    ensures Agrees(hay, ndl, hp + f.period, 0, f.memory)
  {
    if f.memory > 0 {
      var p := f.period;
      forall x | hp + p <= x < hp + p + f.memory
        ensures hay[x] == ndl[x - (hp + p)]
      {
        assert hay[x] == ndl[x - hp];
        assert ndl[x - hp - p] == ndl[x - hp - p + p];
      }
    }
  }

  /** `twoway_strstr(h, nd)` for a non-empty needle: null at once when the
      needle is longer than the haystack; otherwise the search loop over the
      needle's factorization. */
  method TwoWay(mem: Memory, h: nat, nd: nat) returns (r: Ptr)
    requires Terminated(mem, h) && Terminated(mem, nd) && 1 <= |CStr(mem, nd)|
    ensures |CStr(mem, nd)| > |CStr(mem, h)| ==> r == Null
    ensures r.Addr? ==> h <= r.addr && r.addr - h + |CStr(mem, nd)| <= |CStr(mem, h)|
    ensures r.Addr? && Critical(Factorization(CStr(mem, nd)))
            ==> MatchAt(CStr(mem, h), CStr(mem, nd), r.addr - h)
  {
    var q := SearchContents(CStr(mem, h), CStr(mem, nd));
    r := if q.Addr? then Addr(h + q.addr) else Null;
  }

  /** The same search on the contents of the two strings, the result an
      offset into the haystack. */
  method SearchContents(hay: seq<bv8>, ndl: seq<bv8>) returns (r: Ptr)
    requires 1 <= |ndl|
    ensures |ndl| > |hay| ==> r == Null
    ensures r.Addr? ==> r.addr + |ndl| <= |hay|
    ensures r.Addr? && Critical(Factorization(ndl)) ==> MatchAt(hay, ndl, r.addr)
  {
    var t := BuildTable(hay, ndl);
    if t.len < |ndl| {
      return Null;
    }
    var f := Factorization(ndl);
    r := SearchLoop(hay, ndl, t, f);
  }
}
