/** The block-copying and filling routines of `string.c`: the portable
    bodies of `_memset`, `_memcpy` and `_memmove`, and `strcpy`. Each takes the
    whole linear memory and returns the memory after the call. Word stores are
    little-endian `StoreWord`s of values read from memory or built from the
    fill byte. */
module MemoryOps {
  import opened Words
  import opened CStrings

  /** `m` agrees with `mem` everywhere except possibly inside `[lo, hi)`. */
  predicate SameOutside(m: Memory, mem: Memory, lo: nat, hi: nat) {
    |m| == |mem| && forall j | 0 <= j < |m| && !(lo <= j < hi) :: m[j] == mem[j]
  }

  /** Every byte of `[lo, hi)` holds `b`. */
  predicate FilledWith(m: Memory, lo: nat, hi: nat, b: bv8) {
    hi <= |m| && forall j | lo <= j < hi :: m[j] == b
  }

  /** A 32-bit store of the replicated fill byte writes `b` into the four
      bytes at `a` and nothing else. */
  function PutMask(m: Memory, a: nat, mask: bv32, b: bv8): (r: Memory)
    requires a + 4 <= |m| && mask == ByteMask(b)
    ensures |r| == |m| && FilledWith(r, a, a + 4, b)
    ensures forall j | 0 <= j < |r| && !(a <= j < a + 4) :: r[j] == m[j]
  {
    StoreWord(m, a, mask)
  }

  /** A 64-bit store of `value32 | value32 << 32`: little-endian, it is the
      32-bit mask stored twice, at `a` and at `a + 4`. */
  function PutMask64(m: Memory, a: nat, mask: bv32, b: bv8): (r: Memory)
    requires a + 8 <= |m| && mask == ByteMask(b)
    ensures |r| == |m| && FilledWith(r, a, a + 8, b)
    ensures forall j | 0 <= j < |r| && !(a <= j < a + 8) :: r[j] == m[j]
  {
    PutMask(PutMask(m, a, mask, b), a + 4, mask, b)
  }

  /** `_memset(p, value, n)`, portable path: bytes `[p, p+n)` become
      `(unsigned char)value` and nothing else changes. The C code fills up to
      four bytes at each end, aligns, fills up to 28 bytes at each end with
      word stores, aligns to 8 and then fills 32 bytes per iteration, leaving
      any remainder below 32 to the tail already written. */
  method Memset(mem: Memory, p: nat, value: int, n: nat) returns (m: Memory)
    requires p + n <= |mem|
    ensures SameOutside(m, mem, p, p + n)
    ensures FilledWith(m, p, p + n, ToByte(value))
  {
    var b := ToByte(value);
    m := mem;
    if n == 0 {
      return;
    }
    m := m[p := b][p + n - 1 := b];
    if n <= 2 {
      return;
    }
    m := m[p + 1 := b][p + 2 := b][p + n - 2 := b][p + n - 3 := b];
    if n <= 6 {
      return;
    }
    m := m[p + 3 := b][p + n - 4 := b];
    if n <= 8 {
      return;
    }
    assert SameOutside(m, mem, p, p + n);
    assert FilledWith(m, p, p + 4, b) && FilledWith(m, p + n - 4, p + n, b);
    m := MemsetWords(mem, m, p, n, b);
  }

  /** The word phase of `Memset`, entered with `n > 8` and four bytes already
      filled at each end: align `p` up to `q`, round the length down to a
      multiple of 4, and store one word at each end of `[q, q+k)`. */
  method MemsetWords(mem: Memory, m0: Memory, p: nat, n: nat, b: bv8) returns (m: Memory)
    requires 8 < n && p + n <= |mem|
    requires SameOutside(m0, mem, p, p + n)
    requires FilledWith(m0, p, p + 4, b) && FilledWith(m0, p + n - 4, p + n, b)
    ensures SameOutside(m, mem, p, p + n)
    ensures FilledWith(m, p, p + n, b)
  {
    m := m0;
    // `-(uintptr_t)p & 3` bytes take `p` to the next multiple of 4.
    var align := (4 - p % 4) % 4;
    var q := p + align;
    var k := (n - align) - (n - align) % 4;
    var mask := ByteMask(b);
    m := PutMask(m, q, mask, b);
    m := PutMask(m, q + k - 4, mask, b);
    assert FilledWith(m, p, q + 4, b) && FilledWith(m, q + k - 4, p + n, b);
    if k <= 8 {
      return;
    }
    m := MemsetWords12(mem, m, p, n, q, k, mask, b);
  }

  /** `count` consecutive 32-bit stores of the replicated fill byte from
      address `a` on: `[a, a + 4 count)` holds `b` and nothing else changes. */
  method FillRun(m0: Memory, a: nat, count: nat, mask: bv32, b: bv8) returns (m: Memory)
    requires a + 4 * count <= |m0| && mask == ByteMask(b)
    ensures |m| == |m0| && FilledWith(m, a, a + 4 * count, b)
    ensures forall j | 0 <= j < |m| && !(a <= j < a + 4 * count) :: m[j] == m0[j]
  {
    m := m0;
    var i := 0;
    while i < count
      invariant i <= count && |m| == |m0| && FilledWith(m, a, a + 4 * i, b)
      invariant forall j | 0 <= j < |m| && !(a <= j < a + 4 * i) :: m[j] == m0[j]
    {
      m := PutMask(m, a + 4 * i, mask, b);
      i := i + 1;
    }
  }

  /** Words at offsets 4, 8 and `k-12`, `k-8`: twelve bytes filled at each
      end of `[q, q+k)`. */
  method MemsetWords12(mem: Memory, m0: Memory, p: nat, n: nat, q: nat, k: nat, mask: bv32, b: bv8)
    returns (m: Memory)
    requires p <= q && q + k <= p + n <= |mem| && 12 <= k && k % 4 == 0 && mask == ByteMask(b)
    requires SameOutside(m0, mem, p, p + n)
    requires FilledWith(m0, p, q + 4, b) && FilledWith(m0, q + k - 4, p + n, b)
    ensures SameOutside(m, mem, p, p + n)
    ensures FilledWith(m, p, p + n, b)
  {
    m := FillRun(m0, q + 4, 2, mask, b);
    m := FillRun(m, q + k - 12, 2, mask, b);
    if k <= 24 {
      return;
    }
    m := MemsetWords28(mem, m, p, n, q, k, mask, b);
  }

  /** Words at offsets 12 to 24 and `k-28` to `k-16`: 28 bytes filled at
      each end of `[q, q+k)`. */
  method MemsetWords28(mem: Memory, m0: Memory, p: nat, n: nat, q: nat, k: nat, mask: bv32, b: bv8)
    returns (m: Memory)
    requires p <= q && q + k <= p + n <= |mem| && 28 <= k && k % 4 == 0 && mask == ByteMask(b)
    requires SameOutside(m0, mem, p, p + n)
    requires FilledWith(m0, p, q + 12, b) && FilledWith(m0, q + k - 12, p + n, b)
    ensures SameOutside(m, mem, p, p + n)
    ensures FilledWith(m, p, p + n, b)
  {
    m := FillRun(m0, q + 12, 4, mask, b);
    m := FillRun(m, q + k - 28, 4, mask, b);
    m := MemsetLoop(mem, m, p, n, q, k, mask, b);
  }

  /** Align to 8 with `24 + (q & 4)` and store 32 bytes per iteration while
      at least 32 remain; the remainder, below 32 and a multiple of 4, lies
      inside the 28 tail bytes already written. */
  method MemsetLoop(mem: Memory, m0: Memory, p: nat, n: nat, q: nat, k: nat, mask: bv32, b: bv8)
    returns (m: Memory)
    requires p <= q && q + k <= p + n <= |mem| && 28 <= k && k % 4 == 0 && mask == ByteMask(b)
    requires SameOutside(m0, mem, p, p + n)
    requires FilledWith(m0, p, q + 28, b) && FilledWith(m0, q + k - 28, p + n, b)
    ensures SameOutside(m, mem, p, p + n)
    ensures FilledWith(m, p, p + n, b)
  {
    m := m0;
    var r := q + 24 + (if (q / 4) % 2 == 1 then 4 else 0);
    var rest := q + k - r;
    while rest >= 32
      invariant p <= r && r + rest == q + k && rest % 4 == 0
      invariant SameOutside(m, mem, p, p + n)
      invariant FilledWith(m, p, r, b) && FilledWith(m, q + k - 28, p + n, b)
    {
      m := Fill32(m, r, mask, b);
      r := r + 32;
      rest := rest - 32;
    }
  }

  /** One iteration of the 32-byte loop: four 64-bit stores. */
  method Fill32(m0: Memory, r: nat, mask: bv32, b: bv8) returns (m: Memory)
    requires r + 32 <= |m0| && mask == ByteMask(b)
    ensures |m| == |m0| && FilledWith(m, r, r + 32, b)
    ensures forall j | 0 <= j < |m| && !(r <= j < r + 32) :: m[j] == m0[j]
  {
    m := PutMask64(m0, r, mask, b);
    m := PutMask64(m, r + 8, mask, b);
    m := PutMask64(m, r + 16, mask, b);
    m := PutMask64(m, r + 24, mask, b);
  }

  /** The regions `[a, a+na)` and `[b, b+nb)` do not overlap. */
  predicate Disjoint(a: nat, na: nat, b: nat, nb: nat) {
    a + na <= b || b + nb <= a
  }

  /** Progress of a forward copy of `n` bytes from `s` to the disjoint `d`:
      the first `done` destination bytes hold the source's, and nothing outside
      the destination has changed (so the source still reads as before). */
  predicate CopiedPrefix(m: Memory, mem: Memory, d: nat, s: nat, n: nat, done: nat) {
    done <= n && d + n <= |mem| && s + n <= |mem| && Disjoint(d, n, s, n)
    && SameOutside(m, mem, d, d + n)
    && forall j | d <= j < d + done :: m[j] == mem[s + (j - d)]
  }

  /** `*dest++ = *source++` at offset `i`. */
  method CopyByte(mem: Memory, m: Memory, d: nat, s: nat, n: nat, i: nat) returns (r: Memory)
    requires CopiedPrefix(m, mem, d, s, n, i) && i < n
    ensures CopiedPrefix(r, mem, d, s, n, i + 1)
  {
    CopyByteStep(mem, m, d, s, n, i);
    r := m[d + i := m[s + i]];
  }

  lemma CopyByteStep(mem: Memory, m: Memory, d: nat, s: nat, n: nat, i: nat)
    requires CopiedPrefix(m, mem, d, s, n, i) && i < n
    ensures CopiedPrefix(m[d + i := m[s + i]], mem, d, s, n, i + 1)
  {
    assert m[s + i] == mem[s + i];
  }

  /** A 32-bit store at destination offset `i` of a word whose bytes are the
      source's next four. */
  method StoreCopied(mem: Memory, m: Memory, d: nat, s: nat, n: nat, i: nat, w: bv32) returns (r: Memory)
    requires CopiedPrefix(m, mem, d, s, n, i) && i + 4 <= n
    requires ByteOf(w, 0) == mem[s + i] && ByteOf(w, 1) == mem[s + i + 1]
    requires ByteOf(w, 2) == mem[s + i + 2] && ByteOf(w, 3) == mem[s + i + 3]
    ensures CopiedPrefix(r, mem, d, s, n, i + 4)
  {
    StoreCopiedStep(mem, m, d, s, n, i, w);
    r := StoreWord(m, d + i, w);
  }

  lemma StoreCopiedStep(mem: Memory, m: Memory, d: nat, s: nat, n: nat, i: nat, w: bv32)
    requires CopiedPrefix(m, mem, d, s, n, i) && i + 4 <= n
    requires ByteOf(w, 0) == mem[s + i] && ByteOf(w, 1) == mem[s + i + 1]
    requires ByteOf(w, 2) == mem[s + i + 2] && ByteOf(w, 3) == mem[s + i + 3]
    ensures CopiedPrefix(StoreWord(m, d + i, w), mem, d, s, n, i + 4)
  {
    var r := StoreWord(m, d + i, w);
    assert r[d + i] == mem[s + i] && r[d + i + 1] == mem[s + i + 1];
    assert r[d + i + 2] == mem[s + i + 2] && r[d + i + 3] == mem[s + i + 3];
  }

  /** Loads see only the four bytes they read. */
  lemma LoadSame(m: Memory, mem: Memory, a: nat)
    requires a + 4 <= |m| && a + 4 <= |mem|
    requires m[a] == mem[a] && m[a + 1] == mem[a + 1] && m[a + 2] == mem[a + 2] && m[a + 3] == mem[a + 3]
    ensures LoadWord(m, a) == LoadWord(mem, a)
  {
  }

  /** During a copy the source is untouched, so a word loaded from it is the
      word the original memory holds there. */
  lemma SourceLoad(m: Memory, mem: Memory, d: nat, s: nat, n: nat, done: nat, j: nat)
    requires CopiedPrefix(m, mem, d, s, n, done) && j + 4 <= n
    ensures LoadWord(m, s + j) == LoadWord(mem, s + j)
  {
    LoadSame(m, mem, s + j);
  }

  /** `*(a_u32*)dest = *(a_u32*)source` at offset `i`. */
  method CopyWord(mem: Memory, m: Memory, d: nat, s: nat, n: nat, i: nat) returns (r: Memory)
    requires CopiedPrefix(m, mem, d, s, n, i) && i + 4 <= n
    ensures CopiedPrefix(r, mem, d, s, n, i + 4)
  {
    SourceLoad(m, mem, d, s, n, i, i);
    var w := LoadWord(m, s + i);
    r := StoreCopied(mem, m, d, s, n, i, w);
  }

  /** Copies `count` single bytes from offset `i` on. */
  method CopyRun(mem: Memory, m0: Memory, d: nat, s: nat, n: nat, i0: nat, count: nat)
    returns (m: Memory, i: nat)
    requires CopiedPrefix(m0, mem, d, s, n, i0) && i0 + count <= n
    ensures i == i0 + count && CopiedPrefix(m, mem, d, s, n, i)
  {
    m, i := m0, i0;
    while i < i0 + count
      invariant i0 <= i <= i0 + count && CopiedPrefix(m, mem, d, s, n, i)
    {
      m := CopyByte(mem, m, d, s, n, i);
      i := i + 1;
    }
  }

  /** Byte `k` of the eight bytes `w` then `x` (both little-endian words),
      counted from byte `c` of `w`. */
  function Window(w: bv32, x: bv32, c: nat, k: nat): bv8
    requires c < 4 && k < 4
  {
    if c + k < 4 then ByteOf(w, c + k) else ByteOf(x, c + k - 4)
  }

  /** The word the shifted copy stores when the destination is `c` bytes
      behind the aligned source word: `(w >> 8c) | (x << (32 - 8c))`, written
      with the C code's fixed shift amounts. It is the four bytes starting at
      byte `c` of `w` then `x`. */
  method Merge(w: bv32, x: bv32, c: nat) returns (v: bv32)
    requires 1 <= c <= 3
    ensures ByteOf(v, 0) == Window(w, x, c, 0) && ByteOf(v, 1) == Window(w, x, c, 1)
    ensures ByteOf(v, 2) == Window(w, x, c, 2) && ByteOf(v, 3) == Window(w, x, c, 3)
  {
    if c == 3 {
      v := (w >> 24) | (x << 8);
      MergeBytes3(w, x, v);
    } else if c == 2 {
      v := (w >> 16) | (x << 16);
      MergeBytes2(w, x, v);
    } else {
      v := (w >> 8) | (x << 24);
      MergeBytes1(w, x, v);
    }
  }

  lemma MergeBytes3(w: bv32, x: bv32, v: bv32)
    requires v == (w >> 24) | (x << 8)
    ensures ByteOf(v, 0) == ByteOf(w, 3) && ByteOf(v, 1) == ByteOf(x, 0)
    ensures ByteOf(v, 2) == ByteOf(x, 1) && ByteOf(v, 3) == ByteOf(x, 2)
  {
  }

  lemma MergeBytes2(w: bv32, x: bv32, v: bv32)
    requires v == (w >> 16) | (x << 16)
    ensures ByteOf(v, 0) == ByteOf(w, 2) && ByteOf(v, 1) == ByteOf(w, 3)
    ensures ByteOf(v, 2) == ByteOf(x, 0) && ByteOf(v, 3) == ByteOf(x, 1)
  {
  }

  lemma MergeBytes1(w: bv32, x: bv32, v: bv32)
    requires v == (w >> 8) | (x << 24)
    ensures ByteOf(v, 0) == ByteOf(w, 1) && ByteOf(v, 1) == ByteOf(w, 2)
    ensures ByteOf(v, 2) == ByteOf(w, 3) && ByteOf(v, 3) == ByteOf(x, 0)
  {
  }

  /** For the words loaded at `a` and `a + 4`, the window at `c` is the
      memory at `a + c`. */
  lemma WindowLoads(mem: Memory, a: nat, c: nat, w: bv32, x: bv32)
    requires 1 <= c <= 3 && a + 8 <= |mem|
    requires w == LoadWord(mem, a) && x == LoadWord(mem, a + 4)
    ensures Window(w, x, c, 0) == mem[a + c] && Window(w, x, c, 1) == mem[a + c + 1]
    ensures Window(w, x, c, 2) == mem[a + c + 2] && Window(w, x, c, 3) == mem[a + c + 3]
  {
  }

  /** `_memcpy(d, s, n)`, portable path, for non-overlapping regions (ISO C11
      section 7.24.2.1): afterwards the `n` bytes at `d` are the `n` bytes that
      were at `s`, and nothing outside the destination has changed. The source
      copies bytes until `s` is word-aligned, then takes the word path when `d`
      is aligned too and the shifted-merge path otherwise. */
  method Memcpy(mem: Memory, d: nat, s: nat, n: nat) returns (m: Memory)
    requires d + n <= |mem| && s + n <= |mem| && Disjoint(d, n, s, n)
    ensures SameOutside(m, mem, d, d + n)
    ensures m[d..d + n] == mem[s..s + n]
  {
    m := mem;
    var i := 0;
    while (s + i) % 4 != 0 && i < n
      invariant i <= n && CopiedPrefix(m, mem, d, s, n, i)
      decreases n - i
    {
      m := CopyByte(mem, m, d, s, n, i);
      i := i + 1;
    }
    if (d + i) % 4 == 0 {
      m := MemcpyAligned(mem, m, d, s, n, i);
    } else {
      if n - i >= 32 {
        m, i := MemcpyShifted(mem, m, d, s, n, i, 4 - (d + i) % 4);
      }
      m := MemcpyTail(mem, m, d, s, n, i);
    }
    CopiedAll(m, mem, d, s, n);
  }

  /** A finished copy: the destination block equals the source block. */
  lemma CopiedAll(m: Memory, mem: Memory, d: nat, s: nat, n: nat)
    requires CopiedPrefix(m, mem, d, s, n, n)
    ensures m[d..d + n] == mem[s..s + n]
  {
    BlockEqual(m, mem, d, s, n);
  }

  /** Byte-wise agreement of two blocks is equality of the blocks. */
  lemma BlockEqual(m: Memory, mem: Memory, d: nat, s: nat, n: nat)
    requires d + n <= |m| && s + n <= |mem|
    requires forall j | d <= j < d + n :: m[j] == mem[s + (j - d)]
    ensures m[d..d + n] == mem[s..s + n]
  {
    var a, b := m[d..d + n], mem[s..s + n];
    forall k | 0 <= k < n
      ensures a[k] == b[k]
    {
      assert m[d + k] == mem[s + ((d + k) - d)];
    }
  }

  /** Both pointers word-aligned: 16 bytes per iteration as four words, then
      the bits 8, 4, 2 and 1 of the remaining count. */
  method MemcpyAligned(mem: Memory, m0: Memory, d: nat, s: nat, n: nat, i0: nat) returns (m: Memory)
    requires CopiedPrefix(m0, mem, d, s, n, i0)
    ensures CopiedPrefix(m, mem, d, s, n, n)
  {
    m := m0;
    var i := i0;
    while n - i >= 16
      invariant CopiedPrefix(m, mem, d, s, n, i)
    {
      m := CopyWord(mem, m, d, s, n, i);
      m := CopyWord(mem, m, d, s, n, i + 4);
      m := CopyWord(mem, m, d, s, n, i + 8);
      m := CopyWord(mem, m, d, s, n, i + 12);
      i := i + 16;
    }
    m := MemcpyAlignedTail(mem, m, d, s, n, i);
  }

  /** Fewer than 16 bytes left on the aligned path: two words for bit 8, one
      for bit 4, single bytes for bits 2 and 1. */
  method MemcpyAlignedTail(mem: Memory, m0: Memory, d: nat, s: nat, n: nat, i0: nat) returns (m: Memory)
    requires i0 <= n && n - i0 < 16 && CopiedPrefix(m0, mem, d, s, n, i0)
    ensures CopiedPrefix(m, mem, d, s, n, n)
  {
    var i;
    m, i := CopyBit(mem, m0, d, s, n, i0, 8, true);
    m, i := CopyBit(mem, m, d, s, n, i, 4, true);
    m, i := CopyBit(mem, m, d, s, n, i, 2, false);
    m, i := CopyBit(mem, m, d, s, n, i, 1, false);
  }

  /** A tail test `if (numBytes & b)`. The higher bits of the count have
      already been consumed, so the bytes left, `n - i0`, are below `2b` and
      their bit `b` is the count's. When it is set, `b` bytes are copied, as
      words or as single bytes. */
  method CopyBit(mem: Memory, m0: Memory, d: nat, s: nat, n: nat, i0: nat, b: nat, words: bool)
    returns (m: Memory, i: nat)
    requires 1 <= b && i0 <= n && n - i0 < 2 * b && CopiedPrefix(m0, mem, d, s, n, i0)
    requires words ==> b % 4 == 0
    ensures i0 <= i <= n && n - i < b && CopiedPrefix(m, mem, d, s, n, i)
  {
    m, i := m0, i0;
    BitOfSmall(n - i0, b);
    if ((n - i0) / b) % 2 == 1 {
      if words {
        m, i := CopyWords(mem, m, d, s, n, i0, b / 4);
      } else {
        m, i := CopyRun(mem, m, d, s, n, i0, b);
      }
    }
  }

  /** Below `2b`, bit `b` of a count is set exactly when the count reaches `b`. */
  lemma BitOfSmall(rest: nat, b: nat)
    requires 1 <= b && rest < 2 * b
    ensures (rest / b) % 2 == 1 <==> rest >= b
  {
    if rest >= b {
      assert rest / b == 1;
    } else {
      assert rest / b == 0;
    }
  }

  /** Copies `count` words from offset `i` on. */
  method CopyWords(mem: Memory, m0: Memory, d: nat, s: nat, n: nat, i0: nat, count: nat)
    returns (m: Memory, i: nat)
    requires CopiedPrefix(m0, mem, d, s, n, i0) && i0 + 4 * count <= n
    ensures i == i0 + 4 * count && CopiedPrefix(m, mem, d, s, n, i)
  {
    m, i := m0, i0;
    while i < i0 + 4 * count
      invariant i0 <= i <= i0 + 4 * count && (i - i0) % 4 == 0 && CopiedPrefix(m, mem, d, s, n, i)
    {
      m := CopyWord(mem, m, d, s, n, i);
      i := i + 4;
    }
  }

  /** Source aligned, destination `4 - c` bytes past a boundary, at least 32
      bytes left: load the source word, copy `c` single bytes so that the
      destination is aligned, then store 16 bytes per iteration, each word
      merged from two aligned source words. The loop keeps `w` as the aligned
      source word that straddles the current position. */
  method MemcpyShifted(mem: Memory, m0: Memory, d: nat, s: nat, n: nat, i0: nat, c: nat)
    returns (m: Memory, i: nat)
    requires 1 <= c <= 3 && i0 + 32 <= n && CopiedPrefix(m0, mem, d, s, n, i0)
    ensures i0 <= i <= n && n - i < 32 && CopiedPrefix(m, mem, d, s, n, i)
  {
    m := m0;
    SourceLoad(m, mem, d, s, n, i0, i0);
    var w := LoadWord(m, s + i0);
    m, i := CopyRun(mem, m, d, s, n, i0, c);
    while n - i >= 20 - c
      invariant c <= i && i0 <= i && i - c + 4 <= n
      invariant w == LoadWord(mem, s + i - c)
      invariant CopiedPrefix(m, mem, d, s, n, i)
    {
      m, w := ShiftedBlock(mem, m, d, s, n, i, c, w);
      i := i + 16;
    }
  }

  /** One iteration of the shifted loop: four merged stores, the roles of
      `w` and `x` alternating as in the C code. */
  method ShiftedBlock(mem: Memory, m0: Memory, d: nat, s: nat, n: nat, i: nat, c: nat, w0: bv32)
    returns (m: Memory, w: bv32)
    requires 1 <= c <= 3 && c <= i && i + 20 - c <= n
    requires CopiedPrefix(m0, mem, d, s, n, i)
    requires w0 == LoadWord(mem, s + i - c)
    ensures w == LoadWord(mem, s + i + 16 - c)
    ensures CopiedPrefix(m, mem, d, s, n, i + 16)
  {
    var w8;
    m, w8 := ShiftedPair(mem, m0, d, s, n, i, c, w0);
    m, w := ShiftedPair(mem, m, d, s, n, i + 8, c, w8);
  }

  /** Two stores of the shifted loop; the loaded word `x` of the first is the
      straddling word of the second. */
  method ShiftedPair(mem: Memory, m0: Memory, d: nat, s: nat, n: nat, i: nat, c: nat, w0: bv32)
    returns (m: Memory, w: bv32)
    requires 1 <= c <= 3 && c <= i && i + 12 - c <= n
    requires CopiedPrefix(m0, mem, d, s, n, i)
    requires w0 == LoadWord(mem, s + i - c)
    ensures w == LoadWord(mem, s + i + 8 - c)
    ensures CopiedPrefix(m, mem, d, s, n, i + 8)
  {
    var x;
    m, x := ShiftedStep(mem, m0, d, s, n, i, c, w0);
    m, w := ShiftedStep(mem, m, d, s, n, i + 4, c, x);
  }

  /** One store of the shifted loop: with `w` the aligned source word
      holding the next `4 - c` bytes, load the following aligned word `x` and
      store the merge of the two. */
  method ShiftedStep(mem: Memory, m0: Memory, d: nat, s: nat, n: nat, i: nat, c: nat, w: bv32)
    returns (m: Memory, x: bv32)
    requires 1 <= c <= 3 && c <= i && i + 8 - c <= n
    requires CopiedPrefix(m0, mem, d, s, n, i)
    requires w == LoadWord(mem, s + i - c)
    ensures x == LoadWord(mem, s + i + 4 - c)
    ensures CopiedPrefix(m, mem, d, s, n, i + 4)
  {
    SourceLoad(m0, mem, d, s, n, i, i + 4 - c);
    x := LoadWord(m0, s + i + 4 - c);
    WindowLoads(mem, s + i - c, c, w, x);
    var v := Merge(w, x, c);
    m := StoreCopied(mem, m0, d, s, n, i, v);
  }

  /** Fewer than 32 bytes left: single-byte copies for the bits 16, 8, 4, 2 and
      1 of the remaining count. */
  method MemcpyTail(mem: Memory, m0: Memory, d: nat, s: nat, n: nat, i0: nat) returns (m: Memory)
    requires i0 <= n && n - i0 < 32 && CopiedPrefix(m0, mem, d, s, n, i0)
    ensures CopiedPrefix(m, mem, d, s, n, n)
  {
    var i;
    m, i := CopyBit(mem, m0, d, s, n, i0, 16, false);
    m, i := CopyBit(mem, m, d, s, n, i, 8, false);
    m, i := CopyBit(mem, m, d, s, n, i, 4, false);
    m, i := CopyBit(mem, m, d, s, n, i, 2, false);
    m, i := CopyBit(mem, m, d, s, n, i, 1, false);
  }

  /** The test `_memmove` uses to hand a call to `memcpy`, in `uintptr_t`
      arithmetic: `s - d - n <= -2 * n`, both sides reduced modulo 2^32. */
  predicate CopyTestAsWritten(d: nat, s: nat, n: nat) {
    (s - d - n) % Two32 <= (-2 * n) % Two32
  }

  /** For a non-empty block of at most half the address space, the test is
      exactly "source and destination do not overlap". */
  lemma CopyTestExact(d: nat, s: nat, n: nat)
    requires 0 < n && 2 * n <= Two32 && d + n <= Two32 && s + n <= Two32
    ensures CopyTestAsWritten(d, s, n) <==> Disjoint(d, n, s, n)
  {
    assert (-2 * n) % Two32 == Two32 - 2 * n;
    if s >= d + n {
      assert (s - d - n) % Two32 == s - d - n;
    } else if d >= s + n {
      if s + Two32 == d + n {
        assert (s - d - n) % Two32 == 0;
      } else {
        assert (s - d - n) % Two32 == Two32 + (s - d - n);
      }
    } else {
      assert (s - d - n) % Two32 == Two32 + (s - d - n);
    }
  }

  /** Above half the address space the test accepts overlapping blocks: with
      `d = 1`, `s = 0` and `n = 2^31 + 1` it sends the call to `memcpy`, whose
      forward word copy then reads bytes it has already overwritten. */
  lemma CopyTestMisfires()
    ensures CopyTestAsWritten(1, 0, 0x8000_0001)
    ensures !Disjoint(1, 0x8000_0001, 0, 0x8000_0001)
  {
    assert (0 - 1 - 0x8000_0001) % Two32 == 0x7FFF_FFFE;
    assert (-2 * 0x8000_0001) % Two32 == 0xFFFF_FFFE;
  }

  /** `_memmove(d, s, n)` (ISO C11 section 7.24.2.2): afterwards the `n` bytes
      at `d` are the `n` bytes that were at `s`, even when the blocks overlap,
      and nothing outside the destination has changed. Equal pointers return
      at once; non-overlapping blocks go to `Memcpy`; otherwise the copy runs
      forwards when `d < s` and backwards when `d > s`, a word at a time when
      the two pointers share their alignment. The hand-off test here is
      `Disjoint`, which `CopyTestExact` shows is the C code's test whenever
      `2n <= 2^32`. */
  method Memmove(mem: Memory, d: nat, s: nat, n: nat) returns (m: Memory)
    requires d + n <= |mem| && s + n <= |mem|
    ensures SameOutside(m, mem, d, d + n)
    ensures m[d..d + n] == mem[s..s + n]
  {
    if d == s {
      return mem;
    }
    if Disjoint(d, n, s, n) {
      m := Memcpy(mem, d, s, n);
      return;
    }
    if d < s {
      m := MoveForward(mem, d, s, n);
    } else {
      m := MoveBackward(mem, d, s, n);
    }
    BlockEqual(m, mem, d, s, n);
  }

  /** Progress of the forward move: the first `i` destination bytes hold the
      source's original bytes and nothing else has been written yet. Since
      `d < s`, the unread source bytes all lie at or beyond `d + i`. */
  predicate MovedPrefix(m: Memory, mem: Memory, d: nat, s: nat, n: nat, i: nat) {
    d < s && i <= n && s + n <= |mem| && d + n <= |mem|
    && SameOutside(m, mem, d, d + i)
    && forall j | d <= j < d + i :: m[j] == mem[s + (j - d)]
  }

  method MoveByteForward(mem: Memory, m: Memory, d: nat, s: nat, n: nat, i: nat) returns (r: Memory)
    requires MovedPrefix(m, mem, d, s, n, i) && i < n
    ensures MovedPrefix(r, mem, d, s, n, i + 1)
  {
    assert m[s + i] == mem[s + i];
    r := m[d + i := m[s + i]];
  }

  method MoveWordForward(mem: Memory, m: Memory, d: nat, s: nat, n: nat, i: nat) returns (r: Memory)
    requires MovedPrefix(m, mem, d, s, n, i) && i + 4 <= n
    ensures MovedPrefix(r, mem, d, s, n, i + 4)
  {
    LoadSame(m, mem, s + i);
    var w := LoadWord(m, s + i);
    r := StoreWord(m, d + i, w);
    assert r[d + i] == mem[s + i] && r[d + i + 1] == mem[s + i + 1];
    assert r[d + i + 2] == mem[s + i + 2] && r[d + i + 3] == mem[s + i + 3];
  }

  /** The forward branch of `_memmove`, for `d < s`. */
  method MoveForward(mem: Memory, d: nat, s: nat, n: nat) returns (m: Memory)
    requires d < s && d + n <= |mem| && s + n <= |mem|
    ensures SameOutside(m, mem, d, d + n)
    ensures forall j | d <= j < d + n :: m[j] == mem[s + (j - d)]
  {
    m := mem;
    var i := 0;
    if s % WordBytes == d % WordBytes {
      m, i := MoveWordsForward(mem, d, s, n);
    }
    while i < n
      invariant MovedPrefix(m, mem, d, s, n, i)
    {
      m := MoveByteForward(mem, m, d, s, n, i);
      i := i + 1;
    }
  }

  /** The word part of the forward move when both pointers share their
      alignment: single bytes until `d` is aligned, then whole words. */
  method MoveWordsForward(mem: Memory, d: nat, s: nat, n: nat) returns (m: Memory, i: nat)
    requires d < s && d + n <= |mem| && s + n <= |mem|
    ensures MovedPrefix(m, mem, d, s, n, i)
  {
    m, i := mem, 0;
    while (d + i) % WordBytes != 0
      invariant MovedPrefix(m, mem, d, s, n, i)
      decreases n - i
    {
      if i == n {
        return;
      }
      m := MoveByteForward(mem, m, d, s, n, i);
      i := i + 1;
    }
    while n - i >= WordBytes
      invariant MovedPrefix(m, mem, d, s, n, i)
    {
      m := MoveWordForward(mem, m, d, s, n, i);
      i := i + WordBytes;
    }
  }

  /** Progress of the backward move: the destination bytes from offset `r` on
      hold the source's original bytes and nothing else has been written yet.
      Since `s < d`, the unread source bytes all lie below `d + r`. */
  predicate MovedSuffix(m: Memory, mem: Memory, d: nat, s: nat, n: nat, r: nat) {
    s < d && r <= n && s + n <= |mem| && d + n <= |mem|
    && SameOutside(m, mem, d + r, d + n)
    && forall j | d + r <= j < d + n :: m[j] == mem[s + (j - d)]
  }

  method MoveByteBackward(mem: Memory, m: Memory, d: nat, s: nat, n: nat, r: nat) returns (m': Memory)
    requires MovedSuffix(m, mem, d, s, n, r) && 0 < r
    ensures MovedSuffix(m', mem, d, s, n, r - 1)
  {
    assert m[s + r - 1] == mem[s + r - 1];
    m' := m[d + r - 1 := m[s + r - 1]];
  }

  method MoveWordBackward(mem: Memory, m: Memory, d: nat, s: nat, n: nat, r: nat) returns (m': Memory)
    requires MovedSuffix(m, mem, d, s, n, r) && 4 <= r
    ensures MovedSuffix(m', mem, d, s, n, r - 4)
  {
    var i := r - 4;
    LoadSame(m, mem, s + i);
    var w := LoadWord(m, s + i);
    m' := StoreWord(m, d + i, w);
    assert m'[d + i] == mem[s + i] && m'[d + i + 1] == mem[s + i + 1];
    assert m'[d + i + 2] == mem[s + i + 2] && m'[d + i + 3] == mem[s + i + 3];
  }

  /** The backward branch of `_memmove`, for `d > s`: the count `r` of bytes
      still to move shrinks from `n` to 0, each step writing offset `r - 1`
      (or the word at `r - 4`). */
  method MoveBackward(mem: Memory, d: nat, s: nat, n: nat) returns (m: Memory)
    requires s < d && d + n <= |mem| && s + n <= |mem|
    ensures SameOutside(m, mem, d, d + n)
    ensures forall j | d <= j < d + n :: m[j] == mem[s + (j - d)]
  {
    m := mem;
    var r: nat := n;
    if s % WordBytes == d % WordBytes {
      m, r := MoveWordsBackward(mem, d, s, n);
    }
    while r > 0
      invariant MovedSuffix(m, mem, d, s, n, r)
    {
      m := MoveByteBackward(mem, m, d, s, n, r);
      r := r - 1;
    }
  }

  /** The word part of the backward move when both pointers share their
      alignment: single bytes until `d + r` is aligned, then whole words. */
  method MoveWordsBackward(mem: Memory, d: nat, s: nat, n: nat) returns (m: Memory, r: nat)
    requires s < d && d + n <= |mem| && s + n <= |mem|
    ensures MovedSuffix(m, mem, d, s, n, r)
  {
    m, r := mem, n;
    while (d + r) % WordBytes != 0
      invariant MovedSuffix(m, mem, d, s, n, r)
    {
      if r == 0 {
        return;
      }
      m := MoveByteBackward(mem, m, d, s, n, r);
      r := r - 1;
    }
    while r >= WordBytes
      invariant MovedSuffix(m, mem, d, s, n, r)
    {
      m := MoveWordBackward(mem, m, d, s, n, r);
      r := r - WordBytes;
    }
  }

  /** `strcpy(d, s)` (ISO C11 section 7.24.2.3, with this library's return
      value): copies the string at `s` and its terminator to the disjoint
      block at `d`, and returns the address of the copied terminator rather
      than `d`. When both pointers share their alignment the middle part is
      copied a word at a time while `WORD_CONTAINS_ZERO` is false; the word
      test may read up to three bytes past the terminator, which whole-word
      memory keeps in bounds. */
  method Strcpy(mem: Memory, d: nat, s: nat) returns (m: Memory, r: nat)
    requires WholeWords(mem) && Terminated(mem, s)
    requires d + |CStr(mem, s)| < |mem|
    requires Disjoint(d, |CStr(mem, s)| + 1, s, |CStr(mem, s)| + 1)
    ensures r == d + |CStr(mem, s)|
    ensures SameOutside(m, mem, d, r + 1)
    ensures m[d..r + 1] == mem[s..s + |CStr(mem, s)| + 1]
    ensures Terminated(m, d) && CStr(m, d) == CStr(mem, s)
  {
    var len := |CStr(mem, s)|;
    m := StrcpyCopy(mem, d, s, len);
    m, r := StrcpyDone(mem, m, d, s, len);
  }

  /** The copying loops of `strcpy` for the string of length `len` at `s`:
      the word path when both pointers share their alignment, then single
      bytes until a copied zero byte, which is the terminator. */
  method StrcpyCopy(mem: Memory, d: nat, s: nat, len: nat) returns (m: Memory)
    requires WholeWords(mem) && EndsAt(mem, s, s + len)
    requires d + len < |mem| && Disjoint(d, len + 1, s, len + 1)
    ensures CopiedPrefix(m, mem, d, s, len + 1, len + 1)
  {
    m := mem;
    var i := 0;
    if s % WordBytes == d % WordBytes {
      var done;
      m, i, done := StrcpyAligned(mem, d, s, len);
      if done {
        return;
      }
    }
    while true
      invariant i <= len && CopiedPrefix(m, mem, d, s, len + 1, i)
      decreases len - i
    {
      m := CopyByte(mem, m, d, s, len + 1, i);
      if m[d + i] == 0 {
        return;
      }
      i := i + 1;
    }
  }

  /** The aligned part of `strcpy`: single bytes until `s` is word-aligned
      (stopping early, `done`, at a copied terminator), then whole words while
      the word at `s + i` has no zero byte. */
  method StrcpyAligned(mem: Memory, d: nat, s: nat, len: nat) returns (m: Memory, i: nat, done: bool)
    requires WholeWords(mem) && EndsAt(mem, s, s + len)
    requires d + len < |mem| && Disjoint(d, len + 1, s, len + 1)
    ensures i <= len
    ensures done ==> CopiedPrefix(m, mem, d, s, len + 1, len + 1)
    ensures !done ==> CopiedPrefix(m, mem, d, s, len + 1, i)
  {
    m, i, done := mem, 0, false;
    while (s + i) % WordBytes != 0
      invariant i <= len && CopiedPrefix(m, mem, d, s, len + 1, i)
      decreases len - i
    {
      m := CopyByte(mem, m, d, s, len + 1, i);
      if m[d + i] == 0 {
        done := true;
        return;
      }
      i := i + 1;
    }
    m, i := StrcpyWords(mem, m, d, s, len, i);
  }

  /** The word loop of `strcpy`, from a word-aligned source position. */
  method StrcpyWords(mem: Memory, m0: Memory, d: nat, s: nat, len: nat, i0: nat) returns (m: Memory, i: nat)
    requires WholeWords(mem) && EndsAt(mem, s, s + len) && (s + i0) % WordBytes == 0
    requires i0 <= len && CopiedPrefix(m0, mem, d, s, len + 1, i0)
    ensures i <= len && CopiedPrefix(m, mem, d, s, len + 1, i)
  {
    m, i := m0, i0;
    AlignedWordInBounds(mem, s + i);
    var w := LoadWord(m, s + i);
    while WordContainsZero(w) == 0
      invariant i <= len && (s + i) % WordBytes == 0 && s + i + WordBytes <= |m|
      invariant CopiedPrefix(m, mem, d, s, len + 1, i)
      invariant w == LoadWord(m, s + i)
      decreases len - i
    {
      m := StrcpyWord(mem, m, d, s, len, i, w);
      i := i + WordBytes;
      AlignedWordInBounds(mem, s + i);
      w := LoadWord(m, s + i);
    }
  }

  /** One step of the word loop of `strcpy`: the word at `s + i` has no zero
      byte, so it lies wholly before the terminator and is copied. */
  method StrcpyWord(mem: Memory, m: Memory, d: nat, s: nat, len: nat, i: nat, w: bv32) returns (m': Memory)
    requires EndsAt(mem, s, s + len)
    requires i <= len && CopiedPrefix(m, mem, d, s, len + 1, i)
    requires s + i + 4 <= |m| && w == LoadWord(m, s + i) && WordContainsZero(w) == 0
    ensures i + 4 <= len && CopiedPrefix(m', mem, d, s, len + 1, i + 4)
  {
    WordZeroTest(m, s + i, w);
    SourceLoad(m, mem, d, s, len + 1, i, i);
    m' := StoreCopied(mem, m, d, s, len + 1, i, w);
  }

  /** The copy stops at the first zero byte it writes, which is the source's
      terminator: the result is its address in the destination. */
  method StrcpyDone(mem: Memory, m0: Memory, d: nat, s: nat, len: nat) returns (m: Memory, r: nat)
    requires Terminated(mem, s) && len == |CStr(mem, s)|
    requires CopiedPrefix(m0, mem, d, s, len + 1, len + 1)
    ensures r == d + len && m == m0
    ensures SameOutside(m, mem, d, r + 1)
    ensures m[d..r + 1] == mem[s..s + len + 1]
    ensures Terminated(m, d) && CStr(m, d) == CStr(mem, s)
  {
    m := m0;
    r := d + len;
    CopiedAll(m, mem, d, s, len + 1);
    forall j | d <= j < d + len
      ensures m[j] != 0
    {
      assert m[j] == mem[s + (j - d)];
    }
    FirstZeroUnique(m, d, d + len);
    assert CStr(m, d) == m[d..d + len] == mem[s..s + len];
  }
}
