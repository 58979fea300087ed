/** The byte-search routines of `string_strstr_helpers.c`: `memchr`,
    `__strchrnul`, `strchr` and the rolling-window searches for needles of
    two, three and four bytes; and the reference notion of an occurrence
    of one byte string in another (ISO C11 section 7.24.5). */
module Search {
  import opened Words
  import opened CStrings
  import StringCompare

  /** `ndl` occurs in `hay` starting at offset `k`. */
  predicate MatchAt(hay: seq<bv8>, ndl: seq<bv8>, k: nat) {
    k + |ndl| <= |hay| && hay[k..k + |ndl|] == ndl
  }

  /** `k` is the leftmost occurrence of `ndl` in `hay`. */
  predicate FirstMatch(hay: seq<bv8>, ndl: seq<bv8>, k: nat) {
    MatchAt(hay, ndl, k) && forall j | 0 <= j < k :: !MatchAt(hay, ndl, j)
  }

  /** `ndl` occurs nowhere in `hay` (an occurrence cannot start past its end). */
  predicate NoMatch(hay: seq<bv8>, ndl: seq<bv8>) {
    forall k | 0 <= k <= |hay| :: !MatchAt(hay, ndl, k)
  }

  /** An occurrence, byte by byte. */
  lemma MatchAtBytes(hay: seq<bv8>, ndl: seq<bv8>, k: nat)
    requires k + |ndl| <= |hay|
    ensures MatchAt(hay, ndl, k) <==> forall j | 0 <= j < |ndl| :: ndl[j] == hay[k + j]
  {
    if forall j | 0 <= j < |ndl| :: ndl[j] == hay[k + j] {
      assert hay[k..k + |ndl|] == ndl;
    }
  }

  // ---------------------------------------------------------------- memchr

  /** `memchr(p, c, n)`: the first of the `n` bytes at `p` equal to
      `(unsigned char)c`, or null. The source steps bytewise to a word
      boundary, then skips whole words whose XOR with the replicated byte has
      no zero byte, then steps bytewise again; it never reads past `p + n`. */
  method Memchr(mem: Memory, p: nat, c: int, n: nat) returns (r: Ptr)
    requires p + n <= |mem|
    ensures r == Null <==> forall k | p <= k < p + n :: mem[k] != ToByte(c)
    ensures r.Addr? ==> p <= r.addr < p + n && mem[r.addr] == ToByte(c)
                        && forall k | p <= k < r.addr :: mem[k] != ToByte(c)
  {
    var b := ToByte(c);
    var i := 0;
    while (p + i) % WordBytes != 0 && i < n && mem[p + i] != b
      invariant i <= n && forall k | p <= k < p + i :: mem[k] != b
      decreases n - i
    {
      i := i + 1;
    }
    if i < n && mem[p + i] != b {
      i := MemchrWords(mem, p, b, n, i);
    }
    while i < n && mem[p + i] != b
      invariant i <= n && forall k | p <= k < p + i :: mem[k] != b
    {
      i := i + 1;
    }
    r := if i < n then Addr(p + i) else Null;
  }

  /** The word phase of `memchr`: skips whole words of the block that do not
      hold `b`, never reading past its end. */
  method MemchrWords(mem: Memory, p: nat, b: bv8, n: nat, i0: nat) returns (i: nat)
    requires p + n <= |mem| && i0 <= n
    requires forall k | p <= k < p + i0 :: mem[k] != b
    ensures i0 <= i <= n && forall k | p <= k < p + i :: mem[k] != b
  {
    var mask := ByteMask(b);
    i := i0;
    while n - i >= WordBytes
      invariant i0 <= i <= n && forall k | p <= k < p + i :: mem[k] != b
      decreases n - i
    {
      var w := LoadWord(mem, p + i);
      WordMatchTest(mem, p + i, b, w, mask);
      if WordContainsZero(w ^ mask) != 0 {
        return;
      }
      i := i + WordBytes;
    }
  }

  // ------------------------------------------------------- strchrnul/strchr

  /** `__strchrnul(p, c)`: the first position of the string at `p` holding
      `(unsigned char)c`, or its terminator when there is none. For `c == 0`
      that is `p + strlen(p)`. The word loop stops at the first word that
      holds either a zero byte or the target byte. */
  method Strchrnul(mem: Memory, p: nat, c: int) returns (r: nat)
    requires WholeWords(mem) && Terminated(mem, p)
    ensures p <= r <= FirstZero(mem, p)
    ensures mem[r] == ToByte(c) || r == FirstZero(mem, p)
    ensures forall k | p <= k < r :: mem[k] != ToByte(c)
  {
    var b := ToByte(c);
    if b == 0 {
      var len := StringCompare.Strlen(mem, p);
      return p + len;
    }
    r := StrchrnulScan(mem, p, b, FirstZero(mem, p));
  }

  /** The loops of `__strchrnul` for a non-zero byte `b` and the string at `p`
      ending at `z`: single bytes up to a word boundary, whole words while
      neither test fires, then single bytes again. */
  method StrchrnulScan(mem: Memory, p: nat, b: bv8, z: nat) returns (r: nat)
    requires WholeWords(mem) && EndsAt(mem, p, z) && b != 0
    ensures p <= r <= z && (mem[r] == b || r == z)
    ensures forall k | p <= k < r :: mem[k] != b
  {
    r := p;
    while r % WordBytes != 0
      invariant p <= r <= z && forall k | p <= k < r :: mem[k] != b
      decreases z - r
    {
      if mem[r] == 0 || mem[r] == b {
        return;
      }
      r := r + 1;
    }
    r := StrchrnulWords(mem, p, b, z, r);
    while mem[r] != 0 && mem[r] != b
      invariant p <= r <= z && forall k | p <= k < r :: mem[k] != b
      decreases z - r
    {
      r := r + 1;
    }
  }

  /** The word loop of `__strchrnul`, from the aligned position `r0`: it
      steps over whole words holding neither a zero byte nor `b`. */
  method StrchrnulWords(mem: Memory, p: nat, b: bv8, z: nat, r0: nat) returns (r: nat)
    requires WholeWords(mem) && EndsAt(mem, p, z) && b != 0
    requires r0 % WordBytes == 0 && p <= r0 <= z && forall k | p <= k < r0 :: mem[k] != b
    ensures r0 <= r <= z && forall k | p <= k < r :: mem[k] != b
  {
    r := r0;
    var mask := ByteMask(b);
    AlignedWordInBounds(mem, r);
    var w := LoadWord(mem, r);
    while WordContainsZero(w) == 0 && WordContainsZero(w ^ mask) == 0
      invariant r % WordBytes == 0 && r0 <= r <= z && r + WordBytes <= |mem|
      invariant w == LoadWord(mem, r)
      invariant forall k | p <= k < r :: mem[k] != b
      decreases z - r
    {
      WordZeroTest(mem, r, w);
      WordMatchTest(mem, r, b, w, mask);
      r := r + WordBytes;
      AlignedWordInBounds(mem, r);
      w := LoadWord(mem, r);
    }
  }

  /** `strchr(p, c)`: the first position of the string at `p`, its terminator
      included, holding `(unsigned char)c`; null when there is none. So
      `strchr(p, 0)` is the terminator. */
  method Strchr(mem: Memory, p: nat, c: int) returns (r: Ptr)
    requires WholeWords(mem) && Terminated(mem, p)
    ensures r == Null <==> forall k | p <= k <= FirstZero(mem, p) :: mem[k] != ToByte(c)
    ensures r.Addr? ==> p <= r.addr <= FirstZero(mem, p) && mem[r.addr] == ToByte(c)
                        && forall k | p <= k < r.addr :: mem[k] != ToByte(c)
    ensures ToByte(c) == 0 ==> r == Addr(FirstZero(mem, p))
  {
    var q := Strchrnul(mem, p, c);
    r := if mem[q] == ToByte(c) then Addr(q) else Null;
  }

  // --------------------------------------------------------- rolling windows

  /** Two bytes as the big-endian `uint16_t` the two-byte search compares. */
  function Pack2(a: bv8, b: bv8): bv16 {
    ((a as bv16) << 8) | (b as bv16)
  }

  /** Distinct byte pairs pack to distinct windows. */
  lemma Pack2Injective(a: bv8, b: bv8, c: bv8, d: bv8)
    ensures Pack2(a, b) == Pack2(c, d) <==> a == c && b == d
  {
  }

  /** Shifting the window left by a byte and or-ing in the next byte slides
      it one position along the haystack. */
  lemma Roll2(a: bv8, b: bv8, x: bv8)
    ensures (Pack2(a, b) << 8) | (x as bv16) == Pack2(b, x)
  {
  }

  /** Three bytes in the top 24 bits of a `uint32_t`, as the three-byte search
      keeps them. */
  function Pack3(a: bv8, b: bv8, c: bv8): bv32 {
    ((a as bv32) << 24) | ((b as bv32) << 16) | ((c as bv32) << 8)
  }

  lemma Pack3Injective(a: bv8, b: bv8, c: bv8, d: bv8, e: bv8, f: bv8)
    ensures Pack3(a, b, c) == Pack3(d, e, f) <==> a == d && b == e && c == f
  {
  }

  /** The three-byte update `(window | next) << 8` slides the window. */
  lemma Roll3(a: bv8, b: bv8, c: bv8, x: bv8)
    ensures (Pack3(a, b, c) | (x as bv32)) << 8 == Pack3(b, c, x)
  {
  }

  /** Four bytes as a big-endian `uint32_t`. */
  function Pack4(a: bv8, b: bv8, c: bv8, d: bv8): bv32 {
    ((a as bv32) << 24) | ((b as bv32) << 16) | ((c as bv32) << 8) | (d as bv32)
  }

  lemma Pack4Injective(a: bv8, b: bv8, c: bv8, d: bv8, e: bv8, f: bv8, g: bv8, h: bv8)
    ensures Pack4(a, b, c, d) == Pack4(e, f, g, h) <==> a == e && b == f && c == g && d == h
  {
  }

  lemma Roll4(a: bv8, b: bv8, c: bv8, d: bv8, x: bv8)
    ensures (Pack4(a, b, c, d) << 8) | (x as bv32) == Pack4(b, c, d, x)
  {
  }

  /** The `len` bytes at `nd` equal the `len` bytes at `h + k`. */
  predicate BytesAt(mem: Memory, h: nat, nd: nat, len: nat, k: nat) {
    h + k + len <= |mem| && nd + len <= |mem|
    && forall j | nd <= j < nd + len :: mem[j] == mem[h + k + (j - nd)]
  }

  lemma BytesAt2(mem: Memory, h: nat, nd: nat, k: nat)
    requires h + k + 2 <= |mem| && nd + 2 <= |mem|
    ensures BytesAt(mem, h, nd, 2, k) <==> mem[nd] == mem[h + k] && mem[nd + 1] == mem[h + k + 1]
  {
  }

  lemma BytesAt3(mem: Memory, h: nat, nd: nat, k: nat)
    requires h + k + 3 <= |mem| && nd + 3 <= |mem|
    ensures BytesAt(mem, h, nd, 3, k)
            <==> mem[nd] == mem[h + k] && mem[nd + 1] == mem[h + k + 1] && mem[nd + 2] == mem[h + k + 2]
  {
  }

  lemma BytesAt4(mem: Memory, h: nat, nd: nat, k: nat)
    requires h + k + 4 <= |mem| && nd + 4 <= |mem|
    ensures BytesAt(mem, h, nd, 4, k)
            <==> mem[nd] == mem[h + k] && mem[nd + 1] == mem[h + k + 1]
                 && mem[nd + 2] == mem[h + k + 2] && mem[nd + 3] == mem[h + k + 3]
  {
  }

  /** An occurrence in the two strings is a byte match in memory. */
  lemma MatchAtIsBytesAt(mem: Memory, h: nat, nd: nat, k: nat)
    requires Terminated(mem, h) && Terminated(mem, nd)
    requires k + |CStr(mem, nd)| <= |CStr(mem, h)|
    ensures MatchAt(CStr(mem, h), CStr(mem, nd), k) <==> BytesAt(mem, h, nd, |CStr(mem, nd)|, k)
  {
    var hay, ndl := CStr(mem, h), CStr(mem, nd);
    MatchAtBytes(hay, ndl, k);
    if BytesAt(mem, h, nd, |ndl|, k) {
      forall j | 0 <= j < |ndl|
        ensures ndl[j] == hay[k + j]
      {
        assert mem[nd + j] == mem[h + k + ((nd + j) - nd)];
      }
    }
    if MatchAt(hay, ndl, k) {
      forall j | nd <= j < nd + |ndl|
        ensures mem[j] == mem[h + k + (j - nd)]
      {
        assert ndl[j - nd] == hay[k + (j - nd)];
      }
    }
  }

  /** How a rolling search ends: having ruled out every start before `e`, it
      stops either on a match at `e` (and the byte under the cursor,
      `h + e + len - 1`, is not the terminator) or with the cursor on the
      terminator. */
  lemma WindowVerdict(mem: Memory, h: nat, nd: nat, e: nat)
    requires Terminated(mem, h) && Terminated(mem, nd) && 1 <= |CStr(mem, nd)|
    requires e + |CStr(mem, nd)| <= |CStr(mem, h)| + 1
    requires forall k | 0 <= k < e :: !BytesAt(mem, h, nd, |CStr(mem, nd)|, k)
    requires mem[h + e + |CStr(mem, nd)| - 1] != 0 ==> BytesAt(mem, h, nd, |CStr(mem, nd)|, e)
    ensures mem[h + e + |CStr(mem, nd)| - 1] != 0 ==> FirstMatch(CStr(mem, h), CStr(mem, nd), e)
    ensures mem[h + e + |CStr(mem, nd)| - 1] == 0 <==> NoMatch(CStr(mem, h), CStr(mem, nd))
  {
    var hay, ndl := CStr(mem, h), CStr(mem, nd);
    var len := |ndl|;
    forall k | 0 <= k < e
      ensures !MatchAt(hay, ndl, k)
    {
      MatchAtIsBytesAt(mem, h, nd, k);
    }
    if mem[h + e + len - 1] != 0 {
      assert e + len <= |hay|;
      MatchAtIsBytesAt(mem, h, nd, e);
    } else {
      assert e + len == |hay| + 1;
    }
  }

  /** `twobyte_strstr(h, nd)` for a two-byte needle and a haystack of at
      least two bytes: the leftmost occurrence, or null. The 16-bit window
      holds the two haystack bytes ending at the cursor `h + i`. */
  method TwoByte(mem: Memory, h: nat, nd: nat) returns (r: Ptr)
    requires Terminated(mem, h) && Terminated(mem, nd)
    requires |CStr(mem, h)| >= 2 && |CStr(mem, nd)| == 2
    ensures r == Null <==> NoMatch(CStr(mem, h), CStr(mem, nd))
    ensures r.Addr? ==> h <= r.addr && FirstMatch(CStr(mem, h), CStr(mem, nd), r.addr - h)
  {
    var i := TwoByteScan(mem, h, nd, FirstZero(mem, h));
    WindowVerdict(mem, h, nd, i - 1);
    r := if mem[h + i] != 0 then Addr(h + i - 1) else Null;
  }

  method TwoByteScan(mem: Memory, h: nat, nd: nat, z: nat) returns (i: nat)
    requires EndsAt(mem, h, z) && EndsAt(mem, nd, nd + 2) && h + 2 <= z
    ensures 1 <= i <= z - h
    ensures forall k | 0 <= k < i - 1 :: !BytesAt(mem, h, nd, 2, k)
    ensures mem[h + i] != 0 ==> BytesAt(mem, h, nd, 2, i - 1)
  {
    var nw := Pack2(mem[nd], mem[nd + 1]);
    var hw := Pack2(mem[h], mem[h + 1]);
    i := 1;
    Window2(mem, h, nd, 0, hw, nw);
    while mem[h + i] != 0 && hw != nw
      invariant 1 <= i && h + i <= z && hw == Pack2(mem[h + i - 1], mem[h + i])
      invariant hw == nw <==> BytesAt(mem, h, nd, 2, i - 1)
      invariant forall k | 0 <= k < i - 1 :: !BytesAt(mem, h, nd, 2, k)
      decreases z - (h + i)
    {
      hw := Slide2(hw, mem[h + i - 1], mem[h + i], mem[h + i + 1]);
      i := i + 1;
      Window2(mem, h, nd, i - 1, hw, nw);
    }
  }

  /** The window comparison of the two-byte search decides a match. */
  lemma Window2(mem: Memory, h: nat, nd: nat, k: nat, hw: bv16, nw: bv16)
    requires h + k + 2 <= |mem| && nd + 2 <= |mem|
    requires hw == Pack2(mem[h + k], mem[h + k + 1]) && nw == Pack2(mem[nd], mem[nd + 1])
    ensures hw == nw <==> BytesAt(mem, h, nd, 2, k)
  {
    Pack2Injective(mem[h + k], mem[h + k + 1], mem[nd], mem[nd + 1]);
    BytesAt2(mem, h, nd, k);
  }

  /** `hw = hw << 8 | next`. */
  method Slide2(hw: bv16, a: bv8, b: bv8, x: bv8) returns (r: bv16)
    requires hw == Pack2(a, b)
    ensures r == Pack2(b, x)
  {
    Roll2(a, b, x);
    r := (hw << 8) | (x as bv16);
  }

  /** `threebyte_strstr(h, nd)` for a three-byte needle and a haystack of at
      least three bytes: the leftmost occurrence, or null. */
  method ThreeByte(mem: Memory, h: nat, nd: nat) returns (r: Ptr)
    requires Terminated(mem, h) && Terminated(mem, nd)
    requires |CStr(mem, h)| >= 3 && |CStr(mem, nd)| == 3
    ensures r == Null <==> NoMatch(CStr(mem, h), CStr(mem, nd))
    ensures r.Addr? ==> h <= r.addr && FirstMatch(CStr(mem, h), CStr(mem, nd), r.addr - h)
  {
    var i := ThreeByteScan(mem, h, nd, FirstZero(mem, h));
    WindowVerdict(mem, h, nd, i - 2);
    r := if mem[h + i] != 0 then Addr(h + i - 2) else Null;
  }

  method ThreeByteScan(mem: Memory, h: nat, nd: nat, z: nat) returns (i: nat)
    requires EndsAt(mem, h, z) && EndsAt(mem, nd, nd + 3) && h + 3 <= z
    ensures 2 <= i <= z - h
    ensures forall k | 0 <= k < i - 2 :: !BytesAt(mem, h, nd, 3, k)
    ensures mem[h + i] != 0 ==> BytesAt(mem, h, nd, 3, i - 2)
  {
    var nw := Pack3(mem[nd], mem[nd + 1], mem[nd + 2]);
    var hw := Pack3(mem[h], mem[h + 1], mem[h + 2]);
    i := 2;
    Window3(mem, h, nd, 0, hw, nw);
    while mem[h + i] != 0 && hw != nw
      invariant 2 <= i && h + i <= z && hw == Pack3(mem[h + i - 2], mem[h + i - 1], mem[h + i])
      invariant hw == nw <==> BytesAt(mem, h, nd, 3, i - 2)
      invariant forall k | 0 <= k < i - 2 :: !BytesAt(mem, h, nd, 3, k)
      decreases z - (h + i)
    {
      hw := Slide3(hw, mem[h + i - 2], mem[h + i - 1], mem[h + i], mem[h + i + 1]);
      i := i + 1;
      Window3(mem, h, nd, i - 2, hw, nw);
    }
  }

  /** The window comparison of the three-byte search decides a match. */
  lemma Window3(mem: Memory, h: nat, nd: nat, k: nat, hw: bv32, nw: bv32)
    requires h + k + 3 <= |mem| && nd + 3 <= |mem|
    requires hw == Pack3(mem[h + k], mem[h + k + 1], mem[h + k + 2])
    requires nw == Pack3(mem[nd], mem[nd + 1], mem[nd + 2])
    ensures hw == nw <==> BytesAt(mem, h, nd, 3, k)
  {
    Pack3Injective(mem[h + k], mem[h + k + 1], mem[h + k + 2], mem[nd], mem[nd + 1], mem[nd + 2]);
    BytesAt3(mem, h, nd, k);
  }

  /** `hw = (hw | next) << 8`. */
  method Slide3(hw: bv32, a: bv8, b: bv8, c: bv8, x: bv8) returns (r: bv32)
    requires hw == Pack3(a, b, c)
    ensures r == Pack3(b, c, x)
  {
    Roll3(a, b, c, x);
    r := (hw | (x as bv32)) << 8;
  }

  /** `fourbyte_strstr(h, nd)` for a four-byte needle and a haystack of at
      least four bytes: the leftmost occurrence, or null. */
  method FourByte(mem: Memory, h: nat, nd: nat) returns (r: Ptr)
    requires Terminated(mem, h) && Terminated(mem, nd)
    requires |CStr(mem, h)| >= 4 && |CStr(mem, nd)| == 4
    ensures r == Null <==> NoMatch(CStr(mem, h), CStr(mem, nd))
    ensures r.Addr? ==> h <= r.addr && FirstMatch(CStr(mem, h), CStr(mem, nd), r.addr - h)
  {
    var i := FourByteScan(mem, h, nd, FirstZero(mem, h));
    WindowVerdict(mem, h, nd, i - 3);
    r := if mem[h + i] != 0 then Addr(h + i - 3) else Null;
  }

  method FourByteScan(mem: Memory, h: nat, nd: nat, z: nat) returns (i: nat)
    requires EndsAt(mem, h, z) && EndsAt(mem, nd, nd + 4) && h + 4 <= z
    ensures 3 <= i <= z - h
    ensures forall k | 0 <= k < i - 3 :: !BytesAt(mem, h, nd, 4, k)
    ensures mem[h + i] != 0 ==> BytesAt(mem, h, nd, 4, i - 3)
  {
    var nw := Pack4(mem[nd], mem[nd + 1], mem[nd + 2], mem[nd + 3]);
    var hw := Pack4(mem[h], mem[h + 1], mem[h + 2], mem[h + 3]);
    i := 3;
    Window4(mem, h, nd, 0, hw, nw);
    while mem[h + i] != 0 && hw != nw
      invariant 3 <= i && h + i <= z
      invariant hw == Pack4(mem[h + i - 3], mem[h + i - 2], mem[h + i - 1], mem[h + i])
      invariant hw == nw <==> BytesAt(mem, h, nd, 4, i - 3)
      invariant forall k | 0 <= k < i - 3 :: !BytesAt(mem, h, nd, 4, k)
      decreases z - (h + i)
    {
      hw := Slide4(hw, mem[h + i - 3], mem[h + i - 2], mem[h + i - 1], mem[h + i], mem[h + i + 1]);
      i := i + 1;
      Window4(mem, h, nd, i - 3, hw, nw);
    }
  }

  /** The window comparison of the four-byte search decides a match. */
  lemma Window4(mem: Memory, h: nat, nd: nat, k: nat, hw: bv32, nw: bv32)
    requires h + k + 4 <= |mem| && nd + 4 <= |mem|
    requires hw == Pack4(mem[h + k], mem[h + k + 1], mem[h + k + 2], mem[h + k + 3])
    requires nw == Pack4(mem[nd], mem[nd + 1], mem[nd + 2], mem[nd + 3])
    ensures hw == nw <==> BytesAt(mem, h, nd, 4, k)
  {
    Pack4Injective(mem[h + k], mem[h + k + 1], mem[h + k + 2], mem[h + k + 3],
                   mem[nd], mem[nd + 1], mem[nd + 2], mem[nd + 3]);
    BytesAt4(mem, h, nd, k);
  }

  /** `hw = hw << 8 | next`. */
  method Slide4(hw: bv32, a: bv8, b: bv8, c: bv8, d: bv8, x: bv8) returns (r: bv32)
    requires hw == Pack4(a, b, c, d)
    ensures r == Pack4(b, c, d, x)
  {
    Roll4(a, b, c, d, x);
    r := (hw << 8) | (x as bv32);
  }
}
