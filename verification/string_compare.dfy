/** The comparison and length routines of `string.c`: `memcmp`, `strcmp`,
    `strncmp`, `strlen` (word at a time) and `wcslen`. Each is proved against
    the reference definitions of `CStrings` and the ordering of section 7.24.4
    of ISO C11: bytes compare as unsigned chars. */
module StringCompare {
  import opened Words
  import opened CStrings

  /** Lexicographic order is decided by the first position where the strings
      differ or one of them ends. */
  lemma LexLessAtMismatch(a: seq<bv8>, b: seq<bv8>, k: nat)
    requires k <= |a| && k <= |b| && a[..k] == b[..k]
    requires k == |a| || k == |b| || a[k] != b[k]
    ensures LexLess(a, b) <==> (k == |a| < |b| || (k < |a| && k < |b| && a[k] < b[k]))
  {
    if LexLess(a, b) {
      var j :| 0 <= j <= |a| && j <= |b| && a[..j] == b[..j]
        && (j == |a| < |b| || (j < |a| && j < |b| && a[j] < b[j]));
      if j < k {
        assert a[j] == a[..k][j] == b[..k][j] == b[j];
      } else if j > k {
        assert false;
      }
    }
  }

  /** The blocks at `l` and `r` agree on their first `k` bytes, which are in
      memory. */
  predicate AgreeUpTo(mem: Memory, l: nat, r: nat, k: nat) {
    l + k <= |mem| && r + k <= |mem| && forall j | l <= j < l + k :: mem[j] == mem[r + (j - l)]
  }

  /** Agreement on `k` bytes is equality of the two `k`-byte slices. */
  lemma AgreeSlices(mem: Memory, l: nat, r: nat, k: nat)
    requires l + k <= |mem| && r + k <= |mem|
    ensures AgreeUpTo(mem, l, r, k) <==> mem[l..l + k] == mem[r..r + k]
  {
    var a, b := mem[l..l + k], mem[r..r + k];
    if AgreeUpTo(mem, l, r, k) {
      forall j | 0 <= j < k
        ensures a[j] == b[j]
      {
        assert mem[l + j] == mem[r + ((l + j) - l)];
      }
    } else {
      var j :| l <= j < l + k && mem[j] != mem[r + (j - l)];
      assert mem[l..l + k][j - l] != mem[r..r + k][j - l];
    }
  }

  /** Comparison of two zero-free strings that agree on their first `i` bytes
      and are decided at `i`: `x` and `y` are the bytes there, a missing byte
      reading as the terminator 0. */
  lemma ComparedAt(a: seq<bv8>, b: seq<bv8>, i: nat, x: bv8, y: bv8)
    requires i <= |a| && i <= |b| && a[..i] == b[..i]
    requires forall k | 0 <= k < |a| :: a[k] != 0
    requires forall k | 0 <= k < |b| :: b[k] != 0
    requires x == (if i < |a| then a[i] else 0) && y == (if i < |b| then b[i] else 0)
    requires i == |a| || i == |b| || x != y
    ensures x == y <==> a == b
    ensures x < y <==> LexLess(a, b)
    ensures x > y <==> LexLess(b, a)
  {
    LexLessAtMismatch(a, b, i);
    LexLessAtMismatch(b, a, i);
    if x == y {
      assert i == |a| && i == |b|;
      assert a == a[..i] && b == b[..i];
    } else if i < |a| && i < |b| {
      assert a[i] != b[i];
    }
  }

  /** `memcmp(l, r, n)`: zero exactly when the first `n` bytes agree; otherwise
      the difference of the first differing pair, read as unsigned bytes, so
      its sign is the lexicographic order of the two blocks. */
  method Memcmp(mem: Memory, l: nat, r: nat, n: nat) returns (res: int)
    requires l + n <= |mem| && r + n <= |mem|
    ensures res == 0 <==> mem[l..l + n] == mem[r..r + n]
    ensures res != 0 ==> exists k :: 0 <= k < n && AgreeUpTo(mem, l, r, k)
                                     && res == mem[l + k] as int - mem[r + k] as int
    ensures res < 0 <==> LexLess(mem[l..l + n], mem[r..r + n])
  {
    var i := 0;
    while i < n && mem[l + i] == mem[r + i]
      invariant 0 <= i <= n
      invariant AgreeUpTo(mem, l, r, i)
    {
      i := i + 1;
    }
    if i < n {
      res := mem[l + i] as int - mem[r + i] as int;
    } else {
      res := 0;
    }
    MemcmpStop(mem, l, r, n, i);
  }

  /** Where the `memcmp` loop stops, the bytes under the two cursors decide
      the comparison of the two blocks. */
  lemma MemcmpStop(mem: Memory, l: nat, r: nat, n: nat, i: nat)
    requires l + n <= |mem| && r + n <= |mem| && i <= n && AgreeUpTo(mem, l, r, i)
    requires i == n || mem[l + i] != mem[r + i]
    ensures i == n <==> mem[l..l + n] == mem[r..r + n]
    ensures i < n ==> (mem[l + i] < mem[r + i] <==> LexLess(mem[l..l + n], mem[r..r + n]))
    ensures i == n ==> !LexLess(mem[l..l + n], mem[r..r + n])
  {
    var a, b := mem[l..l + n], mem[r..r + n];
    AgreeSlices(mem, l, r, i);
    assert a[..i] == mem[l..l + i] && b[..i] == mem[r..r + i];
    if i < n {
      assert a[i] == mem[l + i] && b[i] == mem[r + i];
      assert a != b by { assert a[i] != b[i]; }
    } else {
      AgreeSlices(mem, l, r, n);
    }
    LexLessAtMismatch(a, b, i);
  }

  /** `strcmp(l, r)`: zero exactly when the two strings are equal; otherwise
      the difference of the first differing bytes (a terminator counting as
      the byte 0), whose sign is the lexicographic order of the strings. */
  method Strcmp(mem: Memory, l: nat, r: nat) returns (res: int)
    requires Terminated(mem, l) && Terminated(mem, r)
    ensures res == 0 <==> CStr(mem, l) == CStr(mem, r)
    ensures res < 0 <==> LexLess(CStr(mem, l), CStr(mem, r))
    ensures res > 0 <==> LexLess(CStr(mem, r), CStr(mem, l))
    ensures exists k :: AgreeUpTo(mem, l, r, k) && l + k < |mem| && r + k < |mem|
                        && res == mem[l + k] as int - mem[r + k] as int
  {
    var i := StrcmpScan(mem, l, r, FirstZero(mem, l), FirstZero(mem, r));
    res := mem[l + i] as int - mem[r + i] as int;
    StrcmpStop(mem, l, r, i);
  }

  /** The loop of `strcmp`: advance both cursors while the bytes agree and
      are not the terminator. */
  method StrcmpScan(mem: Memory, l: nat, r: nat, zl: nat, zr: nat) returns (i: nat)
    requires EndsAt(mem, l, zl) && EndsAt(mem, r, zr)
    ensures l + i <= zl && r + i <= zr
    ensures AgreeUpTo(mem, l, r, i)
    ensures mem[l + i] != mem[r + i] || mem[l + i] == 0
  {
    i := 0;
    while mem[l + i] == mem[r + i] && mem[l + i] != 0
      invariant l + i <= zl && r + i <= zr
      invariant AgreeUpTo(mem, l, r, i)
      decreases zl - (l + i)
    {
      i := i + 1;
    }
  }

  /** Where the `strcmp` loop stops, the bytes under the two cursors decide
      the comparison of the two strings. */
  lemma StrcmpStop(mem: Memory, l: nat, r: nat, i: nat)
    requires Terminated(mem, l) && Terminated(mem, r)
    requires l + i <= FirstZero(mem, l) && r + i <= FirstZero(mem, r) && AgreeUpTo(mem, l, r, i)
    requires mem[l + i] != mem[r + i] || mem[l + i] == 0
    ensures mem[l + i] == mem[r + i] <==> CStr(mem, l) == CStr(mem, r)
    ensures mem[l + i] < mem[r + i] <==> LexLess(CStr(mem, l), CStr(mem, r))
    ensures mem[l + i] > mem[r + i] <==> LexLess(CStr(mem, r), CStr(mem, l))
  {
    var a, b := CStr(mem, l), CStr(mem, r);
    PrefixOfCStr(mem, l, |a| + 1, i);
    PrefixOfCStr(mem, r, |b| + 1, i);
    AgreeSlices(mem, l, r, i);
    ComparedAt(a, b, i, mem[l + i], mem[r + i]);
  }

  /** `strncmp(l, r, n)`: compares at most `n` bytes, stopping at a terminator
      or a mismatch. It is zero exactly when the strings agree on their first
      `n` bytes (a shorter string agreeing only if the other ends there too), and
      its sign is the lexicographic order of those `n`-byte prefixes. */
  method Strncmp(mem: Memory, l: nat, r: nat, n: nat) returns (res: int)
    requires Terminated(mem, l) && Terminated(mem, r)
    ensures n == 0 ==> res == 0
    ensures res == 0 <==> Prefix(CStr(mem, l), n) == Prefix(CStr(mem, r), n)
    ensures res < 0 <==> LexLess(Prefix(CStr(mem, l), n), Prefix(CStr(mem, r), n))
    ensures res > 0 <==> LexLess(Prefix(CStr(mem, r), n), Prefix(CStr(mem, l), n))
  {
    if n == 0 {
      ComparedAt([], [], 0, 0, 0);
      return 0;
    }
    var i := StrncmpScan(mem, l, r, n, FirstZero(mem, l), FirstZero(mem, r));
    res := mem[l + i] as int - mem[r + i] as int;
    StrncmpStop(mem, l, r, n, i);
  }

  /** The loop of `strncmp`: advance both cursors while neither is at a
      terminator, fewer than `n - 1` bytes have been passed, and the bytes
      agree. */
  method StrncmpScan(mem: Memory, l: nat, r: nat, n: nat, zl: nat, zr: nat) returns (i: nat)
    requires EndsAt(mem, l, zl) && EndsAt(mem, r, zr) && 1 <= n
    ensures i < n && l + i <= zl && r + i <= zr
    ensures AgreeUpTo(mem, l, r, i)
    ensures mem[l + i] == 0 || mem[r + i] == 0 || i == n - 1 || mem[l + i] != mem[r + i]
  {
    i := 0;
    while mem[l + i] != 0 && mem[r + i] != 0 && i < n - 1 && mem[l + i] == mem[r + i]
      invariant 0 <= i <= n - 1
      invariant l + i <= zl && r + i <= zr
      invariant AgreeUpTo(mem, l, r, i)
      decreases n - i
    {
      i := i + 1;
    }
  }

  /** Where the `strncmp` loop stops, the bytes under the two cursors decide
      the comparison of the `n`-byte prefixes. */
  lemma StrncmpStop(mem: Memory, l: nat, r: nat, n: nat, i: nat)
    requires Terminated(mem, l) && Terminated(mem, r)
    requires i < n && l + i <= FirstZero(mem, l) && r + i <= FirstZero(mem, r)
    requires AgreeUpTo(mem, l, r, i)
    requires mem[l + i] == 0 || mem[r + i] == 0 || i == n - 1 || mem[l + i] != mem[r + i]
    ensures var a, b := Prefix(CStr(mem, l), n), Prefix(CStr(mem, r), n);
            && (mem[l + i] == mem[r + i] <==> a == b)
            && (mem[l + i] < mem[r + i] <==> LexLess(a, b))
            && (mem[l + i] > mem[r + i] <==> LexLess(b, a))
  {
    var a, b := Prefix(CStr(mem, l), n), Prefix(CStr(mem, r), n);
    PrefixOfCStr(mem, l, n, i);
    PrefixOfCStr(mem, r, n, i);
    AgreeSlices(mem, l, r, i);
    if mem[l + i] == 0 || mem[r + i] == 0 || mem[l + i] != mem[r + i] {
      ComparedAt(a, b, i, mem[l + i], mem[r + i]);
    } else {
      assert a == a[..i] + [a[i]] && b == b[..i] + [b[i]];
      ComparedAt(a, b, n, 0, 0);
    }
  }

  /** The `n`-byte prefix of the string at `p`, seen from a cursor `i < n`
      that has not passed the terminator. */
  lemma PrefixOfCStr(mem: Memory, p: nat, n: nat, i: nat)
    requires Terminated(mem, p) && i < n && p + i <= FirstZero(mem, p)
    ensures var a := Prefix(CStr(mem, p), n);
            && i <= |a| && a[..i] == mem[p..p + i]
            && (forall k | 0 <= k < |a| :: a[k] != 0)
            && (i < |a| <==> mem[p + i] != 0)
            && (i < |a| ==> a[i] == mem[p + i])
            && (i == n - 1 && mem[p + i] != 0 ==> |a| == n)
  {
  }

  /** `strlen(p)`: the distance to the first zero byte. The source steps
      byte by byte up to a word boundary, then a word at a time while
      `WORD_CONTAINS_ZERO` stays false, then byte by byte again; an aligned
      word read never leaves whole-word memory. */
  method Strlen(mem: Memory, p: nat) returns (len: nat)
    requires WholeWords(mem) && Terminated(mem, p)
    ensures p + len == FirstZero(mem, p)
    ensures len == |CStr(mem, p)|
  {
    var s := StrlenScan(mem, p, FirstZero(mem, p));
    len := s - p;
  }

  /** The loops of `strlen`: bytes up to the next word boundary, then whole
      words until one holds a zero byte, then bytes again; they stop at the
      terminator `z`. */
  method StrlenScan(mem: Memory, p: nat, z: nat) returns (s: nat)
    requires WholeWords(mem) && EndsAt(mem, p, z)
    ensures s == z
  {
    s := p;
    while s % WordBytes != 0
      invariant p <= s <= z
      decreases z - s
    {
      if mem[s] == 0 {
        return;
      }
      s := s + 1;
    }
    AlignedWordInBounds(mem, s);
    var w := LoadWord(mem, s);
    while WordContainsZero(w) == 0
      invariant s % WordBytes == 0 && p <= s <= z
      invariant s + WordBytes <= |mem| && w == LoadWord(mem, s)
      decreases z - s
    {
      WordZeroTest(mem, s, w);
      s := s + WordBytes;
      AlignedWordInBounds(mem, s);
      w := LoadWord(mem, s);
    }
    while mem[s] != 0
      invariant p <= s <= z
      decreases z - s
    {
      s := s + 1;
    }
  }

  /** `wcslen(p)` over memory viewed as 32-bit `wchar_t` units: the number of
      units before the first zero unit. */
  method Wcslen(units: seq<bv32>, p: nat) returns (len: nat)
    requires exists k :: p <= k < |units| && units[k] == 0
    ensures p + len < |units| && units[p + len] == 0
    ensures forall k | p <= k < p + len :: units[k] != 0
  {
    len := 0;
    while units[p + len] != 0
      invariant p + len < |units|
      invariant forall k | p <= k < p + len :: units[k] != 0
      decreases |units| - (p + len)
    {
      len := len + 1;
      if p + len == |units| {
        var k :| p <= k < |units| && units[k] == 0;
        assert false;
      }
    }
  }
}
