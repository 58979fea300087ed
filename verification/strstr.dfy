/** `strstr` of `string.c`: an empty needle matches at once; otherwise the
    haystack is first advanced to the first occurrence of the needle's first
    byte, and the search is handed to the rolling-window routine for needles
    of two, three or four bytes, or to the two-way search for longer ones. */
module Strstr {
  import opened Words
  import opened CStrings
  import opened Search
  import TwoWay

  /** The string at a position inside another string is its tail. */
  lemma TailString(mem: Memory, h: nat, q: nat)
    requires Terminated(mem, h) && h <= q <= FirstZero(mem, h)
    ensures Terminated(mem, q) && CStr(mem, q) == CStr(mem, h)[q - h..]
  {
    FirstZeroUnique(mem, q, FirstZero(mem, h));
  }

  /** An occurrence in a tail is an occurrence in the whole, moved by the
      tail's offset. */
  lemma TailMatch(hay: seq<bv8>, ndl: seq<bv8>, o: nat, k: nat)
    requires o <= |hay|
    ensures MatchAt(hay[o..], ndl, k) <==> MatchAt(hay, ndl, o + k)
  {
    if k + |ndl| <= |hay| - o {
      assert hay[o..][k..k + |ndl|] == hay[o + k..o + k + |ndl|];
    }
  }

  /** When nothing can start before `o`, searching the tail from `o` decides
      the search of the whole. */
  lemma TailSearch(hay: seq<bv8>, ndl: seq<bv8>, o: nat)
    requires o <= |hay|
    requires forall k | 0 <= k < o :: !MatchAt(hay, ndl, k)
    ensures NoMatch(hay[o..], ndl) <==> NoMatch(hay, ndl)
  {
    if NoMatch(hay[o..], ndl) {
      forall k | o <= k <= |hay|
        ensures !MatchAt(hay, ndl, k)
      {
        TailMatch(hay, ndl, o, k - o);
      }
    } else {
      var k :| 0 <= k <= |hay| - o && MatchAt(hay[o..], ndl, k);
      TailMatch(hay, ndl, o, k);
    }
  }

  lemma TailFirst(hay: seq<bv8>, ndl: seq<bv8>, o: nat, k: nat)
    requires o <= |hay|
    requires forall j | 0 <= j < o :: !MatchAt(hay, ndl, j)
    requires FirstMatch(hay[o..], ndl, k)
    ensures FirstMatch(hay, ndl, o + k)
  {
    TailMatch(hay, ndl, o, k);
    forall j | o <= j < o + k
      ensures !MatchAt(hay, ndl, j)
    {
      TailMatch(hay, ndl, o, j - o);
    }
  }

  /** A needle longer than the haystack occurs nowhere in it. */
  lemma TooLong(hay: seq<bv8>, ndl: seq<bv8>)
    requires |hay| < |ndl|
    ensures NoMatch(hay, ndl)
  {
  }

  /** Occurrences must start with the needle's first byte. */
  lemma FirstByteNeeded(hay: seq<bv8>, ndl: seq<bv8>, k: nat)
    requires 1 <= |ndl| && k < |hay| && hay[k] != ndl[0]
    ensures !MatchAt(hay, ndl, k)
  {
    if MatchAt(hay, ndl, k) {
      MatchAtBytes(hay, ndl, k);
    }
  }

  /** What `strstr` promises for the haystack `hay` at address `base` and
      the needle `ndl`: a result lies inside the haystack; a needle longer
      than the haystack gives null; a needle of up to four bytes gives
      exactly its leftmost occurrence, or null when there is none; a longer
      needle gives an occurrence whenever its two-way factorization is
      critical (`TwoWay.Critical`). */
  ghost predicate Answers(hay: seq<bv8>, ndl: seq<bv8>, base: nat, r: Ptr) {
    (r.Addr? ==> base <= r.addr && r.addr - base + |ndl| <= |hay|)
    && (|ndl| > |hay| ==> r == Null)
    && (|ndl| <= 4 ==> (r == Null <==> NoMatch(hay, ndl)))
    && (|ndl| <= 4 && r.Addr? ==> FirstMatch(hay, ndl, r.addr - base))
    && (r.Addr? && 4 < |ndl| && TwoWay.Critical(TwoWay.Factorization(ndl))
        ==> MatchAt(hay, ndl, r.addr - base))
  }

  /** Answers found in a tail that starts at offset `o`, when nothing can
      start before `o`, are answers for the whole haystack. */
  lemma Lift(hay: seq<bv8>, ndl: seq<bv8>, h: nat, o: nat, s: Ptr)
    requires o <= |hay| && 1 <= |ndl|
    requires forall k | 0 <= k < o :: !MatchAt(hay, ndl, k)
    requires Answers(hay[o..], ndl, h + o, s)
    ensures Answers(hay, ndl, h, s)
  {
    TailSearch(hay, ndl, o);
    if s.Addr? {
      TailMatch(hay, ndl, o, s.addr - (h + o));
      if |ndl| <= 4 {
        TailFirst(hay, ndl, o, s.addr - (h + o));
      }
    }
  }

  /** `strstr(h, nd)`. For an empty needle the haystack itself; for a
      needle of up to four bytes exactly the leftmost occurrence, or null
      when there is none. For a longer needle a result always lies inside
      the haystack, and it is an occurrence whenever the two-way
      factorization of the needle is critical (`TwoWay.Critical`). A needle
      longer than the haystack always gives null. */
  method Strstr(mem: Memory, h: nat, nd: nat) returns (r: Ptr)
    requires WholeWords(mem) && Terminated(mem, h) && Terminated(mem, nd)
    ensures |CStr(mem, nd)| == 0 ==> r == Addr(h)
    ensures 1 <= |CStr(mem, nd)| <= 4 ==> (r == Null <==> NoMatch(CStr(mem, h), CStr(mem, nd)))
    ensures 1 <= |CStr(mem, nd)| <= 4 && r.Addr?
            ==> h <= r.addr && FirstMatch(CStr(mem, h), CStr(mem, nd), r.addr - h)
    ensures |CStr(mem, nd)| > |CStr(mem, h)| ==> r == Null
    ensures r.Addr? ==> h <= r.addr && r.addr - h + |CStr(mem, nd)| <= |CStr(mem, h)|
    ensures r.Addr? && 4 < |CStr(mem, nd)| && TwoWay.Critical(TwoWay.Factorization(CStr(mem, nd)))
            ==> MatchAt(CStr(mem, h), CStr(mem, nd), r.addr - h)
  {
    if mem[nd] == 0 {
      return Addr(h);
    }
    r := AfterStrchr(mem, h, nd);
  }

  /** Line 380 onwards for a non-empty needle: `strchr` moves the haystack
      to the first copy of the needle's first byte; no occurrence can start
      before it. A one-byte needle is then found. */
  method AfterStrchr(mem: Memory, h: nat, nd: nat) returns (r: Ptr)
    requires WholeWords(mem) && Terminated(mem, h) && Terminated(mem, nd)
    requires 1 <= |CStr(mem, nd)|
    ensures Answers(CStr(mem, h), CStr(mem, nd), h, r)
  {
    ToByteOfByte(mem[nd]);
    var q := Strchr(mem, h, mem[nd] as int);
    if q == Null {
      NotFound(mem, h, nd, FirstZero(mem, h) + 1);
      return Null;
    }
    r := FromFirstByte(mem, h, nd, q.addr);
  }

  /** The rest of `strstr` once `q` holds the first copy of the needle's
      first byte: search the tail from `q` and lift its answer. */
  method FromFirstByte(mem: Memory, h: nat, nd: nat, q: nat) returns (r: Ptr)
    requires WholeWords(mem) && Terminated(mem, h) && Terminated(mem, nd)
    requires 1 <= |CStr(mem, nd)|
    requires h <= q <= FirstZero(mem, h) && mem[q] == mem[nd]
    requires forall k | h <= k < q :: mem[k] != mem[nd]
    ensures Answers(CStr(mem, h), CStr(mem, nd), h, r)
  {
    NotFound(mem, h, nd, q);
    TailString(mem, h, q);
    var s;
    if mem[nd + 1] == 0 {
      s := Addr(q);
      OneByte(mem, q, nd);
    } else {
      s := Dispatch(mem, q, nd);
    }
    Lift(CStr(mem, h), CStr(mem, nd), h, q - h, s);
    r := s;
  }

  /** No occurrence starts where the needle's first byte is absent. */
  lemma NotFound(mem: Memory, h: nat, nd: nat, e: nat)
    requires Terminated(mem, h) && Terminated(mem, nd) && 1 <= |CStr(mem, nd)|
    requires h <= e <= FirstZero(mem, h) + 1
    requires forall k | h <= k < e :: mem[k] != mem[nd]
    ensures forall k | 0 <= k < e - h :: !MatchAt(CStr(mem, h), CStr(mem, nd), k)
    ensures e == FirstZero(mem, h) + 1 ==> NoMatch(CStr(mem, h), CStr(mem, nd))
  {
    var hay, ndl := CStr(mem, h), CStr(mem, nd);
    forall k | 0 <= k < e - h && k < |hay|
      ensures !MatchAt(hay, ndl, k)
    {
      FirstByteNeeded(hay, ndl, k);
    }
  }

  /** A one-byte needle at the first copy of its byte is found there. */
  lemma OneByte(mem: Memory, q: nat, nd: nat)
    requires Terminated(mem, q) && Terminated(mem, nd)
    requires |CStr(mem, nd)| == 1 && q < FirstZero(mem, q) && mem[q] == mem[nd]
    ensures Answers(CStr(mem, q), CStr(mem, nd), q, Addr(q))
  {
    MatchAtBytes(CStr(mem, q), CStr(mem, nd), 0);
  }

  /** The string at `p` is longer than `n` bytes exactly when the byte after
      its first `n` is not the terminator. */
  lemma Longer(mem: Memory, p: nat, n: nat)
    requires Terminated(mem, p) && n <= |CStr(mem, p)|
    ensures p + n < |mem|
    ensures n < |CStr(mem, p)| <==> mem[p + n] != 0
  {
    if n < |CStr(mem, p)| {
      assert CStr(mem, p)[n] == mem[p + n];
    }
  }

  /** Lines 382-383, once the haystack starts with the needle's first byte
      and the needle has at least two bytes: a haystack that ends first
      gives null, a two-byte needle goes to the two-byte search. */
  method Dispatch(mem: Memory, q: nat, nd: nat) returns (s: Ptr)
    requires WholeWords(mem) && Terminated(mem, q) && Terminated(mem, nd)
    requires 1 <= |CStr(mem, q)| && 2 <= |CStr(mem, nd)|
    ensures Answers(CStr(mem, q), CStr(mem, nd), q, s)
  {
    Longer(mem, q, 1);
    if mem[q + 1] == 0 {
      return Null;
    }
    Longer(mem, nd, 2);
    if mem[nd + 2] == 0 {
      s := TwoByte(mem, q, nd);
    } else {
      s := Dispatch3(mem, q, nd);
    }
  }

  /** Lines 384-385: the same for a needle of three bytes or more. */
  method Dispatch3(mem: Memory, q: nat, nd: nat) returns (s: Ptr)
    requires WholeWords(mem) && Terminated(mem, q) && Terminated(mem, nd)
    requires 2 <= |CStr(mem, q)| && 3 <= |CStr(mem, nd)|
    ensures Answers(CStr(mem, q), CStr(mem, nd), q, s)
  {
    Longer(mem, q, 2);
    if mem[q + 2] == 0 {
      return Null;
    }
    Longer(mem, nd, 3);
    if mem[nd + 3] == 0 {
      s := ThreeByte(mem, q, nd);
    } else {
      s := Dispatch4(mem, q, nd);
    }
  }

  /** Lines 386-390: a four-byte needle goes to the four-byte search, a
      longer one to the two-way search. */
  method Dispatch4(mem: Memory, q: nat, nd: nat) returns (s: Ptr)
    requires WholeWords(mem) && Terminated(mem, q) && Terminated(mem, nd)
    requires 3 <= |CStr(mem, q)| && 4 <= |CStr(mem, nd)|
    ensures Answers(CStr(mem, q), CStr(mem, nd), q, s)
  {
    Longer(mem, q, 3);
    if mem[q + 3] == 0 {
      return Null;
    }
    Longer(mem, nd, 4);
    if mem[nd + 4] == 0 {
      s := FourByte(mem, q, nd);
    } else {
      s := TwoWay.TwoWay(mem, q, nd);
    }
  }
}
