/** Bytes and machine words of a wasm32 guest's linear memory.

    On wasm32 `size_t` and `uintptr_t` are 32 bits wide and memory is
    little-endian, so a `may_alias` word access at address `i` reads the four
    bytes `i .. i+3`, least significant first. Addresses are indices into a
    sequence of bytes. */
module Words {

  /** The guest's linear memory, one byte per address. */
  type Memory = seq<bv8>

  /** `sizeof(size_t)` on wasm32. */
  const WordBytes: nat := 4

  /** 2^32: the number of distinct wasm32 addresses and the modulus of
      `uint32_t`/`size_t` arithmetic. */
  const Two32: nat := 0x1_0000_0000

  /** Linear memory always consists of whole 64 KiB pages, so its length is a
      multiple of the word size, and it never exceeds the 32-bit address space.
      This is what lets an aligned word read never run off the end. */
  predicate WholeWords(mem: Memory) {
    |mem| % WordBytes == 0 && |mem| <= Two32
  }

  /** A C pointer: either null or an address in linear memory. */
  datatype Ptr = Null | Addr(addr: nat)

  /** Conversion of an `int` to `unsigned char`: reduction modulo 256. */
  function ToByte(value: int): bv8
  {
    (value % 256) as bv8
  }

  /** A byte converted to `int` and back is unchanged. */
  lemma ToByteOfByte(b: bv8)
    ensures ToByte(b as int) == b
  {
    assert (b as int) % 256 == b as int;
  }

  /** Byte `k` (0 = least significant) of a 32-bit word. */
  function ByteOf(w: bv32, k: nat): bv8
    requires k < 4
  {
    if k == 0 then (w & 0xFF) as bv8
    else if k == 1 then ((w >> 8) & 0xFF) as bv8
    else if k == 2 then ((w >> 16) & 0xFF) as bv8
    else (w >> 24) as bv8
  }

  /** Little-endian 32-bit load of the word at address `i`. */
  function LoadWord(mem: Memory, i: nat): (w: bv32)
    requires i + 4 <= |mem|
    ensures ByteOf(w, 0) == mem[i] && ByteOf(w, 1) == mem[i + 1]
    ensures ByteOf(w, 2) == mem[i + 2] && ByteOf(w, 3) == mem[i + 3]
  {
    (mem[i] as bv32) | ((mem[i + 1] as bv32) << 8)
    | ((mem[i + 2] as bv32) << 16) | ((mem[i + 3] as bv32) << 24)
  }

  /** Little-endian 32-bit store of `w` at address `i`. */
  function StoreWord(mem: Memory, i: nat, w: bv32): (m: Memory)
    requires i + 4 <= |mem|
    ensures |m| == |mem|
    ensures forall j | 0 <= j < |m| && !(i <= j < i + 4) :: m[j] == mem[j]
    ensures m[i] == ByteOf(w, 0) && m[i + 1] == ByteOf(w, 1)
    ensures m[i + 2] == ByteOf(w, 2) && m[i + 3] == ByteOf(w, 3)
  {
    mem[i := ByteOf(w, 0)][i + 1 := ByteOf(w, 1)][i + 2 := ByteOf(w, 2)][i + 3 := ByteOf(w, 3)]
  }

  /** A stored word reads back unchanged. */
  lemma LoadStoreWord(mem: Memory, i: nat, w: bv32)
    requires i + 4 <= |mem|
    ensures LoadWord(StoreWord(mem, i, w), i) == w
  {
    var m := StoreWord(mem, i, w);
    assert ByteOf(LoadWord(m, i), 0) == ByteOf(w, 0);
    assert ByteOf(LoadWord(m, i), 1) == ByteOf(w, 1);
    assert ByteOf(LoadWord(m, i), 2) == ByteOf(w, 2);
    assert ByteOf(LoadWord(m, i), 3) == ByteOf(w, 3);
    WordsEqualByBytes(LoadWord(m, i), w);
  }

  /** Two words with the same four bytes are the same word. */
  lemma WordsEqualByBytes(a: bv32, b: bv32)
    requires ByteOf(a, 0) == ByteOf(b, 0) && ByteOf(a, 1) == ByteOf(b, 1)
    requires ByteOf(a, 2) == ByteOf(b, 2) && ByteOf(a, 3) == ByteOf(b, 3)
    ensures a == b
  {
  }

  /** Some byte of `w` is zero. */
  predicate HasZeroByte(w: bv32) {
    ByteOf(w, 0) == 0 || ByteOf(w, 1) == 0 || ByteOf(w, 2) == 0 || ByteOf(w, 3) == 0
  }

  /** The `WORD_CONTAINS_ZERO` macro on a 32-bit `size_t`:
      `(w - ONES) & ~w & HIGHS` with `ONES = (size_t)-1/UCHAR_MAX` and
      `HIGHS = ONES * (UCHAR_MAX/2+1)`. It is non-zero exactly when some byte of
      `w` is zero; stray high bits above the lowest zero byte never matter,
      because they only appear once a zero byte has been passed. */
  function WordContainsZero(w: bv32): (r: bv32)
    ensures r != 0 <==> HasZeroByte(w)
  {
    (w - 0x0101_0101) & !w & (0x0101_0101 * 0x80)
  }

  /** The byte `c` replicated into every byte of a word; the source computes it
      as `((size_t)-1/UCHAR_MAX) * c` (see `ByteMaskIsProduct`). */
  function ByteMask(c: bv8): (m: bv32)
    ensures ByteOf(m, 0) == c && ByteOf(m, 1) == c && ByteOf(m, 2) == c && ByteOf(m, 3) == c
  {
    (c as bv32) | ((c as bv32) << 8) | ((c as bv32) << 16) | ((c as bv32) << 24)
  }

  /** The replicated byte is the product the source writes. */
  lemma ByteMaskIsProduct(c: bv8)
    ensures ByteMask(c) == 0x0101_0101 * (c as bv32)
  {
  }

  /** XOR with a replicated byte turns "byte equals c" into "byte is zero". */
  lemma XorMaskBytes(w: bv32, c: bv8)
    ensures ByteOf(w ^ ByteMask(c), 0) == 0 <==> ByteOf(w, 0) == c
    ensures ByteOf(w ^ ByteMask(c), 1) == 0 <==> ByteOf(w, 1) == c
    ensures ByteOf(w ^ ByteMask(c), 2) == 0 <==> ByteOf(w, 2) == c
    ensures ByteOf(w ^ ByteMask(c), 3) == 0 <==> ByteOf(w, 3) == c
  {
    XorReplicated(w, ByteMask(c), c);
  }

  lemma XorReplicated(w: bv32, m: bv32, c: bv8)
    requires ByteOf(m, 0) == c && ByteOf(m, 1) == c && ByteOf(m, 2) == c && ByteOf(m, 3) == c
    ensures ByteOf(w ^ m, 0) == 0 <==> ByteOf(w, 0) == c
    ensures ByteOf(w ^ m, 1) == 0 <==> ByteOf(w, 1) == c
    ensures ByteOf(w ^ m, 2) == 0 <==> ByteOf(w, 2) == c
    ensures ByteOf(w ^ m, 3) == 0 <==> ByteOf(w, 3) == c
  {
    XorLow(w, m, c);
    XorHigh(w, m, c);
  }

  lemma XorLow(w: bv32, m: bv32, c: bv8)
    requires ByteOf(m, 0) == c && ByteOf(m, 1) == c
    ensures ByteOf(w ^ m, 0) == 0 <==> ByteOf(w, 0) == c
    ensures ByteOf(w ^ m, 1) == 0 <==> ByteOf(w, 1) == c
  {
  }

  lemma XorHigh(w: bv32, m: bv32, c: bv8)
    requires ByteOf(m, 2) == c && ByteOf(m, 3) == c
    ensures ByteOf(w ^ m, 2) == 0 <==> ByteOf(w, 2) == c
    ensures ByteOf(w ^ m, 3) == 0 <==> ByteOf(w, 3) == c
  {
  }

  /** The word-at-a-time zero test on memory: for the word `w` loaded at `i`,
      it fires exactly when one of the four bytes at `i` is zero. */
  lemma WordZeroTest(mem: Memory, i: nat, w: bv32)
    requires i + 4 <= |mem| && w == LoadWord(mem, i)
    ensures WordContainsZero(w) != 0
            <==> (mem[i] == 0 || mem[i + 1] == 0 || mem[i + 2] == 0 || mem[i + 3] == 0)
  {
  }

  /** The word-at-a-time search test on memory: after XOR with the mask
      `m == ByteMask(c)`, the zero test on the word `w` loaded at `i` fires
      exactly when one of the four bytes at `i` equals `c`. */
  lemma WordMatchTest(mem: Memory, i: nat, c: bv8, w: bv32, m: bv32)
    requires i + 4 <= |mem| && w == LoadWord(mem, i) && m == ByteMask(c)
    ensures WordContainsZero(w ^ m) != 0
            <==> (mem[i] == c || mem[i + 1] == c || mem[i + 2] == c || mem[i + 3] == c)
  {
    XorReplicated(w, m, c);
  }

  /** An aligned word that starts at or before the last byte of a
      whole-word memory lies entirely inside it. */
  lemma AlignedWordInBounds(mem: Memory, i: nat)
    requires WholeWords(mem)
    requires i % WordBytes == 0 && i < |mem|
    ensures i + WordBytes <= |mem|
  {
  }
}
