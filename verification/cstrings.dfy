/** Null-terminated byte strings in linear memory: where a string ends and
    what it holds. These are the reference definitions the string routines are
    proved against. */
module CStrings {
  import opened Words

  /** Some byte at or after `p` is zero: `p` points at a C string. */
  predicate Terminated(mem: Memory, p: nat) {
    exists k :: p <= k < |mem| && mem[k] == 0
  }

  /** The address of the terminator of the string at `p`. */
  function FirstZero(mem: Memory, p: nat): (z: nat)
    requires Terminated(mem, p)
    ensures p <= z < |mem| && mem[z] == 0
    ensures forall k | p <= k < z :: mem[k] != 0
    decreases |mem| - p
  {
    if mem[p] == 0 then p
    else
      assert Terminated(mem, p + 1) by {
        var k :| p <= k < |mem| && mem[k] == 0;
        assert k != p;
      }
      FirstZero(mem, p + 1)
  }

  /** `z` is the terminator of the string at `p`: the first zero byte at or
      after `p`. Loops over a string take it as a parameter. */
  predicate EndsAt(mem: Memory, p: nat, z: nat) {
    p <= z < |mem| && mem[z] == 0 && forall k | p <= k < z :: mem[k] != 0
  }

  /** The bytes of the string at `p`, without its terminator. */
  function CStr(mem: Memory, p: nat): (s: seq<bv8>)
    requires Terminated(mem, p)
    ensures p + |s| < |mem| && mem[p + |s|] == 0
    ensures forall k | 0 <= k < |s| :: s[k] == mem[p + k] && s[k] != 0
  {
    mem[p..FirstZero(mem, p)]
  }

  /** A zero byte at `z` with none between `p` and `z` is the terminator. */
  lemma FirstZeroUnique(mem: Memory, p: nat, z: nat)
    requires p <= z < |mem| && mem[z] == 0
    requires forall k | p <= k < z :: mem[k] != 0
    ensures Terminated(mem, p) && FirstZero(mem, p) == z
  {
  }

  /** Byte strings compared as C does (7.24.4 of ISO C11): lexicographically,
      each byte read as an unsigned char, a proper prefix ordering first. */
  predicate LexLess(a: seq<bv8>, b: seq<bv8>) {
    exists k :: 0 <= k <= |a| && k <= |b| && a[..k] == b[..k]
      && (k == |a| < |b| || (k < |a| && k < |b| && a[k] < b[k]))
  }

  /** The first `n` bytes of `s`, or all of `s` when it is shorter. */
  function Prefix(s: seq<bv8>, n: nat): (r: seq<bv8>)
    ensures |r| <= n && r <= s
    ensures |r| == n || r == s
  {
    if n <= |s| then s[..n] else s
  }
}
