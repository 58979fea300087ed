/** The scalar parts of `stdlib.c`: `abs`, the `srand`/`rand` generator,
    and the memory-management entry points.

    `int` is the wasm32 `int`: 32-bit two's complement, where negation is
    `i32.sub 0 x` and wraps. The generator's state is a `uint64_t`, kept
    here as a natural number below 2^64. */
module Stdlib {
  import WasmMemory

  const IntMin: int := -0x8000_0000
  const IntMax: int := 0x7FFF_FFFF
  const Two32: nat := 0x1_0000_0000
  const Two64: nat := 0x1_0000_0000_0000_0000

  /** `RAND_MAX` (`stdlib.h`). */
  const RandMax: nat := 0x7FFF_FFFF

  predicate IsInt(x: int) {
    IntMin <= x <= IntMax
  }

  /** An integer reduced to the 32-bit two's complement range. */
  function Wrap(x: int): (r: int)
    ensures IsInt(r) && (r - x) % Two32 == 0
  {
    (x - IntMin) % Two32 + IntMin
  }

  /** Negation of a 32-bit `int` as wasm computes it. */
  function Negate(x: int): (r: int)
    requires IsInt(x)
    ensures IsInt(r)
    ensures x > IntMin ==> r == -x
    ensures x == IntMin ==> r == IntMin
  {
    Wrap(-x)
  }

  /** `abs`: the value when positive, its negation otherwise. Every value
      but `INT_MIN` gets a non-negative result of the same magnitude;
      `INT_MIN`, whose magnitude has no 32-bit `int`, comes back as itself. */
  function Abs(value: int): (r: int)
    requires IsInt(value)
    ensures IsInt(r)
    ensures value > IntMin ==> r >= 0 && (r == value || r == -value)
    ensures value == IntMin ==> r == IntMin
  {
    if value > 0 then value else Negate(value)
  }

  /** Taking the absolute value twice changes nothing. */
  lemma AbsIdempotent(value: int)
    requires IsInt(value)
    ensures Abs(Abs(value)) == Abs(value)
  {
  }

  /** A value and its negation have the same absolute value. */
  lemma AbsOfNegation(value: int)
    requires IsInt(value)
    ensures Abs(Negate(value)) == Abs(value)
  {
  }

  /** The multiplier of the 64-bit linear congruential step. */
  const Multiplier: nat := 6364136223846793005

  /** `srand`: `seed - 1` in `unsigned int` arithmetic, widened to 64 bits. */
  function Srand(seed: nat): (state: nat)
    requires seed < Two32
    ensures state < Two32
    ensures (state + 1) % Two32 == seed
  {
    (seed + Two32 - 1) % Two32
  }

  /** Different seeds give different states. */
  lemma SrandInjective(a: nat, b: nat)
    requires a < Two32 && b < Two32 && Srand(a) == Srand(b)
    ensures a == b
  {
  }

  /** The state update of `rand`: multiply, add one, keep 64 bits. */
  function Step(state: nat): (next: nat)
    requires state < Two64
    ensures next < Two64
  {
    (Multiplier * state + 1) % Two64
  }

  /** `rand`: advance the state and return its top 31 bits. */
  function Rand(state: nat): (r: (nat, nat))
    requires state < Two64
    ensures r.0 == Step(state)
    ensures r.1 <= RandMax
    ensures r.1 * 0x2_0000_0000 <= r.0 < (r.1 + 1) * 0x2_0000_0000
  {
    var next := Step(state);
    (next, next / 0x2_0000_0000)
  }

  /** The inverse of `Multiplier` modulo 2^64. */
  const InverseMultiplier: nat := 13877824140714322085

  /** The state before a step, recovered from the state after it. */
  function Unstep(next: nat): (state: nat)
    requires next < Two64
    ensures state < Two64
  {
    (InverseMultiplier * (next + Two64 - 1)) % Two64
  }

  /** The step is a bijection on 64-bit states: undoing it gives back the
      state it started from, so no two states collide. */
  lemma UnstepStep(state: nat)
    requires state < Two64
    ensures Unstep(Step(state)) == state
  {
    var q := (Multiplier * state + 1) / Two64;
    var next := Step(state);
    assert Multiplier * state + 1 == q * Two64 + next;
    var k := 1 - q;
    assert next + Two64 - 1 == Multiplier * state + Two64 * k;
    var c := 4787856489426250814;
    assert InverseMultiplier * Multiplier == 1 + c * Two64;
    assert InverseMultiplier * (Multiplier * state) == state + Two64 * (c * state) by {
      assert InverseMultiplier * (Multiplier * state) == (InverseMultiplier * Multiplier) * state;
    }
    assert InverseMultiplier * (Two64 * k) == Two64 * (InverseMultiplier * k);
    assert InverseMultiplier * (next + Two64 - 1)
        == InverseMultiplier * (Multiplier * state) + InverseMultiplier * (Two64 * k);
    AddMultipleMod(state, c * state + InverseMultiplier * k);
  }

  /** Adding a multiple of 2^64 leaves a 64-bit value's remainder alone. */
  lemma AddMultipleMod(x: nat, k: int)
    requires x < Two64 && x + Two64 * k >= 0
    ensures (x + Two64 * k) % Two64 == x
  {
  }

  /** A call a program makes on the generator. */
  datatype RandCall = SeedWith(seed: nat) | Draw

  predicate ValidCalls(calls: seq<RandCall>) {
    forall i | 0 <= i < |calls| :: calls[i].SeedWith? ==> calls[i].seed < Two32
  }

  /** The values `rand` returns over a sequence of calls, from `state`. */
  function Outputs(state: nat, calls: seq<RandCall>): (out: seq<nat>)
    requires state < Two64 && ValidCalls(calls)
    ensures |out| <= |calls|
    ensures forall i | 0 <= i < |out| :: out[i] <= RandMax
    decreases |calls|
  {
    if |calls| == 0 then []
    else match calls[0]
      case SeedWith(seed) => Outputs(Srand(seed), calls[1..])
      case Draw => var r := Rand(state); [r.1] + Outputs(r.0, calls[1..])
  }

  /** Only `srand` and `rand` touch the state, so after `srand(seed)` the
      values drawn depend on the seed and the later calls alone, never on
      what happened before. */
  lemma {:induction false} SeedDetermines(s1: nat, s2: nat, seed: nat, calls: seq<RandCall>)
    requires s1 < Two64 && s2 < Two64 && seed < Two32 && ValidCalls(calls)
    ensures Outputs(s1, [SeedWith(seed)] + calls) == Outputs(s2, [SeedWith(seed)] + calls)
  {
    assert ([SeedWith(seed)] + calls)[1..] == calls;
  }

  /** The outcome of one of the memory-management entry points: a pointer
      and the updated heap, a trap that ends the module, or (with
      assertions compiled out) a null pointer or a `free` that does
      nothing, the heap left as it was. */
  datatype Outcome =
    | Returned(block: nat, heap: WasmMemory.Heap)
    | OutOfMemory
    | AssertionFailed(condition: string)
    | ReturnedNull
    | DidNothing

  datatype MemoryCall =
    | Malloc(numBytes: nat)
    | Calloc(numElements: nat, elemSize: nat)
    | Realloc(prev: nat, newSize: nat)
    | Free(ptr: nat)
    | AlignedAlloc(numBytes: nat, alignment: nat)

  /** A refused entry point. The build defines exactly one of
      `STD_ASSERTIONS_ENABLED` and `STD_ASSERTIONS_DISABLED`; with
      assertions enabled each fails the assertion whose text names it,
      and with them disabled `assert` expands to nothing, so `free` returns
      and the other three return `nullptr`. */
  function Refused(assertions: bool, call: MemoryCall): (r: Outcome)
    requires !call.Malloc?
    ensures assertions <==> r.AssertionFailed?
    ensures !assertions ==> (r.DidNothing? <==> call.Free?)
    ensures !assertions ==> (r.ReturnedNull? <==> !call.Free?)
  {
    if !assertions then
      if call.Free? then DidNothing else ReturnedNull
    else
      match call
      case Calloc(_, _) => AssertionFailed("0 && \"callocing memory is not allowed in WebAssembly!\"")
      case Realloc(_, _) => AssertionFailed("0 && \"reallocing memory is not allowed in WebAssembly!\"")
      case Free(_) => AssertionFailed("0 && \"freeing memory is not allowed in WebAssembly!\"")
      case AlignedAlloc(_, _) => AssertionFailed("0 && \"aligned_allocing memory is not allowed in WebAssembly!\"")
  }

  /** The five entry points as written: `malloc` hands the request to
      `WasmMemoryAllocate` as written, and the other four are refused,
      through an assertion when `assertions` is set. */
  function MemoryEntry(assertions: bool, h: WasmMemory.Heap, call: MemoryCall): (r: Outcome)
    requires WasmMemory.Valid(h) && (call.Malloc? ==> WasmMemory.IsU32(call.numBytes))
    ensures r.Returned? <==>
              call.Malloc?
              && WasmMemory.PagesNeededAsWritten(h.current, call.numBytes) <= WasmMemory.GuestMaxPages
    ensures r.Returned? ==>
              r.block == h.current && r.heap.current == (h.current + call.numBytes) % WasmMemory.Two32
    ensures r.Returned? ==> r.heap.start == h.start && r.heap.pagesAllocated >= h.pagesAllocated
    ensures r.AssertionFailed? <==> assertions && !call.Malloc?
    ensures r.ReturnedNull? <==> !assertions && !call.Malloc? && !call.Free?
    ensures r.DidNothing? <==> !assertions && call.Free?
  {
    match call
    case Malloc(n) =>
      (match WasmMemory.AllocateAsWritten(h, n)
       case OutOfMemory => OutOfMemory
       case Allocated(block, _, heap') => Returned(block, heap'))
    case _ => Refused(assertions, call)
  }

  /** The same entry points over the corrected allocator: `malloc` returns
      exactly when the heap end stays within 2 GiB. */
  function MemoryEntryCorrected(assertions: bool, h: WasmMemory.Heap, call: MemoryCall): (r: Outcome)
    requires WasmMemory.Valid(h) && (call.Malloc? ==> WasmMemory.IsU32(call.numBytes))
    ensures r.Returned? <==> call.Malloc? && h.current + call.numBytes <= WasmMemory.MaxHeapEnd
    ensures r.Returned? ==> r.block == h.current && r.heap.current == h.current + call.numBytes
    ensures r.Returned? ==> r.heap.start == h.start && r.heap.pagesAllocated >= h.pagesAllocated
    ensures r.AssertionFailed? <==> assertions && !call.Malloc?
    ensures r.ReturnedNull? <==> !assertions && !call.Malloc? && !call.Free?
    ensures r.DidNothing? <==> !assertions && call.Free?
  {
    match call
    case Malloc(n) =>
      (match WasmMemory.Allocate(h, n)
       case OutOfMemory => OutOfMemory
       case Allocated(block, _, heap') => Returned(block, heap'))
    case _ => Refused(assertions, call)
  }

  /** Whatever the corrected `malloc` serves, the one as written serves
      too, with the same block and the same new current address; the two
      differ only on requests reaching past 2 GiB. */
  lemma CorrectedWithinAsWritten(assertions: bool, h: WasmMemory.Heap, call: MemoryCall)
    requires WasmMemory.Valid(h) && (call.Malloc? ==> WasmMemory.IsU32(call.numBytes))
    requires MemoryEntryCorrected(assertions, h, call).Returned?
    ensures MemoryEntry(assertions, h, call).Returned?
    ensures MemoryEntry(assertions, h, call).block == MemoryEntryCorrected(assertions, h, call).block
    ensures MemoryEntry(assertions, h, call).heap.current == MemoryEntryCorrected(assertions, h, call).heap.current
  {
    var n := WasmMemory.PagesNeededAsWritten(h.current, call.numBytes);
    assert (h.current + call.numBytes + 1) % WasmMemory.Two32 == h.current + call.numBytes + 1;
    assert n * WasmMemory.GuestPageSize <= WasmMemory.MaxHeapEnd + 1;
  }

  /** One byte more than the 2 GiB limit still passes the rounded-down page
      test, so `malloc` as written serves a block that ends past 2 GiB. */
  lemma MallocPastLimit(assertions: bool)
    ensures var h := WasmMemory.Heap(0x8000_0000, 0x8000_0000, 524288);
            MemoryEntry(assertions, h, Malloc(1)).Returned?
            && !MemoryEntryCorrected(assertions, h, Malloc(1)).Returned?
  {
  }
}
