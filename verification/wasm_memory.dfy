/** The guest's bump allocator (`std_wasm_memory.c`).

    Memory is only ever handed out, never returned: the heap is a start
    address fixed at initialisation, a current address that moves up by the
    size of every request, and a count of pages the guest believes it has.
    When a request would reach past that count, the guest asks the host to
    grow linear memory; past the module's limit it aborts through the host.

    The members named `...AsWritten` model the source as written, with its
    32-bit wrap-around and its page count rounded down; the allocator the
    rest of the model uses,
    `Allocate`, computes the heap end without 32-bit wrap-around, rounds the
    page count up, and counts pages in the 64 KiB unit the host grows by. */
module WasmMemory {

  /** `WASM_MEMORY_PAGE_SIZE`: the page size the guest source assumes. */
  const GuestPageSize: nat := 4096

  /** `WASM_MEMORY_MAX_NUM_PAGES`, in the guest's 4 KiB pages: 2 GiB. */
  const GuestMaxPages: nat := 524288

  /** The size of a WebAssembly page, the unit `memory.grow` counts in. */
  const PageSize: nat := 65536

  /** The 2 GiB cap the guest means to enforce, in bytes. */
  const MaxHeapEnd: nat := 0x8000_0000

  /** The cap in 64 KiB pages. */
  const MaxPages: nat := 32768

  const Two32: nat := 0x1_0000_0000

  predicate IsU32(x: int) {
    0 <= x < Two32
  }

  /** The three `uint32_t` globals of the allocator. */
  datatype Heap = Heap(start: nat, current: nat, pagesAllocated: nat)

  predicate Valid(h: Heap) {
    IsU32(h.start) && IsU32(h.current) && IsU32(h.pagesAllocated)
  }

  /** The outcome of one allocation request. `OutOfMemory` is the call to
      `jsStdAbort`, which never returns, so no state changes. Otherwise
      `grow` is the number of pages requested from the host (0: no call). */
  datatype Allocation =
    | OutOfMemory
    | Allocated(block: nat, grow: nat, heap: Heap)

  /** `InitWasmMemory`: the page count given by the host, and the heap start
      and current address both at the exported heap base. The heap base is
      a link-time constant (`&__heap_base`), so it is a parameter here. */
  function Init(initialPages: nat, heapBase: nat): (h: Heap)
    requires IsU32(initialPages) && IsU32(heapBase)
    ensures Valid(h)
    ensures h.start == heapBase && h.current == heapBase
    ensures h.pagesAllocated == initialPages
  {
    Heap(heapBase, heapBase, initialPages)
  }

  /** `numPagesNeeded` as the source computes it: `current + numBytes + 1`
      in `uint32_t` arithmetic, then divided by 4096 rounding down. */
  function PagesNeededAsWritten(current: nat, numBytes: nat): (n: nat)
    requires IsU32(current) && IsU32(numBytes)
    ensures n * GuestPageSize <= (current + numBytes + 1) % Two32
    ensures (current + numBytes + 1) % Two32 < (n + 1) * GuestPageSize
  {
    ((current + numBytes + 1) % Two32) / GuestPageSize
  }

  /** `WasmMemoryAllocate` as written, including the 32-bit wrap of both
      the page computation and the current address. */
  function AllocateAsWritten(h: Heap, numBytes: nat): (r: Allocation)
    requires Valid(h) && IsU32(numBytes)
    ensures r.OutOfMemory? <==> PagesNeededAsWritten(h.current, numBytes) > GuestMaxPages
    ensures r.Allocated? ==> Valid(r.heap) && r.block == h.current
    ensures r.Allocated? ==> r.heap.start == h.start
    ensures r.Allocated? ==> r.heap.current == (h.current + numBytes) % Two32
    ensures r.Allocated? ==>
              r.heap.pagesAllocated
                == (if h.pagesAllocated < PagesNeededAsWritten(h.current, numBytes)
                    then PagesNeededAsWritten(h.current, numBytes) else h.pagesAllocated)
              && r.grow == r.heap.pagesAllocated - h.pagesAllocated
  {
    var needed := PagesNeededAsWritten(h.current, numBytes);
    if needed > GuestMaxPages then OutOfMemory
    else
      var grown := if h.pagesAllocated < needed then needed else h.pagesAllocated;
      Allocated(h.current, grown - h.pagesAllocated,
                Heap(h.start, (h.current + numBytes) % Two32, grown))
  }

  /** A request whose end wraps past 2^32 slips under the page check: no
      abort, no growth, and the current address moves backwards, so the
      next block overlaps the one just returned. */
  lemma WrapSlipsPastLimit()
    ensures var h := Heap(0x1_0000, 0x1_0000, 17);
            var r := AllocateAsWritten(h, 0xFFFF_FFFF);
            r.Allocated? && r.grow == 0 && r.heap.current < r.block
  {
  }

  /** Rounding down under-counts: a 4097-byte block at address 0 is covered
      by one 4096-byte page. */
  lemma FloorUnderCounts()
    ensures var r := AllocateAsWritten(Heap(0, 0, 0), 4097);
            r.Allocated? && r.heap.pagesAllocated * GuestPageSize < r.block + 4097
  {
  }

  /** The first block of a fresh heap starts at the heap base, and the
      current address moves on by the request, modulo 2^32. */
  lemma FirstBlockAtBaseAsWritten(initialPages: nat, heapBase: nat, numBytes: nat)
    requires IsU32(initialPages) && IsU32(heapBase) && IsU32(numBytes)
    requires AllocateAsWritten(Init(initialPages, heapBase), numBytes).Allocated?
    ensures var r := AllocateAsWritten(Init(initialPages, heapBase), numBytes);
            r.block == heapBase && r.heap.current == (heapBase + numBytes) % Two32
            && r.heap.pagesAllocated >= initialPages
  {
  }

  /** As written, the second of two blocks starts where the first ends,
      modulo 2^32; the two are disjoint only when the first does not
      wrap. */
  lemma SuccessiveBlocksAsWritten(h: Heap, a: nat, b: nat)
    requires Valid(h) && IsU32(a) && IsU32(b)
    requires AllocateAsWritten(h, a).Allocated?
    requires AllocateAsWritten(AllocateAsWritten(h, a).heap, b).Allocated?
    ensures var first := AllocateAsWritten(h, a);
            var second := AllocateAsWritten(first.heap, b);
            second.block == (first.block + a) % Two32
            && (first.block + a < Two32 ==> Disjoint(first.block, a, second.block, b))
  {
  }

  /** The total of a run of request sizes. */
  function Total(sizes: seq<nat>): nat
    decreases |sizes|
  {
    if |sizes| == 0 then 0 else sizes[0] + Total(sizes[1..])
  }

  /** Serving one request and then `k` more advances the current address
      by the total of the first `k + 1` sizes, modulo 2^32. */
  lemma AdvanceStep(current: nat, sizes: seq<nat>, k: nat, next: nat, after: nat)
    requires k < |sizes|
    requires next == (current + sizes[0]) % Two32
    requires after == (next + Total(sizes[1..][..k])) % Two32
    ensures after == (current + Total(sizes[..k + 1])) % Two32
  {
    assert sizes[..k + 1][1..] == sizes[1..][..k];
    assert Total(sizes[..k + 1]) == sizes[0] + Total(sizes[1..][..k]);
    ModAddLeft(current + sizes[0], Total(sizes[1..][..k]));
  }

  /** Serving nothing leaves a 32-bit current address where it was. */
  lemma AdvanceNone(current: nat, sizes: seq<nat>)
    requires IsU32(current)
    ensures current == (current + Total(sizes[..0])) % Two32
  {
    assert sizes[..0] == [];
  }

  lemma ModAddLeft(a: nat, b: nat)
    ensures (a % Two32 + b) % Two32 == (a + b) % Two32
  {
    var q := a / Two32;
    assert a == q * Two32 + a % Two32;
    assert a + b == (a % Two32 + b) + q * Two32;
  }

  /** How far a run of allocations got: the heap after it, and how many
      requests were served before the first abort (all of them if none
      aborted). */
  datatype Run = Run(heap: Heap, served: nat)

  /** A run of allocations as written: the start never moves, the page
      count never decreases, and the run stops only at a request that
      aborts. `RunAdvancesAsWritten` says where the current address ends. */
  function AllocateAllAsWritten(h: Heap, sizes: seq<nat>): (r: Run)
    requires Valid(h)
    requires forall i | 0 <= i < |sizes| :: IsU32(sizes[i])
    ensures Valid(r.heap) && r.heap.start == h.start
    ensures r.heap.pagesAllocated >= h.pagesAllocated
    ensures r.served <= |sizes|
    ensures r.served < |sizes| ==> AllocateAsWritten(r.heap, sizes[r.served]).OutOfMemory?
    decreases |sizes|
  {
    if |sizes| == 0 then Run(h, 0)
    else
      match AllocateAsWritten(h, sizes[0])
      case OutOfMemory => Run(h, 0)
      case Allocated(_, _, h') =>
        var rest := AllocateAllAsWritten(h', sizes[1..]);
        Run(rest.heap, rest.served + 1)
  }

  /** After a run as written, the current address is the start of the run
      plus the sizes served, modulo 2^32. */
  lemma {:induction false} RunAdvancesAsWritten(h: Heap, sizes: seq<nat>)
    requires Valid(h)
    requires forall i | 0 <= i < |sizes| :: IsU32(sizes[i])
    ensures var r := AllocateAllAsWritten(h, sizes);
            r.heap.current == (h.current + Total(sizes[..r.served])) % Two32
    decreases |sizes|
  {
    var r := AllocateAllAsWritten(h, sizes);
    if |sizes| == 0 || AllocateAsWritten(h, sizes[0]).OutOfMemory? {
      AdvanceNone(h.current, sizes);
    } else {
      var h' := AllocateAsWritten(h, sizes[0]).heap;
      var rest := AllocateAllAsWritten(h', sizes[1..]);
      RunAdvancesAsWritten(h', sizes[1..]);
      AdvanceStep(h.current, sizes, rest.served, h'.current, rest.heap.current);
    }
  }

  /** Pages of `PageSize` bytes needed to hold addresses below `end`:
      `end` divided by the page size, rounded up. */
  function PagesFor(end: nat): (n: nat)
    ensures n * PageSize >= end
    ensures n > 0 ==> (n - 1) * PageSize < end
  {
    (end + PageSize - 1) / PageSize
  }

  /** The allocator the model uses. The heap end is computed exactly, the
      page count is rounded up and counted in 64 KiB pages, and the request
      aborts exactly when the heap end would pass 2 GiB. */
  function Allocate(h: Heap, numBytes: nat): (r: Allocation)
    requires Valid(h) && IsU32(numBytes)
    ensures r.OutOfMemory? <==> h.current + numBytes > MaxHeapEnd
    ensures r.Allocated? ==> Valid(r.heap) && r.heap.start == h.start
    ensures r.Allocated? ==> r.block == h.current && r.heap.current == h.current + numBytes
    ensures r.Allocated? ==> r.heap.pagesAllocated == h.pagesAllocated + r.grow
    ensures r.Allocated? ==> r.heap.pagesAllocated * PageSize >= r.heap.current
    ensures r.Allocated? && r.grow > 0 ==> (r.heap.pagesAllocated - 1) * PageSize < r.heap.current
  {
    var end := h.current + numBytes;
    var needed := PagesFor(end);
    if needed > MaxPages then OutOfMemory
    else if h.pagesAllocated < needed then
      Allocated(h.current, needed - h.pagesAllocated, Heap(h.start, end, needed))
    else
      Allocated(h.current, 0, Heap(h.start, end, h.pagesAllocated))
  }

  /** The first block of a fresh heap starts at the heap base. */
  lemma FirstBlockAtBase(initialPages: nat, heapBase: nat, numBytes: nat)
    requires IsU32(initialPages) && IsU32(heapBase) && IsU32(numBytes)
    requires Allocate(Init(initialPages, heapBase), numBytes).Allocated?
    ensures Allocate(Init(initialPages, heapBase), numBytes).block == heapBase
  {
  }

  /** The byte ranges `[p, p + m)` and `[q, q + n)` share no address. */
  predicate Disjoint(p: nat, m: nat, q: nat, n: nat) {
    p + m <= q || q + n <= p
  }

  /** Two successive allocations are contiguous and disjoint: the second
      block starts exactly where the first ends. */
  lemma SuccessiveBlocks(h: Heap, a: nat, b: nat)
    requires Valid(h) && IsU32(a) && IsU32(b)
    requires Allocate(h, a).Allocated?
    requires Allocate(Allocate(h, a).heap, b).Allocated?
    ensures var first := Allocate(h, a);
            var second := Allocate(first.heap, b);
            second.block == first.block + a
            && Disjoint(first.block, a, second.block, b)
  {
  }

  /** Any run of allocations: the start never moves, the page count never
      decreases, and the current address only grows. */
  function AllocateAll(h: Heap, sizes: seq<nat>): (r: Heap)
    requires Valid(h)
    requires forall i | 0 <= i < |sizes| :: IsU32(sizes[i])
    ensures Valid(r) && r.start == h.start
    ensures r.pagesAllocated >= h.pagesAllocated && r.current >= h.current
    decreases |sizes|
  {
    if |sizes| == 0 then h
    else
      match Allocate(h, sizes[0])
      case OutOfMemory => h
      case Allocated(_, _, h') => AllocateAll(h', sizes[1..])
  }
}
