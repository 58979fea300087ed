/** The host side of the guest/host bridge (`std_js_api.js`): the functions
    the JavaScript host hands to the module as imports, and the page
    accounting it does when the module is loaded.

    The host's state is the byte buffer of the module's linear memory and the
    heap base the module exported. `memory.grow` appends zeroed 64 KiB pages
    and throws a `RangeError` past the 65536-page limit of a wasm32 memory
    (section 2.5.7 of the WebAssembly core specification). Console output,
    `alert` and module fetching are not modelled. */
module HostBridge {
  import opened Words
  import opened CStrings
  import opened JsText
  import WasmMemory

  /** `WASM_PAGE_SIZE` of the host: the WebAssembly page size. */
  const PageSize: nat := 65536

  /** The largest number of pages a wasm32 memory can have. */
  const MaxWasmPages: nat := 65536

  /** A JavaScript value an import receives from the guest: a number, or
      `undefined` for a parameter the caller did not pass. */
  datatype Arg = Missing | Num(n: int)

  /** The Error an import throws; it ends the guest's call. */
  datatype Thrown = Thrown(message: string)

  /** The host's view of the module: its memory buffer and the heap base
      read from the module's `GetHeapBaseAddress` export. */
  datatype Host = Host(buffer: Memory, heapBase: int)

  /** One code unit per byte, as `String.fromCharCode` makes them. */
  function ByteChars(b: seq<bv8>): (s: string)
    ensures |s| == |b|
    ensures forall i | 0 <= i < |s| :: s[i] as int == b[i] as int
  {
    seq(|b|, i requires 0 <= i < |b| => (b[i] as int) as char)
  }

  /** The characters read from index `i` on: a read outside the buffer is
      `undefined` and a zero byte is falsy, and either ends the loop. */
  function DecodeFrom(buf: Memory, i: int): (s: string)
    ensures |s| > 0 ==> 0 <= i && i + |s| <= |buf|
    ensures forall k | 0 <= k < |s| :: buf[i + k] != 0 && s[k] as int == buf[i + k] as int
    ensures 0 <= i + |s| < |buf| ==> buf[i + |s|] == 0
    decreases |buf| - i
  {
    if 0 <= i < |buf| && buf[i] != 0 then [(buf[i] as int) as char] + DecodeFrom(buf, i + 1) else []
  }

  /** `wasmPntrToJsString`. A missing pointer makes every index `NaN`, whose
      read is `undefined`, so the result is empty. */
  function DecodeString(buf: Memory, ptr: Arg): (s: string)
    ensures ptr.Missing? ==> s == []
    ensures ptr.Num? ==> s == DecodeFrom(buf, ptr.n)
  {
    match ptr
    case Missing => []
    case Num(p) => DecodeFrom(buf, p)
  }

  /** The scan from `i` reads exactly up to the first zero byte or the end
      of the buffer, whichever comes first. */
  lemma {:induction false} DecodeUpTo(buf: Memory, i: nat, z: nat)
    requires i <= z <= |buf|
    requires forall k | i <= k < z :: buf[k] != 0
    requires z == |buf| || buf[z] == 0
    ensures |DecodeFrom(buf, i)| == z - i
    decreases z - i
  {
    if i < z {
      DecodeUpTo(buf, i + 1, z);
    }
  }

  /** On a C string the host reads exactly the guest's string. */
  lemma {:induction false} DecodeCString(mem: Memory, p: nat)
    requires Terminated(mem, p)
    ensures DecodeString(mem, Num(p)) == ByteChars(CStr(mem, p))
  {
    var s := DecodeFrom(mem, p);
    var t := ByteChars(CStr(mem, p));
    var z := FirstZero(mem, p);
    DecodeUpTo(mem, p, z);
    assert forall k | 0 <= k < |s| :: s[k] == t[k] by {
      forall k | 0 <= k < |s|
        ensures s[k] == t[k]
      {
        assert s[k] as int == mem[p + k] as int == t[k] as int;
      }
    }
  }

  /** Without a zero byte before the end of the buffer, the scan stops at
      the end: it returns every remaining byte. */
  lemma DecodeRunsToEnd(buf: Memory, p: nat)
    requires p <= |buf|
    requires forall k | p <= k < |buf| :: buf[k] != 0
    ensures |DecodeString(buf, Num(p))| == |buf| - p
  {
    DecodeUpTo(buf, p, |buf|);
  }

  /** Text written into memory with a terminator reads back unchanged. */
  lemma EncodeDecode(before: Memory, text: seq<bv8>, after: Memory)
    requires forall i | 0 <= i < |text| :: text[i] != 0
    ensures DecodeString(before + text + [0] + after, Num(|before|)) == ByteChars(text)
  {
    var mem := before + text + [0] + after;
    var p := |before|;
    FirstZeroUnique(mem, p, p + |text|);
    assert CStr(mem, p) == text;
    DecodeCString(mem, p);
  }

  /** How a number argument appears when concatenated into a string. */
  function ArgText(a: Arg): (s: string)
    ensures a.Num? ==> ReadInt(s, 10) == a.n
  {
    match a
    case Missing => "undefined"
    case Num(n) => IntTextRoundTrip(n, 10); IntText(n, 10)
  }

  /** `jsStdAbort`: it always throws, with the exit code and the decoded
      message in the error text. */
  function StdAbort(buf: Memory, messagePtr: Arg, exitCode: Arg): (e: Thrown)
    ensures |e.message| >= 7 && e.message[..7] == "Abort ["
  {
    Thrown("Abort [" + ArgText(exitCode) + "]: " + DecodeString(buf, messagePtr))
  }

  /** The index of the first `c` in `s`, or `|s|` when there is none. */
  function IndexOf(s: string, c: char): (i: nat)
    ensures i <= |s| && (i < |s| ==> s[i] == c)
    ensures forall k | 0 <= k < i :: s[k] != c
  {
    if |s| == 0 then 0 else if s[0] == c then 0 else 1 + IndexOf(s[1..], c)
  }

  lemma {:induction false} IndexOfAfter(a: string, b: string, c: char)
    requires forall k | 0 <= k < |a| :: a[k] != c
    ensures IndexOf(a + b, c) == |a| + IndexOf(b, c)
  {
    if |a| > 0 {
      assert (a + b)[1..] == a[1..] + b;
      IndexOfAfter(a[1..], b, c);
    } else {
      assert a + b == b;
    }
  }

  /** Where the fields of an abort text sit, for a code without `]`. */
  lemma AbortFields(m: string, code: string, text: string)
    requires m == ("Abort [" + code) + ("]: " + text)
    requires forall k | 0 <= k < |code| :: code[k] != ']'
    ensures IndexOf(m, ']') == 7 + |code| && 7 + |code| + 3 <= |m|
    ensures m[7..7 + |code|] == code && m[7 + |code| + 3..] == text
  {
    IndexOfAfter("Abort [" + code, "]: " + text, ']');
  }

  /** The abort text can be taken apart again: the number between `[` and
      the first `]` is the exit code, and what follows `]: ` is the message. */
  lemma AbortMessageReadsBack(buf: Memory, messagePtr: Arg, exitCode: int)
    ensures var m := StdAbort(buf, messagePtr, Num(exitCode)).message;
            var i := IndexOf(m, ']');
            7 <= i && i + 3 <= |m|
            && ReadInt(m[7..i], 10) == exitCode
            && m[i + 3..] == DecodeString(buf, messagePtr)
  {
    var code := IntText(exitCode, 10);
    IntTextDigits(exitCode, 10);
    assert forall k | 0 <= k < |code| :: code[k] != ']';
    AbortFields(StdAbort(buf, messagePtr, Num(exitCode)).message, code, DecodeString(buf, messagePtr));
    IntTextRoundTrip(exitCode, 10);
  }

  /** `s` begins with `prefix`. */
  predicate StartsWith(s: string, prefix: string) {
    |prefix| <= |s| && s[..|prefix|] == prefix
  }

  lemma StartsWithAppend(a: string, b: string, prefix: string)
    requires StartsWith(a, prefix)
    ensures StartsWith(a + b, prefix)
  {
    assert (a + b)[..|prefix|] == a[..|prefix|];
  }

  /** The two texts `jsStdAssertFailure` composes: with a message, or
      without. Both end in the condition, the file, line and function. */
  function FailureText(message: Option<string>, condition: string, file: string, line: Arg, func: string): (t: string)
    ensures message.Some? ==> StartsWith(t, "Assertion failed, ")
    ensures message.None? ==> StartsWith(t, "Assertion failed! (")
  {
    var tail := condition + ") is not true! In " + file + ":" + ArgText(line) + " " + func + "(...)";
    match message
    case Some(msg) =>
      var lead := "Assertion failed, " + msg + " (";
      StartsWithAppend("Assertion failed, ", msg + " (", "Assertion failed, ");
      assert lead == "Assertion failed, " + (msg + " (");
      StartsWithAppend(lead, tail, "Assertion failed, ");
      lead + tail
    case None =>
      StartsWithAppend("Assertion failed! (", tail, "Assertion failed! (");
      "Assertion failed! (" + tail
  }

  datatype Option<T> = None | Some(value: T)

  /** Parameter `i` of a call that passed `args`: absent ones are `undefined`. */
  function Param(args: seq<Arg>, i: nat): Arg {
    if i < |args| then args[i] else Missing
  }

  /** `jsStdAssertFailure(filePath, line, funcName, conditionStr, messageStr)`
      as written: the message form is chosen when `messageStrPntr != 0`,
      which also holds for `undefined`. It always throws. */
  function StdAssertFailure(buf: Memory, args: seq<Arg>): (e: Thrown)
    ensures Param(args, 4) != Num(0) ==> StartsWith(e.message, "Assertion failed, ")
    ensures Param(args, 4) == Num(0) ==> StartsWith(e.message, "Assertion failed! (")
  {
    var message := if Param(args, 4) != Num(0) then Some(DecodeString(buf, Param(args, 4))) else None;
    Thrown(FailureText(message, DecodeString(buf, Param(args, 3)), DecodeString(buf, Param(args, 0)),
                       Param(args, 1), DecodeString(buf, Param(args, 2))))
  }

  /** The guest's `StdAssertFailure` imports the handler with four
      parameters (file, line, function, condition) and passes four. */
  function GuestArgs(file: nat, line: int, func: nat, condition: nat): (args: seq<Arg>)
    ensures |args| == 4 && Param(args, 4) == Missing
  {
    [Num(file), Num(line), Num(func), Num(condition)]
  }

  /** Every assertion failure the guest reports takes the message form,
      with an empty message: the message-less form is unreachable. */
  lemma GuestAssertTakesMessageForm(buf: Memory, file: nat, line: int, func: nat, condition: nat)
    ensures StdAssertFailure(buf, GuestArgs(file, line, func, condition)).message
            == FailureText(Some(""), DecodeString(buf, Num(condition)), DecodeString(buf, Num(file)),
                           Num(line), DecodeString(buf, Num(func)))
  {
  }

  /** The handler with the message parameter tested for truthiness, as the
      four-parameter import needs: `undefined` and 0 both mean "no message". */
  function AssertFailure(buf: Memory, args: seq<Arg>): (e: Thrown)
    ensures Param(args, 4).Missing? || Param(args, 4) == Num(0) ==> StartsWith(e.message, "Assertion failed! (")
    ensures Param(args, 4).Num? && Param(args, 4) != Num(0) ==> StartsWith(e.message, "Assertion failed, ")
  {
    var hasMessage := Param(args, 4).Num? && Param(args, 4) != Num(0);
    var message := if hasMessage then Some(DecodeString(buf, Param(args, 4))) else None;
    Thrown(FailureText(message, DecodeString(buf, Param(args, 3)), DecodeString(buf, Param(args, 0)),
                       Param(args, 1), DecodeString(buf, Param(args, 2))))
  }

  /** The corrected handler reports a guest assertion in the message-less
      form. */
  lemma GuestAssertCorrected(buf: Memory, file: nat, line: int, func: nat, condition: nat)
    ensures AssertFailure(buf, GuestArgs(file, line, func, condition)).message
            == FailureText(None, DecodeString(buf, Num(condition)), DecodeString(buf, Num(file)),
                           Num(line), DecodeString(buf, Num(func)))
  {
  }

  /** The corrected handler agrees with the handler as written whenever the
      caller does pass a message pointer. */
  lemma AssertFailureAgrees(buf: Memory, args: seq<Arg>)
    requires Param(args, 4).Num?
    ensures AssertFailure(buf, args) == StdAssertFailure(buf, args)
  {
  }

  /** `jsStdGetHeapSize`: buffer length minus heap base, as the guest's
      `unsigned int` receives it (reduced modulo 2^32). */
  function HeapSize(h: Host): (r: nat)
    ensures r < Two32
    ensures 0 <= h.heapBase <= |h.buffer| < Two32 ==> r + h.heapBase == |h.buffer|
  {
    (|h.buffer| - h.heapBase) % Two32
  }

  /** Number of whole pages in the buffer. */
  function Pages(h: Host): nat {
    |h.buffer| / PageSize
  }

  datatype GrowResult = RangeError | Grown(host: Host)

  /** `jsStdGrowMemory(n)`: `memory.grow(n)` appends `n` zeroed pages, or
      throws when the memory would pass the wasm32 page limit. */
  function Grow(h: Host, numPages: nat): (r: GrowResult)
    requires |h.buffer| % PageSize == 0
    ensures r.RangeError? <==> Pages(h) + numPages > MaxWasmPages
    ensures r.Grown? ==> |r.host.buffer| == |h.buffer| + numPages * PageSize
    ensures r.Grown? ==> Pages(r.host) == Pages(h) + numPages
    ensures r.Grown? ==> r.host.buffer[..|h.buffer|] == h.buffer && r.host.heapBase == h.heapBase
    ensures r.Grown? ==> forall i | |h.buffer| <= i < |r.host.buffer| :: r.host.buffer[i] == 0
  {
    if Pages(h) + numPages > MaxWasmPages then RangeError
    else Grown(Host(h.buffer + seq(numPages * PageSize, _ => 0), h.heapBase))
  }

  /** Growing by `n` pages adds `n * 64 KiB` to the reported heap size. */
  lemma GrowAddsToHeapSize(h: Host, numPages: nat)
    requires |h.buffer| % PageSize == 0 && 0 <= h.heapBase <= |h.buffer|
    requires Grow(h, numPages).Grown? && |Grow(h, numPages).host.buffer| < Two32
    ensures HeapSize(Grow(h, numPages).host) == HeapSize(h) + numPages * PageSize
  {
  }

  /** What an import table entry is. */
  datatype Import = MemoryObject | StdHandler(name: string) | AppHandler(name: string)

  const StdApiNames: set<string> :=
    {"jsStdAbort", "jsStdAssertFailure", "jsStdDebugBreak", "jsStdGrowMemory", "jsStdGetHeapSize"}

  /** `jsStdApiFuncs`. */
  function StdApi(): (m: map<string, Import>)
    ensures m.Keys == StdApiNames
  {
    map n | n in StdApiNames :: StdHandler(n)
  }

  /** The `env` object `PigWasm_Init` builds: `memory`, then the standard
      functions, then the application's, each later spread overriding an
      earlier key of the same name. */
  function Environment(app: map<string, Import>): (env: map<string, Import>)
  {
    map["memory" := MemoryObject] + (StdApi() + app)
  }

  /** Lookup in the environment: the application's entry wins, then the
      standard function, then the memory. */
  lemma EnvironmentLookup(app: map<string, Import>, name: string)
    ensures name in Environment(app) <==> name == "memory" || name in StdApiNames || name in app
    ensures name in app ==> Environment(app)[name] == app[name]
    ensures name !in app && name in StdApiNames ==> Environment(app)[name] == StdHandler(name)
    ensures name == "memory" && name !in app ==> Environment(app)[name] == MemoryObject
  {
  }

  /** The page count reported to `InitStdLib` after loading: byte length
      over 64 KiB, plus one for a partial page. JavaScript divides exactly,
      so a partial page leaves a fraction; passing the count to the `uint32_t`
      parameter drops it, which is the whole-number division written here. */
  function PagesAfterLoad(byteLength: nat): (n: nat)
    ensures n * PageSize >= byteLength
    ensures n > 0 ==> (n - 1) * PageSize < byteLength
  {
    byteLength / PageSize + (if byteLength % PageSize != 0 then 1 else 0)
  }

  /** The post-load count is the rounded-up page count the allocator uses. */
  lemma PagesAfterLoadRoundsUp(byteLength: nat)
    ensures PagesAfterLoad(byteLength) == WasmMemory.PagesFor(byteLength)
  {
  }

  /** The end of `PigWasm_Init`: the heap base is taken verbatim from the
      export, and the guest's allocator is initialised with the post-load
      page count. */
  function Load(buffer: Memory, heapBaseExport: nat): (r: (Host, WasmMemory.Heap))
    requires |buffer| < Two32 && heapBaseExport < Two32
    ensures r.0.buffer == buffer && r.0.heapBase == heapBaseExport
    ensures r.1.pagesAllocated * PageSize >= |buffer|
    ensures r.1.start == heapBaseExport
  {
    (Host(buffer, heapBaseExport), WasmMemory.Init(PagesAfterLoad(|buffer|), heapBaseExport))
  }

  /** The guest's page count and the host's buffer agree, and the heap lies
      inside the buffer. */
  predicate InSync(host: Host, heap: WasmMemory.Heap) {
    WasmMemory.Valid(heap)
    && |host.buffer| == heap.pagesAllocated * PageSize
    && heap.current <= |host.buffer|
    && heap.pagesAllocated <= MaxWasmPages
  }

  /** A freshly loaded module is in sync when its memory is whole pages
      (as WebAssembly memories are) and the heap base lies inside it. */
  lemma LoadInSync(buffer: Memory, heapBaseExport: nat)
    requires |buffer| < Two32 && |buffer| % PageSize == 0 && heapBaseExport <= |buffer|
    ensures InSync(Load(buffer, heapBaseExport).0, Load(buffer, heapBaseExport).1)
  {
  }

  /** What one allocation does to host and guest together. */
  datatype Step = Aborted(e: Thrown) | GrowThrew | Returned(block: nat, host: Host, heap: WasmMemory.Heap)

  const OutOfMemoryText: string :=
    "The WebAssembly module has run out of memory! WebAssembly only allows for 2GB of memory to be allocated per module"

  /** `malloc` through the allocator the model uses, with the host's grow. */
  function MallocStep(host: Host, heap: WasmMemory.Heap, numBytes: nat): Step
    requires InSync(host, heap) && WasmMemory.IsU32(numBytes)
  {
    match WasmMemory.Allocate(heap, numBytes)
    case OutOfMemory => Aborted(Thrown("Abort [-1]: " + OutOfMemoryText))
    case Allocated(block, grow, heap') =>
      if grow == 0 then Returned(block, host, heap')
      else
        match Grow(host, grow)
        case RangeError => GrowThrew
        case Grown(host') => Returned(block, host', heap')
  }

  /** With consistent page units the host never refuses to grow, every
      block lies inside the buffer, and the two sides stay in sync. */
  lemma MallocStaysInBuffer(host: Host, heap: WasmMemory.Heap, numBytes: nat)
    requires InSync(host, heap) && WasmMemory.IsU32(numBytes)
    ensures !MallocStep(host, heap, numBytes).GrowThrew?
    ensures var s := MallocStep(host, heap, numBytes);
            s.Returned? ==> InSync(s.host, s.heap) && s.block + numBytes <= |s.host.buffer|
  {
  }

  /** `malloc` with the allocator as written: the guest counts the host's
      64 KiB pages as 4 KiB pages. */
  function MallocStepAsWritten(host: Host, heap: WasmMemory.Heap, numBytes: nat): Step
    requires WasmMemory.Valid(heap) && |host.buffer| % PageSize == 0 && WasmMemory.IsU32(numBytes)
  {
    match WasmMemory.AllocateAsWritten(heap, numBytes)
    case OutOfMemory => Aborted(Thrown("Abort [-1]: " + OutOfMemoryText))
    case Allocated(block, grow, heap') =>
      if grow == 0 then Returned(block, host, heap')
      else
        match Grow(host, grow)
        case RangeError => GrowThrew
        case Grown(host') => Returned(block, host', heap')
  }

  /** A 300 MiB request on a freshly loaded two-page module stays far below
      the guest's 2 GiB limit, yet asks the host for 76814 pages of 64 KiB,
      which the host refuses. */
  lemma UnitMismatchGrowThrows()
    ensures var host := Host(seq(2 * PageSize, _ => 0), 0x1_0000);
            var heap := WasmMemory.Init(2, 0x1_0000);
            WasmMemory.PagesNeededAsWritten(heap.current, 314572800) <= WasmMemory.GuestMaxPages
            && MallocStepAsWritten(host, heap, 314572800).GrowThrew?
  {
  }
}
