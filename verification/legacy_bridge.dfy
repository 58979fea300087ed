/** The older revision of the host glue (`pig_wasm_std_lib.js`). It decodes
    strings the same way as `HostBridge`, but its imports have different
    names and shapes, it offers no way to add application imports, and it
    hands the guest the page count the caller asked for instead of the
    count measured after loading. */
module LegacyBridge {
  import opened Words
  import opened JsText
  import CStrings
  import HostBridge

  /** `jsAbort`: it always throws, with the decoded message as the
      error's text. */
  function Abort(buf: Memory, messagePtr: HostBridge.Arg): HostBridge.Thrown {
    HostBridge.Thrown(HostBridge.DecodeString(buf, messagePtr))
  }

  /** On a terminated string, the thrown text is exactly the guest's
      string. */
  lemma AbortReadsMessage(buf: Memory, p: nat)
    requires CStrings.Terminated(buf, p)
    ensures Abort(buf, HostBridge.Num(p)).message == HostBridge.ByteChars(CStrings.CStr(buf, p))
  {
    HostBridge.DecodeCString(buf, p);
  }

  /** `jsAssertFailure(filePath, line, funcName, messageStr)`: four
      parameters, one text form. */
  function AssertFailure(buf: Memory, file: HostBridge.Arg, line: HostBridge.Arg,
                         func: HostBridge.Arg, message: HostBridge.Arg): (e: HostBridge.Thrown)
    ensures HostBridge.StartsWith(e.message, "Assertion failed! (")
  {
    HostBridge.Thrown(HostBridge.FailureText(HostBridge.None, HostBridge.DecodeString(buf, message),
                                             HostBridge.DecodeString(buf, file), line,
                                             HostBridge.DecodeString(buf, func)))
  }

  /** The older handler prints a guest assertion exactly as the corrected
      current handler does: the guest's four arguments line up with its
      four parameters. */
  lemma AssertMatchesCorrected(buf: Memory, file: nat, line: int, func: nat, condition: nat)
    ensures AssertFailure(buf, HostBridge.Num(file), HostBridge.Num(line), HostBridge.Num(func), HostBridge.Num(condition))
            == HostBridge.AssertFailure(buf, HostBridge.GuestArgs(file, line, func, condition))
  {
  }

  /** `jsPrintNumber`: the name, the number in decimal, and the number in
      hexadecimal after `0x` in parentheses. */
  function PrintNumber(buf: Memory, labelPtr: HostBridge.Arg, number: int): (line: string)
  {
    HostBridge.DecodeString(buf, labelPtr) + (": " + (IntText(number, 10) + (" (0x" + (IntText(number, 16) + ")"))))
  }

  /** Where the fields of a printed line sit: the label, `": "`, the
      decimal text, `" (0x"`, the hexadecimal text and `")"`. */
  predicate FieldsAt(line: string, name: string, dec: string, hex: string) {
    |line| == |name| + 2 + |dec| + 4 + |hex| + 1
    && line[..|name|] == name
    && line[|name| + 2..|name| + 2 + |dec|] == dec
    && line[|name| + 2 + |dec|..|name| + 2 + |dec| + 4] == " (0x"
    && line[|name| + 2 + |dec| + 4..|line| - 1] == hex
  }

  /** A line built from the fields has them where `FieldsAt` says. */
  lemma PrintedFields(line: string, name: string, dec: string, hex: string)
    requires line == name + (": " + (dec + (" (0x" + (hex + ")"))))
    ensures FieldsAt(line, name, dec, hex)
  {
    var r4 := hex + ")";
    var r2 := dec + (" (0x" + r4);
    assert line[|name| + 2..|name| + 2 + |dec|] == r2[..|dec|];
    assert line[|name| + 2 + |dec|..|name| + 2 + |dec| + 4] == (" (0x" + r4)[..4];
    assert line[|name| + 2 + |dec| + 4..|line| - 1] == r4[..|hex|];
  }

  /** The printed line holds the label, then after `": "` the number's
      decimal text, then after `" (0x"` its hexadecimal text and a closing
      parenthesis; each field reads back as the number (`IntTextRoundTrip`). */
  lemma PrintNumberFields(buf: Memory, labelPtr: HostBridge.Arg, number: int)
    ensures FieldsAt(PrintNumber(buf, labelPtr, number), HostBridge.DecodeString(buf, labelPtr),
                     IntText(number, 10), IntText(number, 16))
  {
    PrintedFields(PrintNumber(buf, labelPtr, number), HostBridge.DecodeString(buf, labelPtr),
                  IntText(number, 10), IntText(number, 16));
  }

  const ApiNames: set<string> :=
    {"jsAbort", "jsAssertFailure", "jsGrowMemory", "jsTestFunction", "jsPrintNumber", "jsPrintFloat", "jsPrintString"}

  /** The `env` object: the memory and the fixed table, nothing else. */
  function Environment(): (env: map<string, HostBridge.Import>)
    ensures env.Keys == {"memory"} + ApiNames
    ensures env["memory"] == HostBridge.MemoryObject
    ensures forall n | n in ApiNames :: env[n] == HostBridge.StdHandler(n)
  {
    map n | n in {"memory"} + ApiNames :: if n == "memory" then HostBridge.MemoryObject else HostBridge.StdHandler(n)
  }

  /** The older table shares no name with the current one, so a guest built
      against either cannot link against the other. */
  lemma NoSharedImports()
    ensures ApiNames * HostBridge.StdApiNames == {}
  {
  }

  /** The page count `PigWasm_Init` passes to `InitStdLib`: the count the
      caller asked for, whatever the buffer holds after loading. */
  function InitPages(initialMemPageCount: nat, byteLength: nat): (n: nat)
  {
    initialMemPageCount
  }

  /** When the module's own memory declaration makes the buffer larger than
      requested, the older glue reports fewer pages than the buffer has,
      while the current glue reports the buffer's count. */
  lemma InitPagesUndercount(initialMemPageCount: nat, byteLength: nat)
    requires byteLength > initialMemPageCount * HostBridge.PageSize
    ensures InitPages(initialMemPageCount, byteLength) < HostBridge.PagesAfterLoad(byteLength)
  {
  }
}
