# PigWasmStdLib in Dafny

A model of the core of PigWasmStdLib, a freestanding C standard library for
WebAssembly (wasm32) guests, together with the JavaScript glue that loads a
guest and answers its imports. It covers:

- the byte-string and memory routines of `string.c` and
  `string_strstr_helpers.c`: `memset`, `memcmp`, `memcpy`, `memmove`,
  `strcpy`, `strcmp`, `strncmp`, `strlen`, `wcslen`, `memchr`,
  `__strchrnul`, `strchr` and the `strstr` family (rolling two-, three- and
  four-byte windows, then the two-way search);
- the smoothsort behind `qsort`: the de Bruijn trailing-zero count, `pntz`,
  the two-word shifts, `cycle`, the Leonardo table, `sift`, `trinkle` and
  the `__qsort_r` driver;
- the scalar parts of `stdlib.c`: `abs`, `srand`/`rand`, the acceptance
  grammar of `atof`, and the memory-management entry points;
- the guest's bump allocator (`std_wasm_memory.c`) and the host's side of
  the bridge (`std_js_api.js`, and the older `pig_wasm_std_lib.js`);
- the bit-level float helpers: `fpclassify`, `isnan`, `isinf`, `signbit`,
  `fmin`/`fmax`, and the integer parts of the `powf` helpers.

Memory is a sequence of bytes (`seq<bv8>`) and a pointer is an index into
it. `size_t` is 32 bits wide and words are little-endian, as on wasm32. A
C routine that writes memory is a method that takes the memory and returns
the new memory. The word-at-a-time loops of the source are modelled as
written: aligned 32-bit loads and stores, the `WORD_CONTAINS_ZERO` test and
the shifted merges of `memcpy`. Their contracts are stated at byte level.
Where the source's arithmetic wraps (`uint32_t`, `uint64_t`, wasm's
`i32.shl`), the wrap is written out.

The modules follow the source files:

| module | models |
|---|---|
| `Words`, `CStrings` | words, bytes, C strings and the zero-byte test |
| `MemoryOps` | `_memset`, `_memcpy`, `_memmove`, `strcpy` |
| `StringCompare` | `memcmp`, `strcmp`, `strncmp`, `strlen`, `wcslen` |
| `Search` | `memchr`, `__strchrnul`, `strchr`, the rolling-window searches |
| `TwoWay`, `Strstr` | `twoway_strstr` and the `strstr` dispatch |
| `QsortBits`, `Smoothsort` | the smoothsort helpers and driver, `qsort` |
| `Stdlib`, `Atof` | `stdlib.c` |
| `WasmMemory` | `std_wasm_memory.c` |
| `JsText`, `HostBridge`, `LegacyBridge` | the two JavaScript glue files |
| `FloatBits`, `FMinMax`, `PowHelpers` | `math.c`, `math.h`, `math_pow_helpers.c` |

## Model

| member | source | states |
|---|---|---|
| Words.WordContainsZero | source/string.c:22 | The macro on a 32-bit word is non-zero exactly when one of the word's four bytes is zero. |
| Words.ByteMask | source/string_strstr_helpers.c:17 | Every byte of the replicated word is the fill byte. |
| Words.ByteMaskIsProduct | source/string_strstr_helpers.c:17 | The replicated word equals the product `0x01010101 * c` that the source computes. |
| Words.XorMaskBytes | source/string_strstr_helpers.c:18 | After XOR with the replicated byte, a byte of the word is zero exactly when it equalled the searched byte. |
| Words.WordZeroTest | source/string.c:22 | On a word loaded from memory, the zero test fires exactly when one of the four bytes at that address is zero. |
| Words.WordMatchTest | source/string_strstr_helpers.c:18 | After XOR with the mask, the zero test fires exactly when one of the four bytes equals the searched byte. |
| Words.LoadStoreWord | source/string.c:75-90 | A word stored with a 32-bit store reads back unchanged. |
| Words.AlignedWordInBounds | source/string.c:429 | In memory made of whole pages, an aligned word that starts inside memory ends inside it, so the word loops never read past the end. |
| CStrings.FirstZero | source/string.c:418-434 | The terminator of a string is a zero byte with no zero byte before it. |
| CStrings.CStr | source/string.c:418-434 | The string's bytes are those before its terminator, none of them zero. |
| CStrings.FirstZeroUnique | source/string.c:418-434 | Any zero byte with none before it is the terminator. |
| CStrings.Prefix | source/string.c:405-416 | The first `n` bytes of a string, or all of it when it is shorter, are a prefix of it. |
| MemoryOps.Memset | source/string.c:30-113 | Every byte of the block becomes `(unsigned char)value`, and no byte outside the block changes, although the head and tail stores overlap. |
| MemoryOps.MemsetWords | source/string.c:56-90 | The word stores at both ends of the aligned block fill it without leaving the block. |
| MemoryOps.MemsetLoop | source/string.c:92-109 | After aligning to 8 bytes, the 32-byte loop and the tail stores already written cover the rest of the block. |
| MemoryOps.Fill32 | source/string.c:103-109 | Four 64-bit stores of the doubled mask fill 32 bytes and touch nothing else. |
| MemoryOps.PutMask64 | source/string.c:102 | A 64-bit store of the 32-bit mask doubled into both halves writes the fill byte into eight bytes and nothing else. |
| MemoryOps.Memcpy | source/string.c:126-286 | For disjoint blocks, the destination ends up holding the source bytes and nothing outside it changes. |
| MemoryOps.MemcpyAligned | source/string.c:143-175 | With both pointers aligned, the 16-byte loop and the 8/4/2/1 tail complete the copy. |
| MemoryOps.MemcpyShifted | source/string.c:177-236 | With a misaligned destination, the merged word stores copy the source correctly for each of the three offsets, and fewer than 32 bytes are left. |
| MemoryOps.Merge | source/string.c:188-234 | Each merged word is the four source bytes that start `c` bytes into the straddling pair of aligned words. |
| MemoryOps.MemcpyTail | source/string.c:237-282 | The 16/8/4/2/1 tail copies exactly the remaining bytes. |
| MemoryOps.CopyBit | source/string.c:237-282 | Each `numBytes & b` test copies `b` bytes exactly when that many remain. |
| MemoryOps.CopyTestExact | source/string.c:297 | For blocks of at most half the address space, the hand-off test holds exactly when the blocks do not overlap. |
| MemoryOps.CopyTestMisfires | source/string.c:297 | Above half the address space, the test sends overlapping blocks to the forward copy. |
| MemoryOps.Memmove | source/string.c:288-342 | The destination receives the original source bytes even when the blocks overlap, and nothing outside it changes. |
| MemoryOps.MoveForward | source/string.c:302-317 | When the destination is below the source, the forward copy reads every source byte before overwriting it. |
| MemoryOps.MoveBackward | source/string.c:318-338 | When the destination is above the source, the backward copy reads every source byte before overwriting it. |
| MemoryOps.Strcpy | source/string.c:344-367 | The string and its terminator are copied, nothing else changes, the destination reads as the same string, and the result points at the copied terminator. |
| MemoryOps.StrcpyWord | source/string.c:359 | A word without a zero byte lies wholly before the terminator, so copying it does not run past the string. |
| StringCompare.LexLessAtMismatch | source/string.c:115-124 | The lexicographic order of two byte strings is decided at their first difference or end. |
| StringCompare.Memcmp | source/string.c:115-124 | The result is zero exactly when the blocks are equal, and negative exactly when the first block is lexicographically smaller, bytes read as unsigned. |
| StringCompare.Strcmp | source/string.c:395-403 | The result is zero exactly when the strings are equal, and its sign is the strings' lexicographic order. |
| StringCompare.StrcmpStop | source/string.c:400-401 | Where the loop stops, the two bytes under the cursors decide equality and order. |
| StringCompare.Strncmp | source/string.c:405-416 | The result is zero for `n == 0`. It is zero exactly when the `n`-byte prefixes agree, and its sign is their lexicographic order. |
| StringCompare.StrncmpStop | source/string.c:412-414 | Where the loop stops, the bytes under the cursors decide the comparison of the `n`-byte prefixes. |
| StringCompare.Strlen | source/string.c:418-434 | The result is the distance to the first zero byte, which is the string's length. |
| StringCompare.StrlenScan | source/string.c:425-431 | The byte, word and byte loops stop exactly at the terminator. |
| StringCompare.Wcslen | source/string.c:436-445 | The result counts the non-zero units before the first zero unit. |
| Search.Memchr | source/string_strstr_helpers.c:9-23 | The result is null exactly when no byte of the block equals `(unsigned char)c`, and otherwise it points at the first such byte. |
| Search.MemchrWords | source/string_strstr_helpers.c:14-19 | Skipping whole words never skips a matching byte and never reads past the block. |
| Search.Strchrnul | source/string_strstr_helpers.c:192-210 | The result is the first position holding the byte, or the terminator when there is none. |
| Search.StrchrnulScan | source/string_strstr_helpers.c:197-209 | For a non-zero byte, the byte loops stop at the first match or at the terminator, and no earlier byte matches. |
| Search.StrchrnulWords | source/string_strstr_helpers.c:203-204 | The word loop skips only words that hold neither a zero byte nor the target, so it never passes the terminator or a match. |
| Search.Strchr | source/string_strstr_helpers.c:212-216 | The result is null exactly when the byte is absent from the string and its terminator; `strchr(p, 0)` is the terminator. |
| Search.Pack2Injective | source/string_strstr_helpers.c:27-29 | Distinct byte pairs give distinct 16-bit windows, so comparing windows compares bytes. |
| Search.Roll2 | source/string_strstr_helpers.c:29 | The window update slides the window one byte along the haystack. |
| Search.Roll3 | source/string_strstr_helpers.c:37 | The three-byte update, which ORs in the next byte and then shifts left by 8, slides the window kept in the top 24 bits. |
| Search.Roll4 | source/string_strstr_helpers.c:45 | The four-byte update slides the window. |
| Search.WindowVerdict | source/string_strstr_helpers.c:25-47 | A rolling search that stops on a non-zero byte has found the leftmost match, and one that stops on the terminator means there is no match. |
| Search.TwoByte | source/string_strstr_helpers.c:25-31 | The result is null exactly when the two-byte needle does not occur, and otherwise it is the leftmost occurrence. |
| Search.ThreeByte | source/string_strstr_helpers.c:33-39 | The result is null exactly when the three-byte needle does not occur, and otherwise it is the leftmost occurrence. |
| Search.FourByte | source/string_strstr_helpers.c:41-47 | The result is null exactly when the four-byte needle does not occur, and otherwise it is the leftmost occurrence. |
| Strstr.Strstr | source/string.c:373-393 | An empty needle gives the haystack. A needle of at most four bytes gives its leftmost occurrence, or null exactly when there is none. A longer needle gives a result inside the haystack that is an occurrence under a critical factorization. A needle longer than the haystack gives null. |
| Strstr.NotFound | source/string.c:382-383 | No occurrence starts before the first copy of the needle's first byte. |
| Strstr.Lift | source/string.c:382-391 | An answer found in the haystack's tail, with nothing possible before it, answers the whole search. |
| Strstr.TooLong | source/string.c:384-388 | A needle longer than the haystack occurs nowhere. |
| TwoWay.EmptySet | source/string_strstr_helpers.c:55 | The zeroed byte set holds no byte. |
| TwoWay.AddToSet | source/string_strstr_helpers.c:49 | The OR-assign form of the macro adds exactly the given byte. |
| TwoWay.BuildTable | source/string_strstr_helpers.c:59-64 | The first loop records exactly the needle bytes it passes, each entry being one more than that byte's last index. It stops at the shorter of needle and haystack. |
| TwoWay.TableStep | source/string_strstr_helpers.c:61-62 | Recording one more byte keeps the set and the shift entries exact. |
| TwoWay.MaxSuffixFrom | source/string_strstr_helpers.c:71-93 | A pass of the maximal-suffix loop ends with the compared suffix having period `p`. |
| TwoWay.MaxSuffix | source/string_strstr_helpers.c:66-124 | The suffix after the split has period `p`, and a whole period fits in it. |
| TwoWay.StepExtend | source/string_strstr_helpers.c:82-87 | A winning byte makes the whole compared stretch the new period. |
| TwoWay.StepRestart | source/string_strstr_helpers.c:88-92 | A losing byte makes the rival suffix the new candidate. |
| TwoWay.Factorization | source/string_strstr_helpers.c:94-134 | The split and the shift lie inside the needle, and a non-zero memory comes only with a true period of the whole needle. |
| TwoWay.PeriodicNeedle | source/string_strstr_helpers.c:129-134 | When the prefix before the split repeats one period later, the period is a period of the whole needle. |
| TwoWay.Grow | source/string_strstr_helpers.c:147 | The estimate `index` OR 63 is at least `index`, at least 63, and one less than a multiple of 64. |
| TwoWay.GrowIsOr | source/string_strstr_helpers.c:147 | Setting the six low bits is rounding down to a multiple of 64 and adding 63. |
| TwoWay.BadByte | source/string_strstr_helpers.c:157-174 | A last byte absent from the needle skips the whole window. Otherwise the skip aligns it with its last occurrence and is never below the remembered prefix. |
| TwoWay.RightHalf | source/string_strstr_helpers.c:177 | The right-half loop stops at the first mismatch or at the needle's end. |
| TwoWay.LeftHalf | source/string_strstr_helpers.c:185 | The left-half loop stops at the first mismatch from the right, never below the remembered prefix. |
| TwoWay.Window | source/string_strstr_helpers.c:156-188 | One pass either reports the window, which is a match under a critical factorization, or advances by 1 to `len` bytes carrying a correct remembered prefix. |
| TwoWay.Remembered | source/string_strstr_helpers.c:187-188 | After a right-half match, the window one period on agrees with the needle on its first `memory` bytes. |
| TwoWay.SearchLoop | source/string_strstr_helpers.c:141-189 | The search always ends; a result lies inside the haystack and is a match under a critical factorization. |
| TwoWay.TwoWay | source/string_strstr_helpers.c:51-190 | A needle longer than the haystack gives null. A result lies inside the haystack and is an occurrence under a critical factorization. |
| QsortBits.Ctz | source/stdlib_qsort_helpers.c:9-19 | The reference trailing-zero count of a non-zero value names its lowest set bit. |
| QsortBits.ACtz64Counts | source/stdlib_qsort_helpers.c:9-19 | For every non-zero `x`, the de Bruijn lookup returns the number of trailing zero bits. |
| QsortBits.ACtz64Zero | source/stdlib_qsort_helpers.c:9-19 | `a_ctz_64(0)` is 0. |
| QsortBits.ShiftLeftCorrect | source/stdlib_qsort_helpers.c:53-65 | For counts 1 to 63, `shiftLeft` on the two words is the 64-bit left shift. |
| QsortBits.ShiftRightCorrect | source/stdlib_qsort_helpers.c:67-78 | For counts 1 to 63, `shiftRight` is the 64-bit logical right shift. |
| QsortBits.ShiftByZero | source/stdlib_qsort_helpers.c:53-78 | A count of 0, which the source rules out, ORs one word into the other instead of doing nothing. |
| QsortBits.PntzCases | source/stdlib_qsort_helpers.c:21-29 | On an odd bitmap, `pntz` is `ctz(p[0]-1)` when that is non-zero, else `32 + ctz(p[1])` for an even non-zero `p[1]`, else 0. |
| QsortBits.PntzIsGap | source/stdlib_qsort_helpers.c:21-29 | Except on `{1, odd}`, `pntz` is the distance to the next tree: the trailing zeros of `p - 1`. |
| QsortBits.PntzMissesBit32 | source/stdlib_qsort_helpers.c:21-29 | On `{1, odd}`, `pntz` returns 0 although the next tree is 32 bits up. |
| QsortBits.NextTreeGap | source/stdlib_qsort_helpers.c:21-29 | The corrected `pntz` is the trailing-zero count of `p - 1` for every odd bitmap other than 1. |
| QsortBits.NextTreeGapAgrees | source/stdlib_qsort_helpers.c:21-29 | The corrected `pntz` agrees with the source's everywhere except on `{1, odd}`. |
| QsortBits.ShrinkStuckAsWritten | source/stdlib_qsort_helpers.c:219-226 | At `p == {1, 1}` with `pshift == 1`, the dismantling loop's guard holds, `pntz` returns 0, and the pass leaves bitmap and `pshift` unchanged. |
| QsortBits.ShrinkNeverEndsAsWritten | source/stdlib_qsort_helpers.c:219-239 | From that state the loop as written is still in it, with its guard true, after any number of passes: `__qsort_r` does not return. |
| QsortBits.ShrinkLeavesCorrected | source/stdlib_qsort_helpers.c:221-225 | With the corrected `pntz`, the same pass steps 32 orders up to the single tree `{1, 0}`, of order 33. |
| Smoothsort.EntryScales | source/stdlib_qsort_helpers.c:177-180 | Each table entry is `itemSize` times a Leonardo number. |
| Smoothsort.LeonardoTable | source/stdlib_qsort_helpers.c:177-180 | The table follows the Leonardo recurrence scaled by `itemSize` and stops at the first entry reaching the total size. It covers every order whose heap fits the array, within the 48 reserved words. |
| Smoothsort.OrderBound | source/stdlib_qsort_helpers.c:163 | A heap of fewer than 2^32 items has order at most 45. |
| Smoothsort.Cycle | source/stdlib_qsort_helpers.c:31-51 | Rotating along a path permutes the array and leaves positions off the path alone. |
| Smoothsort.CycleMoves | source/stdlib_qsort_helpers.c:31-51 | Along a path without repeats, each position receives the next one's item and the last receives the first's. |
| Smoothsort.Sift | source/stdlib_qsort_helpers.c:80-113 | The array is permuted only inside the tree. The path collected has at most `order + 1` entries. A tree of order 0 or 1 is left alone. |
| Smoothsort.PathsFit | source/stdlib_qsort_helpers.c:84 | For any heap a 32-bit `size_t` can count, the collected path fits the 57-entry pointer array. |
| Smoothsort.Trinkle | source/stdlib_qsort_helpers.c:115-159 | The array is permuted only at or left of the head, and the path collected is no longer than the number of trees. |
| Smoothsort.TrinklePath | source/stdlib_qsort_helpers.c:127-151 | The loop collects a path of roots from the head leftwards, each at or left of the head, one per tree passed, ending at the root of a tree that fits below its position; with one tree it never steps. |
| Smoothsort.Grow | source/stdlib_qsort_helpers.c:182-215 | One build step permutes the array and extends the forest, kept in shape, by one item. |
| Smoothsort.Shrink | source/stdlib_qsort_helpers.c:219-239 | One dismantling step permutes the array and shrinks the forest, kept in shape, by one item. |
| Smoothsort.ShapeMerge | source/stdlib_qsort_helpers.c:184-188 | Merging two trees of consecutive orders keeps the forest's shape. |
| Smoothsort.ShapeSplit | source/stdlib_qsort_helpers.c:227-236 | Replacing a tree by its two subtrees keeps the forest's shape. |
| Smoothsort.QsortR | source/stdlib_qsort_helpers.c:161-240 | The result is a permutation of the input. With no bytes to sort, or at most one item, the array is unchanged. |
| Smoothsort.Qsort | source/stdlib.c:178-181 | `qsort` through the wrapper comparator permutes the array, and leaves an empty or one-item array alone. |
| Stdlib.Abs | source/stdlib.c:11-14 | Every value but `INT_MIN` gets a non-negative result of the same magnitude; `INT_MIN` comes back as itself. |
| Stdlib.AbsIdempotent | source/stdlib.c:11-14 | Taking the absolute value twice changes nothing. |
| Stdlib.AbsOfNegation | source/stdlib.c:11-14 | A value and its wrapped negation have the same absolute value. |
| Stdlib.Srand | source/stdlib.c:46-49 | The state is `seed - 1` modulo 2^32. |
| Stdlib.SrandInjective | source/stdlib.c:46-49 | Different seeds give different states. |
| Stdlib.Rand | source/stdlib.c:51-57 | The state advances by the 64-bit step, and the value returned is its top 31 bits, so it never exceeds `RAND_MAX`. |
| Stdlib.UnstepStep | source/stdlib.c:54 | The state update is a bijection on 64-bit states: the inverse multiplier undoes it. |
| Stdlib.SeedDetermines | source/stdlib.c:44-57 | After `srand(seed)`, the values drawn depend only on the seed and the later calls. |
| Stdlib.Refused | source/stdlib.c:21-42 | With assertions enabled, `calloc`, `realloc`, `free` and `aligned_alloc` each fail an assertion. With them disabled, `free` does nothing and the other three return null. |
| Stdlib.MemoryEntry | source/stdlib.c:16-42 | `malloc` returns a block exactly when the allocator as written finds at most 524288 pages needed. The block is the old current address, which then moves on by the request modulo 2^32, and the page count does not fall. With assertions enabled, `calloc`, `realloc`, `free` and `aligned_alloc` fail an assertion. With them disabled, `free` does nothing and the other three return null. |
| Stdlib.MemoryEntryCorrected | source/stdlib.c:16-42 | With the corrected allocator, `malloc` returns exactly when the heap end stays within 2 GiB, and the current address moves on by exactly the request. The other four entry points behave as before, with assertions enabled or disabled. |
| Stdlib.CorrectedWithinAsWritten | source/stdlib.c:16-19 | Every request the corrected `malloc` serves is also served as written, with the same block and the same new current address. |
| Stdlib.MallocPastLimit | source/std_wasm_memory.c:49-50 | At current address 2^31, `malloc(1)` as written returns a block that ends past 2 GiB, where the corrected one aborts. |
| Atof.ScanAcceptsExactly | source/stdlib.c:97-163 | The scanner accepts a string exactly when it is the text of a valid parse: spaces, optional sign, digits, optional `.` or `,` with digits, optional exponent, spaces. |
| Atof.ScanSound | source/stdlib.c:97-163 | What the scanner accepts is a valid parse whose text is the whole string. |
| Atof.ScanComplete | source/stdlib.c:97-163 | Every valid parse is what the scanner reads back from its own text. |
| Atof.LongRunRejected | source/stdlib.c:118-163 | A run of more than 1000 digits leaves a digit unread, and the string is refused. |
| Atof.Atof | source/stdlib.c:97-169 | The result is the parse's digit values exactly when the string is the text of a valid parse, and none (0.0 in the source) otherwise. |
| Atof.AtofOfRender | source/stdlib.c:97-169 | A valid parse's text reads back as that parse's digit values. |
| Atof.Meaning | source/stdlib.c:112-154 | The sign is negative exactly for `-`; the whole part and the exponent are below 10 to the number of their digits; every fraction digit is kept as a value below 10; the exponent is negative exactly for `e-`. |
| Atof.DecimalValueAppend | source/stdlib.c:120 | Digits appended to a run shift its value up by that many decimal places. |
| Atof.LeadingZeros | source/stdlib.c:120 | Leading zeros do not change a run's value. |
| WasmMemory.PagesNeededAsWritten | source/std_wasm_memory.c:49 | The page count is `current + numBytes + 1`, wrapped to 32 bits, divided by 4096 and rounded down. |
| WasmMemory.AllocateAsWritten | source/std_wasm_memory.c:47-65 | The request aborts exactly when more than 524288 pages are needed. Otherwise the block is the old current address, the start never moves, the current address advances by `numBytes` modulo 2^32, and the page count rises to the pages needed when it was lower, growing by the difference. |
| WasmMemory.WrapSlipsPastLimit | source/std_wasm_memory.c:49-62 | A request whose end wraps past 2^32 neither aborts nor grows, and moves the current address backwards. |
| WasmMemory.FloorUnderCounts | source/std_wasm_memory.c:49 | A 4097-byte block at address 0 is counted as one 4096-byte page. |
| WasmMemory.PagesFor | source/web/std_js_api.js:185-191 | The rounded-up page count covers the end, and one page fewer would not. |
| WasmMemory.Allocate | source/std_wasm_memory.c:47-65 | The request aborts exactly when the heap end would pass 2 GiB. Otherwise the block is the old current address, which advances by exactly `numBytes`, and the pages cover the new end. |
| WasmMemory.FirstBlockAtBase | source/std_wasm_memory.c:40-45 | With the corrected allocator, the first block of a fresh heap starts at the heap base. |
| WasmMemory.FirstBlockAtBaseAsWritten | source/std_wasm_memory.c:40-62 | After `InitWasmMemory`, the first block as written starts at the heap base, the current address moves on by the request modulo 2^32, and the page count is at least the initial one. |
| WasmMemory.SuccessiveBlocks | source/std_wasm_memory.c:61-62 | With the corrected allocator, two successive blocks are contiguous and disjoint. |
| WasmMemory.SuccessiveBlocksAsWritten | source/std_wasm_memory.c:61-62 | As written, the second of two blocks starts where the first ends, modulo 2^32. The two are disjoint when the first does not wrap. |
| WasmMemory.AllocateAll | source/std_wasm_memory.c:13-15 | With the corrected allocator, over any run of allocations the start never moves, and neither the page count nor the current address ever decreases. |
| WasmMemory.AllocateAllAsWritten | source/std_wasm_memory.c:47-65 | Over any run of allocations as written, the start never moves, the page count never decreases, and the run stops only at a request that aborts. |
| WasmMemory.RunAdvancesAsWritten | source/std_wasm_memory.c:61-62 | After a run as written, the current address is where the run began plus the sizes served, modulo 2^32. |
| JsText.NatTextDigits | source/web/pig_wasm_std_lib.js:98 | Every character written is a digit of the radix. |
| JsText.ReadNatText | source/web/pig_wasm_std_lib.js:98 | Writing a natural number and reading it back gives the number. |
| JsText.IntTextRoundTrip | source/web/std_js_api.js:76 | Writing an integer in base 10 or 16 and reading it back gives the integer. |
| JsText.IntTextInjective | source/web/std_js_api.js:76 | Different integers are written differently. |
| HostBridge.DecodeFrom | source/web/std_js_api.js:52-68 | The characters are the bytes from the index on, one code unit each, up to the first zero byte or the end of the buffer. |
| HostBridge.DecodeCString | source/web/std_js_api.js:52-68 | On a C string, the host reads exactly the guest's string. |
| HostBridge.DecodeRunsToEnd | source/web/std_js_api.js:58-62 | With no zero byte before the buffer's end, the scan returns every remaining byte. |
| HostBridge.EncodeDecode | source/web/std_js_api.js:52-68 | Zero-free text written with a terminator reads back unchanged. |
| HostBridge.StdAbort | source/web/std_js_api.js:73-79 | The handler always throws, with a message starting `Abort [`. |
| HostBridge.AbortMessageReadsBack | source/web/std_js_api.js:76 | The exit code and the decoded message can be read back out of the abort text. |
| HostBridge.StdAssertFailure | source/web/std_js_api.js:81-98 | The handler always throws. It uses the message form exactly when the fifth argument is not the number 0, `undefined` included. |
| HostBridge.GuestArgs | source/assert.c:9-12 | The guest passes four arguments, so the fifth parameter is `undefined`. |
| HostBridge.GuestAssertTakesMessageForm | source/web/std_js_api.js:87 | Every guest assertion is reported in the message form with an empty message. |
| HostBridge.AssertFailure | source/web/std_js_api.js:81-98 | The corrected handler uses the message-less form when the message is absent or 0. |
| HostBridge.GuestAssertCorrected | source/web/std_js_api.js:94 | The corrected handler reports a guest assertion in the message-less form. |
| HostBridge.AssertFailureAgrees | source/web/std_js_api.js:81-98 | Whenever a message pointer is passed, the corrected handler and the handler as written agree. |
| HostBridge.HeapSize | source/web/std_js_api.js:106-109 | The heap size is the buffer length minus the heap base, as the guest's `unsigned int` receives it. |
| HostBridge.Grow | source/web/std_js_api.js:111-116 | Growing appends `n` zeroed 64 KiB pages and keeps the old contents. It throws exactly when the memory would pass the wasm32 page limit. |
| HostBridge.GrowAddsToHeapSize | source/web/std_js_api.js:106-116 | Growing by `n` pages adds `n * 64 KiB` to the reported heap size. |
| HostBridge.StdApi | source/web/std_js_api.js:118-125 | The standard table has exactly the five standard names. |
| HostBridge.EnvironmentLookup | source/web/std_js_api.js:168-177 | An application entry wins over a standard function, which wins over the memory, and nothing else is in the environment. |
| HostBridge.PagesAfterLoad | source/web/std_js_api.js:185-191 | The post-load count covers the buffer, and one page fewer would not. |
| HostBridge.PagesAfterLoadRoundsUp | source/web/std_js_api.js:185-191 | The post-load count is the rounded-up page count the allocator uses. |
| HostBridge.Load | source/web/std_js_api.js:181-191 | The heap base is taken verbatim from the export, and the guest's page count, in the host's 64 KiB pages, covers the buffer. The guest's own 4 KiB count is the std_wasm_memory.c:55-58 finding. |
| HostBridge.LoadInSync | source/web/std_js_api.js:181-191 | A freshly loaded module's page count agrees with its buffer. |
| HostBridge.MallocStaysInBuffer | source/std_wasm_memory.c:47-65 | With consistent page units the host never refuses to grow, every block lies in the buffer, and both sides stay in sync. |
| HostBridge.UnitMismatchGrowThrows | source/std_wasm_memory.c:55-58 | A 300 MiB request on a fresh two-page module is far below the 2 GiB limit, yet it asks the host for more 64 KiB pages than wasm32 allows, and the host throws. |
| LegacyBridge.AbortReadsMessage | source/web/pig_wasm_std_lib.js:67-72 | On a terminated message, the older abort handler throws with exactly the guest's string as its text. |
| LegacyBridge.AssertFailure | source/web/pig_wasm_std_lib.js:74-82 | The older assert handler has one text form, starting `Assertion failed! (`. |
| LegacyBridge.AssertMatchesCorrected | source/web/pig_wasm_std_lib.js:74-82 | The older handler reports a guest assertion exactly as the corrected current handler does. |
| LegacyBridge.PrintNumberFields | source/web/pig_wasm_std_lib.js:95-99 | The printed line holds the label, the number in decimal and then in hexadecimal, each reading back as the number. |
| LegacyBridge.Environment | source/web/pig_wasm_std_lib.js:113-165 | The environment is the memory plus the fixed table, with no application entries. |
| LegacyBridge.InitPagesUndercount | source/web/pig_wasm_std_lib.js:172 | When loading enlarges the buffer, the older glue reports fewer pages than the buffer holds. |
| FloatBits.FpClassifyF | source/math.c:12-18 | The shift-and-mask classifier returns the class that the binary32 fields define. |
| FloatBits.FpClassify | source/math.c:20-27 | The shift-and-mask classifier returns the class that the binary64 fields define. |
| FloatBits.IsNanF | include/math.h:32-36 | The magnitude test holds exactly for NaN encodings. |
| FloatBits.IsInfF | include/math.h:27-31 | The magnitude test holds exactly for infinite encodings. |
| FloatBits.IsNan | include/math.h:32-36 | On doubles, the magnitude test holds exactly for NaN encodings. |
| FloatBits.IsInf | include/math.h:27-31 | On doubles, the magnitude test holds exactly for infinite encodings. |
| FloatBits.SignBitF | include/math.h:37-43 | `signbit` is bit 31. |
| FloatBits.SignBit | include/math.h:37-43 | `signbit` is bit 63. |
| FloatBits.MacrosAgree32 | include/math.h:27-36 | `isnan` and `isinf` agree with the classifier's `FP_NAN` and `FP_INFINITE`, and are never both true. |
| FloatBits.MacrosAgree64 | include/math.h:27-36 | The same for doubles. |
| FloatBits.SignIgnored32 | source/math.c:16-17 | Flipping the sign bit flips `signbit` and changes nothing else the helpers report. |
| FloatBits.SignIgnored64 | source/math.c:24-25 | The same for doubles. |
| FloatBits.Fields32RoundTrip | source/math.c:15-17 | Sign, exponent and mantissa fields and the binary32 encoding determine each other. |
| FloatBits.Fields64RoundTrip | source/math.c:23-25 | The same for binary64. |
| FMinMax.Fmin | source/math.c:43-58 | The result is one of the arguments. A NaN gives the other argument, and otherwise the result is at most both, with -0 below +0. |
| FMinMax.Fmax | source/math.c:60-75 | The result is one of the arguments. A NaN gives the other argument, and otherwise the result is at least both, with +0 above -0. |
| FMinMax.FminCommutes | source/math.c:43-75 | Argument order does not matter to either function. |
| FMinMax.FmaxIsNegatedFmin | source/math.c:43-75 | `fmax` is `fmin` seen through negation. |
| FMinMax.SignedZeros | source/math.c:43-65 | Both orders of -0 and +0 give -0 from `fmin` and +0 from `fmax`. |
| PowHelpers.Checkint | source/math_pow_helpers.c:171-179 | The result is 0, 1 or 2: 0 below exponent 127 and 2 above 150. |
| PowHelpers.CheckintMeaning | source/math_pow_helpers.c:171-179 | On every encoding, the mask tests say whether the value is a non-integer, an odd integer or an even integer. |
| PowHelpers.CheckintIgnoresSign | source/math_pow_helpers.c:173 | `checkint` does not look at the sign bit. |
| PowHelpers.ZeroInfNan | source/math_pow_helpers.c:181-184 | The wrapped `2x - 1` test holds exactly for the zero, infinite and NaN encodings. |
| PowHelpers.ZeroInfNanIgnoresSign | source/math_pow_helpers.c:183 | `zeroinfnan` does not look at the sign bit. |
| PowHelpers.LogReduce | source/math_pow_helpers.c:71-74 | The table index is below 16, `iz` lies within 2^23 encodings of `OFF`, and the index picks the subinterval holding `iz`. |
| PowHelpers.ExpIndex | source/math_pow_helpers.c:154 | The table index is below 32. |
| PowHelpers.ExpIndexPeriodic | source/math_pow_helpers.c:154 | The index is the low five bits of `ki`, so values 32 apart share an entry. |

## Left out

- The `__builtin_memset`, `__builtin_memcpy` and `__builtin_memmove` branches of `string.c`, which are compiler intrinsics. The portable bodies are modelled.
- Smoothsort.QsortR: sortedness is not proved. The contract states the permutation and the empty and one-item cases, but not that the result is non-decreasing under the comparator. Heap order inside the trees and root order across them are not stated.
- Smoothsort.Qsort: not proved sorted, for the same reason.
- Smoothsort.Trinkle and Smoothsort.Sift: their contracts state what moves where, not the heap property they restore.
- Smoothsort.QsortR: follows the corrected `pntz` (`QsortBits.NextTreeGap`) when it steps from one tree to the next. As written, `pntz` returns 0 on a bitmap `{1, odd}`, so a step goes nowhere. `__qsort_r` then does not return for 11,405,774 items: its dismantling loop stays at `p = {1, 1}`, `pshift = 1` (`QsortBits.ShrinkNeverEndsAsWritten`). The same happens for larger inputs whose forest reaches a tree of order 1 whose next tree is 32 orders up.
- Smoothsort.Qsort: follows the corrected `pntz`, as `Smoothsort.QsortR` does.
- Smoothsort.Shrink: follows the corrected `pntz`. As written, the step from `p = {1, 1}`, `pshift = 1` leaves the state unchanged and removes no item (`QsortBits.ShrinkStuckAsWritten`).
- Smoothsort.Trinkle: follows the corrected `pntz`. As written, a stepson found at a `{1, odd}` bitmap is pushed without `pshift` moving. The walk then continues leftwards for as long as the comparisons allow, and may write past the 57-entry path array.
- Smoothsort.TrinklePath: follows the corrected `pntz`, as `Smoothsort.Trinkle` does. The path's length bound (one entry per tree passed) does not hold as written.
- Smoothsort.PathsFit: holds for the corrected `pntz` only. As written, a trinkle at a `{1, odd}` bitmap is not bounded by the number of trees.
- Smoothsort.Grow: the forest it keeps in shape is the list of orders, stepped with the corrected `pntz`. The build loop itself does not call `pntz`. The trinkle it calls does, and it has the gap described under `Smoothsort.Trinkle`.
- The build option `STD_ASSERTIONS_ENABLED` / `STD_ASSERTIONS_DISABLED` (`include/std_options.h`) is the `assertions` parameter of `Stdlib.Refused`, `Stdlib.MemoryEntry` and `Stdlib.MemoryEntryCorrected`, and both settings are modelled. It does not affect `malloc`, whose out-of-memory abort is a host call and not an `assert`.
- The two-word bitmap of `__qsort_r` is replaced by the list of tree orders that it encodes. The bit helpers (`pntz`, `shiftLeft`, `shiftRight`) are proved on their own; the correspondence between bitmap and list is not.
- `cycle`'s copying in chunks of at most 256 bytes through a scratch buffer is not modelled. Items move whole, which is the effect of the chunked copy.
- `totalSize = itemSize * numItems` and the byte pointers of the sort are taken without 32-bit wrap. The table proof covers totals below 2^32 (`LeonardoTable`).
- TwoWay.TwoWay: under a critical factorization (`TwoWay.Critical`), a result is proved to be an occurrence. It is not proved to be the leftmost one, and null is not proved to mean "no occurrence". The critical factorization theorem itself is not proved.
- TwoWay.SearchLoop: the same weaker contract as `TwoWay.TwoWay`.
- Strstr.Strstr: for needles longer than four bytes, the same weaker contract as `TwoWay.TwoWay`.
- `atof`'s double result is not modelled: the `wholePart`, `fractionalPart` and power-of-ten products are floating point. The digit values are modelled as naturals. The exponent's `int` overflow for long exponent runs is not modelled.
- Atof.Atof: works on the string's bytes before its terminator. So a string is always its bytes up to the first zero, and nothing past it is read.
- `String.fromCharCode(...codes)` has an engine-dependent limit on its argument count, which is not modelled.
- The `shared` flag of `PigWasm_InitMemory`: concurrency is out of scope.
- Host I/O and UI: `loadWasmModule` (fetch and instantiation), `console.*`, `alert`, `jsStdDebugBreak`, the canvas and WebGL helpers, and `jsPrintFloat`/`jsPrintString`, which only log. These are I/O.
- `GetHeapBaseAddress` returns the link-time address of `__heap_base`. It is a parameter of `WasmMemory.Init` and `HostBridge.Load`.
- WasmMemory.AllocateAll: holds for the corrected allocator only. As written, a wrapping request moves the current address down (`WasmMemory.WrapSlipsPastLimit`); `WasmMemory.AllocateAllAsWritten` states what does hold. It also models calls after an out-of-memory abort as ignored. In the source the abort throws and ends the guest's call.
- WasmMemory.SuccessiveBlocks: holds for the corrected allocator only. As written, a wrapping request makes the next block overlap the last; `WasmMemory.SuccessiveBlocksAsWritten` states what does hold.
- WasmMemory.FirstBlockAtBase: stated for the corrected allocator; `WasmMemory.FirstBlockAtBaseAsWritten` is the same fact for the allocator as written.
- MemoryOps.Memmove: hands the copy to `Memcpy` when the blocks are `Disjoint`, the intended test, rather than the modular test of `string.c` line 297. `MemoryOps.CopyTestExact` shows the two agree whenever `2n <= 2^32`, and `MemoryOps.CopyTestMisfires` shows an input where they do not.
- `__FLOAT_BITS` and `__DOUBLE_BITS` have no property of their own here: a float is identified with its encoding, so the union read is the identity. The classification members carry the content.
- `alloca` forwards to a compiler builtin and is not modelled.
- `__fpclassifyl` and `long double` are not modelled; on wasm32 `long double` is a software binary128.
- FMinMax.Fmin and FMinMax.Fmax work on abstract values. NaN payloads and the bit encodings of the results are not modelled, and finite magnitudes are reals.
- The floating-point parts of `log2_inline` and `exp2_inline` are not modelled: the polynomials, the tables' contents and the conversions of `ki`. Nor are `__math_xflowf`, `__math_oflowf` and `__math_uflowf`. These are float numerics; only the integer table-index computations are modelled.
- The trigonometric and logarithm kernels (`math_trig_helpers.c`, `math_log_helpers.c`), `stdio.c`, `assert.c` beyond its call into the host, `float.c` and `std_main.c` are not part of this model.

## Findings

| source | as written | input that shows it | evidently intended | confidence | as-written member | corrected member |
|---|---|---|---|---|---|---|
| source/string.c:297 | `_memmove` hands a call to `memcpy` when `(uintptr_t)s - (uintptr_t)d - n <= -2 * n`, with both sides reduced modulo 2^32 | `d = 1`, `s = 0`, `n = 2^31 + 1`: the blocks overlap, yet the test holds and the forward copy reads bytes it has already overwritten | hand off only non-overlapping blocks | low, not executed (needs a block of more than 2 GiB) | MemoryOps.CopyTestMisfires | MemoryOps.Memmove |
| source/stdlib_qsort_helpers.c:21-29 | `pntz` takes `32 + a_ctz_64(p[1]) == 32` to mean that no bit was found, and returns 0 | `qsort` of 11,405,774 items, one more than the Leonardo number L(33) = 11,405,773: the build loop ends with trees of orders 1 and 33, `p = {1, 1}` and `pshift = 1`; there `pntz` returns 0, the shift by 0 leaves the bitmap as it is, and the dismantling loop never ends | return `32 + a_ctz_64(p[1])` whenever `p[0] == 1` | high, not executed | QsortBits.ShrinkNeverEndsAsWritten | QsortBits.NextTreeGap |
| source/std_wasm_memory.c:49-62 | `current + numBytes + 1` and `current += numBytes` are `uint32_t` sums that wrap | current address 0x10000 and a request of 0xFFFFFFFF bytes: no abort and no growth, and the current address wraps to 0xFFFF, below the block just returned | abort when the heap end passes the 2 GiB limit | high, not executed | WasmMemory.WrapSlipsPastLimit | WasmMemory.Allocate |
| source/std_wasm_memory.c:49-50 | the 2 GiB check compares the rounded-down page count with 524288 | current address 2^31 and `malloc(1)`: the count is (2^31 + 2) / 4096 = 524288, not above the limit, so a block ending past 2 GiB is returned | abort when the heap end passes 2 GiB | medium, not executed | Stdlib.MallocPastLimit | Stdlib.MemoryEntryCorrected |
| source/std_wasm_memory.c:49 | the page count is the end address divided by the page size, rounded down | a 4097-byte block at address 0 is counted as one 4096-byte page | round up, so the pages cover the block | high, not executed | WasmMemory.FloorUnderCounts | WasmMemory.PagesFor |
| source/std_wasm_memory.c:55-58 | the guest counts 4 KiB pages (`include/internal/std_constants.h:10`) and asks the host to grow by that count, but `memory.grow` counts 64 KiB pages | a 300 MiB request on a fresh two-page module asks for 76814 pages of 64 KiB, and the host throws | count in the host's 64 KiB pages | high, not executed | HostBridge.UnitMismatchGrowThrows | HostBridge.MallocStaysInBuffer |
| source/web/std_js_api.js:81-98 | the handler reads a fifth parameter `messageStrPntr`, but the guest imports and calls it with four (`include/internal/std_js_api.h:13`, `source/assert.c:11`); `undefined != 0` is true | any guest assertion failure is reported as "Assertion failed,  (cond) …", with an empty message | four parameters, the condition in the message-less form | high, not executed | HostBridge.GuestAssertTakesMessageForm | HostBridge.GuestAssertCorrected |
