# Memory segments, breakpoint tables and I/O port dispatch

A Dafny model of the addressable state of the Enterprise-128 emulator core. It covers two components.

- **Memory** (memory.cpp) has:
  - 256 lazily allocated 16 KiB segments, each with a ROM flag;
  - a global breakpoint table of 64 K entries;
  - one breakpoint table of 16 K entries per segment.

  Each breakpoint table is allocated on the first set, counts its breakpoints and is freed when the count reaches zero. Each entry is one byte: bit 0 is read, bit 1 is write, bits 2-3 are the priority. A load spills into the following segments (segment index mod 256) and pads the last block with 0xFF.
- **IOPorts** (ioports.hpp) has the inline `read` and `write` over 256 ports. Each port has a read callback record, a write callback record and a cached value. An optional 256-entry breakpoint table is gated against the priority threshold.

Modules:

- `Encoding`: the one-byte breakpoint encoding, the merge of a requested entry into an existing one, and the pre-shifted threshold with the gate the hot paths evaluate.
- `BreakPoints`: one breakpoint table as a value (`Table`). `Set` is one setBreakPoint call as written. The merge, allocation and clear laws are proved about it.
- `BreakPointList`: the records getBreakPointList produces, as a function of the tables, with their order and membership proved.
- `SegmentLoad`: where loadSegment puts each byte, as arithmetic on stream positions. Position `j` of the stream (the data, then 0xFF padding) lands in segment `(s + j / 16384) mod 256` at offset `j mod 16384`. The byte a segment finally holds is that of the last position that lands on it.
- `Ep128Memory`: the `Memory` class, with the source's arrays as fields:
  - Each breakpoint table is mirrored by a ghost `Table`. Every breakpoint method is proved to change that value exactly as `BreakPoints.Set` does.
  - `LoadSegment` is proved against `SegmentLoad`. The claim of segments is stated by `Claimed` and the bytes by `Written`.
- `Ep128IOPorts`: the `IOPorts` class. `Read` and `Write` are proved against the functions `ReadValue`, `ReadEvents`, `WriteState` and `WriteEvents`. The read callback is a function value. The write callbacks and the debugger hook are observed as events appended to a ghost trace, each carrying the port values it could see, so the trace fixes the order of hook, store and callback.

The ports' breakpoint table, counter and threshold are set by IOPorts members whose bodies are not part of this model. The `IOPorts` constructor therefore takes that state as parameters.

The counter of a table is meant to count the breakpoints it holds. The clear branch is commented "remove a previously existing breakpoint" (memory.cpp:128, 161), and the table is freed when its counter reaches zero (memory.cpp:130-133). In the code, though, a clear decrements the counter but leaves the entry byte as it was (memory.cpp:126-134, 159-168). The model follows the code. So the invariant kept here is `BreakPoints.Valid`: an allocated table has a counter of at least 1 and at most its number of non-zero entries. See "## Findings".

## Model

| member | source | states |
|---|---|---|
| Encoding.Clamp | memory.cpp:110-111 | the result lies in `lo..hi`, equals `n` inside that range, `lo` below it and `hi` above it |
| Encoding.ModeBits | memory.cpp:107 | the mode has bit 0 exactly when `r`, bit 1 exactly when `w`, and is zero exactly when neither is requested |
| Encoding.PriorityBits | memory.cpp:110-111 | the priority bits have no flag bits set and decode to the priority clamped to 0..3 |
| Encoding.Request | memory.cpp:107-111 | the requested entry is a valid encoding with exactly the requested flags and the clamped priority |
| Encoding.Merge | memory.cpp:121-123 | on valid encodings, the merged entry's flags are the OR of both flags, and its priority is the larger of the two priorities |
| Encoding.ThresholdByte | memory.cpp:198-202 | the stored threshold has no flag bits, is at most 16, and un-shifts to the level clamped to 0..4 |
| Encoding.ThresholdRoundTrip | memory.cpp:198-207 | the getter after the setter returns clamp(n, 0, 4) |
| Encoding.GateIsPriorityComparison | ioports.hpp:74-75 | comparing the whole entry byte with the pre-shifted threshold is comparing the entry's priority with the threshold level |
| Encoding.LevelFourNeverFires | ioports.hpp:74-75 | threshold level 4 never lets a valid entry fire, for either access kind |
| BreakPoints.Zeroes | memory.cpp:112-116 | a freshly allocated table buffer has the table's size and every entry zero |
| BreakPoints.Set | memory.cpp:104-136 | one set or clear call keeps a table well formed: an allocated buffer has the table's size and a counter of at least 1 |
| BreakPoints.SetKeepsValid | memory.cpp:104-169 | every set or clear keeps the invariant: valid encodings only, and a counter that is at least 1 and at most the number of non-zero entries |
| BreakPoints.SetMergeLaw | memory.cpp:117-124 | a set leaves the entry's flags as the old flags OR the requested ones, its priority as the maximum of the old and the clamped requested priority, and every other entry unchanged |
| BreakPoints.SetAllocates | memory.cpp:112-120 | a set on an absent table allocates a zero buffer holding only the request, with a counter of 1; the counter grows exactly when the entry was zero |
| BreakPoints.ClearLaw | memory.cpp:126-134 | a clear of an absent table or a zero entry changes nothing; otherwise it decrements the counter, frees the table exactly when the counter reaches zero, and keeps every byte |
| BreakPoints.SetAll | memory.cpp:104-136 | any sequence of calls at one offset keeps the table well formed |
| BreakPoints.RepeatedSetMergeLaw | memory.cpp:117-124 | after any sequence of set calls at one offset, the flags are the OR of all requested flags and the priority is the maximum of all requested priorities, together with the entry's own |
| BreakPoints.CountNonZeroUpdate | memory.cpp:118-119 | overwriting one entry changes the breakpoint count by the change in that entry's zero-ness |
| BreakPoints.CountNonZeroSuffix | memory.cpp:173-174 | the count of a suffix splits into its first entry and the rest, as the clear loops walk it |
| BreakPoints.ClearLeavesBreakPoint | memory.cpp:126-134 | as written: a cleared breakpoint stays in the buffer, so the counter falls below the number of non-zero entries, and a second clear frees a table still holding another breakpoint |
| BreakPoints.SetCorrected | memory.cpp:126-134 | the corrected call, with the clear resetting the entry, keeps a table well formed |
| BreakPoints.SetCorrectedKeepsExact | memory.cpp:104-136 | with the corrected clear, the counter always equals the number of non-zero entries, a clear leaves the entry zero, and a table is allocated exactly when it holds a breakpoint |
| BreakPointList.TableEntriesMembers | memory.cpp:258-263 | a record is listed for a table exactly when its entry is non-zero, and it carries that entry decoded as `bp & 1`, `bp & 2`, `bp >> 2` |
| BreakPointList.TableEntriesAscending | memory.cpp:258-263 | a table's records come in strictly ascending index order |
| BreakPointList.SegmentsEntriesAscending | memory.cpp:265-274 | the segment records come in strictly ascending (segment, offset) order |
| BreakPointList.SegmentsEntriesMembers | memory.cpp:265-274 | a segment record is listed exactly for a non-zero entry of an allocated segment table, decoded |
| BreakPointList.ListAscending | memory.cpp:254-276 | the whole list is strictly ascending: global entries by address first, then segment entries by (segment, offset); no location is listed twice |
| BreakPointList.ListMembers | memory.cpp:254-276 | exactly the non-zero entries of the global table and of the allocated segment tables are listed, each decoded from its byte |
| SegmentLoad.LoadEnd | memory.cpp:236 | the fill stops at the first 16 KiB boundary at or after the data's end, and never before the end of the first segment |
| SegmentLoad.LandsIff | memory.cpp:226-228 | a stream position lands on (segment, offset) exactly when it is congruent, modulo 4 MiB, to that place's first position |
| SegmentLoad.LastWriteIsLast | memory.cpp:225-237 | `LastWrite` is a position below the end that lands on the place, and no later position lands there; it is -1 when none does |
| SegmentLoad.LastWriteStep | memory.cpp:226 | writing one more position makes it the last write at its own place and leaves every other place alone |
| SegmentLoad.PlaceNext | memory.cpp:227-228 | the cursor segment advances by one (mod 256) exactly after every 16 KiB |
| SegmentLoad.PlaceIsTouched | memory.cpp:219-233 | the segment under the cursor has been claimed |
| SegmentLoad.TouchedNext | memory.cpp:227-233 | crossing a 16 KiB boundary claims exactly the new cursor segment, and no other step claims one |
| SegmentLoad.SegmentDistance | memory.cpp:227-228 | segment k is t segments past s (mod 256) exactly when (k - s) mod 256 equals t mod 256 |
| SegmentLoad.FillCondition | memory.cpp:236 | between the data's end and the fill end, the fill loop's condition `i < 16384 \|\| (i & 0x3FFF) != 0` is `i < LoadEnd(n)` |
| SegmentLoad.FillPlace | memory.cpp:236-237 | the fill loop stays in the cursor segment |
| SegmentLoad.PlacementOfEveryByte | memory.cpp:225-237 | in a load of at most 4 MiB, stream position j is the last write of segment `(s + j / 16384) mod 256`, offset `j mod 16384` |
| SegmentLoad.PaddingIsErased | memory.cpp:236-237 | every stream position from the data's end on is 0xFF |
| SegmentLoad.EmptyLoadFillsSegment | memory.cpp:219-237 | a non-ROM load of zero bytes claims only its segment and writes 0xFF to every offset of it |
| SegmentLoad.TrailingSegmentNotFilled | memory.cpp:227-237 | a load whose size is a positive multiple of 16 KiB below 4 MiB claims and flags the following segment but writes no byte into it |
| SegmentLoad.LoadExample | memory.cpp:209-238 | a 20000-byte load into segment 3 puts data[0..16384) in segment 3 and data[16384..20000) at offsets 0..3616 of segment 4, pads segment 4 with 0xFF, and claims nothing else |
| Ep128Memory.StoreByte | memory.cpp:226 | storing the stream byte of position i at the cursor advances `Written` by one position |
| Ep128Memory.ClaimedWithinBlock | memory.cpp:225-227 | inside a 16 KiB block the next position claims no new segment |
| Ep128Memory.ClaimSegment | memory.cpp:219-223 | the segment gets a buffer if it had none, keeps its buffer if it had one, and gets the ROM flag; no other segment changes |
| Ep128Memory.ClaimNext | memory.cpp:227-233 | at the end of a block the next segment (mod 256) is claimed and flagged, and the bytes written so far stay |
| Ep128Memory.ClaimFirst | memory.cpp:219-223 | before the data loop only the first segment is claimed and nothing is written |
| Ep128Memory.CopyByte | memory.cpp:225-235 | one pass of the data loop advances both `Claimed` and `Written` by one position and moves the cursor to the next position's segment |
| Ep128Memory.CopyData | memory.cpp:219-235 | after the data loop the first `size` positions are written, the segments of their blocks claimed, and the cursor is the segment of position `size` |
| Ep128Memory.FillToBoundary | memory.cpp:236-237 | the fill loop writes 0xFF from the data's end to `LoadEnd`, touching only the cursor segment |
| Ep128Memory.FillByte | memory.cpp:237 | one pass of the fill loop stores 0xFF in the cursor segment and advances `Written` by one position |
| Ep128Memory.LoadStream | memory.cpp:219-237 | a non-deleting load claims and flags exactly the touched segments and leaves every byte holding the stream byte of the last position that lands on it |
| Ep128Memory.Memory.constructor | memory.cpp:25-72 | a new Memory has no segment, every ROM flag set, no breakpoint table, and threshold 0, and its four tables are freshly allocated |
| Ep128Memory.Memory.NewTable | memory.cpp:112-116 | a fresh table of the given size, all zero |
| Ep128Memory.Memory.SetSegmentBreakPoint | memory.cpp:104-136 | the segment's table changes exactly as `BreakPoints.Set` at offset `addr & 0x3FFF`; no other table changes; `haveBreakPoints` is set by a set; the invariant is kept |
| Ep128Memory.Memory.AddSegmentBreakPoint | memory.cpp:108-124 | the set branch: the table is allocated if absent and the request merged, as `BreakPoints.Set` says; `haveBreakPoints` holds afterwards |
| Ep128Memory.Memory.SetBreakPoint | memory.cpp:138-169 | the global table changes exactly as `BreakPoints.Set` at `addr`; `haveBreakPoints` is set by a set; the invariant is kept |
| Ep128Memory.Memory.AddBreakPoint | memory.cpp:141-157 | the set branch of the global form, as `BreakPoints.Set` says |
| Ep128Memory.Memory.ClearSegmentBreakPoints | memory.cpp:171-175 | afterwards that segment's table is absent and no other segment table changes |
| Ep128Memory.Memory.ClearBreakPoints | memory.cpp:177-181 | afterwards the global table is absent |
| Ep128Memory.Memory.ClearAllBreakPoints | memory.cpp:183-189 | afterwards every table is absent and `haveBreakPoints` is false |
| Ep128Memory.Memory.SetBreakPointPriorityThreshold | memory.cpp:198-202 | the stored threshold is `ThresholdByte(n)`, the clamped level shifted left by 2 |
| Ep128Memory.Memory.GetBreakPointPriorityThreshold | memory.cpp:204-207 | the getter returns a level 0..4 that stores back to the same byte |
| Ep128Memory.Memory.DeleteSegment | memory.cpp:240-246 | the segment's buffer is absent and its ROM flag set; no other segment changes |
| Ep128Memory.Memory.DeleteAllSegments | memory.cpp:248-252 | every segment is absent with its ROM flag set |
| Ep128Memory.Memory.LoadSegment | memory.cpp:209-238 | a ROM load of no data (null or size 0) is exactly `deleteSegment`; any other load claims and flags exactly the touched segments and leaves every byte holding the stream byte of the last position that lands on it |
| Ep128Memory.Memory.GetBreakPointList | memory.cpp:254-276 | the list is `BreakPointList.ListOf` of the current tables |
| Ep128Memory.Memory.ScanSegments | memory.cpp:265-274 | the segment loop produces the records of the allocated segment tables in segment order |
| Ep128Memory.Memory.ScanTable | memory.cpp:258-263 | one table's loop produces a record for each non-zero entry, in index order |
| Ep128IOPorts.ReadDependsOnRecordOnly | ioports.hpp:69-72 | the value read, and the callback event, depend only on the read record of port `addr & 0xFF`: two states with the same record there read the same value, whatever their port values, breakpoint table and threshold |
| Ep128IOPorts.ReadEvents | ioports.hpp:67-79 | the read callback runs first; then the hook follows, with the full address and the produced value, exactly when the table is allocated, the entry reaches the threshold and the read bit is set |
| Ep128IOPorts.WriteState | ioports.hpp:91 | only `portValues[addr & 0xFF]` changes, and it becomes `value` |
| Ep128IOPorts.WriteEvents | ioports.hpp:81-93 | the hook comes first, exactly when the write gate fires, while the port still holds its old value; then the write callback runs with its record's arguments and `value`, after the port value is updated |
| Ep128IOPorts.ReadSeesLowByte | ioports.hpp:69 | two addresses with the same low byte read the same value from the same callback call |
| Ep128IOPorts.AbsentTableNeverHooks | ioports.hpp:73-88 | with no breakpoint table, neither a read nor a write calls the hook |
| Ep128IOPorts.HookIsPriorityGate | ioports.hpp:73-77 | under a threshold set to level n, the hook fires exactly when the entry's priority reaches clamp(n, 0, 4) and the access bit is set |
| Ep128IOPorts.LevelFourSilences | ioports.hpp:74-88 | at threshold level 4 no read or write of a table of valid entries calls the hook |
| Ep128IOPorts.IOPorts.constructor | ioports.hpp:40-45 | the new object holds exactly the given port values, callback records, breakpoint table, counter and threshold, and its trace is empty; its port, callback and breakpoint arrays are freshly allocated |
| Ep128IOPorts.IOPorts.BreakPointCallback | ioports.hpp:51 | a hook call is recorded together with the port values at that moment |
| Ep128IOPorts.IOPorts.Read | ioports.hpp:67-79 | the result is the value of port `addr & 0xFF`'s read callback called with that record's own `userData_` and `addr_` (`ReadValue`), and the trace grows by `ReadEvents` |
| Ep128IOPorts.IOPorts.Write | ioports.hpp:81-93 | the new state is `WriteState`, and the trace grows by `WriteEvents` |

## Left out

- The exception-safe allocation rollback of the Memory constructor (memory.cpp:39-71) and the destructor (memory.cpp:74-102): in this model construction is total and memory is garbage collected.
- A failing `new` in setBreakPoint (memory.cpp:113, 146) or loadSegment (memory.cpp:221, 231): allocation always succeeds in this model. A failure at memory.cpp:231 would leave a load half done, with earlier segments written; that outcome is not modelled.
- Memory's inline hot-path `read`/`write` and the `pageTable` banking: they live in a header that is not part of this model. The constructor's `pageTable` zeroing (memory.cpp:29-32) is left out with them.
- Memory's `breakPointCallback` (memory.cpp:191-196): it is a no-op, and only the hot path calls it.
- The bodies of the IOPorts non-inline members: constructor, destructor, `setBreakPoint`, `clearBreakPoints`, the threshold setter and getter, `setReadCallback`/`setWriteCallback` and `getBreakPointList`. ioports.hpp:47-62 only declares them; the `IOPorts` constructor takes the state they leave as parameters.
- The concrete hardware callbacks and the debugger's override of `breakPointCallback`:
  - a read callback is a pure function value of `(userData, addr)`;
  - a write callback is an opaque handle whose call is recorded in the trace;
  - `userData` pointers are integers.
- Ep128IOPorts.ReadValue: a read callback cannot change port values or tables, because it is a function value. A real callback may have side effects. Being a pure function of a fixed record, each port also returns the same value for the object's whole lifetime, while real hardware returns changing values.
- Ep128IOPorts.IOPorts.constructor: it does not model `IOPorts()` (ioports.hpp:47), whose body is not part of this model. It takes the state that constructor and the setters would leave as parameters.
- The `& 0xFF` and `& 0x3FFF` masks are written as `% 256` and `% 16384`, which agree on the non-negative values involved.
- `size_t` and `uint8_t` widths: the segment cursor wraps mod 256 explicitly. The stream position is an unbounded natural number (a `size_t` cannot overflow for a buffer that exists).
- Ep128Memory.Memory.LoadSegment: a freshly allocated buffer's contents are arbitrary, so a byte of a new segment that no stream position reaches is left unconstrained. Only the trailing segment of a load of whole blocks shorter than 4 MiB has such bytes; a load of 4 MiB or more writes every byte of every segment.
- Memory's read-only accessors and any other file of the emulator (sound I/O, typedefs, exceptions) are not part of this model.

## Findings

| source | as written | input that shows it | evidently intended | confidence | as-written member | corrected member |
|---|---|---|---|---|---|---|
| memory.cpp:126-134 (and 159-168 for the global table) | a clear decrements the counter but leaves the entry byte non-zero | set read breakpoints at offsets a and b of one table, then clear a twice: the first clear leaves a listed, with `count == 1` but two non-zero entries; the second clear frees the table although b was never cleared | the clear also resets the entry to zero, so the counter equals the number of breakpoints held and a table is freed exactly when its last breakpoint is cleared | not executed | BreakPoints.ClearLeavesBreakPoint | BreakPoints.SetCorrectedKeepsExact |

The `Memory` class follows the code as written, through `BreakPoints.Set`. `BreakPoints.SetCorrected` differs from `Set` only on the clear path. `BreakPoints.SetCorrectedKeepsExact` proves that the intended invariant holds for it: the counter equals the number of non-zero entries, and a table is allocated exactly when it holds a breakpoint.
