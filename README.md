# js2il core, modelled in Dafny

js2il compiles JavaScript to .NET IL. This project models three sequential,
self-contained parts of it and proves properties of the model.

1. **Runtime data structures.**
   - `JavaScriptRuntime.Array` is a list of JS values that its methods edit
     in place (module `JsArray`, class `JsArray.JsArray`).
   - `Node.Buffer` is a byte buffer with fixed-width readers and writers,
     `compare`, `concat`, `copy`, `alloc` and a Base16 codec (RFC 4648,
     section 8) (module `NodeBuffer`, class `NodeBuffer.Buffer`).
   - `JavaScriptRuntime.String` is the regex-free part of
     `String.prototype` (module `JsString`).
   - `JavaScriptRuntime.Object` (module `JsObject`) covers two things:
     - canonical array-index parsing;
     - the integrity levels and the `defineProperty` redefinition rules
       (ECMA-262, section 20.1.2), over a key-to-descriptor map held by the
       class `JsObject.PropertyBag`.
   - The for-in iterator (ECMA-262, section 14.7.5.10) takes a key snapshot
     per prototype level (class `ForIn.ForInIterator`).

2. **Back-end passes over the LIR instruction list.** The shared instruction
   stream is in module `Lir`. Each instruction has a kind, the temps it reads
   and at most one temp it defines.
   - the linear-scan temp allocator (`TempAllocation`);
   - the stackifier (`Stackify`);
   - the IL local layout (`ILLocals`);
   - the console.log peephole (`ConsoleLog`);
   - the type, intrinsic and member-call normalisations (`TypeNormalization`,
     `IntrinsicNormalization`, `MemberCallNormalization`);
   - the per-method variable context (`VariableBindings.Variables`);
   - `var` hoisting and capture marking over the scope tree (`SymbolTable`).

3. **Pure string, path and encoding helpers.**
   - module-id encoding, bare-specifier parsing and package `exports`
     resolution (`NodeModuleResolution`);
   - the module loader's alias and identity helpers (`ModuleLoading`);
   - the ECMA-335 compressed integers and the custom-attribute blob
     (`ExportsContract`);
   - the metadata readers of the inspect tool (`MetadataInspect`);
   - the repository's scripts:
     - the release helper (`Release`);
     - the ECMA-262 status documents (`StatusRollup`, `PipeTable`,
       `SectionSplit`, `SectionMarkdown`, `SubclauseSync`, `SectionHtml`);
     - the differential tester (`DifferentialTest`);
     - the performance ingester (`PerfIngest`).

Modelling conventions:
- JS values are a datatype (`JsValues`), and numbers are integers. The source
  coerces its `double` arguments before using them, so the model takes them
  as already coerced.
- Strings are sequences of Dafny `char`s, which are Unicode scalar values.
  A `char` stands for one UTF-16 code unit of a character in the Basic
  Multilingual Plane. Surrogate pairs and lone surrogates are not modelled
  (see "## Left out").
- A method that changes state is proved against a specification function,
  and the properties are lemmas about that function.

Where the code and its documentation disagree, the model follows the code,
with one exception: each discrepancy that a proof exposed is listed under
"## Findings". There the model keeps a member for the code as written and
one for the corrected code, and the rest of the model uses the corrected
one. Two such corrected definitions are used by operations that the source
implements as written: `JsObject.PropertyBag.DefineProperty` and
`NodeModuleResolution.ExportsTarget`. "## Left out" says what those two
operations then do not capture.

## Model

| member | source | states |
|---|---|---|
| JsArray.ClampRelative | JavaScriptRuntime/Array.cs:1422-1431 | a negative index counts back from the length and is clamped into [0, len]; an index above len becomes len |
| JsArray.CoerceStartIndex | JavaScriptRuntime/Array.cs:1411-1432 | undefined keeps the default; a negative argument counts back from len; the result never exceeds len |
| JsArray.WrittenAt | JavaScriptRuntime/Array.cs:377-417 | after `a[i] = v` for i >= 0 the length is max(len, i+1), slot i holds v, every other old slot is kept and the gap is undefined |
| JsArray.Resized | JavaScriptRuntime/Array.cs:602-610 | the `length` setter truncates to n or pads with undefined up to n, keeping the common prefix |
| JsArray.SliceEnd | JavaScriptRuntime/Array.cs:1439-1511 | a missing or undefined end means len, null means 0, and the result is within [0, len] |
| JsArray.SliceStart | JavaScriptRuntime/Array.cs:1439-1511 | with no argument slice starts at 0; the start is within [0, len] |
| JsArray.SpliceDeleteCount | JavaScriptRuntime/Array.cs:1537-1598 | one argument deletes everything after the start; a negative count deletes nothing; the count is clamped to what follows the start |
| JsArray.SpliceItems | JavaScriptRuntime/Array.cs:1537-1598 | the inserted items are exactly the arguments after the first two |
| JsArray.IndexOfFrom | JavaScriptRuntime/Array.cs:1172-1196 | the search starts at 0 without a fromIndex and never past len |
| JsArray.LastIndexOfFrom | JavaScriptRuntime/Array.cs:1206-1231 | the backward search starts at len-1 without a fromIndex and stays within [-1, len) |
| JsArray.CopyWithinPlan | JavaScriptRuntime/Array.cs:1901-1944 | target, start and count are normalised so that both the source and the target range lie inside the array |
| JsArray.CopiedWithin | JavaScriptRuntime/Array.cs:1901-1944 | the length is kept, slots in [target, target+count) take the snapshot elements from start on, every other slot is unchanged |
| JsArray.CollectRange | JavaScriptRuntime/Array.cs:1537-1598 | the elements splice removes are exactly the slice [start, start+count) |
| JsArray.SnapshotRange | JavaScriptRuntime/Array.cs:1901-1944 | the temporary buffer is fresh and holds the count elements from start |
| JsArray.SpreadOfNonArrays | JavaScriptRuntime/Array.cs:1831-1851 | concat arguments that are not arrays are appended unchanged |
| JsArray.FlattenedDepthZero | JavaScriptRuntime/Array.cs:1972-1991 | flattening to depth 0 leaves the elements unchanged |
| JsArray.FlattenedWithoutArrays | JavaScriptRuntime/Array.cs:1972-1991 | flattening a list without nested arrays leaves it unchanged at any depth |
| JsArray.Reverse | JavaScriptRuntime/Array.cs:1817-1822 | element k of the result is element len-1-k of the input |
| JsArray.ReverseInvolutive | JavaScriptRuntime/Array.cs:1817-1822 | reversing twice gives back the original list |
| JsArray.Construct | JavaScriptRuntime/Array.cs:428-479 | no argument gives []; a single number in [0, 2^31-1] gives that many undefined slots; a single out-of-range number is a RangeError; otherwise the arguments become the elements |
| JsArray.JsArray.constructor | JavaScriptRuntime/Array.cs:350-358 | a new array holds exactly the initial elements |
| JsArray.JsArray.SetItem | JavaScriptRuntime/Array.cs:377-417 | a negative index leaves the list unchanged (it becomes a named property); a non-negative index gives WrittenAt |
| JsArray.JsArray.GetItem | JavaScriptRuntime/Array.cs:367-376 | an in-range read returns the element, any other read returns undefined |
| JsArray.JsArray.SetLength | JavaScriptRuntime/Array.cs:555-611 | the setter fails with RangeError exactly for negative lengths and lengths above 2^31-1, leaving the list unchanged; otherwise the list becomes Resized |
| JsArray.JsArray.Slice | JavaScriptRuntime/Array.cs:1439-1511 | returns a fresh copy of [start, end) after normalisation and leaves the receiver unchanged |
| JsArray.JsArray.Splice | JavaScriptRuntime/Array.cs:1537-1598 | returns the removed range and leaves prefix + items + suffix; with no argument nothing changes |
| JsArray.JsArray.DeleteRange | JavaScriptRuntime/Array.cs:1537-1598 | removing count elements one at a time at start leaves the prefix followed by the suffix |
| JsArray.JsArray.Push | JavaScriptRuntime/Array.cs:1694-1702 | appends the item and returns the new length |
| JsArray.JsArray.PushAll | JavaScriptRuntime/Array.cs:1703-1718 | appends every argument in order and returns the new length |
| JsArray.JsArray.Pop | JavaScriptRuntime/Array.cs:1728-1742 | removes and returns the last element; on an empty array returns undefined and changes nothing |
| JsArray.JsArray.Shift | JavaScriptRuntime/Array.cs:1780-1787 | removes and returns the first element; on an empty array returns undefined and changes nothing |
| JsArray.JsArray.Unshift | JavaScriptRuntime/Array.cs:1796-1808 | inserting each argument at 0 from the last one back leaves the items, in their original order, before the old elements |
| JsArray.JsArray.IndexOf | JavaScriptRuntime/Array.cs:1172-1196 | returns the first index at or after fromIndex holding a strictly equal value, or -1 when there is none |
| JsArray.JsArray.LastIndexOf | JavaScriptRuntime/Array.cs:1206-1231 | returns the last index at or before fromIndex holding a strictly equal value, or -1 |
| JsArray.JsArray.Fill | JavaScriptRuntime/Array.cs:1860-1892 | overwrites exactly [start, end) with the value and keeps the length and every other slot |
| JsArray.JsArray.CopyWithin | JavaScriptRuntime/Array.cs:1901-1944 | the new list is CopiedWithin of the old list under the normalised plan |
| JsArray.JsArray.WriteRange | JavaScriptRuntime/Array.cs:1901-1944 | writes the snapshot over the target range and nothing else |
| JsArray.JsArray.Concat | JavaScriptRuntime/Array.cs:1831-1851 | returns a fresh list: the receiver's elements followed by each argument, arrays spread one level |
| JsArray.JsArray.Flat | JavaScriptRuntime/Array.cs:1953-1966 | flattens to the given depth, 1 by default, a negative depth acting as 0 |
| JsArray.JsArray.ToReversed | JavaScriptRuntime/Array.cs:2011-2017 | returns a reversed copy of the same length |
| JsArray.JsArray.With | JavaScriptRuntime/Array.cs:2058-2078 | fewer than two arguments is a TypeError; an index out of range after counting back is a RangeError; otherwise a copy with that one element replaced |
| JsArray.FlattenInto | JavaScriptRuntime/Array.cs:1972-1991 | the target gains the source flattened to the given depth |
| JsArray.PushThenPop | JavaScriptRuntime/Array.cs:1694-1742 | push followed by pop returns the pushed item and restores the contents |
| NodeBuffer.CoerceToIndex | JavaScriptRuntime/Node/Buffer.cs:709-744 | undefined and null give the default; a number is counted back from the end when negative and clamped into [0, length] |
| NodeBuffer.ToLength | JavaScriptRuntime/Node/Buffer.cs:684-708 | negative sizes give 0, sizes up to 2^31-1 are kept and larger ones are capped at 2^31-1 |
| NodeBuffer.ToUint8 | JavaScriptRuntime/Node/Buffer.cs:640-659 | the stored byte is the value's low 8 bits (congruent to it modulo 256) |
| NodeBuffer.EncodeLE | JavaScriptRuntime/Node/Buffer.cs:258-368 | a little-endian write produces exactly w bytes |
| NodeBuffer.EncodeBE | JavaScriptRuntime/Node/Buffer.cs:258-368 | a big-endian write produces exactly w bytes |
| NodeBuffer.DecodeLE | JavaScriptRuntime/Node/Buffer.cs:155-234 | an unsigned little-endian read of w bytes is below 2^(8w) |
| NodeBuffer.DecodeBE | JavaScriptRuntime/Node/Buffer.cs:155-234 | an unsigned big-endian read of w bytes is below 2^(8w) |
| NodeBuffer.ToSigned | JavaScriptRuntime/Node/Buffer.cs:135-234 | the signed reads (sbyte, short, int casts) give the two's-complement value: in [-2^(8w-1), 2^(8w-1)) and congruent to the unsigned one |
| NodeBuffer.DecodeEncodeLE | JavaScriptRuntime/Node/Buffer.cs:155-368 | a little-endian write then read of the same width returns the value modulo 2^(8w) |
| NodeBuffer.DecodeEncodeBE | JavaScriptRuntime/Node/Buffer.cs:155-368 | a big-endian write then read of the same width returns the value modulo 2^(8w) |
| NodeBuffer.DecodeEncode | JavaScriptRuntime/Node/Buffer.cs:155-368 | for either byte order, write then read returns the value modulo 2^(8w) |
| NodeBuffer.SignedRoundTrip | JavaScriptRuntime/Node/Buffer.cs:135-368 | a signed write of an in-range value reads back, signed, as that value |
| NodeBuffer.LexCompare | JavaScriptRuntime/Node/Buffer.cs:502-527 | the comparison answers -1, 0 or 1 |
| NodeBuffer.LexCompareZeroIffEqual | JavaScriptRuntime/Node/Buffer.cs:502-527 | the comparison is 0 exactly when both byte sequences are equal |
| NodeBuffer.LexCompareAntisymmetric | JavaScriptRuntime/Node/Buffer.cs:502-527 | swapping the operands negates the answer |
| NodeBuffer.LexComparePrefix | JavaScriptRuntime/Node/Buffer.cs:521-523 | a proper prefix compares less |
| NodeBuffer.LexCompareAt | JavaScriptRuntime/Node/Buffer.cs:513-520 | equal leading bytes do not change the answer: the comparison is decided at the first difference |
| NodeBuffer.Alloc | JavaScriptRuntime/Node/Buffer.cs:84-128 | the buffer has ToLength(size) bytes; they repeat the fill pattern, or are all 0 without a fill or with an empty pattern |
| NodeBuffer.FitTo | JavaScriptRuntime/Node/Buffer.cs:449-496 | the joined bytes cut or zero-padded to exactly total bytes |
| NodeBuffer.Concat | JavaScriptRuntime/Node/Buffer.cs:449-496 | the result's length is the chunks' total or ToLength(totalLength), and it holds the joined chunks fitted to that length |
| NodeBuffer.TotalLength | JavaScriptRuntime/Node/Buffer.cs:463-472 | the first loop computes the sum of the chunk lengths |
| NodeBuffer.CopyChunks | JavaScriptRuntime/Node/Buffer.cs:474-495 | the copying loop leaves the joined chunks fitted to the output length, stopping once the output is full |
| NodeBuffer.HexDigit | JavaScriptRuntime/Node/Buffer.cs:891-904 | the digit written for n < 16 is a hex digit whose value is n |
| NodeBuffer.HexValue | JavaScriptRuntime/Node/Buffer.cs:851-887 | a hex digit's value is below 16 |
| NodeBuffer.ParseHexPair | JavaScriptRuntime/Node/Buffer.cs:851-887 | two hex digits parse to 16*high+low; two non-digits do not parse |
| NodeBuffer.HexEncode | JavaScriptRuntime/Node/Buffer.cs:891-904 | hex output has two characters per byte |
| NodeBuffer.HexEncodeDigits | JavaScriptRuntime/Node/Buffer.cs:891-904 | hex output holds lower-case hexadecimal digits only |
| NodeBuffer.HexDecodePairs | JavaScriptRuntime/Node/Buffer.cs:851-887 | decoding yields at most one byte per two characters |
| NodeBuffer.HexDecode | JavaScriptRuntime/Node/Buffer.cs:851-887 | decoding yields at most one byte per two characters |
| NodeBuffer.HexRoundTrip | JavaScriptRuntime/Node/Buffer.cs:851-904 | decoding the hex encoding of any bytes gives back those bytes |
| NodeBuffer.HexDecodeDropsOddTail | JavaScriptRuntime/Node/Buffer.cs:851-887 | an odd trailing character is ignored |
| NodeBuffer.HexDecodeStopsAtInvalid | JavaScriptRuntime/Node/Buffer.cs:851-887 | nothing after the first invalid pair is decoded |
| NodeBuffer.HexGetChars | JavaScriptRuntime/Node/Buffer.cs:891-904 | writes 2*byteCount characters, the hex encoding of the byte range, from charIndex on, and leaves every other character unchanged |
| NodeBuffer.PutHexDigits | JavaScriptRuntime/Node/Buffer.cs:897-902 | one iteration writes the next byte's two digits, extending the written encoding by two |
| NodeBuffer.HexEncodeAt | JavaScriptRuntime/Node/Buffer.cs:891-904 | byte k's digits sit at positions 2k (high nibble) and 2k+1 (low nibble) |
| NodeBuffer.HexEncodeAppend | JavaScriptRuntime/Node/Buffer.cs:891-904 | encoding one more byte appends its two digits |
| NodeBuffer.HexGetBytes | JavaScriptRuntime/Node/Buffer.cs:851-887 | with an empty target it counts the decoded bytes; otherwise it writes min(decoded, room) bytes from byteIndex and changes nothing else |
| NodeBuffer.DecodePairsInto | JavaScriptRuntime/Node/Buffer.cs:851-887 | the decoding loop over whole pairs, with the same count and write contract as HexGetBytes |
| NodeBuffer.CountPairs | JavaScriptRuntime/Node/Buffer.cs:851-887 | with an empty target the loop counts the bytes decoded before the first invalid pair |
| NodeBuffer.WritePairs | JavaScriptRuntime/Node/Buffer.cs:851-887 | with a target the loop writes decoded bytes from byteIndex until an invalid pair or a full target |
| NodeBuffer.WritePair | JavaScriptRuntime/Node/Buffer.cs:862-884 | one iteration either stops without writing (invalid pair or full target) or writes one more decoded byte |
| NodeBuffer.DecodeFromStep | JavaScriptRuntime/Node/Buffer.cs:862-884 | an invalid pair ends the decoding; a valid one contributes its byte followed by the rest |
| NodeBuffer.DecodeFromIsPairs | JavaScriptRuntime/Node/Buffer.cs:851-887 | the index-based decoding from i equals the pair decoding of the suffix from i |
| NodeBuffer.Buffer.constructor | JavaScriptRuntime/Node/Buffer.cs:15-19 | a new buffer owns a fresh array holding exactly the given bytes |
| NodeBuffer.Buffer.Read | JavaScriptRuntime/Node/Buffer.cs:135-234 | a fixed-width read at the coerced offset is out of range exactly when the width does not fit, and otherwise returns the decoded (signed if asked) value without changing the buffer |
| NodeBuffer.Buffer.Write | JavaScriptRuntime/Node/Buffer.cs:235-368 | a fixed-width write at the coerced offset fails without change when the width does not fit; otherwise it overwrites exactly those w bytes with the encoding and returns offset+w |
| NodeBuffer.Buffer.GetItem | JavaScriptRuntime/Node/Buffer.cs:609-618 | an in-range index reads the byte, any other reads undefined |
| NodeBuffer.Buffer.SetItem | JavaScriptRuntime/Node/Buffer.cs:619-626 | an in-range index stores the value's low 8 bits there and nothing else; an out-of-range write changes nothing |
| NodeBuffer.Buffer.Slice | JavaScriptRuntime/Node/Buffer.cs:548-563 | a copy of [start, end) after coercion, empty when start >= end |
| NodeBuffer.Buffer.Copy | JavaScriptRuntime/Node/Buffer.cs:580-607 | a non-buffer target is an error; otherwise CopyCount bytes from sourceStart land at targetStart, read from a snapshot, and the count is returned |
| NodeBuffer.CopyCount | JavaScriptRuntime/Node/Buffer.cs:592-604 | the copied count fits both buffers and is positive exactly when the source range is non-empty and the target has room |
| NodeBuffer.CopyPlan | JavaScriptRuntime/Node/Buffer.cs:592-604 | the imperative plan computes CopyCount |
| NodeBuffer.Overwritten | JavaScriptRuntime/Node/Buffer.cs:606 | overwriting keeps the length |
| NodeBuffer.OverwrittenNothing | JavaScriptRuntime/Node/Buffer.cs:606 | overwriting with nothing changes nothing |
| NodeBuffer.OverwrittenPointwise | JavaScriptRuntime/Node/Buffer.cs:606 | the overwritten range holds the source bytes and every other byte is kept |
| NodeBuffer.Overwrite | JavaScriptRuntime/Node/Buffer.cs:606 | the block copy leaves the destination equal to Overwritten of its old contents |
| NodeBuffer.Compare | JavaScriptRuntime/Node/Buffer.cs:502-527 | Buffer.compare is the lexicographic byte order, answers -1/0/1 and is 0 exactly when both buffers hold the same bytes |
| NodeBuffer.WriteThenRead | JavaScriptRuntime/Node/Buffer.cs:135-368 | a write and an unsigned read of the same width at the same offset succeed together, and the read returns the value modulo 2^(8w) |
| ConsoleLog.BuildArrayMatchIsExact | Js2IL/IL/ConsoleLogPeepholeOptimizer.cs:431-470 | the BuildArray pattern matches exactly when three consecutive instructions are the console global, a non-empty array build and a `log` call on those two, and the match reports that array |
| ConsoleLog.BuildArrayMatchIgnoresCase | Js2IL/IL/ConsoleLogPeepholeOptimizer.cs:431-470 | the global and method names are compared ignoring case ("LOG" matches) |
| ConsoleLog.FindStore | Js2IL/IL/ConsoleLogPeepholeOptimizer.cs:471-556 | a found store lies at or after the search start and stores the wanted element of the array |
| ConsoleLog.SkipBegin | Js2IL/IL/ConsoleLogPeepholeOptimizer.cs:471-556 | the optional BeginInitArrayElement is skipped by at most one instruction |
| ConsoleLog.FindStores | Js2IL/IL/ConsoleLogPeepholeOptimizer.cs:471-556 | a successful search returns one store per remaining element index |
| ConsoleLog.FindStoresShape | Js2IL/IL/ConsoleLogPeepholeOptimizer.cs:471-556 | the stores found are of consecutive element indices at strictly increasing positions |
| ConsoleLog.MatchMultiArgSequence | Js2IL/IL/ConsoleLogPeepholeOptimizer.cs:471-556 | a multi-argument match has at least one store and the `log` call fits right after the last one |
| ConsoleLog.MultiArgMatchShape | Js2IL/IL/ConsoleLogPeepholeOptimizer.cs:471-556 | a multi-argument match stores every element in index order and ends with `log` on the console global and the new array |
| ConsoleLog.MultiArgEnds | Js2IL/IL/ConsoleLogPeepholeOptimizer.cs:471-556 | the sequence starts at the console global and the new array and ends with the `log` call right after the last store |
| ConsoleLog.FindStoreLoop | Js2IL/IL/ConsoleLogPeepholeOptimizer.cs:505-540 | the inner search loop finds exactly the store FindStore specifies |
| ConsoleLog.TryMatchConsoleLogMultiArgSequence | Js2IL/IL/ConsoleLogPeepholeOptimizer.cs:471-556 | the imperative matcher returns exactly MatchMultiArgSequence |
| ConsoleLog.CollectStores | Js2IL/IL/ConsoleLogPeepholeOptimizer.cs:500-545 | the store-collecting loop returns exactly FindStores from element 0 |
| ConsoleLog.FirstUpdate | Js2IL/IL/ConsoleLogPeepholeOptimizer.cs:604-681 | the first numeric add or subtract in the range, with none before it |
| ConsoleLog.UpdateMatchShape | Js2IL/IL/ConsoleLogPeepholeOptimizer.cs:604-681 | a matched update adds or subtracts the constant 1 on a variable-mapped temp, and the argument is its new value (prefix) or its old value (postfix) |
| ConsoleLog.UpdateMatchSkipsBegin | Js2IL/IL/ConsoleLogPeepholeOptimizer.cs:100-107 | starting one instruction later, past a BeginInitArrayElement, finds the same update |
| ConsoleLog.TryMatchUpdateExpressionForConsoleArg | Js2IL/IL/ConsoleLogPeepholeOptimizer.cs:604-681 | the imperative matcher returns exactly MatchUpdateExpression |
| ConsoleLog.StackOnlyBaseCases | Js2IL/IL/ConsoleLogPeepholeOptimizer.cs:557-603 | a variable-mapped temp is always stack-only; a temp neither mapped nor defined never is; otherwise its definition decides |
| ConsoleLog.StackOnlyMonotone | Js2IL/IL/ConsoleLogPeepholeOptimizer.cs:557-603 | allowing more of the sequence's own temps keeps a stack-only temp stack-only |
| ConsoleLog.StoredValues | Js2IL/IL/ConsoleLogPeepholeOptimizer.cs:120 | the argument temps are the stored values, in store order |
| ConsoleLog.DefinedBeforeMembers | Js2IL/IL/ConsoleLogPeepholeOptimizer.cs:89-97 | a temp is in the set exactly when an instruction of the range defines it |
| ConsoleLog.DefinedInSequence | Js2IL/IL/ConsoleLogPeepholeOptimizer.cs:89-97 | the collecting loop returns the temps defined in the sequence |
| ConsoleLog.AllArgsStackOnly | Js2IL/IL/ConsoleLogPeepholeOptimizer.cs:118-127 | the loop answers whether every argument can be emitted stack-only |
| ConsoleLog.RegionAt | Js2IL/IL/ConsoleLogPeepholeOptimizer.cs:46-138 | a replaced region starting at i ends at a call index at least i+2 inside the body |
| ConsoleLog.MultiArgCall | Js2IL/IL/ConsoleLogPeepholeOptimizer.cs:85-87 | there is a call index exactly when the multi-argument pattern matches, and it is right after the last store |
| ConsoleLog.RegionIsConsoleLog | Js2IL/IL/ConsoleLogPeepholeOptimizer.cs:46-138 | a replaced region starts at the console global and ends at a `log` call on it |
| ConsoleLog.RegionsFrom | Js2IL/IL/ConsoleLogPeepholeOptimizer.cs:46-138 | the region table from k has one entry per remaining instruction |
| ConsoleLog.RegionsFromAt | Js2IL/IL/ConsoleLogPeepholeOptimizer.cs:46-138 | entry m of the table from k is the region starting at k+m |
| ConsoleLog.RegionsAt | Js2IL/IL/ConsoleLogPeepholeOptimizer.cs:46-138 | the table has one entry per instruction, each the region starting there |
| ConsoleLog.RegionsAreWellFormed | Js2IL/IL/ConsoleLogPeepholeOptimizer.cs:46-138 | every region ends after it starts and inside the body |
| ConsoleLog.CoveredLiesInRegion | Js2IL/IL/ConsoleLogPeepholeOptimizer.cs:76-80 | a replaced instruction lies in a region starting at or before it |
| ConsoleLog.CoveredFromIsAfter | Js2IL/IL/ConsoleLogPeepholeOptimizer.cs:46-138 | instructions before the scan position are never marked from it |
| ConsoleLog.ComputeStackOnlyMask | Js2IL/IL/ConsoleLogPeepholeOptimizer.cs:36-157 | the method returns the mask StackOnlyMask specifies: none without temps, otherwise "used outside a replaced region" per temp |
| ConsoleLog.MarkReplaced | Js2IL/IL/ConsoleLogPeepholeOptimizer.cs:44-138 | the scan marks exactly the instructions covered by a region, skipping past each region it takes |
| ConsoleLog.RegionAtMethod | Js2IL/IL/ConsoleLogPeepholeOptimizer.cs:48-137 | one step of the scan finds the region starting at i, if any |
| ConsoleLog.BuildArrayRegion | Js2IL/IL/ConsoleLogPeepholeOptimizer.cs:49-83 | the BuildArray branch takes the region exactly when the pattern matches and all elements are stack-only |
| ConsoleLog.MultiArgRegion | Js2IL/IL/ConsoleLogPeepholeOptimizer.cs:85-137 | the multi-argument branch returns the call index exactly when the pattern matches and its arguments fit |
| ConsoleLog.MultiArgArgumentsFit | Js2IL/IL/ConsoleLogPeepholeOptimizer.cs:99-127 | a single argument that is an update expression fits, otherwise every argument must be stack-only |
| ConsoleLog.UsedOutsideOf | Js2IL/IL/ConsoleLogPeepholeOptimizer.cs:140-154 | a temp is flagged exactly when an instruction outside every replaced region reads it |
| ConsoleLog.NoTempsNoMask | Js2IL/IL/ConsoleLogPeepholeOptimizer.cs:38-42 | without temps there is no mask |
| ConsoleLog.MaskFollowsOutsideUses | Js2IL/IL/ConsoleLogPeepholeOptimizer.cs:140-156 | a temp read by an instruction no region spans keeps its local; a temp read by nothing gets none |
| ConsoleLog.BuildArrayPeepholeConsumesThree | Js2IL/IL/ConsoleLogPeepholeOptimizer.cs:163-430 | a BuildArray sequence whose elements are stack-only is emitted consuming its three instructions |
| ConsoleLog.EmitterConsumesRegion | Js2IL/IL/ConsoleLogPeepholeOptimizer.cs:163-350 | the emitter handles a position exactly when the mask replaced a region there, and consumes exactly that region, so no temp the mask left without a local is needed from one |
| ExportsContract.Compressed | Js2IL/Services/Contracts/ModuleExportsContractEmitter.cs:981-1006 | values up to 0x7F take one byte, up to 0x3FFF two (top bits 10), larger ones four (top bits 110), big-endian |
| ExportsContract.Decompress | Js2IL/Services/Contracts/ModuleExportsContractEmitter.cs:981-1006 | the reader of that format (Partition II section 23.2 of ECMA-335) consumes 1 to |b| bytes and yields at most 0x1FFFFFFF |
| ExportsContract.CompressedRoundTrip | Js2IL/Services/Contracts/ModuleExportsContractEmitter.cs:981-1006 | reading the compressed form back gives the value and its length, whatever bytes follow |
| ExportsContract.CompressedIsShortest | Js2IL/Services/Contracts/ModuleExportsContractEmitter.cs:983-1003 | the shortest form that fits the value is always chosen |
| ExportsContract.BlobBuilder.constructor | Js2IL/Services/Contracts/ModuleExportsContractEmitter.cs:967 | a new blob is empty |
| ExportsContract.BlobBuilder.WriteByte | Js2IL/Services/Contracts/ModuleExportsContractEmitter.cs:985-1001 | appends one byte |
| ExportsContract.BlobBuilder.WriteUInt16 | Js2IL/Services/Contracts/ModuleExportsContractEmitter.cs:968-970 | appends two bytes, little-endian |
| ExportsContract.BlobBuilder.WriteBytes | Js2IL/Services/Contracts/ModuleExportsContractEmitter.cs:978 | appends the bytes in order |
| ExportsContract.WriteCompressedUInt32 | Js2IL/Services/Contracts/ModuleExportsContractEmitter.cs:981-1006 | succeeds exactly for values up to 0x1FFFFFFF, appending the compressed form; a larger value is rejected with the blob unchanged |
| ExportsContract.WriteSerString | Js2IL/Services/Contracts/ModuleExportsContractEmitter.cs:974-979 | appends the compressed UTF-8 length followed by the UTF-8 bytes, or fails without writing |
| ExportsContract.SingleStringAttributeBlob | Js2IL/Services/Contracts/ModuleExportsContractEmitter.cs:965-972 | the attribute blob starts with the prolog 01 00 and ends with the 00 00 named-argument count |
| ExportsContract.CreateSingleStringCustomAttributeValue | Js2IL/Services/Contracts/ModuleExportsContractEmitter.cs:965-972 | the imperative builder produces exactly SingleStringAttributeBlob |
| ExportsContract.SingleStringAttributeRoundTrip | Js2IL/Services/Contracts/ModuleExportsContractEmitter.cs:965-979 | the blob parses back to the string it was made from |
| ExportsContract.AlnumOnly | Js2IL/Services/Contracts/ModuleExportsContractEmitter.cs:1019-1032 | the letters and digits of the input, in order, and nothing else |
| ExportsContract.RunsSpec | Js2IL/Services/Contracts/ModuleExportsContractEmitter.cs:1016-1038 | the runs collected are non-empty, made of letters and digits only, and together are exactly the input's letters and digits |
| ExportsContract.RunsOfAlnum | Js2IL/Services/Contracts/ModuleExportsContractEmitter.cs:1016-1038 | a string of letters and digits forms one run |
| ExportsContract.Capitalize | Js2IL/Services/Contracts/ModuleExportsContractEmitter.cs:1049-1053 | a part with its first character upper-cased keeps its length |
| ExportsContract.ToPascalCase | Js2IL/Services/Contracts/ModuleExportsContractEmitter.cs:1008-1057 | the imperative conversion returns PascalCase(value) |
| ExportsContract.CollectRuns | Js2IL/Services/Contracts/ModuleExportsContractEmitter.cs:1016-1038 | the first loop collects exactly the runs of letters and digits |
| ExportsContract.AppendCapitalized | Js2IL/Services/Contracts/ModuleExportsContractEmitter.cs:1045-1054 | the second loop appends each part capitalised, skipping empty parts |
| ExportsContract.CapitalizeAllLower | Js2IL/Services/Contracts/ModuleExportsContractEmitter.cs:1045-1054 | capitalising changes letter case only |
| ExportsContract.PascalCaseKeepsLettersAndDigits | Js2IL/Services/Contracts/ModuleExportsContractEmitter.cs:1008-1057 | for input with a letter or digit, the result is the input's letters and digits up to case and does not start with a lower-case letter |
| ExportsContract.PascalCaseDegenerate | Js2IL/Services/Contracts/ModuleExportsContractEmitter.cs:1010-1043 | blank input gives "", and input without letters or digits is returned unchanged |
| ExportsContract.CapitalizeAllAlnum | Js2IL/Services/Contracts/ModuleExportsContractEmitter.cs:1045-1054 | capitalised runs of letters and digits stay letters and digits |
| ExportsContract.PascalCaseIdempotent | Js2IL/Services/Contracts/ModuleExportsContractEmitter.cs:1008-1057 | converting twice gives the same name as converting once |
| ExportsContract.PascalOfPascal | Js2IL/Services/Contracts/ModuleExportsContractEmitter.cs:1008-1057 | letters and digits that start with no lower-case letter are their own PascalCase form |
| ExportsContract.NonEmptySegments | Js2IL/Services/Contracts/ModuleExportsContractEmitter.cs:494 | splitting with RemoveEmptyEntries yields non-empty segments without '/' |
| ExportsContract.DropEmpty | Js2IL/Services/Contracts/ModuleExportsContractEmitter.cs:494 | the kept parts are non-empty parts of the input |
| ExportsContract.MapPascal | Js2IL/Services/Contracts/ModuleExportsContractEmitter.cs:500-502 | each namespace segment is PascalCased, in order |
| ExportsContract.GetExportsContractName | Js2IL/Services/Contracts/ModuleExportsContractEmitter.cs:484-515 | the namespace starts with "Js2IL." plus the assembly name and the interface name is "I...Exports" |
| ExportsContract.ContractNameOfNestedModule | Js2IL/Services/Contracts/ModuleExportsContractEmitter.cs:494-514 | a module "dir/.../name" lives in the namespace of its PascalCased directories, and "dir/index" (any case) is named after "dir" |
| ExportsContract.SegmentsOfJoinedId | Js2IL/Services/Contracts/ModuleExportsContractEmitter.cs:494 | an id of non-empty '/'-free segments splits back into those segments |
| ExportsContract.RootContractName | Js2IL/Services/Contracts/ModuleExportsContractEmitter.cs:489-492 | the root module's contract is "I" + PascalCase(assembly) + "Exports" in the root namespace |
| ExportsContract.MapClrType | Js2IL/Services/Contracts/ModuleExportsContractEmitter.cs:791-799 | double, bool and string are kept, every other type becomes object, and the result is always one of those four |
| DifferentialTest.ToNumber | scripts/differential-test/run.js:49-52 | `Number(text)` of a plain decimal numeral is its value (other integer forms and NaN are in the body) |
| DifferentialTest.Twice | scripts/differential-test/run.js:57-62 | doubling keeps NaN as NaN and doubles a finite value |
| DifferentialTest.ParseArgs | scripts/differential-test/run.js:35-64 | the argument loop produces exactly ParseArgsSpec, and the compile timeout is always set afterwards |
| DifferentialTest.ScanKeepsCompileTimeout | scripts/differential-test/run.js:47-56 | only `--compile-timeout` sets the compile timeout: scanning from the defaults never touches it otherwise |
| DifferentialTest.CompileTimeoutDefaultsToTwice | scripts/differential-test/run.js:57-62 | without `--compile-timeout` the compile timeout is twice the execution timeout |
| DifferentialTest.TimeoutAlone | scripts/differential-test/run.js:49-62 | `--timeout t` alone sets the timeout to t and the compile timeout to 2t |
| DifferentialTest.FlagWithoutValueIgnored | scripts/differential-test/run.js:48-54 | a value flag with no following (non-empty) value is skipped like an unknown argument |
| DifferentialTest.NormaliseLineEndings | scripts/differential-test/run.js:206-207 | after replacing "\r\n" and then "\r" by "\n" no carriage return is left |
| DifferentialTest.NormaliseLineEndingsKeeps | scripts/differential-test/run.js:206-207 | text without carriage returns is unchanged |
| DifferentialTest.NormaliseCrLf | scripts/differential-test/run.js:206-207 | a trailing "\r\n" becomes "\n" |
| DifferentialTest.StripTrailingNewlines | scripts/differential-test/run.js:211 | `replace(/\n+$/, '')` keeps a prefix that does not end in "\n" and removes only line feeds |
| DifferentialTest.DropEmptyTail | scripts/differential-test/run.js:208-211 | dropping empty trailing lines keeps a prefix whose last line is not empty |
| DifferentialTest.SplitOnAvoids | scripts/differential-test/run.js:208 | splitting on "\n" leaves no line holding the separator or a character absent from the text |
| DifferentialTest.StripJoin | scripts/differential-test/run.js:210-211 | stripping trailing line feeds from joined lines equals joining the lines without their empty tail |
| DifferentialTest.NormalisedLinesShape | scripts/differential-test/run.js:204-212 | the normalised lines hold no "\r" or "\n", none ends in white space, and the last is not empty |
| DifferentialTest.NormaliseOutputIsJoin | scripts/differential-test/run.js:204-212 | the normalised output is its normalised lines joined by "\n" |
| DifferentialTest.NormaliseOutputShape | scripts/differential-test/run.js:204-212 | normaliseOutput leaves no carriage return, no trailing line feed and no line ending in white space |
| DifferentialTest.NormaliseOfJoin | scripts/differential-test/run.js:204-212 | text made of already normalised lines is left unchanged |
| DifferentialTest.NormaliseOutputIdempotent | scripts/differential-test/run.js:204-212 | normalising twice gives the same text as normalising once |
| DifferentialTest.TextRun | scripts/differential-test/run.js:224 | the run of non-terminator characters stays inside the text |
| DifferentialTest.SpaceRun | scripts/differential-test/run.js:224 | the run of white space after the marker stays inside the text |
| DifferentialTest.LetterRun | scripts/differential-test/run.js:228 | the run of ASCII letters stays inside the text |
| DifferentialTest.ExtractJsErrorIgnoresLineEndings | scripts/differential-test/run.js:222-232 | the corrected extraction gives the same answer whatever the line endings |
| DifferentialTest.DotnetSearchSkips | scripts/differential-test/run.js:224 | positions before the first marker do not change the .NET search |
| DifferentialTest.NodeSearchSkips | scripts/differential-test/run.js:228 | lines that do not start an error line do not change the Node search |
| DifferentialTest.NoMarkerWithoutJ | scripts/differential-test/run.js:224 | without a 'J' after p the marker cannot occur after p |
| DifferentialTest.LazyLineAt | scripts/differential-test/run.js:224 | the lazy `(.+?)(?:\n|$)` takes the rest of the line when a line feed or the end follows it |
| DifferentialTest.LazyLineMissesCr | scripts/differential-test/run.js:224 | the lazy capture fails when a carriage return ends the line, since `.` cannot cross it |
| DifferentialTest.GreedyLineAt | scripts/differential-test/run.js:228 | the greedy `(.+)` takes the rest of the line up to a terminator |
| DifferentialTest.DotnetReadsAt | scripts/differential-test/run.js:224-225 | a marker followed by a message line yields that line trimmed |
| DifferentialTest.DotnetTraceReads | scripts/differential-test/run.js:222-232 | a .NET trace "...JavaScriptException: Name: msg\n..." yields "Name: msg" |
| DifferentialTest.NodeReadsAt | scripts/differential-test/run.js:227-229 | an "XError: msg" line yields "XError: msg" |
| DifferentialTest.NodeTraceReads | scripts/differential-test/run.js:222-232 | a Node trace starting "Name: msg\n" yields "Name: msg" |
| DifferentialTest.SameErrorBothTraces | scripts/differential-test/run.js:222-232 | the same error reported by Node and by .NET (line feeds) is extracted as the same text, so the verdict compares them |
| DifferentialTest.DotnetMissesCrLf | scripts/differential-test/run.js:224 | a marker whose line ends in "\r\n" is not matched by the .NET pattern |
| DifferentialTest.NodeMissesMarkerLine | scripts/differential-test/run.js:228 | a line starting with the .NET marker is not read as a Node error line |
| DifferentialTest.CrLfTraceNotRead | scripts/differential-test/run.js:222-232 | as written, a .NET trace ending in "\r\n" yields nothing, while the same trace ending in "\n" yields the error |
| DifferentialTest.CrLfTraceRead | scripts/differential-test/run.js:222-232 | with line endings normalised first, the "\r\n" trace yields the error |
| DifferentialTest.ClassifySpec | scripts/differential-test/run.js:238-297 | a compile failure or a Node timeout skips; a program passes exactly when neither run timed out and the runs agree; it fails exactly when they ran and disagree or only js2il timed out; and the failure kind says how |
| DifferentialTest.VerdictsPartition | scripts/differential-test/run.js:389-391 | every status is exactly one of passed, failed and skipped |
| DifferentialTest.SummaryCountsEveryProgram | scripts/differential-test/run.js:389-391 | the summary counts add up to the number of programs |
| DifferentialTest.ExitCode | scripts/differential-test/run.js:401-410 | the exit code is 1 exactly when some program failed, else 0 |
| DifferentialTest.FailedCountsFailures | scripts/differential-test/run.js:390-401 | the failure count is positive exactly when some program failed |
| SectionHtml.ScanOne | scripts/extractEcma262SectionHtml.js:48-150 | one argument is read as one flag (two arguments for a flag with a separate value) or kept as a positional; the positionals never shrink |
| SectionHtml.ScanFrom | scripts/extractEcma262SectionHtml.js:48-150 | the argument loop only ever adds positional arguments |
| SectionHtml.Fallback | scripts/extractEcma262SectionHtml.js:152-157 | an empty section, input (when no URL is given) or output is taken from the first, second or third positional argument; every other field is kept |
| SectionHtml.ParseArgs | scripts/extractEcma262SectionHtml.js:32-158 | the imperative argument loop produces exactly ParseArgsSpec |
| SectionHtml.PlainIsPositional | scripts/extractEcma262SectionHtml.js:148-150 | an argument that does not start with '-' is appended to the positionals and nothing else changes |
| SectionHtml.ThreePlainScanned | scripts/extractEcma262SectionHtml.js:48-150 | three plain arguments after the script name are collected as the positionals, in order, and no flag is set |
| SectionHtml.PositionalFallback | scripts/extractEcma262SectionHtml.js:152-157 | `node script.js 27.3 in.html out.html` sets section, input and output from the three positionals, with no URL and wrapping on |
| SectionHtml.FlagBeatsPositional | scripts/extractEcma262SectionHtml.js:56-60 | `--section x p` keeps x as the section and takes p as the input file, not the section |
| SectionHtml.EscapeRegExp | scripts/extractEcma262SectionHtml.js:246-248 | escaping never shortens the text |
| SectionHtml.EscapeRegExpIsLiteral | scripts/extractEcma262SectionHtml.js:246-248 | the escaped text, read as a pattern, matches exactly the original text |
| SectionHtml.NameRun | scripts/extractEcma262SectionHtml.js:276-283 | the name scan stops at the first space, tab, CR, LF, '>' or '/' (or the end) and crosses none |
| SectionHtml.TagNameAt | scripts/extractEcma262SectionHtml.js:270-287 | the name after '<' (or '</') up to the first stop character; "" when the position is not a '<' |
| SectionHtml.FindTagNameAt | scripts/extractEcma262SectionHtml.js:270-287 | the imperative scan returns TagNameAt |
| SectionHtml.TagAt | scripts/extractEcma262SectionHtml.js:310 | a tag matched at p starts at p and ends inside the text |
| SectionHtml.NextTag | scripts/extractEcma262SectionHtml.js:310-318 | the next match lies at or after the search position and inside the text |
| SectionHtml.NextTagIsLeftmost | scripts/extractEcma262SectionHtml.js:310-318 | the regex engine's next match is a match and the leftmost one; when none is found there is none |
| SectionHtml.MatchesInOrder | scripts/extractEcma262SectionHtml.js:316-341 | the successive matches lie after the start, in order, the first being the leftmost |
| SectionHtml.DepthStep | scripts/extractEcma262SectionHtml.js:326-338 | an opening tag adds one to the depth and a closing tag subtracts one |
| SectionHtml.FirstZeroFromIsFirst | scripts/extractEcma262SectionHtml.js:326-338 | the walk stops at the first closing tag that brings the depth to 0, and reports none only when no closing tag does |
| SectionHtml.FirstZeroIsFirstBalanced | scripts/extractEcma262SectionHtml.js:316-341 | a walk from depth 0 finds a closing tag exactly when one balances the tags before it, and then the first such |
| SectionHtml.ElementFromIsBalanced | scripts/extractEcma262SectionHtml.js:289-342 | the element is found exactly when some closing tag balances the depth, and it is the text from the first match to the end of the first balancing tag |
| SectionHtml.WalkSameNameTags | scripts/extractEcma262SectionHtml.js:310-341 | the depth-counting loop returns exactly ElementFrom |
| SectionHtml.IdIndex | scripts/extractEcma262SectionHtml.js:290-295 | -1 exactly when neither `id="..."` nor `id='...'` occurs |
| SectionHtml.IdTagStart | scripts/extractEcma262SectionHtml.js:293-302 | the walk starts at the last '<' at or before the id attribute; -1 when there is no id attribute or no '<' up to it |
| SectionHtml.ExtractSpec | scripts/extractEcma262SectionHtml.js:289-342 | a missing id, or no '<' before it, throws; a result is the balanced element of the tag name found at the last '<' at or before the id |
| SectionHtml.ElementStartsAtTag | scripts/extractEcma262SectionHtml.js:310-341 | when the tag at the start position matches the tag pattern, the element found starts there and runs at least to that tag's '>' |
| SectionHtml.ExtractedElementHoldsId | scripts/extractEcma262SectionHtml.js:289-342 | the extracted element starts at the '<' before the id when that tag is well formed, and it holds the id attribute when no '>' comes between that '<' and the id |
| SectionHtml.SkipToGtIsFirst | scripts/extractEcma262SectionHtml.js:310 | `[^>]*>` stops just after the first '>' |
| SectionHtml.TagEndsPastGt | scripts/extractEcma262SectionHtml.js:310 | a matched tag runs past every position that no '>' precedes after its '<' |
| SectionHtml.ExtractElementById | scripts/extractEcma262SectionHtml.js:289-342 | the imperative extraction returns exactly ExtractSpec |
| ForIn.ParseIndex | JavaScriptRuntime/ForInIterator.cs:290-306 | a key parses as an index exactly when it is a non-empty run of decimal digits |
| ForIn.IndexKeys | JavaScriptRuntime/ForInIterator.cs:200-233 | the index keys of a length-n array or string are "0", ..., n-1 in decimal, in order |
| ForIn.IndexKeyParses | JavaScriptRuntime/ForInIterator.cs:290-306 | the decimal key of i parses back to i |
| ForIn.IndexKeysDistinct | JavaScriptRuntime/ForInIterator.cs:200-233 | no index key is listed twice |
| ForIn.IndexKeyPresentIffInBounds | JavaScriptRuntime/ForInIterator.cs:287-306 | index key i is present exactly when i is below the current length |
| ForIn.SnapshotKeysPresent | JavaScriptRuntime/ForInIterator.cs:188-306 | every key of a snapshot passes the presence and enumerability check when the snapshot is taken |
| ForIn.IndexKeysOf | JavaScriptRuntime/ForInIterator.cs:200-208 | the index loop lists exactly IndexKeys(n) |
| ForIn.EnumerableKeysOf | JavaScriptRuntime/ForInIterator.cs:190-197 | the object's enumerable own keys, each exactly once |
| ForIn.OwnEnumerableKeys | JavaScriptRuntime/ForInIterator.cs:188-248 | the snapshot of a level: index keys of an array or string, or each enumerable own key of an object once |
| ForIn.ForInIterator.constructor | JavaScriptRuntime/ForInIterator.cs:41-62 | the walk starts at the root, followed by its prototypes, with nothing visited or yielded |
| ForIn.SnapshotPassedOver | JavaScriptRuntime/ForInIterator.cs:82-97 | passing over a whole snapshot of an unchanged level leaves nothing on that level to yield: every enumerable own key, or every index, has been seen |
| ForIn.ForInIterator.Next | JavaScriptRuntime/ForInIterator.cs:64-172 | returns a key not yielded before, still present and enumerable on the level whose snapshot listed it, and records it as visited; every snapshot key it steps over was seen or is gone, and every level it leaves behind has nothing left to yield, so it reports done only when no level has a key left; never goes back a level |
| ForIn.ForInIterator.NextOrLeaveLevel | JavaScriptRuntime/ForInIterator.cs:66-96 | one round of the loop: the level's snapshot is taken if needed and scanned; either a key is yielded with every skipped key seen or gone, or the level is left with nothing on it left to yield |
| ForIn.ForInIterator.NextOnLevel | JavaScriptRuntime/ForInIterator.cs:82-97 | the inner loop yields the first snapshot key from the current position that was not yielded and is still present and enumerable, and every key it skips was yielded or is gone; it reports none only at the end of the snapshot |
| ILLocals.LocalTypeOf | Js2IL/IL/LIRToILCompiler.TempsLocals.cs:18-79 | an unknown storage is typed object; unboxed JsNull is used only where allowed; a scope local comes only from a reference storage and carries its scope name |
| ILLocals.UnboxedScalarsStayUnboxed | Js2IL/IL/LIRToILCompiler.TempsLocals.cs:20-30 | unboxed bool and double storages get bool and float64 locals |
| ILLocals.UnboxedJsNullOnlyInTemps | Js2IL/IL/LIRToILCompiler.TempsLocals.cs:32-37 | unboxed JsNull becomes a JsNull local in a temp slot and object in a variable slot |
| ILLocals.KnownReferenceTypeKept | Js2IL/IL/LIRToILCompiler.TempsLocals.cs:68-75 | a variable of a known runtime reference type keeps that type |
| ILLocals.ScopeLocalOffset | Js2IL/IL/LIRToILCompiler.TempsLocals.cs:1565-1566 | the leaf scope local shifts the other locals by at most one |
| ILLocals.IsMaterialized | Js2IL/IL/LIRToILCompiler.TempsLocals.cs:1262-1273 | a variable-mapped temp is always materialised; any other temp is materialised exactly when the allocation says so |
| ILLocals.SlotForTemp | Js2IL/IL/LIRToILCompiler.TempsLocals.cs:1563-1581 | a temp has a local slot exactly when it is materialised |
| ILLocals.SlotForTempLayout | Js2IL/IL/LIRToILCompiler.TempsLocals.cs:1563-1581 | a variable-mapped temp uses its variable's local; any other temp the allocated slot after the variables (both after the scope local) |
| ILLocals.LocalsDistinct | Js2IL/IL/LIRToILCompiler.TempsLocals.cs:1563-1581 | distinct variables and distinct temp slots get distinct locals, variable and temp locals never collide, and neither is local 0 when a leaf scope is present |
| ILLocals.SharedLocalMeansSharedSlot | Js2IL/IL/LIRToILCompiler.TempsLocals.cs:1563-1581 | two temps share a local only when both map to the same variable or both got the same temp slot |
| ILLocals.SlotForTempInRange | Js2IL/IL/LIRToILCompiler.TempsLocals.cs:1563-1581 | every slot handed out lies inside the local signature |
| ILLocals.CreateLocalVariablesSignature | Js2IL/IL/LIRToILCompiler.TempsLocals.cs:81-125 | no signature when there are no locals; otherwise one entry per local: the leaf scope first, then each variable's type, then each temp slot's type |
| ILLocals.ScopesArraySourceOrder | Js2IL/IL/LIRToILCompiler.TempsLocals.cs:1424-1449 | the scopes array is argument 0 (static) or 1 (instance) when passed, else the `_scopes` field of `this` |
| ILLocals.ScopesArraySourceFails | Js2IL/IL/LIRToILCompiler.TempsLocals.cs:1424-1449 | loading fails exactly when there is no scopes parameter and no scopes field on an instance method |
| ILLocals.Marked | Js2IL/IL/LIRToILCompiler.TempsLocals.cs:1597-1613 | marking keeps the mask's length |
| ILLocals.MarkedOnlyClears | Js2IL/IL/LIRToILCompiler.TempsLocals.cs:1597-1613 | marking only clears entries, and only those of stackifiable temps |
| ILLocals.MarkedIdempotent | Js2IL/IL/LIRToILCompiler.TempsLocals.cs:1597-1613 | marking twice is marking once |
| ILLocals.MarkStackifiableTemps | Js2IL/IL/LIRToILCompiler.TempsLocals.cs:1597-1613 | a present mask becomes Marked of its old contents; an absent mask is left alone |
| ILLocals.TryFindDefInstruction | Js2IL/IL/LIRToILCompiler.TempsLocals.cs:1583-1591 | returns the first instruction defining the temp, and none exactly when no instruction does |
| ILLocals.FirstDefIsFirst | Js2IL/IL/LIRToILCompiler.TempsLocals.cs:1583-1591 | an instruction defining the temp with none before it is the one found |
| MetadataInspect.Align4 | tools/inspect/Program.cs:714 | rounds up to the next multiple of four, by less than four |
| MetadataInspect.ReadUInt16 | tools/inspect/Program.cs:730-731 | reads a little-endian 16-bit value, and fails exactly when the two bytes are not all inside the span |
| MetadataInspect.ReadUInt32 | tools/inspect/Program.cs:733-734 | reads a little-endian 32-bit value, and fails exactly when the four bytes are not all inside the span |
| MetadataInspect.ReadUInt32At | tools/inspect/Program.cs:736-741 | the `ref` overload reads the same value and advances the offset by four |
| MetadataInspect.DecodeLE8 | tools/inspect/Program.cs:743-748 | an 8-byte little-endian value is the low word plus 2^32 times the high word |
| MetadataInspect.ReadUInt64At | tools/inspect/Program.cs:743-748 | reads the little-endian 64-bit value and advances by eight, failing exactly when the bytes are not inside the span |
| MetadataInspect.ReadString | tools/inspect/Program.cs:716-728 | an empty heap or index 0 gives ""; an index past the heap gives the bad-index text; otherwise the bytes from the index up to the first NUL |
| MetadataInspect.SimpleIndexSize | tools/inspect/Program.cs:455 | a table index is 2 bytes exactly when the table has fewer than 0x10000 rows, else 4 |
| MetadataInspect.CodedIndexSize | tools/inspect/Program.cs:456-465 | a coded index is 2 bytes exactly when every referenced table's row count fits in 16 - tagBits bits, else 4 |
| MetadataInspect.NestedClassSorted | tools/inspect/Program.cs:587-619 | no answer when the table does not fit in the stream; otherwise "sorted" exactly when the nested indices never decrease |
| MetadataInspect.RowsFit | tools/inspect/Program.cs:587-600 | every row of a table that fits lies inside the stream |
| MetadataInspect.NestedRow | tools/inspect/Program.cs:599-606 | reads the nested index of row i at its 2- or 4-byte width |
| MetadataInspect.NulFrom | tools/inspect/Program.cs:693-697 | the name scan stops at the first NUL from the start, or at the end of the root |
| MetadataInspect.AsciiChars | tools/inspect/Program.cs:699 | ASCII decoding keeps one character per byte and maps every byte below 0x80 to itself |
| MetadataInspect.HeaderAt | tools/inspect/Program.cs:686-706 | moving on from a stream header always goes past its two words and name |
| MetadataInspect.TryGetMetadataStream | tools/inspect/Program.cs:665-712 | the imperative lookup returns exactly MetadataStream |
| MetadataInspect.WalkHeaders | tools/inspect/Program.cs:686-709 | the header loop returns exactly StreamsFrom |
| MetadataInspect.HeaderAtFound | tools/inspect/Program.cs:686-706 | a header step that finds a stream reports the offset and size it read |
| MetadataInspect.StreamsFromStep | tools/inspect/Program.cs:686-709 | one loop iteration either ends the walk with the header's answer or continues at the next header |
| MetadataInspect.StreamHeader | tools/inspect/Program.cs:688-706 | one iteration of the header loop computes HeaderAt |
| MetadataInspect.FindNul | tools/inspect/Program.cs:693-697 | the NUL-scan loop computes NulFrom |
| MetadataInspect.NulFromIsFirst | tools/inspect/Program.cs:693-697 | a NUL with no NUL before it is where the scan stops |
| MetadataInspect.NoStreamWithoutSignature | tools/inspect/Program.cs:668-672 | a root shorter than 16 bytes or not starting with "BSJB" has no stream |
| MetadataInspect.DecodeLEInjective | tools/inspect/Program.cs:733-734 | equal little-endian readings of equal-length byte strings come from equal bytes |
| MetadataInspect.FoundComesFromHeader | tools/inspect/Program.cs:686-709 | a stream found by the walk is named by some header at or after the start |
| MetadataInspect.FoundNamesAHeader | tools/inspect/Program.cs:665-712 | a found stream's offset and size are those of a header whose name is the requested one |
| MetadataInspect.FoundFitsInt32 | tools/inspect/Program.cs:688-691 | the reported offset and size fit in int (the checked casts) |
| MetadataInspect.OneHeaderPreamble | tools/inspect/Program.cs:674-684 | with a four-byte version string and one stream, the walk starts at byte 24 with one header |
| MetadataInspect.TildeHeader | tools/inspect/Program.cs:686-709 | a single "#~" header at offset 0x6C, size 0x10, answers that stream for "#~" and nothing for other names |
| MetadataInspect.FindsSingleStream | tools/inspect/Program.cs:665-712 | a root with one "#~" stream yields exactly that stream for "#~" and none for any other name |
| MetadataInspect.DecodeLE4 | tools/inspect/Program.cs:733-734 | the 32-bit reading is b0 + 2^8 b1 + 2^16 b2 + 2^24 b3 |
| MetadataInspect.ReadUInt32Bytes | tools/inspect/Program.cs:733-734 | the 32-bit read combines the four bytes at the offset in little-endian order |
| IntrinsicNormalization.WithNewTemp | Js2IL/IR/LIR/LIRIntrinsicNormalization.cs:943-951 | a new temp takes the next index, appends its storage and has no variable slot; the instructions are unchanged |
| IntrinsicNormalization.CreateTemp | Js2IL/IR/LIR/LIRIntrinsicNormalization.cs:943-951 | the body after the call is exactly WithNewTemp of the body before, and the variables are unchanged |
| IntrinsicNormalization.WithNewTemps | Js2IL/IR/LIR/LIRIntrinsicNormalization.cs:409-425 | n fresh temps add n object-reference storages and n empty variable slots, and leave the instructions alone |
| IntrinsicNormalization.ShiftKeepsPositions | Js2IL/IR/LIR/LIRIntrinsicNormalization.cs:986-1004 | after an insertion at `at` a shifted index still names the same instruction, and the inserted one sits at `at` |
| IntrinsicNormalization.ShiftedSetMembers | Js2IL/IR/LIR/LIRIntrinsicNormalization.cs:986-1004 | shifting moves every index at or after `at` up by one, keeps the others, and loses none |
| IntrinsicNormalization.ShiftSet | Js2IL/IR/LIR/LIRIntrinsicNormalization.cs:986-1004 | the in-place update of an index set equals the shifted set |
| IntrinsicNormalization.ShiftMap | Js2IL/IR/LIR/LIRIntrinsicNormalization.cs:1006-1022 | on a temp-to-index map only the values move, by the same shift |
| IntrinsicNormalization.ShiftBuilds | Js2IL/IR/LIR/LIRIntrinsicNormalization.cs:1024-1040 | on the build-array table only each entry's definition index moves |
| IntrinsicNormalization.IsTempUsedOutside | Js2IL/IR/LIR/LIRIntrinsicNormalization.cs:953-972 | true exactly when some instruction outside the ignored set reads the temp |
| IntrinsicNormalization.RemoveIndices | Js2IL/IR/LIR/LIRIntrinsicNormalization.cs:528-544 | the compaction keeps exactly the instructions whose indices are not removed, in order, and nothing else in the body changes |
| IntrinsicNormalization.KeptNothingRemoved | Js2IL/IR/LIR/LIRIntrinsicNormalization.cs:528-532 | with no indices to remove the instruction list is unchanged |
| IntrinsicNormalization.KeptIsCompact | Js2IL/IR/LIR/LIRIntrinsicNormalization.cs:533-543 | any list built by keeping the non-removed instructions in order equals the compacted list |
| IntrinsicNormalization.UndefinedPrelude | Js2IL/IR/LIR/LIRIntrinsicNormalization.cs:409-425 | the prelude holds one undefined load for each new temp, in order |
| IntrinsicNormalization.DeclaredArgsShape | Js2IL/IR/LIR/LIRIntrinsicNormalization.cs:401-425 | the declared argument list is the scopes array when required, then new.target, then exactly jsParamCount arguments: the leading call arguments, then the padding temps in order |
| IntrinsicNormalization.DeclaredCallShape | Js2IL/IR/LIR/LIRIntrinsicNormalization.cs:378-444 | the rewritten call is a declared-callable call with the same id and result, its prelude loads undefined into each new temp, and the instructions before and after are kept |
| IntrinsicNormalization.DeclaredRewrite | Js2IL/IR/LIR/LIRIntrinsicNormalization.cs:427-433 | the call ends up after the inserted prelude, which is one instruction per new temp |
| IntrinsicNormalization.CollectDeclaredArgs | Js2IL/IR/LIR/LIRIntrinsicNormalization.cs:401-425 | creates one new.target temp and one padding temp per missing argument, and returns the declared arguments and the undefined prelude |
| IntrinsicNormalization.AppendArgs | Js2IL/IR/LIR/LIRIntrinsicNormalization.cs:413-416 | the loop appends the first argsToPass call arguments in order |
| IntrinsicNormalization.PadWithUndefined | Js2IL/IR/LIR/LIRIntrinsicNormalization.cs:419-424 | creates one fresh temp per missing parameter, each loaded with undefined in the prelude |
| IntrinsicNormalization.WithNewTempsAdd | Js2IL/IR/LIR/LIRIntrinsicNormalization.cs:943-951 | creating m temps then n temps is the same as creating m + n |
| IntrinsicNormalization.RewriteDeclaredCall | Js2IL/IR/LIR/LIRIntrinsicNormalization.cs:427-438 | inserts the prelude before the call, replaces the call and retypes its result, as DeclaredRewrite says |
| IntrinsicNormalization.NormalizeDirectDeclaredFunctionCalls | Js2IL/IR/LIR/LIRIntrinsicNormalization.cs:371-439 | the body after the pass is the declared-call rewrite of the body before; without a callable reader it is unchanged |
| IntrinsicNormalization.BuildsBeforeNamesLastDef | Js2IL/IR/LIR/LIRIntrinsicNormalization.cs:679-690 | the scanned table holds exactly the array temps built before n, each mapped to its last build |
| IntrinsicNormalization.NoBuildsNoTable | Js2IL/IR/LIR/LIRIntrinsicNormalization.cs:679-690 | without any array build the table is empty |
| IntrinsicNormalization.ScanBuildArrays | Js2IL/IR/LIR/LIRIntrinsicNormalization.cs:679-690 | the scan loop produces the build table of the whole method |
| IntrinsicNormalization.ArityFromPointwise | Js2IL/IR/LIR/LIRIntrinsicNormalization.cs:694-724 | the rewrite loop changes exactly the eligible intrinsic calls, each into its fixed-arity call, and keeps every other instruction |
| IntrinsicNormalization.ArityExpansionComplete | Js2IL/IR/LIR/LIRIntrinsicNormalization.cs:694-724 | afterwards no eligible intrinsic call is left, and a call is replaced only when it was eligible, by a call with at most three arguments taken from its array |
| IntrinsicNormalization.ArityExpansionRemovesOnlyDeadBuilds | Js2IL/IR/LIR/LIRIntrinsicNormalization.cs:694-724 | an array build is removed only when, after the rewrite, no other instruction reads the array |
| IntrinsicNormalization.ArityExpansionWithoutBuilds | Js2IL/IR/LIR/LIRIntrinsicNormalization.cs:675-692 | without any array build the pass changes nothing |
| IntrinsicNormalization.NormalizeIntrinsicCallArityExpansion | Js2IL/IR/LIR/LIRIntrinsicNormalization.cs:675-741 | the body after the pass is the arity expansion of the body before |
| IntrinsicNormalization.ConsumersBefore | Js2IL/IR/LIR/LIRIntrinsicNormalization.cs:454-474 | each single consumer found is a number conversion before n that reads that temp |
| IntrinsicNormalization.ConsumersBeforeCounts | Js2IL/IR/LIR/LIRIntrinsicNormalization.cs:454-474 | a temp is in the single table iff exactly one conversion reads it, and ineligible iff two or more do |
| IntrinsicNormalization.FuseStepFuses | Js2IL/IR/LIR/LIRIntrinsicNormalization.cs:477-527 | a fused read meets every condition of the peephole: a GetItem directly followed by its only number conversion |
| IntrinsicNormalization.NumberReadReadsNothing | Js2IL/IR/LIR/LIRIntrinsicNormalization.cs:477-527 | the fused read contributes no temp reads to the operand table |
| IntrinsicNormalization.FusedOnlyWhenSafe | Js2IL/IR/LIR/LIRIntrinsicNormalization.cs:447-527 | an instruction changes only when it becomes a fused read whose conversion is removed, no remaining instruction reads the removed intermediate result, and only fused results become unboxed doubles |
| IntrinsicNormalization.ScanConvertConsumers | Js2IL/IR/LIR/LIRIntrinsicNormalization.cs:454-474 | the consumer scan loop computes the single and ineligible tables |
| IntrinsicNormalization.FuseGetItemWithConvertToNumber | Js2IL/IR/LIR/LIRIntrinsicNormalization.cs:447-544 | the body after the pass is the fusion of the body before |
| IntrinsicNormalization.DefsBefore | Js2IL/IR/LIR/LIRIntrinsicNormalization.cs:749-771 | each entry names the last definition of its temp, of the given kind, before n |
| IntrinsicNormalization.DefsBeforeComplete | Js2IL/IR/LIR/LIRIntrinsicNormalization.cs:749-771 | every temp with such a definition before n is in the table |
| IntrinsicNormalization.ScanRequireTables | Js2IL/IR/LIR/LIRIntrinsicNormalization.cs:749-771 | the scan loop builds the array, scopes-array and boxing-conversion tables of the whole method |
| IntrinsicNormalization.InsertUndefined | Js2IL/IR/LIR/LIRIntrinsicNormalization.cs:799-807 | a fresh object temp is loaded with undefined by an instruction inserted at i, and every tracked index is shifted |
| IntrinsicNormalization.FinishRequire | Js2IL/IR/LIR/LIRIntrinsicNormalization.cs:916-921 | the call at j becomes a CallRequire and its result an object reference |
| IntrinsicNormalization.InsertUndefinedModuleId | Js2IL/IR/LIR/LIRIntrinsicNormalization.cs:854-862 | creates the module-id temp, inserts its undefined load and shifts the tracked indices, as InsertUndefined says |
| IntrinsicNormalization.CollectDeadConverts | Js2IL/IR/LIR/LIRIntrinsicNormalization.cs:817-834 | the loop adds exactly the boxing conversions of the removed array's later elements that nothing else reads |
| IntrinsicNormalization.FinishRequireCall | Js2IL/IR/LIR/LIRIntrinsicNormalization.cs:909-922 | drops a dead scopes-array build, replaces the call and retypes its result, as FinishRequire says |
| IntrinsicNormalization.RewriteRequireValueCall | Js2IL/IR/LIR/LIRIntrinsicNormalization.cs:783-847 | the CallFunctionValue case is one RequireStep |
| IntrinsicNormalization.RewriteRequireValueNCall | Js2IL/IR/LIR/LIRIntrinsicNormalization.cs:848-906 | the CallFunctionValue0..3 cases are one RequireStep |
| IntrinsicNormalization.NormalizeCommonJsRequireCalls | Js2IL/IR/LIR/LIRIntrinsicNormalization.cs:742-942 | the body after the pass is the require rewrite of the body before |
| IntrinsicNormalization.RequireOnlyRewritesRequireCalls | Js2IL/IR/LIR/LIRIntrinsicNormalization.cs:781-787 | any instruction that is not a require call is stepped over unchanged |
| IntrinsicNormalization.ZeroArgRequireGetsUndefined | Js2IL/IR/LIR/LIRIntrinsicNormalization.cs:848-867 | a require call with no arguments gets an undefined module id loaded just before it, in one new temp, and the call moves one slot on |
| IntrinsicNormalization.RequireWithArgumentUsesIt | Js2IL/IR/LIR/LIRIntrinsicNormalization.cs:789-846 | a require call with arguments becomes a CallRequire of its first argument in place, with no new temp |
| IntrinsicNormalization.DeadConvertsFromTable | Js2IL/IR/LIR/LIRIntrinsicNormalization.cs:825-833 | every conversion index removed comes from the conversion table |
| IntrinsicNormalization.RequireStepKeepsTables | Js2IL/IR/LIR/LIRIntrinsicNormalization.cs:774-922 | one loop step keeps every tracked table naming definitions of its kind |
| IntrinsicNormalization.RequireFromKeepsTables | Js2IL/IR/LIR/LIRIntrinsicNormalization.cs:774-922 | the whole loop keeps every tracked table naming definitions of its kind |
| IntrinsicNormalization.RequireCallsRemoveOnlyDefinitions | Js2IL/IR/LIR/LIRIntrinsicNormalization.cs:774-942 | every removed index names an array build, a scopes build or a boxing conversion, never a call or the module-id load |
| IntrinsicNormalization.NormalizeWithoutClassRegistry | Js2IL/IR/LIR/LIRIntrinsicNormalization.cs:16-27 | without a class registry, normalisation is the declared-call, require and arity passes in that order |
| Lir.OwnEnumerationUntracked | Js2IL/IL/TempLocalAllocator.cs:197-513 | the instruction kinds the reflection enumerator lists on their own read and write no temp in the allocator's operand tables |
| Lir.AllTempsCovers | Js2IL/IR/LIR/LIRTypeNormalization.cs:322-370 | the reflection enumerator lists every temp the instruction reads, and ends with the one it writes |
| Lir.FirstDef | Js2IL/IL/TempLocalAllocator.cs:172-181 | finds the first instruction that defines the temp, and finds none exactly when no instruction defines it |
| Lir.KeptBeforeMonotone | Js2IL/IR/LIR/LIRIntrinsicNormalization.cs:533-543 | the number of kept instructions before an index grows with the index, strictly past a kept one |
| Lir.KeptPlacement | Js2IL/IR/LIR/LIRIntrinsicNormalization.cs:533-543 | each kept instruction lands at the position that counts the kept instructions before it |
| Lir.Compact | Js2IL/IR/LIR/LIRIntrinsicNormalization.cs:533-543 | the compaction loop keeps exactly the non-removed instructions, each at its rank among the kept ones, in the original order |
| Lir.CompactSurjective | Js2IL/IR/LIR/LIRIntrinsicNormalization.cs:533-543 | every position of the compacted list holds a kept instruction |
| MemberCallNormalization.FieldTypeHandle | Js2IL/IR/LIR/LIRMemberCallNormalization.cs:267-288 | a field type handle is found exactly when the registry declares the (private or public) field, and it is the declared handle |
| MemberCallNormalization.Seed | Js2IL/IR/LIR/LIRMemberCallNormalization.cs:37-72 | a seed names the temp its instruction defines |
| MemberCallNormalization.ProvenTypesStep | Js2IL/IR/LIR/LIRMemberCallNormalization.cs:35-73 | one seeding step adds or overwrites only the entry its own instruction proves |
| MemberCallNormalization.ProvenTypesFromSeeds | Js2IL/IR/LIR/LIRMemberCallNormalization.cs:35-73 | a temp is proven exactly when some earlier instruction seeds it, and every proven temp is a real temp |
| MemberCallNormalization.ProvenTypesFromLastSeed | Js2IL/IR/LIR/LIRMemberCallNormalization.cs:35-73 | a proven temp holds the type proved by the last instruction that seeds it |
| MemberCallNormalization.ScanProvenTypes | Js2IL/IR/LIR/LIRMemberCallNormalization.cs:34-73 | the seeding loop computes the proven-type table of the whole method |
| MemberCallNormalization.TryGetMemberCallSite | Js2IL/IR/LIR/LIRMemberCallNormalization.cs:188-265 | the call site found at i is SiteAt: an array-based call only with a built, otherwise unused argument array, or a fixed-arity call |
| MemberCallNormalization.StepOutcome | Js2IL/IR/LIR/LIRMemberCallNormalization.cs:77-168 | one iteration changes instruction i exactly when it is a call site whose method the registry resolves, and then into the rewrite that RewrittenAt describes |
| MemberCallNormalization.StepOthers | Js2IL/IR/LIR/LIRMemberCallNormalization.cs:77-168 | one iteration changes no instruction but the i-th |
| MemberCallNormalization.UpToUnvisited | Js2IL/IR/LIR/LIRMemberCallNormalization.cs:77-168 | instructions the loop has not reached are untouched |
| MemberCallNormalization.UpToOnlyCalls | Js2IL/IR/LIR/LIRMemberCallNormalization.cs:77-168 | only member calls are ever replaced |
| MemberCallNormalization.UpToShrinks | Js2IL/IR/LIR/LIRMemberCallNormalization.cs:77-168 | later iterations only replace calls by calls that read fewer temps, and removals only accumulate |
| MemberCallNormalization.MemberCallRewriteSound | Js2IL/IR/LIR/LIRMemberCallNormalization.cs:77-168 | a replaced call becomes an early-bound call on the same receiver and result whose arguments are the call's own (or its removed, otherwise unread argument array's elements), targeting the uniquely resolved method, direct only when the receiver type is proven |
| MemberCallNormalization.MemberCallRewriteComplete | Js2IL/IR/LIR/LIRMemberCallNormalization.cs:77-168 | every normalisable member call is replaced by an early-bound call |
| MemberCallNormalization.NormalisableSite | Js2IL/IR/LIR/LIRMemberCallNormalization.cs:188-265 | a normalisable call still in place is a call site the registry resolves by name and arity |
| MemberCallNormalization.StepMakesTypedCall | Js2IL/IR/LIR/LIRMemberCallNormalization.cs:95-168 | a resolved call site is replaced by an early-bound call |
| MemberCallNormalization.UpToKnown | Js2IL/IR/LIR/LIRMemberCallNormalization.cs:109-133 | every proven type in the loop was seeded before it or comes from an earlier typed call returning its receiver class |
| MemberCallNormalization.ProvenReceiversHaveASource | Js2IL/IR/LIR/LIRMemberCallNormalization.cs:109-133 | a receiver type relied on at a call was seeded before the loop or is the result of an earlier typed call whose method returns its receiver class |
| MemberCallNormalization.ChainedResultIsProven | Js2IL/IR/LIR/LIRMemberCallNormalization.cs:130-133 | the result of a typed call returning its receiver class is proven to hold that class for every later call |
| MemberCallNormalization.UpToStorages | Js2IL/IR/LIR/LIRMemberCallNormalization.cs:134-143 | temp storages change only at results of typed calls returning their receiver class, which become typed references to that class |
| MemberCallNormalization.StoragesOnlyForChainedResults | Js2IL/IR/LIR/LIRMemberCallNormalization.cs:134-143 | the rewrite changes a temp storage only at such a result, and makes it a typed reference to the receiver class |
| MemberCallNormalization.MemberCallRemovesOnlyRewrittenBuilds | Js2IL/IR/LIR/LIRMemberCallNormalization.cs:145-167 | only argument-array builds of rewritten calls are removed, and nothing left reads those arrays |
| MemberCallNormalization.MemberCallsKeepOrder | Js2IL/IR/LIR/LIRMemberCallNormalization.cs:170-185 | the compaction keeps every other instruction in order, and with nothing to remove the rewritten list is kept |
| MemberCallNormalization.RewriteMemberCall | Js2IL/IR/LIR/LIRMemberCallNormalization.cs:77-168 | one loop iteration is one MemberStep, and nothing but the instructions, storages, proven types and removals changes |
| MemberCallNormalization.Normalize | Js2IL/IR/LIR/LIRMemberCallNormalization.cs:15-186 | without a class registry nothing changes; otherwise the body becomes the rewrite followed by one compaction |
| ModuleLoading.EscapeChar | Js2IL/ModuleLoader.cs:753-760 | one character escapes to itself or to a backslash followed by one character |
| ModuleLoading.EscapeJsStringIsPerCharacter | Js2IL/ModuleLoader.cs:753-760 | because the backslash is replaced first, the chain of replacements escapes every character on its own and never escapes an escape again |
| ModuleLoading.EscapeJsStringRoundTrip | Js2IL/ModuleLoader.cs:753-760 | unescaping the escaped text gives back the input, and the escaped text holds no raw CR or LF |
| ModuleLoading.NormalizeAlias | Js2IL/ModuleLoader.cs:777 | the stored alias holds no backslash |
| ModuleLoading.WithAliasKeepsWellFormed | Js2IL/ModuleLoader.cs:775-793 | adding an alias keeps the list free of blanks, of the canonical id and of case-insensitive duplicates; a blank alias or the canonical id leaves the list as it was |
| ModuleLoading.WithAliasContains | Js2IL/ModuleLoader.cs:775-793 | afterwards the normalised alias is listed, ignoring case, unless it is blank or the canonical id |
| ModuleLoading.WithAliasIdempotent | Js2IL/ModuleLoader.cs:775-793 | adding the same alias twice is the same as adding it once |
| ModuleLoading.ModuleDefinition.AddAliasIfMissing | Js2IL/ModuleLoader.cs:775-793 | the alias list becomes WithAlias of the old one, and stays well formed |
| ModuleLoading.KnownExtensionLength | Js2IL/ModuleLoader.cs:818-828 | the length of a trailing .js, .mjs or .cjs in any letter case is 3, 4 or 0 |
| ModuleLoading.TrimKnownModuleExtension | Js2IL/ModuleLoader.cs:818-828 | the result is the value less exactly its known module extension |
| ModuleLoading.TryNormalizeBareAlias | Js2IL/ModuleLoader.cs:795-816 | a bare alias holds no backslash |
| ModuleLoading.BareAliasStripsExtension | Js2IL/ModuleLoader.cs:795-828 | a package specifier such as "lodash/fp.js" becomes "lodash/fp" |
| ModuleLoading.BareAliasOf | Js2IL/ModuleLoader.cs:795-816 | a trimmed specifier without backslashes that is not path-like or node: becomes itself less its module extension |
| ModuleLoading.BareAliasRejectsPaths | Js2IL/ModuleLoader.cs:797-811 | blank, "./", "../", "/" and "node:" specifiers give no alias |
| ModuleLoading.Segments | Js2IL/ModuleLoader.cs:856-859 | the path segments, split at '/' and '\\', are never blank |
| ModuleLoading.LastNodeModules | Js2IL/ModuleLoader.cs:861 | finds the last "node_modules" segment, ignoring case, or -1 when there is none |
| ModuleLoading.WithoutExtension | Js2IL/ModuleLoader.cs:888-891 | the result is a prefix of the last segment; a trailing ".js" in any letter case is cut, otherwise the cut starts at the last '.', and a segment without '.' is kept whole |
| ModuleLoading.PackageIdentityExists | Js2IL/ModuleLoader.cs:851-896 | there is a package identity exactly when some segment before the last is "node_modules" and the last one is not |
| ModuleLoading.PackageIdentityAfterLastNodeModules | Js2IL/ModuleLoader.cs:861-896 | the package is named after the segment following the last "node_modules", a scope "@s" taking the next segment too, and the rest is the in-package path without its extension |
| ModuleLoading.CanonicalPackageModuleId | Js2IL/ModuleLoader.cs:830-838 | the canonical id of a package module starts with the package name and is exactly that name when the in-package path is empty |
| ModuleLoading.SanitizeClrIdentifier | Js2IL/ModuleLoader.cs:898-931 | the string-builder loop computes SanitizedClrIdentifier |
| ModuleLoading.SanitizedIsIdentifier | Js2IL/ModuleLoader.cs:898-931 | the result is non-empty, uses only letters, digits and '_', never starts with a digit, is "_" for blank input, and keeps each trimmed character in place as itself or '_' |
| ModuleLoading.SanitizeIdempotent | Js2IL/ModuleLoader.cs:898-931 | sanitising a sanitised identifier leaves it unchanged |
| JsObject.DecimalString | JavaScriptRuntime/Object.cs:2423 | the invariant-culture rendering of a natural number is a non-empty run of digits whose value is the number, with no leading zero |
| JsObject.DecimalStringOfDigits | JavaScriptRuntime/Object.cs:2423 | a run of digits is the rendering of its value exactly when it has no leading zero or is "0" |
| JsObject.ParseCanonicalIndex | JavaScriptRuntime/Object.cs:2414-2424 | a key parses exactly when it is a canonical index: non-empty digits within int range whose rendering is the key, and then to its value |
| JsObject.CanonicalIndexRoundTrip | JavaScriptRuntime/Object.cs:2414-2424 | every index up to 2^31-1 renders to a key that parses back to it |
| JsObject.NonCanonicalExamples | JavaScriptRuntime/Object.cs:2414-2424 | "01", "-1", "1.0" and "" are not canonical indices |
| JsObject.SetItem | JavaScriptRuntime/Object.cs:3139-3225 | undefined and null receivers throw TypeError, a string receiver is left alone and the value returned, a non-index key on an array goes to the generic property write, and a canonical index overwrites, appends or pads with undefined so the value lands at that index |
| JsObject.DefaultDescriptor | JavaScriptRuntime/Object.cs:860-982 | a plain dictionary entry is a writable, enumerable, configurable data property holding its value |
| JsObject.AppliedAsWritten | JavaScriptRuntime/Object.cs:943-981 | as written, the stored descriptor is built from the attributes alone, absent flags false and absent values undefined, of accessor kind exactly for a get/set request |
| JsObject.AsWrittenErasesFrozenValue | JavaScriptRuntime/Object.cs:897-981 | as written, an empty attributes object passes every check on a frozen data property and then replaces its value with undefined |
| JsObject.Applied | JavaScriptRuntime/Object.cs:881-981 | the corrected descriptor: a new property or a change of kind takes the attributes alone, otherwise absent attributes keep their current values; the kind and given flags are as requested |
| JsObject.AppliedKeepsFrozenProperty | JavaScriptRuntime/Object.cs:897-941 | a successful redefinition of a non-configurable, non-writable data property leaves its descriptor exactly as it was |
| JsObject.AppliedKeepsNonConfigurable | JavaScriptRuntime/Object.cs:897-941 | no successful redefinition makes a non-configurable property configurable, or changes its enumerability or kind |
| JsObject.Sealed | JavaScriptRuntime/Object.cs:1203-1231 | after seal the same keys are present and every property is non-configurable |
| JsObject.SealOne | JavaScriptRuntime/Object.cs:1203-1231 | sealing a property makes it non-configurable and changes nothing else about it |
| JsObject.Frozen | JavaScriptRuntime/Object.cs:1233-1266 | after freeze the same keys are present, every property is non-configurable and every data property non-writable |
| JsObject.FreezeOne | JavaScriptRuntime/Object.cs:1233-1266 | freezing a property makes it non-configurable and, for a data property, non-writable; kind, enumerability, value and accessors stay |
| JsObject.PartlySealedStep | JavaScriptRuntime/Object.cs:1203-1266 | each round of the seal or freeze loop changes exactly the visited key's descriptor, from its original value |
| JsObject.FrozenIsSealed | JavaScriptRuntime/Object.cs:1268-1327 | a frozen set of properties is also sealed |
| JsObject.IntegrityKeepsValues | JavaScriptRuntime/Object.cs:1203-1266 | sealing and freezing change only attributes, never values, kinds or enumerability |
| JsObject.FreezeIdempotent | JavaScriptRuntime/Object.cs:1233-1266 | freezing twice is the same as freezing once |
| JsObject.PropertyBag.DefineProperty | JavaScriptRuntime/Object.cs:860-982 | fails with TypeError, changing nothing, exactly when the redefinition checks of ECMA-262 section 10.1.6.3 refuse; otherwise stores Applied for the key and changes nothing else |
| JsObject.PropertyBag.SealProperties | JavaScriptRuntime/Object.cs:1215-1225 | the loop over the own keys makes the properties Sealed of the old ones |
| JsObject.PropertyBag.FreezeProperties | JavaScriptRuntime/Object.cs:1245-1260 | the loop over the own keys makes the properties Frozen of the old ones |
| JsObject.DefinePropertyOn | JavaScriptRuntime/Object.cs:860-982 | an undefined or null target throws TypeError; on an object it throws exactly when the attributes are missing, the key is new on a non-extensible object, or the redefinition is not allowed, and otherwise the key holds the applied descriptor and nothing else changes |
| JsObject.PreventExtensions | JavaScriptRuntime/Object.cs:1172-1186 | undefined and null throw, primitives are returned untouched, objects become non-extensible |
| JsObject.IsExtensible | JavaScriptRuntime/Object.cs:1188-1201 | undefined and null throw, primitives report false, objects report their extensible flag |
| JsObject.Seal | JavaScriptRuntime/Object.cs:1203-1231 | undefined and null throw, primitives are returned untouched, an object's properties are sealed and it becomes non-extensible and sealed |
| JsObject.Freeze | JavaScriptRuntime/Object.cs:1233-1266 | undefined and null throw, primitives are returned untouched, an object's properties are frozen and it becomes non-extensible, sealed and frozen |
| JsObject.IsSealed | JavaScriptRuntime/Object.cs:1268-1294 | undefined and null throw, primitives are sealed, an object is sealed when it is not extensible and no property is configurable |
| JsObject.IsFrozen | JavaScriptRuntime/Object.cs:1296-1327 | undefined and null throw, primitives are frozen, an object is frozen when it is not extensible, no property is configurable and no data property writable |
| JsObject.FreezeThenCheck | JavaScriptRuntime/Object.cs:1233-1327 | after freeze both isFrozen and isSealed report true |
| JsObject.DeleteProperty | JavaScriptRuntime/Object.cs:4390-4451 | undefined and null throw; a non-configurable own property is kept and false returned; otherwise the key is removed and true returned; primitives are left alone |
| PerfIngest.ParseArgs | tests/performance/ingestPerfToSupabase.js:5-21 | the index loop computes ParseArgsSpec, the flag scan |
| PerfIngest.ParseArgsKeys | tests/performance/ingestPerfToSupabase.js:5-21 | the keys of the result are exactly the names of the "--" flags |
| PerfIngest.ScanKeys | tests/performance/ingestPerfToSupabase.js:5-21 | scanning from an index adds exactly the names of the remaining "--" flags to the keys |
| PerfIngest.ScanKeepsOthers | tests/performance/ingestPerfToSupabase.js:5-21 | a key that no later flag names keeps its value |
| PerfIngest.LastFlagBinds | tests/performance/ingestPerfToSupabase.js:5-21 | the last flag of a key binds the next token when that is neither empty nor a flag, and true otherwise |
| PerfIngest.DashRuns | tests/performance/ingestPerfToSupabase.js:50 | the result holds only [a-z0-9] characters and dashes, never two dashes side by side, and starts with a dash exactly when the text starts with a character outside [a-z0-9] |
| PerfIngest.NonSlugRunOfRun | tests/performance/ingestPerfToSupabase.js:50 | `[^a-z0-9]+` takes exactly a run of other characters that is followed by the end or by an [a-z0-9] character |
| PerfIngest.DashRunsKeepsSlugChar | tests/performance/ingestPerfToSupabase.js:50 | an [a-z0-9] character is kept in its place, and the replacement goes on after it |
| PerfIngest.DashRunsReplacesRun | tests/performance/ingestPerfToSupabase.js:50 | each maximal run of other characters becomes exactly one dash in its place, and the replacement goes on after it |
| PerfIngest.DashRunsSeparatesWords | tests/performance/ingestPerfToSupabase.js:50 | "a b" becomes "a-b": the dash stays between the words |
| PerfIngest.DropLeadingDashes | tests/performance/ingestPerfToSupabase.js:51 | the result is a suffix that does not start with a dash |
| PerfIngest.DropTrailingDashes | tests/performance/ingestPerfToSupabase.js:51 | the result is a prefix that does not end with a dash |
| PerfIngest.SlugifyText | tests/performance/ingestPerfToSupabase.js:46-52 | the slug of a string is a slug: non-empty, only [a-z0-9] and single inner dashes; it is "unknown" when the lower-cased text has no [a-z0-9] character, and otherwise its [a-z0-9] characters are exactly those of the lower-cased text, in order |
| PerfIngest.StrippedKeepsSlugChars | tests/performance/ingestPerfToSupabase.js:46-51 | trimming, lower-casing, turning other runs into dashes and stripping end dashes keeps exactly the [a-z0-9] characters, in order; the result is empty exactly when there are none |
| PerfIngest.TrimLowerKeepsSlugChars | tests/performance/ingestPerfToSupabase.js:47-49 | `trim` removes only white space, so the lower-cased text keeps its [a-z0-9] characters |
| PerfIngest.DashRunsKeepsSlugChars | tests/performance/ingestPerfToSupabase.js:50 | replacing each run of other characters by one dash keeps the [a-z0-9] characters, in order |
| PerfIngest.UnknownIsSlug | tests/performance/ingestPerfToSupabase.js:47-51 | the fallback "unknown" is itself a slug |
| PerfIngest.Slugify | tests/performance/ingestPerfToSupabase.js:46-52 | the result is a slug: non-empty, only [a-z0-9] and single inner dashes; null and undefined give "unknown", as does a text without [a-z0-9] characters; otherwise the slug keeps exactly the [a-z0-9] characters of the lower-cased text, in order |
| PerfIngest.SlugFixed | tests/performance/ingestPerfToSupabase.js:46-52 | a slug is its own slug |
| PerfIngest.SlugifyIdempotent | tests/performance/ingestPerfToSupabase.js:46-52 | slugify is idempotent |
| PerfIngest.AsWrittenDecodesTwice | tests/performance/ingestPerfToSupabase.js:54-60 | as written, the escaped text "&amp;lt;" of the characters "&lt;" is decoded twice, to "<" |
| PerfIngest.DecodeHtmlEntitiesRoundTrip | tests/performance/ingestPerfToSupabase.js:54-60 | the corrected decoder, one pass from the left, gives back any text from its escaped form, and "&amp;lt;" becomes "&lt;" |
| PerfIngest.NormalizeRuntime | tests/performance/ingestPerfToSupabase.js:62-76 | the result is a slug; any "node" gives node; "js2il" with "compile" but no "execute" (and no earlier rule) gives js2il-compile; text naming no runtime gives its slug |
| PerfIngest.RuntimeNamesAreSlugs | tests/performance/ingestPerfToSupabase.js:62-76 | the fixed runtime names are slugs |
| PerfIngest.CompactObject | tests/performance/ingestPerfToSupabase.js:131-135 | keeps exactly the entries whose value is not null, undefined or "", with their values |
| PerfIngest.CompactObjectIdempotent | tests/performance/ingestPerfToSupabase.js:131-135 | compacting twice is compacting once, and the result holds no null, undefined or empty value |
| PerfIngest.CreateRow | tests/performance/ingestPerfToSupabase.js:198-211 | the row has the keys of the base, the host columns and its own fields; the scenario is slugified, the runtime normalised, the other fields kept, and other keys come from the host columns over the base |
| PerfIngest.RowNamesAreSlugs | tests/performance/ingestPerfToSupabase.js:198-211 | a row's scenario and runtime are slugs, and slugifying the scenario again changes nothing |
| PipeTable.ParsePipeRow | scripts/ECMA262/rollupEcma262Statuses.js:102-113 | a line is a pipe row exactly when its trimmed text starts with '\|' |
| PipeTable.ParsePipeRowCells | scripts/ECMA262/rollupEcma262Statuses.js:102-113 | every cell of a pipe row is trimmed and holds no '\|' |
| PipeTable.ParseRenderedRow | scripts/ECMA262/rollupEcma262Statuses.js:102-113 | reading a row written as "\| c1 \| c2 \|" gives its cells back |
| PipeTable.ParseClauseTableRow | scripts/ECMA262/rollupEcma262Statuses.js:115-125 | a clause row is read exactly from a pipe row of at least four cells, and holds its first four cells in order; the subsection splitter (scripts/splitEcma262SectionsIntoSubsections.js:86-109) reads its rows the same way |
| PipeTable.ClauseRowRoundTrip | scripts/ECMA262/rollupEcma262Statuses.js:115-125 | a written clause row reads back as the same row, and a row of fewer than four cells is not a clause row |
| PipeTable.PipesEscaped | scripts/ECMA262/rollupEcma262Statuses.js:127-129 | every '\|' of the escaped text is preceded by a backslash |
| PipeTable.UnescapeEscape | scripts/ECMA262/rollupEcma262Statuses.js:127-129 | removing the added backslashes gives the text back |
| PipeTable.BreakLines | scripts/ECMA262/generateEcma262SectionMarkdown.js:138 | every line feed, with a carriage return before it, becomes "<br>", so no line feed is left and escaped pipes stay escaped |
| PipeTable.FormatTableCellText | scripts/ECMA262/generateEcma262SectionMarkdown.js:137-139 | the cell text has no line feed and every '\|' in it is escaped |
| Release.Finish | scripts/release.js:92-102 | after the loop the arguments are returned exactly when the kind is patch, minor or major and the base is non-empty; otherwise the script exits with 1 |
| Release.ParseFrom | scripts/release.js:57-102 | a parse that returns has a valid kind and a non-empty base; any exit has code 0 or 1 |
| Release.ParseArgs | scripts/release.js:46-103 | the loop from index 2 computes ParseFrom from the defaults |
| Release.UnknownFlagRejected | scripts/release.js:63-89 | a flag the switch does not know, met once the kind is set or spelled with "--", exits with code 1 |
| Release.SwitchesAfterKind | scripts/release.js:46-103 | with the kind first and only switches after it, the parse returns that kind, and merge and dry-run are set exactly when their switches occur |
| Release.ShortHelpBeforeKind | scripts/release.js:57-89 | "-h" as the first argument is taken for the kind and rejected with exit 1, while after the kind it exits with 0 |
| Release.EffectiveArgv | scripts/release.js:105-127 | the node and script entries are kept, and npm's remaining arguments replace the rest exactly when they hold a release kind |
| Release.FindVersion | scripts/release.js:161 | finds the leftmost "<Version>...</Version>" match from a position, or none when no match exists |
| Release.ParseCsprojVersionSpec | scripts/release.js:160-164 | it throws exactly when no element matches, and the version read has no '<' in it |
| Release.ParseCsprojVersionOf | scripts/release.js:160-164 | the trimmed version of the first Version element is read back, whatever text without '<' precedes it |
| Release.ParseSigned | scripts/release.js:168 | parseInt reads a number exactly when digits follow the optional sign |
| Release.IncVersion | scripts/release.js:166-190 | a bump succeeds only for a valid kind and a core of exactly three parts |
| Release.ParseIntOfNat | scripts/release.js:168 | the decimal digits of a natural number are read back by parseInt |
| Release.CorePartsOfFormat | scripts/release.js:167-168 | the core parts of "M.m.p", with or without a prerelease tag, are the three numbers' digits |
| Release.IncVersionBumps | scripts/release.js:166-190 | major gives M+1.0.0, minor M.m+1.0 and patch M.m.p+1, with or without a prerelease suffix |
| Release.IncVersionIgnoresPrerelease | scripts/release.js:167 | whatever follows the first '-' does not affect the bump |
| Release.IncVersionRejectsTwoParts | scripts/release.js:169-171 | a core of two integers throws |
| Release.IncVersionRejectsFourParts | scripts/release.js:169-171 | a core of four integers throws |
| Release.NextHeaderIsFirst | scripts/release.js:241-247 | the end line is the first version header after the start, or the number of lines |
| Release.SectionEnd | scripts/release.js:240-247 | the loop finds the first "## vM.m.p" header after the first line, or the number of lines |
| Release.ChangelogSectionFor | scripts/release.js:231-252 | it throws exactly when the header "## v<version>" is absent, and otherwise returns the lines from the header up to the next version header, joined, trimmed and ended with a newline |
| Release.Section | scripts/release.js:249-251 | the section is non-empty and ends with a newline |
| Release.SectionStartsWithHeader | scripts/release.js:231-252 | the section starts with its own header line, for a version without white space |
| NodeModuleResolution.Utf8Char | Js2IL/Services/NodeModuleResolver.cs:69 | the UTF-8 form of one scalar value is 1 to 4 bytes, its lead byte announcing the length and the others continuation bytes |
| NodeModuleResolution.Utf8RoundTrip | Js2IL/Services/NodeModuleResolver.cs:69 | decoding the UTF-8 bytes of a string gives the string back |
| NodeModuleResolution.ClrIdentifierOf | Js2IL/Services/NodeModuleResolver.cs:60-83 | the identifier uses only letters, digits and '_', never starts with a digit, and is "_" exactly for a blank id |
| NodeModuleResolution.ClrIdentifierRoundTrip | Js2IL/Services/NodeModuleResolver.cs:60-83 | the identifier of a non-blank module id decodes back to the id |
| NodeModuleResolution.ClrIdentifierInjective | Js2IL/Services/NodeModuleResolver.cs:60-83 | two module ids get the same identifier exactly when they are equal or both blank |
| NodeModuleResolution.EncodeModuleIdToClrIdentifier | Js2IL/Services/NodeModuleResolver.cs:60-83 | the character-array encoder computes ClrIdentifierOf |
| NodeModuleResolution.PrefixedHex | Js2IL/Services/NodeModuleResolver.cs:70-80 | the loop writes "m_" and then two lowercase hex digits per byte, high nibble first |
| NodeModuleResolution.NormalizeSpecifier | Js2IL/Services/NodeModuleResolver.cs:452-457 | the result is the trimmed specifier with every backslash turned into a slash and every other character kept |
| NodeModuleResolution.NormalizeSpecifierIdempotent | Js2IL/Services/NodeModuleResolver.cs:452-457 | normalising twice is normalising once |
| NodeModuleResolution.ParseBareSpecifier | Js2IL/Services/NodeModuleResolver.cs:492-537 | the package name, then "/" and the subpath, give back the specifier less its "node:" prefix, or the subpath is empty |
| NodeModuleResolution.ParseScopedSpecifier | Js2IL/Services/NodeModuleResolver.cs:504-521 | "@scope/name/rest" is package "@scope/name" with subpath "rest" |
| NodeModuleResolution.ParseUnscopedSpecifier | Js2IL/Services/NodeModuleResolver.cs:525-536 | "name/rest" is package "name" with subpath "rest" |
| NodeModuleResolution.ParseStripsNodePrefix | Js2IL/Services/NodeModuleResolver.cs:498-502 | a leading "node:" in any letter case is stripped before parsing |
| NodeModuleResolution.PropertyIndex | Js2IL/Services/NodeModuleResolver.cs:321 | a property lookup finds the last member with the name, or none when no member has it |
| NodeModuleResolution.Conditional | Js2IL/Services/NodeModuleResolver.cs:387-426 | a resolved conditional target is never blank |
| NodeModuleResolution.ConditionalArrayFirstSuccess | Js2IL/Services/NodeModuleResolver.cs:398-408 | in a conditional array the first entry that resolves wins |
| NodeModuleResolution.ConditionalArraySound | Js2IL/Services/NodeModuleResolver.cs:398-408 | a resolved conditional array always resolves through one of its entries |
| NodeModuleResolution.RequireConditionWins | Js2IL/Services/NodeModuleResolver.cs:415-423 | a resolving "require" condition wins over everything else |
| NodeModuleResolution.NodeConditionBeforeDefault | Js2IL/Services/NodeModuleResolver.cs:415-423 | "node" is used only when "require" does not resolve, and wins over "default" |
| NodeModuleResolution.DefaultConditionLast | Js2IL/Services/NodeModuleResolver.cs:415-423 | "default" is the last resort |
| NodeModuleResolution.OtherConditionsIgnored | Js2IL/Services/NodeModuleResolver.cs:415-423 | members other than the three conditions, such as "import", never change the outcome |
| NodeModuleResolution.SubpathPatternReinserts | Js2IL/Services/NodeModuleResolver.cs:356-385 | the corrected pattern search finds the first member whose '*' name matches, with its prefix and suffix not overlapping; the wildcard put back for the '*' gives the key; and no match means no member matches |
| NodeModuleResolution.AsWrittenAgreesWithoutOverlap | Js2IL/Services/NodeModuleResolver.cs:356-385 | where the search as written does not throw, it agrees with the corrected search |
| NodeModuleResolution.OverlappingPatternThrows | Js2IL/Services/NodeModuleResolver.cs:356-385 | as written, names "./a*a" then "./*" requested as "./a" make Substring take a negative length on the first, although the second matches |
| NodeModuleResolution.ReplaceStars | Js2IL/Services/NodeModuleResolver.cs:331 | a target without '*' is unchanged by the substitution |
| NodeModuleResolution.ExportsTarget | Js2IL/Services/NodeModuleResolver.cs:289-349 | a resolved exports target is never blank |
| NodeModuleResolution.StringExportsMatchOnlyRoot | Js2IL/Services/NodeModuleResolver.cs:298-305 | a string exports value resolves exactly for "." and a non-blank string, and to that string |
| NodeModuleResolution.ExactSubpathEntryWins | Js2IL/Services/NodeModuleResolver.cs:320-324 | an exact subpath entry is used as it is, and patterns are not consulted even when it does not resolve |
| NodeModuleResolution.ConditionalObjectOnlyForRoot | Js2IL/Services/NodeModuleResolver.cs:337-344 | a conditional (non-subpath) object answers only for "." |
| NodeModuleResolution.ExportsArrayFirstSuccess | Js2IL/Services/NodeModuleResolver.cs:307-315 | exports arrays try their entries in order and the first success wins |
| NodeModuleResolution.ExportsKey | Js2IL/Services/NodeModuleResolver.cs:262 | the key looked up is "./" followed by the subpath without its leading slashes |
| NodeModuleResolution.ExportsTargetPath | Js2IL/Services/NodeModuleResolver.cs:428-450 | a blank target gives nothing, a target not starting with "./" after trimming is rejected, otherwise the rest is package-relative |
| StatusRollup.ValidateStatus | scripts/ECMA262/rollupEcma262Statuses.js:131-146 | returns exactly for the six current statuses and the two legacy spellings, and throws otherwise |
| StatusRollup.NormalizeLegacyStatus | scripts/ECMA262/rollupEcma262Statuses.js:148-153 | "Not Supported" becomes "Not Yet Supported", "Partially Supported" becomes "Supported with Limitations", and no legacy spelling is returned |
| StatusRollup.ValidatedNormalisesToCurrent | scripts/ECMA262/rollupEcma262Statuses.js:131-153 | a validated status normalises to a current one |
| StatusRollup.Norm | scripts/ECMA262/rollupEcma262Statuses.js:160-168 | the normalised list holds no blank and no legacy spelling |
| StatusRollup.WithoutInformational | scripts/ECMA262/rollupEcma262Statuses.js:172 | holds exactly the normalised statuses other than "N/A (informational)" |
| StatusRollup.GetRollupStatus | scripts/ECMA262/rollupEcma262Statuses.js:159-202 | the rollup is always a current status |
| StatusRollup.Occurring | scripts/ECMA262/rollupEcma262Statuses.js:160-168 | holds exactly the normalised statuses that occur |
| StatusRollup.RollupBySet | scripts/ECMA262/rollupEcma262Statuses.js:159-202 | the rollup equals the reference decision on the set of statuses that occur |
| StatusRollup.RollupIgnoresOrderAndRepeats | scripts/ECMA262/rollupEcma262Statuses.js:159-202 | the rollup depends only on which statuses occur, not on their order or repetitions |
| StatusRollup.RollupInformational | scripts/ECMA262/rollupEcma262Statuses.js:170-175 | only informational entries roll up to informational; otherwise informational entries are ignored |
| StatusRollup.RollupIncomplete | scripts/ECMA262/rollupEcma262Statuses.js:190-195 | any Incomplete entry, or implemented work mixed with "Not Yet Supported", rolls up to Incomplete |
| StatusRollup.RollupFallbacks | scripts/ECMA262/rollupEcma262Statuses.js:183-187 | only untracked entries, or none, give Untracked; only unimplemented (and untracked) ones give Not Yet Supported |
| StatusRollup.LimitationsDominateSupported | scripts/ECMA262/rollupEcma262Statuses.js:197-199 | "Supported with Limitations" wins over "Supported" unless the mix is Incomplete |
| ScriptText.DetectEol | scripts/extractEcma262SectionHtml.js:242-244 | the line ending is CRLF exactly when the text holds a CRLF, and LF otherwise |
| ScriptText.DetectEolWithoutCR | scripts/extractEcma262SectionHtml.js:242-244 | text without a carriage return is taken to use LF |
| SectionMarkdown.ParseClause | scripts/ECMA262/generateEcma262SectionMarkdown.js:121-127 | accepts exactly a trimmed "digits.digits" clause, and returns its parent and subsection numbers |
| SectionMarkdown.ParseClauseOf | scripts/ECMA262/generateEcma262SectionMarkdown.js:121-127 | the clause "p.s" is accepted with or without white space around it and split back into its groups |
| SectionMarkdown.ValidatedStatusRollsUp | scripts/ECMA262/generateEcma262SectionMarkdown.js:114-119 | every status this generator accepts is accepted by the status rollup and read there as a current status |
| SectionMarkdown.RollupOnlyStatusesRefused | scripts/ECMA262/generateEcma262SectionMarkdown.js:114-119 | "Supported with Limitations", "Incomplete", "N/A (informational)" and "Not Supported" are refused here |
| SectionMarkdown.RequireString | scripts/ECMA262/generateEcma262SectionMarkdown.js:106-112 | returns the trimmed text exactly when the field is a string that is not blank, and throws otherwise |
| SectionMarkdown.ToPosixPathPointwise | scripts/ECMA262/generateEcma262SectionMarkdown.js:141-143 | the path keeps its length and every character but the backslashes, which become slashes |
| SectionMarkdown.ToPosixPathIdempotent | scripts/ECMA262/generateEcma262SectionMarkdown.js:141-143 | converting twice is converting once |
| SectionMarkdown.CheckSection | scripts/ECMA262/generateEcma262SectionMarkdown.js:192-202 | the checked header has the requested clause and an allowed status, and a clause other than the requested one throws |
| SectionMarkdown.CheckSectionAccepts | scripts/ECMA262/generateEcma262SectionMarkdown.js:192-202 | a description with its fields present, an allowed status and the requested clause passes the checks unchanged |
| SectionMarkdown.SectionRowReadsBack | scripts/ECMA262/generateEcma262SectionMarkdown.js:224-226 | the clause row written for a checked header is read back by the clause-table reader as the same clause, title, status and link |
| SectionSplit.NonBlank | scripts/splitEcma262SectionsIntoSubsections.js:112-114 | holds exactly the trimmed statuses that are not blank |
| SectionSplit.MaxRank | scripts/splitEcma262SectionsIntoSubsections.js:116-120 | the highest precedence among the statuses, 0 for none |
| SectionSplit.SplitRollupIsHighestRank | scripts/splitEcma262SectionsIntoSubsections.js:111-121 | this script's rollup names the highest precedence that occurs: "Not Yet Supported" (or "Not Supported"), then "Partially Supported", then "Supported", else Untracked |
| SectionSplit.RankLevels | scripts/splitEcma262SectionsIntoSubsections.js:116-120 | which statuses are present decides the highest precedence |
| SectionSplit.ReadLines | scripts/splitEcma262SectionsIntoSubsections.js:49-59 | the lines of the text, less the empty line after a final line break |
| SectionSplit.LineIndex | scripts/splitEcma262SectionsIntoSubsections.js:79-84 | the first index of the needle, or -1 exactly when it is absent |
| SectionSplit.FindLineIndex | scripts/splitEcma262SectionsIntoSubsections.js:79-84 | the search loop computes LineIndex |
| SectionSplit.CountTableRows | scripts/splitEcma262SectionsIntoSubsections.js:123-141 | the counting loop gives the number of clause rows after the table header and its separator, or 0 without the header |
| SectionSplit.CountRowsFrom | scripts/splitEcma262SectionsIntoSubsections.js:132-138 | the loop counts the clause rows among the lines from its start |
| SectionSplit.NotAPipeRow | scripts/splitEcma262SectionsIntoSubsections.js:135 | a line whose trimmed text does not start with '\|' is no clause row |
| SectionSplit.ShouldOverwriteSubsectionDoc | scripts/splitEcma262SectionsIntoSubsections.js:143-152 | a missing file is overwritten; an existing one exactly when the marker is among its first 20 lines or its table has at most one data row |
| SectionSplit.GroupKey | scripts/splitEcma262SectionsIntoSubsections.js:259-266 | the group key is the digits after "n." that end the clause or are followed by '.' |
| SectionSplit.GroupKeys | scripts/splitEcma262SectionsIntoSubsections.js:258-267 | the subsection keys appear once each, in the order of their first row, and are exactly the keys of the rows |
| SectionSplit.SortNats | scripts/splitEcma262SectionsIntoSubsections.js:269-271 | the numeric sort returns a sorted permutation |
| SectionSplit.SubsectionOrder | scripts/splitEcma262SectionsIntoSubsections.js:269-272 | the subsections are in ascending numeric order and are the parsed keys |
| SectionSplit.SubRows | scripts/splitEcma262SectionsIntoSubsections.js:276 | the rows of subsection n.k are its own row and the rows below it |
| SectionSplit.SubRowsMatchGroupKey | scripts/splitEcma262SectionsIntoSubsections.js:259-276 | a row belongs to subsection n.k exactly when its group key is k written in decimal |
| SectionSplit.SubsectionDoc | scripts/splitEcma262SectionsIntoSubsections.js:284-297 | a generated document has the marker first, the table header at line 6 and one line per row after the separator |
| SectionSplit.RowLines | scripts/splitEcma262SectionsIntoSubsections.js:295-297 | each row is written as "\| clause \| title \| status \| link \|" |
| SectionSplit.GeneratedDocCountsItsRows | scripts/splitEcma262SectionsIntoSubsections.js:123-141 | every row written into a generated document is counted when the document is read back |
| SectionSplit.GeneratedDocIsOverwritable | scripts/splitEcma262SectionsIntoSubsections.js:143-152 | a generated document, written with LF line ends, may be regenerated because its first line is the marker |
| Stackify.IsStackable | Js2IL/IL/Stackify.cs:14-17 | a temp outside the result's table is never stackable |
| Stackify.LastDefBefore | Js2IL/IL/Stackify.cs:60-69 | the recorded definition site is the last instruction before the end that defines the temp |
| Stackify.LastDefIsLast | Js2IL/IL/Stackify.cs:60-69 | no instruction after the recorded definition site defines the temp again |
| Stackify.UseSitesBefore | Js2IL/IL/Stackify.cs:71-77 | every entry of a temp's use list is an instruction that reads it |
| Stackify.UseSitesComplete | Js2IL/IL/Stackify.cs:71-77 | every instruction that reads the temp is in its use list |
| Stackify.SingleUseSite | Js2IL/IL/Stackify.cs:87-91 | a use list of one entry means a single reading instruction that reads the temp once |
| Stackify.SingleUseOnce | Js2IL/IL/Stackify.cs:87-91 | the single user reads the temp in one operand position |
| Stackify.InlineIsInInlineSet | Js2IL/IL/Stackify.cs:236-270 | an inline-emittable definition is a constant, a parameter load, a dynamic add or multiply, or a convert to object |
| Stackify.FirstIndexOf | Js2IL/IL/Stackify.cs:133-140 | the first operand position reading the temp, or -1 when none does |
| Stackify.StackableHasSingleUseAfterDef | Js2IL/IL/Stackify.cs:87-106 | a stackable temp has a definition and exactly one reading instruction after it, which reads it once |
| Stackify.StackableDefinitionIsInline | Js2IL/IL/Stackify.cs:93-98 | only inline-emittable definitions make a temp stackable |
| Stackify.StackableHasNoControlFlowBetween | Js2IL/IL/Stackify.cs:125-225 | a stackable temp whose use is not adjacent has no label or branch between its definition and its use |
| Stackify.AdjacentFirstOperandStackable | Js2IL/IL/Stackify.cs:127-136 | a value defined right before a use that reads it first is stackable |
| Stackify.AdjacentStackableIffRead | Js2IL/IL/Stackify.cs:127-160 | with nothing in between, the target is stackable exactly when the next instruction reads it |
| Stackify.Analyze | Js2IL/IL/Stackify.cs:38-116 | one flag per temp, set exactly when the temp is stackable |
| Stackify.DecideTemp | Js2IL/IL/Stackify.cs:81-113 | the second pass decides each temp's flag as the stackability criterion says |
| Stackify.GatherDefsAndUses | Js2IL/IL/Stackify.cs:46-78 | the first pass records each temp's last definition and its full use list |
| Stackify.RecordDef | Js2IL/IL/Stackify.cs:64-69 | instruction i becomes the last definition of the temp it defines, and no other entry changes |
| Stackify.GatherStep | Js2IL/IL/Stackify.cs:60-78 | one more instruction moves the definition site or appends that instruction to the use list, once per operand |
| Stackify.RecordUses | Js2IL/IL/Stackify.cs:71-77 | instruction i is appended to the use list of each temp it reads, once per reading operand |
| Stackify.CanStackifyBetween | Js2IL/IL/Stackify.cs:125-225 | the two scans of the instructions in between decide stackability as the criterion says |
| Stackify.SwapBinaryOperands | Js2IL/IL/Stackify.cs:540-554 | a swapped instruction exists exactly for the commutative binary operations |
| Stackify.SwapKeepsOperationAndResult | Js2IL/IL/Stackify.cs:540-554 | a swap keeps the operation and the result and exchanges the two operands |
| Stackify.SwapInvolution | Js2IL/IL/Stackify.cs:540-554 | swapping twice gives back the instruction |
| Stackify.NeverSwapsOrderDependent | Js2IL/IL/Stackify.cs:495-537 | dynamic addition and string concatenation are never swapped |
| Stackify.OperandOrderOnlySwaps | Js2IL/IL/Stackify.cs:463-486 | the operand-order pass changes an instruction only by swapping its operands and keeps every result |
| Stackify.OptimizeBinaryOperandOrder | Js2IL/IL/Stackify.cs:444-487 | each commutative instruction whose left operand is defined right before it and whose right operand is defined earlier gets swapped; nothing else changes |
| Stackify.OrderOperands | Js2IL/IL/Stackify.cs:465-485 | the loop body rewrites instruction i as the specification says |
| Stackify.MoveTarget | Js2IL/IL/Stackify.cs:412-413 | a movable constant's single use lies at least two instructions after it |
| Stackify.PlannedMoves | Js2IL/IL/Stackify.cs:396-429 | the planned moves are in ascending source order and each targets a later use |
| Stackify.MoveOne | Js2IL/IL/Stackify.cs:434-437 | removing and re-inserting keeps the length |
| Stackify.MoveOnePermutes | Js2IL/IL/Stackify.cs:434-437 | a move relocates one instruction and keeps all the others |
| Stackify.ApplyMoves | Js2IL/IL/Stackify.cs:432-438 | applying moves keeps the length |
| Stackify.ApplyMovesPermutes | Js2IL/IL/Stackify.cs:432-438 | applying moves permutes the instructions |
| Stackify.MovedAsWritten | Js2IL/IL/Stackify.cs:432-438 | the pass applies the planned moves in descending source order |
| Stackify.MovedAsWrittenPermutes | Js2IL/IL/Stackify.cs:374-439 | the pass keeps every instruction, as often as it occurs |
| Stackify.MoveConstantsToUse | Js2IL/IL/Stackify.cs:374-439 | the new instruction list is the planned moves applied in descending source order, a permutation of the old |
| Stackify.PlanMoves | Js2IL/IL/Stackify.cs:379-429 | the planning loops compute the planned moves |
| Stackify.PlanAt | Js2IL/IL/Stackify.cs:399-428 | a move is planned for instruction i exactly when it is a single-use constant with its use two or more places later and no control flow between |
| Stackify.ApplyInOrder | Js2IL/IL/Stackify.cs:432-438 | the applying loop performs the moves one after the other |
| Stackify.ConstantMovedPastItsUse | Js2IL/IL/Stackify.cs:432-438 | two constants read by adjacent instructions: applying the moves as written puts the first constant after the instruction that reads it |
| Stackify.UseBeforeDefinition | Js2IL/IL/Stackify.cs:432-438 | in that output, the first instruction reads temp 0, which is defined only later |
| Stackify.OptimizeInstructionOrder | Js2IL/IL/Stackify.cs:361-369 | the constant moves, as written, give a permutation of the instructions; the operand-order pass then rewrites each of its instructions, so the result is stated index by index |
| Stackify.CorrectedOrderIsPermutation | Js2IL/IL/Stackify.cs:374-439 | the corrected placement order is a permutation of the instruction indices |
| Stackify.CorrectedConstantPrecedesUse | Js2IL/IL/Stackify.cs:427-437 | in the corrected order each moved constant comes before the instruction that reads it |
| Stackify.MovedCorrected | Js2IL/IL/Stackify.cs:374-439 | the corrected pass keeps the number of instructions |
| Stackify.CorrectedKeepsConstantBeforeUse | Js2IL/IL/Stackify.cs:427-437 | in the corrected pass each moved constant still comes before its use |
| JsString.IndexOf | JavaScriptRuntime/String.cs:481 | the ordinal search gives the first occurrence at or after the start, or -1 exactly when there is none |
| JsString.ClampPosition | JavaScriptRuntime/String.cs:77-101 | an omitted position takes its default; a negative one becomes 0 and one past the end becomes the length |
| JsString.StartsWith | JavaScriptRuntime/String.cs:72-110 | true exactly when the search string occurs at the clamped position; an empty search string always matches, and one running past the end never does |
| JsString.EndsWith | JavaScriptRuntime/String.cs:183-216 | true exactly when the search string is a suffix of the input cut to the clamped length; an empty search string always matches |
| JsString.Includes | JavaScriptRuntime/String.cs:227-262 | true exactly when the search string occurs at or after the clamped position |
| JsString.StartsWithImpliesIncludes | JavaScriptRuntime/String.cs:72-110 | a string that starts with the search string at a position also includes it from there |
| JsString.Replace | JavaScriptRuntime/String.cs:161-170 | an empty or absent pattern leaves the input unchanged; otherwise the first occurrence is replaced and the text around it kept |
| JsString.ReplaceBySelf | JavaScriptRuntime/String.cs:161-170 | replacing a pattern by itself changes nothing |
| JsString.SplitAll | JavaScriptRuntime/String.cs:475-499 | an unlimited split gives at least one piece |
| JsString.SplitJoin | JavaScriptRuntime/String.cs:475-499 | joining the pieces with the separator gives back the input |
| JsString.SplitPiecesAvoidSeparator | JavaScriptRuntime/String.cs:475-499 | no piece contains the separator |
| JsString.SplitLimit | JavaScriptRuntime/String.cs:541-569 | an omitted limit is unlimited (2^31-1), zero or a negative limit is 0, and a limit in range is kept |
| JsString.Take | JavaScriptRuntime/String.cs:480 | at most the limit's number of pieces, taken from the front |
| JsString.Split | JavaScriptRuntime/String.cs:442-500 | at most the limit's number of pieces; limit 0 gives none, an undefined separator gives the input alone, an empty separator single code units, and a non-empty separator the unlimited split cut to the limit |
| JsString.SplitCodeUnits | JavaScriptRuntime/String.cs:466-473 | the empty-separator branch gives the first code units one per piece, at most the limit |
| JsString.SplitOnSeparator | JavaScriptRuntime/String.cs:475-499 | the manual split loop computes the unlimited split cut to the limit |
| JsString.OrdinalCompare | JavaScriptRuntime/String.cs:344-360 | ordinal comparison is -1, 0 or 1 |
| JsString.OrdinalCompareZeroIffEqual | JavaScriptRuntime/String.cs:344-360 | ordinal comparison is 0 exactly for equal strings |
| JsString.OrdinalCompareAntisymmetric | JavaScriptRuntime/String.cs:344-360 | exchanging the two strings negates the ordinal comparison |
| JsString.DigitRun | JavaScriptRuntime/String.cs:414-415 | the length of the run of digits at the start |
| JsString.ToLong | JavaScriptRuntime/String.cs:412-415 | unchecked `long` arithmetic: the result lies in [-2^63, 2^63) and equals a value already in [0, 2^63) |
| JsString.ToLongIsCongruent | JavaScriptRuntime/String.cs:412-415 | the `long` differs from the exact value by a multiple of 2^64 |
| JsString.ToLongCongruent | JavaScriptRuntime/String.cs:412-415 | values congruent modulo 2^64 give the same `long` |
| JsString.ToLongStep | JavaScriptRuntime/String.cs:414-415 | one wrapped step `n * 10 + digit` equals wrapping the exact step, so the loop's `long` is the exact value wrapped |
| JsString.DigitsValueBelow | JavaScriptRuntime/String.cs:414-415 | a run of k digits has a value below 10^k |
| JsString.ShortRunIsExact | JavaScriptRuntime/String.cs:412-415 | a run of at most 18 digits does not wrap: its `long` is its exact value |
| JsString.DigitsValueInjective | JavaScriptRuntime/String.cs:414-419 | two digit runs of equal length and equal exact value are the same run |
| JsString.RunValueInjective | JavaScriptRuntime/String.cs:414-419 | two runs of at most 18 digits of equal length and equal `long` value are the same run |
| JsString.NumericCompare | JavaScriptRuntime/String.cs:400-427 | numeric-aware comparison is -1, 0 or 1; digit runs compare by their wrapped `long` values |
| JsString.NumericCompareZeroIffEqual | JavaScriptRuntime/String.cs:400-427 | equal strings compare as 0; when no digit run is longer than 18 digits, only equal strings compare as 0 |
| JsString.CompareWholeRuns | JavaScriptRuntime/String.cs:409-420 | two all-digit strings compare by their `long` values, then the shorter first |
| JsString.NumericCompareWrapCollision | JavaScriptRuntime/String.cs:412-419 | "18446744073709551616" (2^64) and twenty zeros differ but compare as 0, because 2^64 wraps to 0 |
| JsString.NumericCompareWrapNegative | JavaScriptRuntime/String.cs:412-416 | "9223372036854775808" (2^63) wraps to the least `long` and sorts before "1" |
| JsString.NumericCompareAntisymmetric | JavaScriptRuntime/String.cs:400-427 | exchanging the two strings negates the numeric-aware comparison |
| JsString.NumericCompareWithoutDigits | JavaScriptRuntime/String.cs:400-427 | without digits, numeric-aware comparison is ordinal comparison |
| JsString.NumericAwareCompare | JavaScriptRuntime/String.cs:400-427 | the loop over both indices computes the numeric-aware comparison |
| JsString.CompareDigitRuns | JavaScriptRuntime/String.cs:409-421 | two digit runs compare by their `long` values, then the shorter first, and otherwise the comparison continues after both |
| JsString.CompareChars | JavaScriptRuntime/String.cs:422-423 | two characters that are not both digits decide the comparison when they differ |
| JsString.LongStep | JavaScriptRuntime/String.cs:414-415 | one more digit extends the run, and its `long` is the previous `long` times ten plus the digit, wrapped |
| JsString.ScanDigits | JavaScriptRuntime/String.cs:414-415 | the inner loop gives the run's wrapped `long` value and the index after the run; for at most 18 digits that is the exact value |
| JsString.LocaleCompare | JavaScriptRuntime/String.cs:344-360 | ordinal comparison without numeric:true and numeric-aware comparison with it; the result is -1, 0 or 1; equal strings give 0, and 0 means equal strings unless numeric:true meets a digit run longer than 18 digits |
| SymbolTable.Ancestors | Js2IL/SymbolTable/SymbolTableBuilder.cs:1027-1035 | the strict ancestors of a scope, nearest first, each created before it |
| SymbolTable.AncestorsStep | Js2IL/SymbolTable/SymbolTableBuilder.cs:1027-1035 | each entry of the ancestor chain is the parent of the one before |
| SymbolTable.AncestorsTransitive | Js2IL/SymbolTable/SymbolTableBuilder.cs:1027-1035 | an ancestor's own ancestors are ancestors too |
| SymbolTable.DeclarationTarget | Js2IL/SymbolTable/SymbolTableBuilder.cs:470-482 | a declaration is bound in an existing scope |
| SymbolTable.FirstHoistTargetSpec | Js2IL/SymbolTable/SymbolTableBuilder.cs:473-477 | the hoist target is the first function or global scope on the chain, or none when there is none |
| SymbolTable.VarHoistsToNearestFunctionOrGlobal | Js2IL/SymbolTable/SymbolTableBuilder.cs:468-482 | let, const and a var outside a block stay in the current scope; a var in a block goes to the nearest function or global ancestor, or stays when there is none |
| SymbolTable.NearestDeclaringSpec | Js2IL/SymbolTable/SymbolTableBuilder.cs:1064-1074 | the search from a scope upwards finds a declaring scope exactly when an ancestor declares the name, and it is the nearest one |
| SymbolTable.MarksUpToStep | Js2IL/SymbolTable/SymbolTableBuilder.cs:1052-1080 | the marks after one more child are those before it, that child's own and those of its subtree |
| SymbolTable.ChildMarksVia | Js2IL/SymbolTable/SymbolTableBuilder.cs:1058-1076 | a child marks a name in a scope exactly when it is a closure that references the name and that scope is the nearest declaration |
| SymbolTable.MarksSound | Js2IL/SymbolTable/SymbolTableBuilder.cs:1049-1081 | every mark below a scope comes from a closure in its subtree referencing a name whose nearest declaration is the marked scope |
| SymbolTable.MarksUpToSound | Js2IL/SymbolTable/SymbolTableBuilder.cs:1052-1080 | the same holds for the marks of the first children |
| SymbolTable.ChildMarksInParent | Js2IL/SymbolTable/SymbolTableBuilder.cs:1049-1081 | a scope's marks are among its parent's |
| SymbolTable.MarksGrowUpwards | Js2IL/SymbolTable/SymbolTableBuilder.cs:1049-1081 | a scope's marks are among those of every ancestor |
| SymbolTable.MarksComplete | Js2IL/SymbolTable/SymbolTableBuilder.cs:1049-1081 | every closure in the subtree marks, for each variable it references, the nearest declaration seen from its parent |
| SymbolTable.MarksAreNearestDeclarations | Js2IL/SymbolTable/SymbolTableBuilder.cs:1064-1074 | every mark is on a scope that binds the name, for a closure whose nearest declaration it is |
| SymbolTable.BlocksMarkNothing | Js2IL/SymbolTable/SymbolTableBuilder.cs:1054-1058 | a subtree without function or class scopes marks nothing |
| SymbolTable.MarksForUnion | Js2IL/SymbolTable/SymbolTableBuilder.cs:1062-1075 | the marks for a union of names are the union of the marks |
| SymbolTable.MarksForStep | Js2IL/SymbolTable/SymbolTableBuilder.cs:1062-1075 | the marks after one more name are those before and its own |
| SymbolTable.ScopeTree.HoistTarget | Js2IL/SymbolTable/SymbolTableBuilder.cs:470-482 | the parent-link walk finds the declaration target |
| SymbolTable.ScopeTree.DeclareVariable | Js2IL/SymbolTable/SymbolTableBuilder.cs:484-487 | the binding is set in the declaration target, replacing an earlier binding of the name there with its mark; no other scope changes |
| SymbolTable.ScopeTree.CollectReferencedParentVariables | Js2IL/SymbolTable/SymbolTableBuilder.cs:1019-1043 | the names of the target and its ancestors that the child references, collected by walking parent links |
| SymbolTable.ScopeTree.MarkNearest | Js2IL/SymbolTable/SymbolTableBuilder.cs:1064-1074 | the name is marked in its nearest declaring scope and nothing else changes |
| SymbolTable.ScopeTree.MarkReferencedVariables | Js2IL/SymbolTable/SymbolTableBuilder.cs:1061-1075 | every referenced name is marked in its nearest declaring scope |
| SymbolTable.ScopeTree.MarkCapturedVariables | Js2IL/SymbolTable/SymbolTableBuilder.cs:1049-1081 | the captured marks grow by exactly the marks of the subtree, and the scopes are unchanged |
| SymbolTable.ScopeTree.MarkChild | Js2IL/SymbolTable/SymbolTableBuilder.cs:1058-1079 | one child adds its own marks and those of everything below it |
| SymbolTable.AddIfMissingSpec | Js2IL/SymbolTable/SymbolTableBuilder.cs:1127-1130 | adding a name that is missing keeps the list, adds the name and keeps it free of duplicates |
| SymbolTable.BindPropertyExtends | Js2IL/SymbolTable/SymbolTableBuilder.cs:1149-1175 | a pattern property binds its name (the default's target, the value or the key) without replacing an existing binding, and lists it as a parameter |
| SymbolTable.BindPropertiesExtends | Js2IL/SymbolTable/SymbolTableBuilder.cs:1147-1177 | the loop over a pattern's properties binds and lists every property name and nothing else |
| SymbolTable.BindParameterExtends | Js2IL/SymbolTable/SymbolTableBuilder.cs:1121-1213 | a parameter (identifier, default, pattern or pattern with default) binds and lists its names and nothing else |
| SymbolTable.BindParametersExtends | Js2IL/SymbolTable/SymbolTableBuilder.cs:1117-1215 | every name of every parameter is bound and listed; existing bindings are kept |
| SymbolTable.ScopeTree.BindObjectPatternParameters | Js2IL/SymbolTable/SymbolTableBuilder.cs:1117-1215 | only the function's own scope changes, to the bound parameters |
| SymbolTable.BindPatternProperties | Js2IL/SymbolTable/SymbolTableBuilder.cs:1147-1177 | the loop computes the binding of all the properties |
| SymbolTable.SanitizeChars | Js2IL/SymbolTable/SymbolTableBuilder.cs:244 | every letter, digit or '_' is kept and every other character becomes '_' |
| SymbolTable.SanitizeForMetadata | Js2IL/SymbolTable/SymbolTableBuilder.cs:241-248 | a safe type name: letters, digits and '_' only, never starting with a digit; "_" for an empty name |
| SymbolTable.SanitizeKeepsSafeNames | Js2IL/SymbolTable/SymbolTableBuilder.cs:241-248 | a safe name is kept |
| SymbolTable.SanitizeIdempotent | Js2IL/SymbolTable/SymbolTableBuilder.cs:241-248 | sanitising twice changes nothing |
| SymbolTable.NormalizeModuleName | Js2IL/SymbolTable/SymbolTableBuilder.cs:214-220 | the result is a suffix of the trimmed name, shorter by five characters or not at all |
| SymbolTable.NormalizeStripsOneNodePrefix | Js2IL/SymbolTable/SymbolTableBuilder.cs:214-220 | one "node:" prefix in any letter case is removed, and only one |
| SymbolTable.NormalizeKeepsPlainNames | Js2IL/SymbolTable/SymbolTableBuilder.cs:214-220 | a trimmed name without the prefix is kept |
| SubclauseSync.NormalizeClauseFilter | scripts/ECMA262/syncEcma262SubclausesFromSpec.js:112-119 | "" exactly for a blank argument; otherwise the trimmed argument when it has the form digits.digits, and an error exactly when it does not |
| SubclauseSync.NormalizeClauseFilterOf | scripts/ECMA262/syncEcma262SubclausesFromSpec.js:112-119 | a clause "p.q", padded or not, is accepted as it is |
| SubclauseSync.NumericClauseOf | scripts/ECMA262/syncEcma262SubclausesFromSpec.js:165-168 | every dot-joined run of two or more digit groups is a numeric clause number |
| SubclauseSync.NumericClauseIsJoin | scripts/ECMA262/syncEcma262SubclausesFromSpec.js:165-168 | every numeric clause number is such a run |
| SubclauseSync.AnnexRejected | scripts/ECMA262/syncEcma262SubclausesFromSpec.js:165-168 | annex clauses and other lettered numbers are refused |
| SubclauseSync.RemoveTagsNoTag | scripts/ECMA262/syncEcma262SubclausesFromSpec.js:150 | replacing each tag by a blank leaves no tag |
| SubclauseSync.RemoveTagsNoGt | scripts/ECMA262/syncEcma262SubclausesFromSpec.js:150 | replacing tags adds no '>' to text that has none |
| SubclauseSync.CollapseSpace | scripts/ECMA262/syncEcma262SubclausesFromSpec.js:151 | every run of white space becomes one blank |
| SubclauseSync.CollapseSpaceNoTag | scripts/ECMA262/syncEcma262SubclausesFromSpec.js:151 | collapsing white space makes no new tag |
| SubclauseSync.StripTags | scripts/ECMA262/syncEcma262SubclausesFromSpec.js:148-153 | the text has no tag, no white space at either end and single blanks between words |
| SubclauseSync.EncodeEntities | scripts/ECMA262/syncEcma262SubclausesFromSpec.js:155-163 | the HTML form of a text holds no '<' or '>' |
| SubclauseSync.DecodedTwice | scripts/ECMA262/syncEcma262SubclausesFromSpec.js:155-163 | as written, the text "&lt;", whose HTML form is "&amp;lt;", decodes to "<"; decoding once gives "&lt;" |
| SubclauseSync.DecodeEntities | scripts/ECMA262/syncEcma262SubclausesFromSpec.js:155-163 | decoding each entity once, left to right, never lengthens the text |
| SubclauseSync.DecodeEncodedChar | scripts/ECMA262/syncEcma262SubclausesFromSpec.js:155-163 | the escaped form of a character decodes to that character |
| SubclauseSync.DecodeAt | scripts/ECMA262/syncEcma262SubclausesFromSpec.js:155-163 | each of the five entities decodes to its character, and decoding goes on after it |
| SubclauseSync.DecodeEncode | scripts/ECMA262/syncEcma262SubclausesFromSpec.js:155-163 | decoding inverts escaping: every text is recovered from its HTML form |
| SubclauseSync.BuildSubclausesFor | scripts/ECMA262/syncEcma262SubclausesFromSpec.js:211-220 | at most one subclause per entry, each numbered under the clause and linked into the specification |
| SubclauseSync.BuildSubclausesAppend | scripts/ECMA262/syncEcma262SubclausesFromSpec.js:211-220 | the subclauses keep document order |
| SubclauseSync.BuildSubclausesKeepsExactly | scripts/ECMA262/syncEcma262SubclausesFromSpec.js:211-220 | exactly the entries numbered under the clause are kept |
| SubclauseSync.ExistingClauses | scripts/ECMA262/syncEcma262SubclausesFromSpec.js:272-278 | the trimmed clause of every entry that has one is present, and "" is not |
| SubclauseSync.Missing | scripts/ECMA262/syncEcma262SubclausesFromSpec.js:292-302 | at most one entry per proposed subclause, each Untracked and not among the existing clauses |
| SubclauseSync.MissingCounts | scripts/ECMA262/syncEcma262SubclausesFromSpec.js:292-302 | after the append a missing clause appears as often as it is proposed, and an existing clause is not added |
| SubclauseSync.DistinctCountsOnce | scripts/ECMA262/syncEcma262SubclausesFromSpec.js:211-220 | a clause proposed by distinct entries is proposed once |
| SubclauseSync.SpecByClause | scripts/ECMA262/syncEcma262SubclausesFromSpec.js:308 | the map from clause to subclause holds every proposed clause under its own key |
| SubclauseSync.FillNeverOverwrites | scripts/ECMA262/syncEcma262SubclausesFromSpec.js:310-327 | filling never touches the clause or the status and never overwrites a non-empty title or link |
| SubclauseSync.FillIdempotent | scripts/ECMA262/syncEcma262SubclausesFromSpec.js:310-327 | filling twice fills nothing more |
| SubclauseSync.FilledAll | scripts/ECMA262/syncEcma262SubclausesFromSpec.js:310-327 | the fill-blanks step keeps the number of entries and fills each entry on its own |
| SubclauseSync.FillItems | scripts/ECMA262/syncEcma262SubclausesFromSpec.js:310-327 | the loop fills every entry, and reports a change exactly when one was made |
| SubclauseSync.CollectMissing | scripts/ECMA262/syncEcma262SubclausesFromSpec.js:292 | the loop collects the missing subclauses |
| SubclauseSync.SectionDoc.AppendMissing | scripts/ECMA262/syncEcma262SubclausesFromSpec.js:293-304 | the missing subclauses are appended after the existing entries, which stay as they are |
| SubclauseSync.SectionDoc.FillBlanks | scripts/ECMA262/syncEcma262SubclausesFromSpec.js:307-328 | without an array of entries nothing changes; otherwise every entry is filled, and the change is reported exactly |
| SubclauseSync.SectionDoc.Sync | scripts/ECMA262/syncEcma262SubclausesFromSpec.js:260-333 | the outcome is NotASubsection exactly when the trimmed clause is not "N.k", FilteredOut exactly when it differs from the filter, NoSpecMatches exactly when the specification proposes nothing; those leave the document alone; otherwise the subclauses are the old ones plus the missing ones, then filled when asked; it is Updated exactly when they change; every old entry is kept and no existing clause is added again |
| SubclauseSync.AppendKeeps | scripts/ECMA262/syncEcma262SubclausesFromSpec.js:293-304 | after the append every old entry is kept and no existing clause is counted more often |
| SubclauseSync.FillKeeps | scripts/ECMA262/syncEcma262SubclausesFromSpec.js:307-328 | filling after the append keeps what the append kept |
| SubclauseSync.FilledKeepsCounts | scripts/ECMA262/syncEcma262SubclausesFromSpec.js:307-328 | filling keeps the clause of every entry, so the counts of clauses |
| TempAllocation.GetSlot | Js2IL/IL/TempLocalAllocator.cs:14-28 | a slot is returned exactly for a materialised temp, and it is the recorded one; otherwise the source throws |
| TempAllocation.ConvertOfPinnedSourceNotInline | Js2IL/IL/TempLocalAllocator.cs:154-161 | a box of a temp pinned to a variable slot always gets its own local |
| TempAllocation.ConvertOfConstantInline | Js2IL/IL/TempLocalAllocator.cs:154-164 | a box of an unpinned inline constant is emitted inline |
| TempAllocation.LastUseBefore | Js2IL/IL/TempLocalAllocator.cs:51-59 | the last reading instruction before a point, or -1 |
| TempAllocation.LastUseIsLast | Js2IL/IL/TempLocalAllocator.cs:51-59 | the recorded use reads the temp and no later instruction does |
| TempAllocation.DefAtIsLast | Js2IL/IL/TempLocalAllocator.cs:104-127 | the instruction recorded is the last one that gave the temp a slot |
| TempAllocation.Initial | Js2IL/IL/TempLocalAllocator.cs:62-63 | every temp starts without a slot |
| TempAllocation.FreeOne | Js2IL/IL/TempLocalAllocator.cs:80-98 | freeing a dying operand changes only the free stacks |
| TempAllocation.Dedup | Js2IL/IL/TempLocalAllocator.cs:73 | the operands without repetitions, first occurrences kept |
| TempAllocation.AllocResult | Js2IL/IL/TempLocalAllocator.cs:101-127 | giving a result a slot keeps one entry per temp |
| TempAllocation.RunShape | Js2IL/IL/TempLocalAllocator.cs:68-128 | every slot the run records exists, and the recorded definitions are the instructions that gave the slots |
| TempAllocation.SlotStorageMatches | Js2IL/IL/TempLocalAllocator.cs:112-126 | a materialised temp's slot exists and was created for a storage of the same key |
| TempAllocation.MaterializedIff | Js2IL/IL/TempLocalAllocator.cs:104-110 | a temp is materialised exactly when its definition is read later, is wanted, is not emitted inline and is not pinned to a variable |
| TempAllocation.SlotsBoundedByDefinitions | Js2IL/IL/TempLocalAllocator.cs:115-124 | slots are only created for qualifying definitions, at most one per definition, numbered from 0 |
| TempAllocation.EmptyAllocation | Js2IL/IL/TempLocalAllocator.cs:41-45 | a method without temps gets an empty allocation |
| TempAllocation.AsWrittenAgreesWithoutRepeats | Js2IL/IL/TempLocalAllocator.cs:73-99 | freeing once per operand occurrence is the same as freeing once per operand when no instruction reads a temp twice |
| TempAllocation.StepInv | Js2IL/IL/TempLocalAllocator.cs:68-128 | one allocation step, freeing each dying operand once, keeps the invariant: live temps hold distinct slots and free slots are held by no live temp |
| TempAllocation.CorrectedSlotsNeverOverlap | Js2IL/IL/TempLocalAllocator.cs:68-128 | freeing each dying operand once, two temps share a slot only when one is defined after the other's last use |
| TempAllocation.AsWrittenSlotsNeverOverlapWithoutRepeats | Js2IL/IL/TempLocalAllocator.cs:68-128 | the allocator as written keeps that guarantee when no instruction reads a temp twice |
| TempAllocation.DoubleFreeExample | Js2IL/IL/TempLocalAllocator.cs:73-99 | the example method body is well formed |
| TempAllocation.DuplicateOperandSharesLiveSlot | Js2IL/IL/TempLocalAllocator.cs:73-99 | as written, after t1 = t0 + t0 the slot of t0 is freed twice, so two temps that are live together get the same slot |
| TempAllocation.Allocate | Js2IL/IL/TempLocalAllocator.cs:39-131 | the two passes compute the allocation as written; every materialised temp's slot holds its storage; without repeated operands the slots never overlap |
| TempAllocation.AllocateTwoPasses | Js2IL/IL/TempLocalAllocator.cs:47-128 | the two loops compute the allocation as written |
| TempAllocation.AllocateAt | Js2IL/IL/TempLocalAllocator.cs:70-127 | the second pass at instruction i frees the dying operands and then gives the result a slot when it qualifies |
| TempAllocation.AssignSlot | Js2IL/IL/TempLocalAllocator.cs:112-126 | the result gets the top of its key's free stack, or a new slot |
| TempAllocation.FreeDeadOperands | Js2IL/IL/TempLocalAllocator.cs:73-99 | each operand occurrence that dies here and has a slot is pushed to its key's free stack |
| TempAllocation.LastUses | Js2IL/IL/TempLocalAllocator.cs:47-59 | the first pass records each temp's last use |
| TypeNormalization.FieldType | Js2IL/IR/LIR/LIRTypeNormalization.cs:373-397 | an instance field's declared type from the public or private table, or object when the registry has none |
| Lir.SetStorage | Js2IL/IR/LIR/LIRTypeNormalization.cs:275-281 | only the temp's storage changes, and only when the temp is in range |
| TypeNormalization.SetSlot | Js2IL/IR/LIR/LIRTypeNormalization.cs:293-299 | only the temp's slot changes, and only when the temp is in range |
| TypeNormalization.StampHandle | Js2IL/IR/LIR/LIRTypeNormalization.cs:29-50 | a handle is stamped exactly for a new-class result with a reference storage whose class the registry knows, with a non-nil handle and no constructor-return override |
| TypeNormalization.StampOnlyRefinesReferences | Js2IL/IR/LIR/LIRTypeNormalization.cs:29-65 | stamping changes only reference storages of temps that a new-class instruction defines, and the variable storage of the slot they are pinned to |
| TypeNormalization.StampSetsConstructedHandle | Js2IL/IR/LIR/LIRTypeNormalization.cs:51-63 | a stamped storage carries the handle of its class |
| TypeNormalization.StampNewUserClassResults | Js2IL/IR/LIR/LIRTypeNormalization.cs:29-65 | the stamping loop stamps every new-class result in turn |
| TypeNormalization.Step | Js2IL/IR/LIR/LIRTypeNormalization.cs:67-167 | a peephole step keeps the instructions and moves on, or removes one and stays |
| TypeNormalization.ForOfRewriteOnlyForArrays | Js2IL/IR/LIR/LIRTypeNormalization.cs:72-120 | the iterable call becomes a copy only for a source known to be a runtime array, and the result takes the source's storage |
| TypeNormalization.ForOfRewriteSharesSlot | Js2IL/IR/LIR/LIRTypeNormalization.cs:89-109 | when the result is pinned to a slot, source and result end up on one slot, the source's when it had one |
| TypeNormalization.StoreRewriteUnboxes | Js2IL/IR/LIR/LIRTypeNormalization.cs:126-166 | a box of a double or bool feeding a store to a field of that type: the store takes the unboxed source, and the box is removed when no other instruction mentions it |
| TypeNormalization.StoreRewriteNeedsMatchingField | Js2IL/IR/LIR/LIRTypeNormalization.cs:131-156 | a box feeding a field of another type, or not followed by a field store, is left alone |
| TypeNormalization.PeepholeKeepsWellFormed | Js2IL/IR/LIR/LIRTypeNormalization.cs:67-167 | the peephole loop keeps the variable tables and the single-assignment set, and pins temps only to existing slots |
| TypeNormalization.StampKeepsWellFormed | Js2IL/IR/LIR/LIRTypeNormalization.cs:29-65 | stamping keeps the body well formed |
| TypeNormalization.IsTempUsedOutside | Js2IL/IR/LIR/LIRTypeNormalization.cs:301-320 | the scan reports whether any instruction other than the ignored one mentions the temp |
| TypeNormalization.RewriteForOf | Js2IL/IR/LIR/LIRTypeNormalization.cs:72-120 | the for-of rewrite on the body |
| TypeNormalization.RewriteBoxedStore | Js2IL/IR/LIR/LIRTypeNormalization.cs:126-166 | the boxed-store rewrite on the body, with the index the loop goes on from |
| TypeNormalization.RewritePeepholes | Js2IL/IR/LIR/LIRTypeNormalization.cs:67-167 | the peephole loop runs each rewrite in turn |
| TypeNormalization.UnusedSlots | Js2IL/IR/LIR/LIRTypeNormalization.cs:183-190 | the slots no temp is pinned to |
| TypeNormalization.UsedSlots | Js2IL/IR/LIR/LIRTypeNormalization.cs:183-190 | the slots some temp is pinned to |
| TypeNormalization.RemapSlots | Js2IL/IR/LIR/LIRTypeNormalization.cs:225-233 | every pinned temp moves to its slot's new index |
| TypeNormalization.CompactedSlotsAllUsed | Js2IL/IR/LIR/LIRTypeNormalization.cs:175-263 | after compaction there are as many slots as were in use, and each one is used |
| TypeNormalization.CompactedKeepsVariables | Js2IL/IR/LIR/LIRTypeNormalization.cs:207-262 | every pinned temp keeps its variable's name and storage, and an unpinned temp stays so |
| TypeNormalization.CompactedKeepsOrder | Js2IL/IR/LIR/LIRTypeNormalization.cs:213-223 | the surviving slots keep their order |
| TypeNormalization.CompactedSingleAssignment | Js2IL/IR/LIR/LIRTypeNormalization.cs:235-256 | a slot is single-assignment after compaction exactly when the slot it came from was |
| TypeNormalization.CompactionNoOp | Js2IL/IR/LIR/LIRTypeNormalization.cs:177-205 | with no variables, or every variable used, nothing changes |
| TypeNormalization.CompactionIdempotent | Js2IL/IR/LIR/LIRTypeNormalization.cs:175-263 | compacting twice is compacting once |
| TypeNormalization.MarkUsedSlots | Js2IL/IR/LIR/LIRTypeNormalization.cs:183-190 | the loop marks exactly the slots some temp is pinned to |
| TypeNormalization.BuildSlotTables | Js2IL/IR/LIR/LIRTypeNormalization.cs:207-223 | every used slot gets the number of used slots before it, and the names and storages keep only the used slots |
| TypeNormalization.RemapSingleSlots | Js2IL/IR/LIR/LIRTypeNormalization.cs:236-256 | the single-assignment set is renumbered, dropping the removed slots |
| TypeNormalization.RemapTempSlots | Js2IL/IR/LIR/LIRTypeNormalization.cs:226-233 | the temp-slot loop renumbers every pinned temp |
| TypeNormalization.CompactUnusedVariableSlots | Js2IL/IR/LIR/LIRTypeNormalization.cs:175-263 | the body becomes its compaction |
| TypeNormalization.RemapUnusedSlots | Js2IL/IR/LIR/LIRTypeNormalization.cs:207-262 | the renumbering part of compaction |
| TypeNormalization.Normalize | Js2IL/IR/LIR/LIRTypeNormalization.cs:16-173 | without a registry nothing changes; with one, the body is stamped, rewritten and compacted |
| TypeNormalization.NormalizedSlotsAllUsed | Js2IL/IR/LIR/LIRTypeNormalization.cs:16-173 | after normalisation every slot is used and every pinned temp is pinned to an existing slot |
| VariableBindings.ParameterIndicesKeys | Js2IL/Services/VariableBindings/Variable.cs:118-126 | exactly the parameter names are mapped |
| VariableBindings.ParameterIndicesFirstWins | Js2IL/Services/VariableBindings/Variable.cs:120-126 | each parameter name maps to the argument position after its first occurrence |
| VariableBindings.ParameterIndicesInRange | Js2IL/Services/VariableBindings/Variable.cs:120-126 | duplicate names do not shift later indices: every mapped index is a real argument position, from 1 |
| VariableBindings.ParentScopeIndices | Js2IL/Services/VariableBindings/Variable.cs:129-136 | the global scope is at index 0 and, for a nested function whose parent is not the global scope, the parent at index 1; nothing else is mapped |
| VariableBindings.RemoveFirstSpec | Js2IL/Services/VariableBindings/Variable.cs:400-409 | removing the innermost occurrence keeps every other entry in order, and changes nothing when the name is absent |
| VariableBindings.PoppedRemovesInnermost | Js2IL/Services/VariableBindings/Variable.cs:395-411 | a pop removes the innermost occurrence of the name, and changes nothing when the name is not on the stack |
| VariableBindings.PushThenPop | Js2IL/Services/VariableBindings/Variable.cs:392-411 | a push followed by the matching pop restores the stack |
| VariableBindings.PoppedShrinks | Js2IL/Services/VariableBindings/Variable.cs:395-411 | a pop never introduces a name, and shrinks the stack by one exactly when the name is on it |
| VariableBindings.AllocateKeepsSlotsDistinct | Js2IL/Services/VariableBindings/Variable.cs:414-419 | a block scope gets a slot no other scope holds, and the slots stay distinct |
| VariableBindings.Variables.Global | Js2IL/Services/VariableBindings/Variable.cs:86-93 | the global context has its scope instance in local 0 and nothing cached, registered or active |
| VariableBindings.Variables.Nested | Js2IL/Services/VariableBindings/Variable.cs:106-137 | a nested context shares the registry and the global scope name, has no scope local yet, and maps its parameters and parent scopes |
| VariableBindings.Variables.LexicalHitInnermost | Js2IL/Services/VariableBindings/Variable.cs:147-153 | the innermost active block scope that declares the name gives its field |
| VariableBindings.Variables.LexicalMiss | Js2IL/Services/VariableBindings/Variable.cs:147-153 | no active block scope declaring the name means no block hit |
| VariableBindings.Variables.FindsInnermostBlockBinding | Js2IL/Services/VariableBindings/Variable.cs:146-153 | the innermost declaring block shadows every outer binding, even a cached one, and the hit is not cached |
| VariableBindings.Variables.CachesOnlyOutsideBlocks | Js2IL/Services/VariableBindings/Variable.cs:155-238 | only resolutions outside the block scopes are cached, and a cached entry is the variable returned |
| VariableBindings.Variables.ResolveIdempotent | Js2IL/Services/VariableBindings/Variable.cs:143-242 | asking twice gives the same variable and leaves the cache as the first call left it |
| VariableBindings.Variables.PopRestoresOuterBinding | Js2IL/Services/VariableBindings/Variable.cs:146-153 | after a block is pushed and popped, a name resolves as before the block: a block's binding never outlives it |
| VariableBindings.Variables.FindVariable | Js2IL/Services/VariableBindings/Variable.cs:143-242 | block scopes first, then the cache, a parameter (its field, or the argument), a field of the current scope, a parent's field, or nothing; only the cache changes |
| VariableBindings.Variables.GetScopeLocalSlot | Js2IL/Services/VariableBindings/Variable.cs:246-278 | the current scope is local 0 when it has a local; a registered scope its local; a parent its index in the scopes array; anything else nowhere |
| VariableBindings.Variables.GetLocalScopeSlot | Js2IL/Services/VariableBindings/Variable.cs:322-329 | the current function's scope slot is local 0 exactly when it has a scope local |
| VariableBindings.Variables.CreateScopeInstance | Js2IL/Services/VariableBindings/Variable.cs:281-294 | only the current scope gets a scope instance, in local 0, and it is counted once |
| VariableBindings.Variables.GetAllScopeNames | Js2IL/Services/VariableBindings/Variable.cs:297-304 | the global scope, the current scope, the parent scopes and the registered scopes, each once and nothing else; the global scope first, then the current scope, and the parent scopes before the registered scopes that are no parent |
| VariableBindings.Variables.GetNumberOfLocals | Js2IL/Services/VariableBindings/Variable.cs:342-354 | the scope local, if any, plus the registered scopes, after dropping a stale registration of the current scope |
| VariableBindings.Variables.RegisterAdditionalLocalScope | Js2IL/Services/VariableBindings/Variable.cs:364-368 | a non-empty scope name is registered at the given local; an empty one is ignored |
| VariableBindings.Variables.AllocateBlockScopeLocal | Js2IL/Services/VariableBindings/Variable.cs:414-419 | a block scope gets the next local slot, which it is then found at; the count grows by one for a new name |
| VariableBindings.Variables.PushLexicalScope | Js2IL/Services/VariableBindings/Variable.cs:392-394 | a non-empty name is pushed as the innermost block scope |
| VariableBindings.Variables.PopLexicalScope | Js2IL/Services/VariableBindings/Variable.cs:395-411 | the innermost occurrence of the name is removed, the top directly or by draining and refilling |
| VariableBindings.Variables.DrainSkipping | Js2IL/Services/VariableBindings/Variable.cs:401-408 | the drain leaves out the first entry equal to the name and keeps the rest, reversed |
| VariableBindings.Variables.Refill | Js2IL/Services/VariableBindings/Variable.cs:409 | refilling puts the kept entries back in their order |

## Left out

- Floating point. This covers the `ToNumber` coercions, the `double`-typed indices, `ToInt`/`ToUint8` on non-integral values, `CharCodeAt`, `parseDurationToNs`, and the NaN and infinity cases of the position and limit arguments. Numeric arguments are taken as already-coerced integers.
- NodeBuffer.ToUint8: takes the integer modulo 256. The source first casts the number with `(int)Math.Truncate(...)` (JavaScriptRuntime/Node/Buffer.cs:657), and C# leaves that result unspecified for an integral double outside the `int` range. So the model agrees with the source only for integers within 32-bit range.
- NodeBuffer.Buffer.Write: stores the value modulo 2^(8w). The source casts it with `(int)`, `(short)`, `(ushort)` or `(uint)` (JavaScriptRuntime/Node/Buffer.cs:242-362), and that result is unspecified when the double lies outside the target type's range. It also goes through `TypeUtilities.ToNumber`, so a numeric string is written as its number; the model does not read strings.
- NodeBuffer.NumberOf: sends every string, numeric or not, to NaN (no number). The source's `TypeUtilities.ToNumber` reads a numeric string as its number, so a string offset or length such as "3" is taken as 3 there.
- JsArray.ToInt: sends every string to the default. The source (JavaScriptRuntime/Array.cs:1659-1666) parses a numeric string with `double.TryParse` and uses its value. The model returns the unbounded integer where the source casts a double with `(int)dd` (JavaScriptRuntime/Array.cs:1631), whose result is unspecified outside the `int` range.
- Regular-expression and culture-dependent paths:
  - the regex overloads of `Split` and `Replace`;
  - `ToLowerCase`/`ToUpperCase`.
- Library codecs and calls:
  - Base64 and UTF-8 text in the buffer; only the Base16 codec is modelled.
  - `char.IsLetterOrDigit`, `char.IsDigit`, `ToUpperInvariant` and the JavaScript `\s`, `\b`, `/i` and `toLowerCase` are modelled over ASCII (and Latin-1 white space). Non-ASCII letters are therefore not letters in the model.
- Reflection and dynamic dispatch in the object runtime:
  - A keyed write of a non-index key on an array hands over to the generic `SetProperty` prototype walk. The model records that hand-over but not the walk.
  - Descriptors are an abstract map; `PropertyDescriptorStore` and `PrototypeChain` are not part of this model.
- Object key order and `__proto__`: the properties and the key snapshots are maps and sets, so insertion order is not modelled.
- ForIn.ForInIterator.Next: the prototype chain is a fixed sequence of levels given at construction. The CLR type-chain mode of the iterator is left out.
- ForIn.ParseIndex: reads only plain digit strings, whereas `int.TryParse` also accepts a sign and surrounding white space. Such keys cannot arise here, because the keys come from the same level's snapshot of index keys.
- The callback-driven array methods (`map`, `filter`, `reduce`, `sort` with a comparator, `find*`): they call delegates.
- The receiver-type specialisation of the intrinsic normalisation (Js2IL/IR/LIR/LIRIntrinsicNormalization.cs:29-366) is left out. Of the pass driver, only the path without a class registry is modelled (`IntrinsicNormalization.NormalizeWithoutClassRegistry`).
- The class registry, the callable reader and the variable registry are oracles given as maps. Js2IL/Services/VariableBindings/VariableRegistry.cs and Js2IL/SymbolTable/Scope.cs are not part of this model.
- The free-variable walk over the AST (`CollectFreeVariables`, `ContainsFreeVariable`) is an oracle: each scope comes with the names it references. The rest of `BuildScopeRecursive`, which is AST-driven, is left out apart from the `var` hoisting rule.
- ModuleLoading.PackageIdentityAfterLastNodeModules: states the identity of a path built from its parts, but not the converse, because a last segment such as ".js" leaves an empty in-package path.
- `Path.GetFullPath`, `IsUnderNodeModules` (Js2IL/ModuleLoader.cs:844-849) and all file probing are left out; paths are taken as already absolute.
- A module outside `node_modules` takes its canonical id from its manifest name. That name is not part of this model, so only the package branch of `ComputeCanonicalModuleId` is modelled.
- The ESM rewrite in the module loader is AST-driven and is left out.
- ExportsContract.CreateSingleStringCustomAttributeValue: states the blob's bytes. Adding the blob to the metadata heap is a metadata-writer call and is not modelled.
- MetadataInspect.Align4: is stated over unbounded integers. The 32-bit wrap-around of `(x + 3) & ~3` near 2^32 is not modelled.
- The inspect tool's `Main`, all file reading and writing, process spawning and the network are left out. This covers:
  - `fetch` in the ECMA-262 scripts;
  - `git`/`gh` in the release script;
  - `findJs2IL`, `compileWithJs2IL` and the spawning in the differential tester;
  - the Supabase upload, host metadata and the BenchmarkDotNet parsers in the performance ingester.

  The texts these produce (the changelog, the specification HTML, stdout and stderr, process results) are parameters.
- DifferentialTest.ToNumber: `Number(text)` is modelled for blank text and for signed decimal integers only. Any other text is NaN in the model, whereas JavaScript also reads fractions, exponents and hexadecimal.
- DifferentialTest.ClassifySpec: classifies with the corrected error extraction (see "## Findings").
- PerfIngest.NormalizeRuntime: its result is a slug, but normalising twice can change it, so no idempotence is claimed.
- The hex decoder stops at the first invalid pair and drops a trailing odd character, as Node does. Its decoding loop is split at the empty input.
- Deleting a property of an array, string or CLR object returns true and changes nothing, as the runtime does. Array holes are not modelled.
- Concurrency (the hosting thread and event loop) is left out.
- Characters outside the Basic Multilingual Plane and lone surrogates. Such a character is one `char` in the model but two UTF-16 code units in the source. Its lengths, indices and ordinal order therefore differ from the source's. A lone surrogate cannot be written as a Dafny string at all. NodeModuleResolution.ClrIdentifierInjective and NodeModuleResolution.Utf8RoundTrip therefore hold only over well-formed strings, not over every .NET string.
- JsObject.PropertyBag.DefineProperty: stores the corrected descriptor (`JsObject.Applied`): for an existing property of the same kind, absent attributes keep their current values (ECMA-262, section 10.1.6.3). As written (JavaScriptRuntime/Object.cs:943-981), every redefinition stores a descriptor built from the given attributes alone, with false or undefined for the absent ones. `JsObject.AppliedAsWritten` and `JsObject.AsWrittenErasesFrozenValue` state that behaviour; `DefineProperty` and `DefinePropertyOn` do not follow it.
- NodeModuleResolution.ExportsTarget: uses the corrected pattern match (`NodeModuleResolution.SubpathPattern`), in which a key shorter than prefix plus suffix does not match and the next pattern is tried. As written (Js2IL/Services/NodeModuleResolver.cs:356-385), such a key makes `Substring` throw. The resolver then reports a failure to read package.json. `NodeModuleResolution.OverlappingPatternThrows` states that behaviour; the resolution in the model does not raise that exception or its report.
- TempAllocation.CanEmitInline, Stackify.CanEmitInline and ConsoleLog.CanEmitTempStackOnly take a `fuel` bound on the chain of definitions they follow, and callers pass the number of instructions. A longer chain must revisit an instruction, that is, go round a cycle of definitions. The source's recursion does not end on such a cycle; the model answers false instead. Chains without a cycle are followed in full.
- JsString.DigitsValueInjective: is about the exact value of a digit run, which the source does not keep past 18 digits. The corresponding statement about the source's `long` is JsString.RunValueInjective, and it is limited to runs of at most 18 digits because it is false for longer ones (JsString.NumericCompareWrapCollision).
- JsString.NumericCompareZeroIffEqual: "0 only for equal strings" is stated only when no digit run is longer than 18 digits, because the source's wrap-around makes it false beyond that (JsString.NumericCompareWrapCollision).
- JsString.LocaleCompare: with numeric:true, two digit runs are compared by their values wrapped to a 64-bit `long`, as the source does. So a result of 0 means equal strings only when no digit run is longer than 18 digits (`JsString.NumericCompareWrapCollision` shows two different strings that compare as 0).

## Findings

| source | as written | input that shows it | evidently intended | confidence | as-written member | corrected member |
|---|---|---|---|---|---|---|
| Js2IL/IL/TempLocalAllocator.cs:73-99 | a dying operand's slot is pushed to the free stack once per operand occurrence | `t1 = t0 + t0` (dynamic add) with t0 dying there: t0's slot is freed twice, t1 takes it, and the next temp of the same storage takes it again while t1 is live | free each dying temp once | high; not executed | TempAllocation.DuplicateOperandSharesLiveSlot | TempAllocation.CorrectedSlotsNeverOverlap |
| Js2IL/IL/Stackify.cs:432-438 | planned moves are applied in descending source order with the indices of the original list | two constants at 0 and 1 read by the instructions at 2 and 3: the first constant ends up after the instruction that reads it | place every moved constant just before its use | high; not executed | Stackify.ConstantMovedPastItsUse | Stackify.CorrectedKeepsConstantBeforeUse |
| JavaScriptRuntime/Object.cs:943-981 | a redefinition builds the new descriptor from the attributes given, with defaults for the absent ones | `defineProperty(o, 'x', {})` on a frozen property holding 1 passes the checks and stores undefined | absent attributes keep their current values (ECMA-262, section 10.1.6.3) | medium; not executed | JsObject.AsWrittenErasesFrozenValue | JsObject.AppliedKeepsFrozenProperty |
| Js2IL/Services/NodeModuleResolver.cs:356-385 | a pattern matches when the key starts with its prefix and ends with its suffix, without checking that they do not overlap | exports names "./a*a" then "./*", requested "./a": the substring gets a negative length, the exception is reported as a failure to read package.json, and "./*" is never tried | a key shorter than prefix plus suffix does not match | high; not executed | NodeModuleResolution.OverlappingPatternThrows | NodeModuleResolution.SubpathPatternReinserts |
| scripts/ECMA262/syncEcma262SubclausesFromSpec.js:155-163 | entities are replaced one after the other, "&amp;" first | a title "&lt;", written in HTML as "&amp;lt;", decodes to "<" | decode each entity once | medium; not executed | SubclauseSync.DecodedTwice | SubclauseSync.DecodeEncode |
| scripts/differential-test/run.js:222-232 | the .NET pattern ends its message at a line feed or the end of the text, and `.` does not match a carriage return | stderr "...JavaScriptException: TypeError: x\r\n" yields no error, so the two runs' errors never compare equal | read the message up to the line end, whatever the line ending | medium; not executed | DifferentialTest.CrLfTraceNotRead | DifferentialTest.CrLfTraceRead |
| tests/performance/ingestPerfToSupabase.js:54-60 | entities are replaced one after the other in the order of HTML_ENTITY_MAP, "&amp;" before "&lt;" and "&gt;" | "&amp;lt;" decodes to "<" instead of "&lt;" | decode each entity once | low; not executed | PerfIngest.AsWrittenDecodesTwice | PerfIngest.DecodeHtmlEntitiesRoundTrip |
