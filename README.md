# Easysync changesets, modelled in Dafny

This project models the core of Etherpad's Easysync library,
`src/static/js/Changeset.js`. A changeset is the string
`Z:<oldLen><'>'|'<'><|delta|><ops>$<charBank>`. Numbers are written in base 36.
An op is `*a*b|L+N`, `|L=N` or `-N`: attribute numbers, a newline count `L`,
an opcode and a character count `N`. Inserts take their text from the char
bank.

The model covers:

- the op codec (`Op.toString`, the `OpIter` regex) and the header codec
  (`pack`, `unpack`, `identity`, `isIdentity`);
- the three op assemblers, as classes whose methods update their fields;
- `checkRep`;
- the `stringIterator` cursor;
- the `TextLinesMutator` class and `mutateTextLines`;
- `applyToText`;
- the generic `applyZip` loop and the two zips built on it, `compose` and
  `follow`, with their callbacks `slicerZipperFunc` and the follow callback;
- `applyToAttribution` and `subattribution`;
- `joinAttributionLines` and `splitAttributionLines`;
- the attribute algebra (`composeAttributes`, `followAttributes`,
  `makeAttribsString`, `attributeTester`);
- `builder`, `makeSplice` and `appendATextToAssembler`;
- `toSplices` and `characterRangeFollow`.

Every step that can throw returns a `Result`, and its error case is modelled.
Where the source runs a loop or updates an object, the model has a method
with a loop or a class. That method or class is proved against a pure
function of the same name plus `Spec`, or against a state function. The
properties the source promises are proved as lemmas about those functions.
They include:

- the codec round trips;
- that the assemblers neither lose nor reorder characters;
- that what an assembler writes applies like the ops it was given;
- that `checkRep` is sound;
- that `makeSplice` and `builder` write changesets that do what they say;
- that `toSplices` agrees with `applyToText`;
- that `mutateTextLines` agrees with `applyToText` on line-aligned changesets;
- that `applyToAttribution` and `subattribution` write attributions of the expected lengths;
- that a text changed by `compose(A, B)` is the text changed by `A` and then `B`;
- that `splitAttributionLines` cuts an attribution into one line per line
  of the text it describes;
- that the follow tie-break is symmetric.

A `for (const op of new OpIter(s))` loop is modelled as a fold over the
ops the iterator yields (`OpIters.ForOf`). The error token `?` throws when
`next()` prefetches it. The attribute pool is a value (`Pools.Pool`: the
list of pairs by number) threaded through the functions that may grow it.
`AttributePool.js` is not part of this model; its `getAttrib` and
`putAttrib` are written out in `pools.dfy` as `Changeset.js` uses them.

## Model

| member | source | states |
|---|---|---|
| Base36.ParseDigits | src/static/js/Changeset.js:71-79 | writing a number with `numToString` and reading it with `parseNum` gives the number back, and the numeral written has no leading zero |
| Base36.DigitsParse | src/static/js/Changeset.js:71-79 | a canonical numeral read and written again is unchanged |
| Base36.NumToStringInjective | src/static/js/Changeset.js:79 | two numbers with the same numeral are equal |
| Ops.ScanOp | src/static/js/Changeset.js:172-187 | a regex match yields an op with a real opcode and non-negative counts and moves past at least one character |
| Ops.ScanOpString | src/static/js/Changeset.js:126-131 | the text `Op.toString` writes for a well-formed op is read back by the op regex as that op |
| Ops.ParseOpsRoundTrip | src/static/js/Changeset.js:126-212 | decoding the concatenated text of well-formed ops yields exactly those ops, with no error token |
| Ops.OpToStringHead | src/static/js/Changeset.js:126-131 | an op's text is non-empty and begins with `*`, `\|` or its opcode, never a digit |
| Ops.OpsToStringHead | src/static/js/Changeset.js:126-131 | the text of a list of ops never begins with a digit, so it cannot extend the header's last numeral |
| Ops.OpsToStringNoDollar | src/static/js/Changeset.js:126-131 | op text never holds `$`, the separator before the char bank |
| Ops.OpsToStringAppend | src/static/js/Changeset.js:331-333 | the text of two lists of ops is the text of the first followed by the text of the second |
| Ops.StreamNext | src/static/js/Changeset.js:204-212 | `next()` fails when nothing is left or when the prefetch after the op returned meets the error token; otherwise it returns the first op and the rest |
| OpIters.OpIter.Start | src/static/js/Changeset.js:170-176 | the new iterator stands at the start of the op string |
| OpIters.OpIter.Open | src/static/js/Changeset.js:166-176 | `new OpIter(s)` fails with the error opcode exactly when the first prefetch meets the error token, and otherwise stands before every op of `s` |
| OpIters.OpIter.NextMatch | src/static/js/Changeset.js:178-187 | the match is taken at the current index, the index moves to where the regex stops, and the error token throws |
| OpIters.OpIter.HasNext | src/static/js/Changeset.js:192-194 | true exactly when some op is still pending; when none is, no error is pending either |
| OpIters.OpIter.Next | src/static/js/Changeset.js:204-212 | returns the pending op or fails exactly as `StreamNext` says, and leaves a valid iterator |
| OpIters.AllOps | src/static/js/Changeset.js:166-230 | an op string yields its decoded ops, or fails with the error opcode exactly when the stream holds the error token |
| OpIters.Visible | src/static/js/Changeset.js:204-230 | a loop handles every op of a clean stream, and all but the last when the error token follows |
| OpIters.CollectOps | src/static/js/Changeset.js:219-229 | draining an iterator with `hasNext`/`next` gives `AllOps` |
| OpIters.ForOfOk | src/static/js/Changeset.js:219-229 | a for-of loop ends cleanly exactly when the stream has no error token and no step fails, with the state the steps reach |
| OpIters.FoldErr | src/static/js/Changeset.js:219-229 | once a step throws, later ops change nothing |
| OpIters.ForOfEnd | src/static/js/Changeset.js:204-229 | a loop that has handled the visible ops ends with their state, or with the error opcode when the error token follows |
| OpIters.ForOfThrows | src/static/js/Changeset.js:204-212 | `next()` throws inside the loop only on the error token, and the loop ends with that error |
| OpIters.AllOpsRoundTrip | src/static/js/Changeset.js:126-230 | iterating over the text of well-formed ops yields those ops |
| Texts.Substring | src/static/js/Changeset.js:1027-1028 | `substring` on ends in range is the slice, and never longer than the string |
| Codec.IndexOf | src/static/js/Changeset.js:1022-1023 | `indexOf` gives a position holding the character, and -1 exactly when it does not occur |
| Codec.ScanHeader | src/static/js/Changeset.js:1012-1016 | a header found ends past `Z:`, within the string, and has sign `>` or `<` |
| Codec.Unpack | src/static/js/Changeset.js:1011-1030 | unpacking fails with "not a changeset" exactly when no header starts the string; otherwise the old length is non-negative and the ops hold no `$` |
| Codec.OldLen | src/static/js/Changeset.js:151 | `oldLen(cs)` is the unpacked old length and fails as `unpack` does |
| Codec.NewLen | src/static/js/Changeset.js:159 | `newLen(cs)` is the unpacked new length and fails as `unpack` does |
| Codec.IsIdentity | src/static/js/Changeset.js:1787-1790 | true exactly for a changeset with no ops and equal lengths; fails as `unpack` does |
| Codec.UnpackPack | src/static/js/Changeset.js:1011-1048 | unpacking a packed changeset gives back its lengths, ops and char bank, when the ops hold no `$` and do not begin with a digit |
| Codec.UnpackPackOps | src/static/js/Changeset.js:1011-1048 | a changeset whose ops were written by the op writer unpacks to them |
| Codec.UnpackNormal | src/static/js/Changeset.js:1011-1048 | packing an unpacked changeset again unpacks to the same parts |
| Codec.IdentityIsIdentity | src/static/js/Changeset.js:1450 | `identity(N)` unpacks to N, N, no ops and no bank, and `isIdentity` holds of it |
| Codec.HeaderNoDollar | src/static/js/Changeset.js:1012-1021 | the header never holds `$`, so the first `$` is the one after the ops |
| Pools.GetAttrib | src/static/js/Changeset.js:1154-1158 | `getAttrib(n)` gives the n-th pair, and nothing for an unknown number |
| Pools.PutAttrib | src/static/js/Changeset.js:1438-1439 | `putAttrib` gives a number that names the pair; -1 exactly when only an existing number is asked for and the pair is unknown; the pool only grows |
| Pools.PutAttribValid | src/static/js/Changeset.js:1180 | adding a pair keeps every pair numbered once |
| Pools.PutAttribKnown | src/static/js/Changeset.js:1438 | in a valid pool, a known pair gets its own number back and the pool is unchanged |
| Attributes.SortPairs | src/static/js/Changeset.js:1176 | `atts.sort()` returns a permutation of its input |
| Attributes.SortPairsSorted | src/static/js/Changeset.js:1176 | the sorted pairs are ordered by their string form |
| Attributes.SortPairsMap | src/static/js/Changeset.js:1176 | sorting keeps what the pair list says about each key |
| Attributes.FindKey | src/static/js/Changeset.js:1160-1170 | the first pair with the key, or the end when none has it |
| Attributes.ComposeAllMap | src/static/js/Changeset.js:1157-1175 | the list edits of `composeAttributes` set each key of `att2` or remove it (empty value, not a mutation), which is the map update the comments describe |
| Attributes.Resolve | src/static/js/Changeset.js:1153-1158 | the pairs named by attribute numbers, one per number, failing on an unknown number |
| Attributes.ResolveMeaning | src/static/js/Changeset.js:1153-1158 | resolving fails exactly when a number is unknown, and otherwise yields each number's pair |
| Attributes.PutAll | src/static/js/Changeset.js:1178-1181 | one number per pair, and a pool that only grew |
| Attributes.PutAllResolve | src/static/js/Changeset.js:1178-1181 | the numbers written name the pairs they were written for |
| Attributes.ResolveGrow | src/static/js/Changeset.js:1178-1181 | a grown pool names old numbers as before |
| Attributes.ComposeAttributes | src/static/js/Changeset.js:1130-1151 | the early returns: `att2` for an empty `att1` in a mutation, `att1` for an empty `att2`; the only error is an unknown number |
| Attributes.ComposeAttributesMeaning | src/static/js/Changeset.js:1130-1183 | in the general case the result is sorted, has one pair per key, names its pairs in the returned pool, and says what `att1` said updated by `att2` |
| Attributes.FollowStepMeaning | src/static/js/Changeset.js:2259-2271 | one pair of `att1` removes the matching pair of `att2` when it wins the merge, keeping the list sorted and free of repeated keys |
| Attributes.FollowAllMeaning | src/static/js/Changeset.js:2259-2271 | the whole loop drops exactly the keys of `att2` that some pair of `att1` wins, and keeps a sorted list sorted |
| Attributes.FollowIds | src/static/js/Changeset.js:2259-2271 | the numbers of `att1` are read one at a time; an unknown number throws only while some pair of `att2` is left, and the result never grows |
| Attributes.FollowIdsKnown | src/static/js/Changeset.js:2259-2271 | when every number of `att1` is known, the loop removes exactly the pairs of `att2` that `att1`'s pairs win, in order |
| Attributes.FollowIdsUnknown | src/static/js/Changeset.js:2259-2271 | at the first unknown number of `att1` the loop gives nothing when no pair of `att2` is left and throws otherwise |
| Attributes.FollowAttributes | src/static/js/Changeset.js:2245-2279 | the early returns: nothing for an empty `att2`, `att2` for an empty `att1`; the result has no more numbers than `att2`; the only error is an unknown number |
| Attributes.FollowAttributesMeaning | src/static/js/Changeset.js:2245-2279 | in the general case the numbers name the surviving pairs of `att2`, which say what `att2` said less the keys `att1` won, sorted when `att2` was; an unknown number in `att1` gives nothing when the pairs before it removed all of `att2`, and throws otherwise |
| Attributes.MakeAttribsString | src/static/js/Changeset.js:1881-1901 | no attributes give none; a string of numbers is taken as it is; an empty list of pairs is the one failure |
| Attributes.MakeAttribsStringPairs | src/static/js/Changeset.js:1887-1899 | a list of pairs becomes the numbers of its pairs in sorted order: every pair for a keep, for an insert exactly the pairs with a non-empty value (each as often as given), none for a delete |
| Attributes.SortArgSorted | src/static/js/Changeset.js:1888-1891 | the pairs are sorted when there are several, and are a permutation of the input |
| Attributes.AttributeTesterExact | src/static/js/Changeset.js:1435-1442 | the test holds only when some number of the string names the pair, and in a valid pool exactly then |
| Cursors.StringIterator.constructor | src/static/js/Changeset.js:585-589 | a cursor at the start of the string whose newline count is the newlines of the string |
| Cursors.StringIterator.Remaining | src/static/js/Changeset.js:614 | the number of characters not yet taken or skipped |
| Cursors.StringIterator.NewLines | src/static/js/Changeset.js:587-589 | the newlines after the cursor, plus those skipped over, since `skip` does not update the count |
| Cursors.StringIterator.Peek | src/static/js/Changeset.js:603-607 | the next n characters, failing exactly when fewer are left |
| Cursors.StringIterator.Take | src/static/js/Changeset.js:595-601 | returns what `peek` returns, moves past it and drops its newlines from the count; a failed take changes nothing |
| Cursors.StringIterator.Skip | src/static/js/Changeset.js:609-612 | moves the cursor like `take` but leaves the newline count; fails exactly when `peek` would |
| Cursors.PeekAt | src/static/js/Changeset.js:603-607 | `peek(n)` at a position: the slice, or out of bounds |
| Assemblers.OpAssembler.constructor | src/static/js/Changeset.js:319-321 | an empty assembler |
| Assemblers.OpAssembler.Append | src/static/js/Changeset.js:326-329 | the op is added after those appended before |
| Assemblers.OpAssembler.ToString | src/static/js/Changeset.js:331-333 | the text of the appended ops, in order |
| Assemblers.OpAssembler.Clear | src/static/js/Changeset.js:335-337 | no ops are left |
| Assemblers.StringAssembler.constructor | src/static/js/Changeset.js:635-636 | no pieces |
| Assemblers.StringAssembler.Append | src/static/js/Changeset.js:641-643 | the piece is added after the others |
| Assemblers.StringAssembler.ToString | src/static/js/Changeset.js:645 | the pieces joined in order |
| Assemblers.MergeFlush | src/static/js/Changeset.js:354-368 | the buffer is emptied; an empty buffer changes nothing; only real ops are written |
| Assemblers.MergeAppend | src/static/js/Changeset.js:370-389 | an op of no characters is ignored; only real ops are written |
| Assemblers.MergeClear | src/static/js/Changeset.js:400-403 | nothing written, nothing buffered, no pending tail |
| Assemblers.MergeFlushTotals | src/static/js/Changeset.js:354-368 | flushing keeps the invariant and the characters and newlines written or pending |
| Assemblers.MergeAppendTotals | src/static/js/Changeset.js:370-389 | appending a real op adds exactly its characters and newlines to those written or pending |
| Assemblers.MergeRunTotals | src/static/js/Changeset.js:344-398 | what a fresh merging assembler writes holds as many characters and newlines as the ops it was given, ignored ops aside |
| Assemblers.MergeFromPending | src/static/js/Changeset.js:344-389 | a run of appends keeps the invariant and adds exactly the characters and newlines of the real ops to those written or pending |
| Assemblers.MergeEndDocument | src/static/js/Changeset.js:354-358 | `endDocument()` drops a final plain keep and otherwise writes as `toString()` does |
| Assemblers.MergeMultiLine | src/static/js/Changeset.js:373-377 | a multi-line op like the buffered one absorbs the pending in-line tail |
| Assemblers.MergeClearSound | src/static/js/Changeset.js:400-403 | after `clear()` the assembler writes exactly the characters and newlines of what follows |
| Assemblers.MergeEndSound | src/static/js/Changeset.js:391-393 | after `endDocument()` drops a keep, only the written ops and what follows are written |
| Assemblers.MergeClearAsWritten | src/static/js/Changeset.js:400-403 | as written, `clear()` empties the output and the buffer but keeps the tail count |
| Assemblers.MergeFlushAsWritten | src/static/js/Changeset.js:354-368 | as written, the end-of-document flush that drops a keep keeps the tail count |
| Assemblers.PendingTail | src/static/js/Changeset.js:381-384 | `\|1=2` then `=3` leave three in-line characters pending |
| Assemblers.StaleTailAfterClear | src/static/js/Changeset.js:400-403 | as written, `+1` appended after `clear()` comes out as `+1+3`, with more characters than were appended |
| Assemblers.StaleTailAfterEnd | src/static/js/Changeset.js:391-393 | as written, `+1` appended after `endDocument()` comes out as `+1+3` |
| Assemblers.MergingOpAssembler.constructor | src/static/js/Changeset.js:345-352 | a fresh assembler in the initial state |
| Assemblers.MergingOpAssembler.Flush | src/static/js/Changeset.js:354-368 | the fields reach `MergeFlush` of the old state |
| Assemblers.MergingOpAssembler.Append | src/static/js/Changeset.js:370-389 | the fields reach `MergeAppend` of the old state |
| Assemblers.MergingOpAssembler.EndDocument | src/static/js/Changeset.js:391-393 | the fields reach the end-of-document flush |
| Assemblers.MergingOpAssembler.ToString | src/static/js/Changeset.js:395-398 | returns the text of every op with the buffer flushed |
| Assemblers.MergingOpAssembler.Clear | src/static/js/Changeset.js:400-403 | the fields reach `MergeClear` |
| Assemblers.KeepsFlushed | src/static/js/Changeset.js:425-428 | writing pending keeps writes only real ops |
| Assemblers.PlusMinusFlushed | src/static/js/Changeset.js:430-435 | writing pending deletes then inserts writes only real ops |
| Assemblers.SmartAppend | src/static/js/Changeset.js:437-460 | null and empty ops are ignored; the length change grows by what the op inserts less what it deletes |
| Assemblers.SmartEnd | src/static/js/Changeset.js:494-496 | only real ops are written |
| Assemblers.SmartFlushed | src/static/js/Changeset.js:480-484 | only real ops are written |
| Assemblers.SmartClear | src/static/js/Changeset.js:486-492 | nothing written and no length change |
| Assemblers.SmartClearAsWritten | src/static/js/Changeset.js:486-492 | as written, `clear()` throws a TypeError on `_assem.clear`, leaving the written text and the length change |
| Assemblers.SmartLengthChange | src/static/js/Changeset.js:498-500 | `getLengthChange()` after a run of ops is the characters inserted less those deleted |
| Assemblers.KeepsFlushedOrder | src/static/js/Changeset.js:425-428 | writing the pending keeps leaves the written ops in order and ending in a keep |
| Assemblers.PlusMinusFlushedOrder | src/static/js/Changeset.js:430-435 | pending deletes go out before pending inserts |
| Assemblers.SmartAppendInv | src/static/js/Changeset.js:437-460 | each append keeps the merging assemblers to their own kind and the order of what is written |
| Assemblers.SmartFromInv | src/static/js/Changeset.js:437-460 | a fresh smart assembler keeps its merging assemblers to their own kind, whatever ops it is given |
| Assemblers.SmartDeletesFirst | src/static/js/Changeset.js:415-500 | a smart assembler never writes an insert directly before a delete, with or without `endDocument()` |
| Assemblers.SmartAppendTotals | src/static/js/Changeset.js:437-460 | an append adds exactly the op's characters and newlines to those written or pending |
| Assemblers.SmartRunTotals | src/static/js/Changeset.js:415-484 | what a smart assembler writes holds every character and newline it was given, ignored ops aside |
| Assemblers.SmartFromTotals | src/static/js/Changeset.js:437-460 | a run of appends to a fresh smart assembler leaves pending or written exactly the characters and newlines of the real ops |
| Assemblers.SmartFromIdle | src/static/js/Changeset.js:486-492 | two idle assemblers given the same ops end alike |
| Assemblers.SmartClearFresh | src/static/js/Changeset.js:486-492 | after `clear()` as intended, an assembler writes and counts what a new one would |
| Assemblers.TextOpsCover | src/static/js/Changeset.js:462-478 | the ops of `appendOpWithText` cover the text: its characters and newlines, a multi-line op ending just after the last newline |
| Assemblers.SmartOpAssembler.constructor | src/static/js/Changeset.js:416-423 | a fresh assembler in the initial state |
| Assemblers.SmartOpAssembler.Drain | src/static/js/Changeset.js:425-435 | one merging assembler's text goes to `_assem` and it is cleared; the other two are untouched |
| Assemblers.SmartOpAssembler.Put | src/static/js/Changeset.js:437-460 | the op goes to the chosen merging assembler only |
| Assemblers.SmartOpAssembler.FlushKeeps | src/static/js/Changeset.js:425-428 | the fields reach `KeepsFlushed` |
| Assemblers.SmartOpAssembler.FlushPlusMinus | src/static/js/Changeset.js:430-435 | the fields reach `PlusMinusFlushed` |
| Assemblers.SmartOpAssembler.Append | src/static/js/Changeset.js:437-460 | the fields reach `SmartAppend` |
| Assemblers.SmartOpAssembler.AppendMinus | src/static/js/Changeset.js:441-446 | the delete branch reaches `SmartAppend` |
| Assemblers.SmartOpAssembler.AppendPlus | src/static/js/Changeset.js:447-452 | the insert branch reaches `SmartAppend` |
| Assemblers.SmartOpAssembler.AppendKeep | src/static/js/Changeset.js:453-458 | the keep branch reaches `SmartAppend` |
| Assemblers.TextAttribs | src/static/js/Changeset.js:462-478 | the attributes of `appendOpWithText`: those `makeAttribsString` makes; an empty list of pairs fails exactly when there is text to write, and with no text gives no attributes, since its ops are all ignored |
| Assemblers.SmartOpAssembler.AppendOpWithText | src/static/js/Changeset.js:462-478 | the attributes are made into numbers as `TextAttribs` says, failing only for an empty list of pairs with non-empty text and then changing nothing; otherwise the text goes in as `TextOps` |
| Assemblers.SmartOpAssembler.ToString | src/static/js/Changeset.js:480-484 | returns the text of every pending op written |
| Assemblers.SmartOpAssembler.EndDocument | src/static/js/Changeset.js:494-496 | the fields reach `SmartEnd` |
| Assemblers.SmartOpAssembler.GetLengthChange | src/static/js/Changeset.js:498-500 | the length change of the state |
| Assemblers.SmartOpAssembler.Clear | src/static/js/Changeset.js:486-492 | the fields reach `SmartClear` |
| CheckReps.CheckStep | src/static/js/Changeset.js:522-539 | a step fails only as an invalid changeset, and otherwise hands the op to the assembler |
| CheckReps.Pad | src/static/js/Changeset.js:544-546 | the bank padded with `?` up to n characters |
| CheckReps.CheckRepSpec | src/static/js/Changeset.js:510-553 | a passing `checkRep` returns its argument |
| CheckReps.CheckFold | src/static/js/Changeset.js:521-540 | the loop runs to the end exactly when every bound holds, and its variables are then the totals of the ops |
| CheckReps.TotalsSnoc | src/static/js/Changeset.js:522-539 | one more op fails exactly when it breaks its bound, and otherwise is counted |
| CheckReps.PadLength | src/static/js/Changeset.js:543-546 | the packed bank has exactly the inserted number of characters |
| CheckReps.CheckStepPasses | src/static/js/Changeset.js:522-539 | a step passes when its bound holds, with the counts moved by the op |
| CheckReps.CheckStepFails | src/static/js/Changeset.js:527-536 | a delete past the old length or an insert past the new one throws |
| CheckReps.CheckRepSound | src/static/js/Changeset.js:510-553 | a passing `checkRep` means the ops decode, every bound holds, the bank holds exactly the inserted characters, and the new length is the old plus the inserted less the deleted |
| CheckReps.CheckRepPasses | src/static/js/Changeset.js:510-553 | a passing `checkRep` means the changeset unpacks, its ops decode without the error token, the loop passes, and re-packing gives the same string |
| CheckReps.NormalizedSound | src/static/js/Changeset.js:542-550 | re-packing to the same string fixes the bank length and the new length |
| CheckReps.CheckRepIdentity | src/static/js/Changeset.js:510-553 | `checkRep(identity(N))` passes |
| CheckReps.CheckRepSpecCases | src/static/js/Changeset.js:510-553 | `checkRep` throws what unpacking or the loop throws, and otherwise compares the re-packed changeset |
| CheckReps.CheckOp | src/static/js/Changeset.js:522-539 | one loop turn on the variables and the assembler does `CheckStep` |
| CheckReps.PadBank | src/static/js/Changeset.js:543-546 | the bank cut to the inserted characters and padded |
| CheckReps.CheckOps | src/static/js/Changeset.js:521-540 | the loop does the fold of `CheckStep` over the iterator |
| CheckReps.CheckRep | src/static/js/Changeset.js:510-553 | the method returns `CheckRepSpec` |
| Apply.ApplyStep | src/static/js/Changeset.js:1064-1089 | a step fails only out of bounds or on a wrong newline count |
| Apply.ApplyFold | src/static/js/Changeset.js:1063-1090 | a successful loop's positions are the running totals of inserted, kept and deleted characters, with matching newline counts |
| Apply.ApplyStepTallied | src/static/js/Changeset.js:1064-1089 | a successful step keeps the positions equal to the running totals of the ops seen |
| Apply.ApplyToTextCounts | src/static/js/Changeset.js:1057-1093 | the text applied to has the old length; the result grows by inserted and shrinks by deleted characters and newlines |
| Apply.ApplyToTextNewLen | src/static/js/Changeset.js:1057-1093 | a changeset `checkRep` accepts gives a text of its new length |
| Apply.ApplyIdentity | src/static/js/Changeset.js:1057-1093 | the identity leaves every text of its length as it is, and rejects any other length |
| Apply.ApplyToTextSpecCases | src/static/js/Changeset.js:1057-1093 | `applyToText` throws what unpacking, the length check or the loop throws, and otherwise appends the rest of the text |
| Apply.LoopEnds | src/static/js/Changeset.js:1063-1092 | a loop that ends cleanly gives its output and the unread text |
| Apply.LoopThrows | src/static/js/Changeset.js:1063-1090 | an error thrown in the loop is what `applyToText` throws |
| Apply.ApplyInsert | src/static/js/Changeset.js:1065-1072 | the insert branch does `ApplyStep` on the iterators and the assembler |
| Sequential.StepFront | src/static/js/Changeset.js:1064-1089 | one turn of the `applyToText` loop reads one op from the front of the unread bank and text: it fails exactly when that reading fails, with the same error, and otherwise writes and leaves what the reading does |
| Sequential.RunSplit | src/static/js/Changeset.js:1063-1090 | the loop over a non-empty op list is its first turn followed by the loop over the rest |
| Sequential.RunSem | src/static/js/Changeset.js:1063-1091 | from any state, the loop agrees with the front reading of what is left: both fail with the same error, or the loop's output plus the unread text is the earlier output plus that reading |
| Sequential.ApplyToTextSem | src/static/js/Changeset.js:1057-1093 | `applyToText` throws when the ops end in the error token, and otherwise is the front reading of the ops on the whole text |
| Apply.ApplyDelete | src/static/js/Changeset.js:1073-1080 | the delete branch does `ApplyStep` |
| Apply.ApplyKeep | src/static/js/Changeset.js:1081-1088 | the keep branch does `ApplyStep` |
| Apply.ApplyOp | src/static/js/Changeset.js:1064-1089 | one op does `ApplyStep` |
| Apply.FoldOp | src/static/js/Changeset.js:1063-1090 | one more loop turn extends the fold of `ApplyStep` by that op, or ends it with the step's error |
| Apply.RunOps | src/static/js/Changeset.js:1063-1090 | the loop does the fold of `ApplyStep` over the iterator |
| Apply.ApplyOps | src/static/js/Changeset.js:1060-1092 | the loop and the final copy give `LoopResult` |
| Apply.ApplyToText | src/static/js/Changeset.js:1057-1093 | the method returns `ApplyToTextSpec` |
| Replays.RunConcat | src/static/js/Changeset.js:1063-1090 | running two lists of ops is running the first and then the second |
| Replays.RunSplit | src/static/js/Changeset.js:1063-1090 | a run of two lists that succeeds runs the first and then, from there, the second |
| Replays.RunJoin | src/static/js/Changeset.js:1063-1090 | running the first list and then the second from where it stopped is running both |
| Replays.StepMerge | src/static/js/Changeset.js:372-380 | two ops of one kind in a row apply like one op with their counts added, which is what merging relies on |
| Replays.StepEmpty | src/static/js/Changeset.js:1064-1089 | an op of no characters leaves positions and output unchanged, which is why assemblers may drop it |
| Replays.DeleteFirst | src/static/js/Changeset.js:430-435 | a delete moved before a run of inserts applies the same |
| Replays.KeepsOnly | src/static/js/Changeset.js:1081-1091 | keeps only copy text the final copy would copy anyway |
| Replays.RunBounds | src/static/js/Changeset.js:1063-1090 | the positions stay within the text and the bank |
| Replays.MergeAppendRuns | src/static/js/Changeset.js:370-389 | what a merging assembler will write after an append applies like what it would have written, then the op |
| Replays.SmartAppendRuns | src/static/js/Changeset.js:437-460 | the same for a smart assembler, flushes and reordering included |
| Replays.SmartFromRuns | src/static/js/Changeset.js:415-484 | without `endDocument()`, a smart assembler's ops apply like the ops it was given, in sequence |
| Replays.SmartEndRuns | src/static/js/Changeset.js:494-496 | `endDocument()` drops only a final plain keep, which copies text the final copy copies anyway |
| Replays.ZipTextApplies | src/static/js/Changeset.js:1001-1002 | what a smart assembler writes after `endDocument()`, packed with its bank, applies to a text like the given ops in sequence |
| Zips.Fetch | src/static/js/Changeset.js:996-997 | a null op is replaced by the next op of the stream, failing only when the prefetch meets the error token |
| Zips.ZipText | src/static/js/Changeset.js:1001-1002 | the text of the outputs is what a smart assembler writes after `endDocument()` |
| Zips.ZipTextPackable | src/static/js/Changeset.js:1001-1002 | the assembled ops hold no `$` and do not begin with a digit |
| Zips.ZipFromNoNulls | src/static/js/Changeset.js:999 | only non-null callback outputs are written |
| Zips.ZipFromCounts | src/static/js/Changeset.js:995-1000 | a counter the callback keeps grows by the total weight of the ops written |
| Zips.ZipFromCases | src/static/js/Changeset.js:995-1000 | the loop stops when both ops are used up and both streams empty, and otherwise fetches, calls and writes |
| Zips.ApplyZipSpecRun | src/static/js/Changeset.js:989-1003 | a successful `applyZip` returns the callback's final state and the assembled text of the zip's outputs |
| Zips.ApplyZipPackable | src/static/js/Changeset.js:989-1003 | the text `applyZip` returns can be packed as the ops of a changeset |
| Zips.ApplyZipSpecCases | src/static/js/Changeset.js:989-1003 | opening either iterator throws on a leading error token; otherwise the result is the zip of the two streams |
| Zips.FetchOp | src/static/js/Changeset.js:996-997 | fetching on an iterator does `Fetch` |
| Zips.ZipTurn | src/static/js/Changeset.js:996-999 | one turn of the loop either throws what the zip throws or advances it by one callback |
| Zips.EmitOut | src/static/js/Changeset.js:999 | a non-null output op is appended to the assembler |
| Zips.RunZip | src/static/js/Changeset.js:995-1000 | the loop computes the zip of the two streams |
| Zips.ApplyZip | src/static/js/Changeset.js:989-1003 | the method returns `ApplyZipSpec` |
| Composition.Slice | src/static/js/Changeset.js:1194-1245 | the callback fails only on too many newlines, mismatched line counts, or an unknown attribute |
| Composition.SlicePassThrough | src/static/js/Changeset.js:1196-1207 | against a null op, a delete of the first changeset or an insert of the second, the op is written whole and used up |
| Composition.SliceChecks | src/static/js/Changeset.js:1209-1219 | more lines than characters, or line counts ordered unlike character counts, throw |
| Composition.SliceTable | src/static/js/Changeset.js:1220-1242 | insert against delete writes nothing, insert against keep an insert, keep against delete a delete, keep against keep a keep, over the shorter op, with composed attributes |
| Composition.SliceConsumes | src/static/js/Changeset.js:1230-1242 | the shorter op is used up and the longer one loses as many characters and lines |
| Composition.SliceProgress | src/static/js/Changeset.js:1194-1245 | each call uses up an op, so the zip ends |
| Composition.ApplyToAttributionSpec | src/static/js/Changeset.js:1255-1258 | fails with "not a changeset" when the changeset does not unpack |
| Composition.ApplyToAttribution | src/static/js/Changeset.js:1255-1258 | the method returns `ApplyToAttributionSpec`, whose lengths `ApplyToAttributionTotals` gives |
| Composition.AttributionAlone | src/static/js/Changeset.js:1196-1200 | against nothing from the changeset, the attribution's ops go through whole |
| Composition.ChangesetAlone | src/static/js/Changeset.js:1204-1207 | against nothing from the attribution, the changeset's ops go through whole |
| Composition.AttributionIdentity | src/static/js/Changeset.js:1255-1258 | the identity changeset leaves an attribution as the assembler re-writes it |
| Composition.AttributionOfNothing | src/static/js/Changeset.js:1255-1258 | applied to the empty attribution, a changeset writes its own ops |
| Composition.FetchAttribution | src/static/js/Changeset.js:996 | the next op of an attribution is an insert, or nothing once it has run out, and no characters are lost in taking it |
| Composition.FetchChangeset | src/static/js/Changeset.js:997 | the next op of a changeset is a decoded op, or nothing once it has run out, and no characters of any kind are lost in taking it |
| Composition.SliceTotals | src/static/js/Changeset.js:1194-1245 | one call on an attribution op writes as inserts the attribution characters it uses up, less those the changeset deletes, plus those it inserts; keeps and deletes are written only once the attribution has run out |
| Composition.AttributionTotals | src/static/js/Changeset.js:989-1003 | over a zip of an attribution with a changeset whose keeps and deletes do not run past it, the ops written are inserts whose length is the attribution's, less the deleted characters, plus the inserted ones |
| Composition.ApplyToAttributionTotals | src/static/js/Changeset.js:1255-1258 | `applyToAttribution` on an attribution that the changeset's keeps and deletes do not run past writes only inserts, of the attribution's length less the deleted plus the inserted characters, which is the new length when the attribution covers the old length and `checkRep` accepts the changeset |
| AttributionLines.JoinFrom | src/static/js/Changeset.js:1335-1341 | the state reached after the ops of every line are appended holds no null op |
| AttributionLines.JoinMerges | src/static/js/Changeset.js:1335-1341 | the join throws exactly when some line ends in the error token, and then with the error opcode; otherwise the assembler is the merge of every op of every line, in order, as if they were one op string |
| AttributionLines.JoinErrLater | src/static/js/Changeset.js:1337-1340 | once a line throws, the lines after it change nothing: the join throws that same error |
| AttributionLines.JoinTotals | src/static/js/Changeset.js:1335-1342 | the joined string decodes to the merged ops, which have as many characters and newlines as the non-empty ops of all the lines together |
| AttributionLines.JoinAttributionLines | src/static/js/Changeset.js:1335-1342 | the method returns `JoinAttributionLinesSpec`: the merged ops of all lines, written out, or the error a line throws |
| AttributionLines.AppendLine | src/static/js/Changeset.js:1339 | `for (const op of new OpIter(aline)) assem.append(op)` leaves the assembler where the fold of `append` over the line's ops ends, or fails with the error the loop throws |
| AttributionLines.IndexOfFrom | src/static/js/Changeset.js:1362 | `text.indexOf('\n', pos)`: -1 or an index inside the text, at or after the clamped start, holding the character searched for |
| AttributionLines.IndexOfFromFirst | src/static/js/Changeset.js:1362 | no occurrence of the character lies between the clamped start and the index found (or the end, when none is found) |
| AttributionLines.PushOp | src/static/js/Changeset.js:1349-1356 | `appendOp` writes one more line exactly when the op has a newline, and keeps the lines already written |
| AttributionLines.AppendOp | src/static/js/Changeset.js:1349-1356 | the closure appends the op, pushes the assembled line and clears the assembler when the op has a newline, and advances `pos` by the op's characters, as `PushOp` says |
| AttributionLines.SplitOp | src/static/js/Changeset.js:1359-1374 | one op of the loop: the `while (numLines > 1)` cuts at the next newlines of the text, then the rest of the op, reaching `SplitStep` or failing where it fails |
| AttributionLines.SplitAttributionLines | src/static/js/Changeset.js:1344-1378 | the method returns `SplitAttributionLinesSpec`: the lines written by the loop over the ops, or the error thrown |
| AttributionLines.SplitLoopCount | src/static/js/Changeset.js:1361-1369 | each turn of `while (numLines > 1)` writes exactly one line |
| AttributionLines.SplitStepCount | src/static/js/Changeset.js:1358-1376 | an op with `L` newlines writes exactly `L` lines |
| AttributionLines.SplitCount | src/static/js/Changeset.js:1344-1378 | `splitAttributionLines` returns one line per newline the attribution's ops count, whatever the text |
| AttributionLines.TextLinesOne | src/static/js/Changeset.js:1386 | a newline-free run ending in one newline is one piece of `splitTextLines` |
| AttributionLines.TextLinesAppend | src/static/js/Changeset.js:1386 | after text ending in a newline, one more line of text is one more piece of `splitTextLines` |
| AttributionLines.PushInLine | src/static/js/Changeset.js:1349-1356 | an op without a newline over newline-free text keeps the written lines in step with the text |
| AttributionLines.PushLine | src/static/js/Changeset.js:1349-1356 | an op whose only newline is its last character writes one line that decodes to ops covering exactly that line of the text |
| AttributionLines.LoopFollows | src/static/js/Changeset.js:1361-1369 | when the op's span of the text has as many newlines as the op says, the loop never hits its assertion and each cut writes one line of the text |
| AttributionLines.StepFollows | src/static/js/Changeset.js:1358-1376 | an op whose span of the text has its newline count, ending in a newline when it has any, keeps the written lines in step with the text |
| AttributionLines.FoldWritesLines | src/static/js/Changeset.js:1358-1377 | ops that describe a whole text ending in a newline write one line per line of the text, each covering exactly that line |
| AttributionLines.SplitFollowsText | src/static/js/Changeset.js:1344-1378 | when the attribution describes a text ending in a newline, `splitAttributionLines` does not throw and its lines match `splitTextLines(text)` one for one, each decoding to ops covering exactly its line |
| Composition.ComposeStep | src/static/js/Changeset.js:1406-1420 | the compose callback succeeds only when the slicer does, and takes inserted text from the bank it comes from |
| Composition.ComposeSpec | src/static/js/Changeset.js:1396-1425 | fails when either changeset does not unpack or their lengths do not meet |
| Composition.ComposeLengths | src/static/js/Changeset.js:1396-1425 | the result unpacks to the first old length, the second new length, the zipped ops and the assembled bank |
| Composition.Compose | src/static/js/Changeset.js:1396-1425 | the method returns `ComposeSpec` |
| ComposeText.StepFirstDone | src/static/js/Changeset.js:1196-1198 | once the first changeset is used up, the second's op passes through and still does to the text what the second changeset would |
| ComposeText.StepFirstDeletes | src/static/js/Changeset.js:1202-1204 | a delete of the first changeset, written whole, removes from the original text what the first changeset removes, and the second sees nothing of it |
| ComposeText.StepSecondDone | src/static/js/Changeset.js:1199-1201 | once the second changeset is used up, the first's op passes through and does what the first changeset does |
| ComposeText.StepSecondInserts | src/static/js/Changeset.js:1205-1207 | an insert of the second changeset is written whole, its text moved to the new bank, and inserts what the second changeset inserts |
| ComposeText.StepGeneral | src/static/js/Changeset.js:1208-1242 | over the stretch both ops cover, the op the table picks does to the original text what the first op and then the second do |
| ComposeText.ComposeStepSem | src/static/js/Changeset.js:1406-1420 | each call of the compose callback keeps the invariant: its output, read with the bank it appended, followed by what is left of both changesets, still turns the original text into the final one |
| ComposeText.ComposeSem | src/static/js/Changeset.js:1396-1425 | the whole zip writes ops that, read with the bank it assembles, turn the text into what the first changeset and then the second make of it |
| ComposeText.ComposedRun | src/static/js/Changeset.js:1396-1425 | the packed result of the zip applies to the text in one go and gives that same final text |
| ComposeText.ComposeApplies | src/static/js/Changeset.js:1396-1425 | `compose(cs1, cs2)` applied to a text gives what applying `cs1` and then `cs2` gives, whenever both apply and the composition succeeds |
| Following.PickCases | src/static/js/Changeset.js:2127-2147 | the tie-break in closed form: insert-first marks, then leading newlines, then `reverseInsertOrder` |
| Following.PickSymmetric | src/static/js/Changeset.js:2127-2147 | seen from the other side with the order flag flipped, the same insert goes first |
| Following.Shorten | src/static/js/Changeset.js:2165-2175 | the other op loses the used characters and lines and is used up when none are left |
| Following.Transform | src/static/js/Changeset.js:2120-2225 | each successful call uses up an op and leaves the counters alone |
| Following.FollowStep | src/static/js/Changeset.js:2120-2238 | the counters grow by what the written op consumes and writes |
| Following.FollowFnCounts | src/static/js/Changeset.js:2226-2237 | `oldPos` and `newLen` count the characters written ops consume and write |
| Following.FollowInserts | src/static/js/Changeset.js:2121-2161 | an insert of the first side becomes a keep without attributes, one of the second is written as it is; both skip their bank text |
| Following.FollowTieBreak | src/static/js/Changeset.js:2127-2148 | two inserts at one place: the first character of each bank decides with `Pick` |
| Following.FollowDeletedFirst | src/static/js/Changeset.js:2162-2176 | text the first side deletes is gone for the second: nothing written |
| Following.FollowDeletedSecond | src/static/js/Changeset.js:2177-2196 | text the second side deletes that the first kept is still deleted |
| Following.FollowKeptBoth | src/static/js/Changeset.js:2205-2224 | text both keep is kept with the followed attributes |
| Following.FollowKeptAlone | src/static/js/Changeset.js:2197-2204 | a keep of the second side alone is written; one of the first side alone is dropped |
| Following.FollowSpec | src/static/js/Changeset.js:2104-2109 | fails when either changeset does not unpack or their old lengths differ |
| Following.FollowSpecUnpacked | src/static/js/Changeset.js:2104-2109 | with both changesets unpacked and their old lengths equal, `follow` is the zip over their parts |
| Following.FollowUnpackedCases | src/static/js/Changeset.js:2110-2243 | the follow callback always uses up an op; a failing zip fails `follow`, a passing one gives the packed changeset starting at the first new length |
| Following.FollowLengths | src/static/js/Changeset.js:2104-2243 | the result starts from the first new length, and its new length is what the ops wrote plus what they left unread |
| Following.FollowPacked | src/static/js/Changeset.js:2240-2242 | the packed result unpacks to the first new length, the counted new length plus the unread remainder, the zipped ops and the second bank |
| Following.FollowCounted | src/static/js/Changeset.js:2226-2237 | `oldPos` and `newLen` are the sums of what the written ops consume and write |
| Following.FollowChangesets | src/static/js/Changeset.js:2104-2243 | the method returns `FollowSpec` |
| Mutators.LineAt | src/static/js/Changeset.js:696-702 | the i-th line, and a failure past the end |
| Mutators.Init | src/static/js/Changeset.js:673-688 | a fresh window is coherent and its document is the lines given |
| Mutators.PutCurLine | src/static/js/Changeset.js:773-780 | fails only on a missing line; otherwise the cursor line is the last line of the splice and only the splice changed |
| Mutators.SplitTextLines | src/static/js/Changeset.js:1386 | `null` exactly for the empty text, otherwise at least one piece |
| Mutators.TextLinesShape | src/static/js/Changeset.js:1386 | the pieces put together are the text, and every piece but the last ends in a newline |
| Mutators.ArraySplice | src/static/js/Changeset.js:751-753 | `splice` on an in-range span replaces it by the items |
| Mutators.EnterSplice | src/static/js/Changeset.js:736-743 | a splice opens, keeping the invariant |
| Mutators.Open | src/static/js/Changeset.js:736-743 | opening keeps the window coherent, ends inside a splice and leaves the cursor alone; the only failure is a missing line |
| Mutators.LeaveSplice | src/static/js/Changeset.js:749-754 | the splice is written back and closed |
| Mutators.Close | src/static/js/Changeset.js:963-965 | the array becomes the document |
| Mutators.SkipLinesLoop | src/static/js/Changeset.js:795-806 | the loop keeps the window shaped, fails only on a missing line, and after passing lines leaves the cursor at the start of a line just past the splice |
| Mutators.SkipLines | src/static/js/Changeset.js:788-811 | `skipLines` keeps the window coherent and fails only on a missing line |
| Mutators.Skip | src/static/js/Changeset.js:820-833 | `skip` keeps the window coherent and fails only on a missing line |
| Mutators.RemoveLines | src/static/js/Changeset.js:841-877 | `removeLines` keeps the window coherent and fails only on a missing line |
| Mutators.Remove | src/static/js/Changeset.js:886-897 | `remove` keeps the window coherent and fails only on a missing line |
| Mutators.Insert | src/static/js/Changeset.js:905-945 | `insert` keeps the window coherent and fails only on a missing line |
| Mutators.SplicedFits | src/static/js/Changeset.js:749-754 | a fitting splice stands between the array lines before and after it |
| Mutators.PutKeeps | src/static/js/Changeset.js:773-780 | `_putCurLineInSplice()` keeps the document and fails exactly when the cursor line is past its end |
| Mutators.EnterKeeps | src/static/js/Changeset.js:736-743 | `_enterSplice()` keeps the document |
| Mutators.OpenKeeps | src/static/js/Changeset.js:736-743 | opening a splice keeps the document and fails only inside a line past the end |
| Mutators.SkipLinesKeeps | src/static/js/Changeset.js:788-811 | `skipLines` passes lines without changing the document, failing only past its end |
| Mutators.SkipLinesLoopKeeps | src/static/js/Changeset.js:795-806 | passing k lines succeeds exactly when they exist, moves the cursor k lines and leaves the document |
| Mutators.SkipKeeps | src/static/js/Changeset.js:820-833 | `skip` moves over lines or columns without changing the document |
| Mutators.RemoveInLine | src/static/js/Changeset.js:886-897 | `remove(N, 0)` cuts N characters out of the cursor line at the cursor and returns them |
| Mutators.InsertInLine | src/static/js/Changeset.js:905-945 | `insert(text, 0)` puts the text into the cursor line and moves the cursor past it |
| Mutators.InsertLinesAtStart | src/static/js/Changeset.js:905-945 | at column 0 the text's lines go before the cursor line |
| Mutators.InsertLinesSplit | src/static/js/Changeset.js:905-945 | inside a line the cursor line is broken around the text's lines |
| Mutators.RemoveWholeLines | src/static/js/Changeset.js:841-877 | at column 0 `removeLines(L)` returns the L lines from the cursor and takes them out |
| Mutators.RemoveJoinedLines | src/static/js/Changeset.js:841-877 | inside a line it takes out the rest of the line and L-1 lines, joining the head to the next line |
| Mutators.HasMoreDoc | src/static/js/Changeset.js:952-958 | `hasMore()` says whether the cursor line lies in the document |
| Mutators.Reach | src/static/js/Changeset.js:736-780 | opening a splice and putting the cursor line in it succeeds exactly when the cursor line exists, leaves the document, and puts that line last in the splice |
| TextLines.TextLinesMutator.constructor | src/static/js/Changeset.js:673-688 | no splice, cursor at the start; the document is the array |
| TextLines.TextLinesMutator.IsCurLineInSplice | src/static/js/Changeset.js:764-766 | whether the cursor line is the last line of the splice |
| TextLines.TextLinesMutator.PutCurLineInSplice | src/static/js/Changeset.js:773-780 | reaches `PutCurLine`, returning the index of the cursor line in the splice |
| TextLines.TextLinesMutator.EnterSplice | src/static/js/Changeset.js:736-743 | reaches `EnterSplice` or fails as it does |
| TextLines.TextLinesMutator.Open | src/static/js/Changeset.js:736-743 | reaches `Open` or fails as it does |
| TextLines.TextLinesMutator.LeaveSplice | src/static/js/Changeset.js:749-754 | reaches `LeaveSplice` |
| TextLines.TextLinesMutator.SkipLines | src/static/js/Changeset.js:788-811 | reaches `SkipLines` or fails as it does |
| TextLines.TextLinesMutator.PassLines | src/static/js/Changeset.js:795-806 | the loop reaches `SkipLinesLoop` |
| TextLines.TextLinesMutator.Skip | src/static/js/Changeset.js:820-833 | reaches `Skip` or fails as it does |
| TextLines.TextLinesMutator.RemoveLines | src/static/js/Changeset.js:841-877 | returns the removed text and reaches `RemoveLines` |
| TextLines.TextLinesMutator.RemoveHead | src/static/js/Changeset.js:858-862 | at column 0, returns the first L lines of the splice's tail and reaches `HeadWindow` |
| TextLines.TextLinesMutator.RemoveJoined | src/static/js/Changeset.js:863-871 | inside a line, fails exactly when the last line to join is missing; otherwise returns the removed text and joins the head of the cursor line to it |
| TextLines.TextLinesMutator.Remove | src/static/js/Changeset.js:886-897 | returns the removed text and reaches `Remove` |
| TextLines.TextLinesMutator.Insert | src/static/js/Changeset.js:905-945 | reaches `Insert` or fails as it does |
| TextLines.TextLinesMutator.InsertLines | src/static/js/Changeset.js:908-928 | the text's lines break the cursor line around them when it is in the splice, and are appended to the splice otherwise; the cursor moves past them |
| TextLines.TextLinesMutator.InsertInLine | src/static/js/Changeset.js:929-944 | the cursor line is put in the splice, or the call fails on a missing line; the text goes into it at the cursor and the cursor moves past it |
| TextLines.TextLinesMutator.BreakLine | src/static/js/Changeset.js:910-924 | the cursor line is split at the cursor around the new lines and the cursor moves to the start of the line after them |
| TextLines.TextLinesMutator.HasMore | src/static/js/Changeset.js:952-958 | whether the cursor line lies in the document, when the splice fits |
| TextLines.TextLinesMutator.Close | src/static/js/Changeset.js:963-965 | the array becomes the document |
| TextLines.MutateTextLines | src/static/js/Changeset.js:1101-1119 | the method returns `MutateTextLinesSpec`, which `MutateApply.MutateAgreesWithApply` ties to `applyToText` |
| TextLines.MutateStep | src/static/js/Changeset.js:1105-1117 | a step fails only out of bounds on the bank or on a missing line, and moves the bank position by what an insert reads |
| TextLines.MutateOp | src/static/js/Changeset.js:1105-1117 | one op does `MutateStep` on the bank iterator and the mutator |
| TextLines.FoldOp | src/static/js/Changeset.js:1105-1117 | one more loop turn extends the fold of `MutateStep` by that op, or ends it with the step's error |
| TextLines.MutateOps | src/static/js/Changeset.js:1101-1119 | the loop and `close()` give `LoopResult` |
| TextLines.LoopThrows | src/static/js/Changeset.js:1105-1117 | an error thrown in the loop is what `mutateTextLines` throws |
| TextLines.LoopEnds | src/static/js/Changeset.js:1101-1119 | a loop that ends cleanly gives the mutator's document |
| TextLines.InsertNothing | src/static/js/Changeset.js:905-945 | inserting no text changes nothing |
| TextLines.RemoveNothing | src/static/js/Changeset.js:841-877 | removing no lines returns nothing and changes nothing |
| TextLines.MutateIdentity | src/static/js/Changeset.js:1101-1119 | the identity leaves any lines as they are |
| TextLines.MutateKeeps | src/static/js/Changeset.js:1101-1119 | a changeset of keeps only leaves the lines as they are whenever it applies |
| TextLines.KeepsFold | src/static/js/Changeset.js:1105-1117 | a run of keeps that succeeds leaves the document as it was and the cursor within the kept lines |
| MutateApply.JoinSplit | src/static/js/Changeset.js:963-965 | the lines of a document join to the lines before a given one, that line, and the lines after it |
| MutateApply.AcrossLines | src/static/js/Changeset.js:788-818 | from a cursor in a document of whole lines, a stretch of text ending just after its `L`-th newline covers the rest of the cursor line and the `L - 1` lines after it, and the text after it begins a line |
| MutateApply.SkipWithin | src/static/js/Changeset.js:820-839 | a keep inside the cursor line moves the cursor past the kept text and leaves the document as it was |
| MutateApply.SkipAcross | src/static/js/Changeset.js:820-839 | a keep of whole lines from the cursor moves the cursor to the start of the line after them, the document unchanged |
| MutateApply.RemoveWithin | src/static/js/Changeset.js:886-897 | a delete inside the cursor line removes exactly that text from the document, the cursor staying before what follows it |
| MutateApply.RemoveAcross | src/static/js/Changeset.js:841-897 | a delete ending just after a newline removes exactly that text, joining the head of the cursor line to the line after the removed ones |
| MutateApply.InsertWithin | src/static/js/Changeset.js:929-944 | an insert without newlines puts the text at the cursor and moves the cursor past it |
| MutateApply.InsertAcross | src/static/js/Changeset.js:905-928 | an insert with newlines breaks the cursor line around the text's lines and leaves the cursor after the text |
| MutateApply.TracksInitial | src/static/js/Changeset.js:1101-1104 | the lines of a non-empty text, with a fresh mutator, stand in step with `applyToText` before its first op |
| MutateApply.InsertTracks | src/static/js/Changeset.js:1105-1117 | an insert keeps the mutator in step with `applyToText`: both read the same bank text, and the cursor cuts the document into the output so far and the text not yet read |
| MutateApply.DeleteTracks | src/static/js/Changeset.js:1105-1117 | an aligned delete keeps the two loops in step |
| MutateApply.KeepTracks | src/static/js/Changeset.js:1105-1117 | an aligned keep keeps the two loops in step |
| MutateApply.StepTracks | src/static/js/Changeset.js:1105-1117 | whenever `applyToText`'s step succeeds on an aligned op, the mutator's step succeeds and the two stay in step |
| MutateApply.FoldTracks | src/static/js/Changeset.js:1101-1119 | over aligned ops, as long as `applyToText`'s loop does not throw, neither does the mutator's, and the two stay in step |
| MutateApply.CutJoin | src/static/js/Changeset.js:963-965 | the document cut by the cursor joins to the output so far followed by the text not yet read |
| MutateApply.MutateAgreesWithApply | src/static/js/Changeset.js:1101-1119 | on the lines of a non-empty text and a changeset whose keeps and deletes are aligned with those lines, `mutateTextLines` succeeds whenever `applyToText` does, and its lines join to exactly the text `applyToText` returns |
| MutateApply.UnalignedKeepApplied | src/static/js/Changeset.js:1057-1093 | on the text `y\nz\n`, a keep of three characters spanning one newline followed by an insert of `Q` makes `applyToText` produce `y\nzQ\n`: the keep ends mid-line and the insert lands there |
| MutateApply.UnalignedKeepMutated | src/static/js/Changeset.js:820-839 | on the lines `y\n`, `z\n`, the same two ops make the text-lines mutator skip one whole line and insert at the start of the next, giving the lines `y\n`, `Qz\n` |
| MutateApply.UnalignedKeepLines | src/static/js/Changeset.js:1101-1119 | the lines that `mutateTextLines` is given for `y\nz\n` are `y\n` and `z\n` |
| Builders.KeepAttribs | src/static/js/Changeset.js:1848 | `keep` gives its op the numbers `makeAttribsString` makes, or none |
| Builders.Builder.constructor | src/static/js/Changeset.js:1836-1839 | no ops, empty bank, the given old length |
| Builders.Builder.Keep | src/static/js/Changeset.js:1846-1853 | appends a keep with those attributes |
| Builders.Builder.KeepText | src/static/js/Changeset.js:1854-1857 | appends the ops of `appendOpWithText` for a keep; fails only for an empty list of pairs with non-empty text, and then changes nothing |
| Builders.Builder.Insert | src/static/js/Changeset.js:1858-1862 | appends the insert's ops and the text to the bank; fails only for an empty list of pairs with non-empty text, and then changes neither |
| Builders.Builder.Remove | src/static/js/Changeset.js:1863-1870 | appends a delete |
| Builders.Builder.ToString | src/static/js/Changeset.js:1871-1875 | returns `Built` of the ops and the bank |
| Builders.BuiltUnpacks | src/static/js/Changeset.js:1871-1875 | what a builder writes unpacks to its old length, the old length plus the net change, and its bank |
| Builders.BuiltApplies | src/static/js/Changeset.js:1836-1879 | what a builder writes applies like its ops in sequence |
| Builders.TextOpsRun | src/static/js/Changeset.js:462-478 | the ops `appendOpWithText` makes read exactly the text |
| Builders.SpliceStart | src/static/js/Changeset.js:1468-1470 | a start at or past the end moves back onto the last character |
| Builders.SpliceCount | src/static/js/Changeset.js:1471-1473 | no more characters are removed than follow the start |
| Builders.MakeSpliceSpec | src/static/js/Changeset.js:1465-1483 | fails exactly when an empty list of pairs comes with non-empty new text, whose insert then has no attribute string |
| Builders.MakeSpliceSpecCases | src/static/js/Changeset.js:1465-1483 | the two outcomes spelled out |
| Builders.MakeSplice | src/static/js/Changeset.js:1465-1483 | the method returns `MakeSpliceSpec`: it fails exactly when an empty list of pairs comes with non-empty new text, and otherwise writes the changeset `MakeSpliceApplies` describes |
| Builders.SpliceOpsRun | src/static/js/Changeset.js:1474-1481 | the ops copy the head, skip the removed text and insert the new text |
| Builders.MakeSpliceApplies | src/static/js/Changeset.js:1465-1483 | for a non-empty text, the changeset turns the text into the text with the span replaced, and its header gives that length |
| Builders.MakeSpliceEmptyApplies | src/static/js/Changeset.js:1465-1483 | on the empty old text (start clamped to -1, every substring empty) the changeset turns `""` into the new text, and its header gives the new text's length |
| Subattributions.Window | src/static/js/Changeset.js:1914-1922 | each turn uses up the window op or the attribution op, and the ops not yet taken are the decoded ops that were left |
| Subattributions.DoCsOp | src/static/js/Changeset.js:1912-1923 | a window of no characters does nothing |
| Subattributions.Drain | src/static/js/Changeset.js:1934 | copying the rest of the attribution gives exactly the ops left, and fails only when the error token ends them |
| Subattributions.SubattributionOps | src/static/js/Changeset.js:1906-1942 | an attribution that starts with the error token throws |
| Subattributions.SubattributionSpec | src/static/js/Changeset.js:1906-1942 | the string is the smart assembler's text of `SubattributionOps`, without `endDocument()`, and fails when those ops do |
| Subattributions.WindowNeedsNoPool | src/static/js/Changeset.js:1920 | with a window op carrying no attributes, `slicerZipperFunc` gives the same answer for every pool and leaves it untouched, so the null pool the source passes is never read |
| Subattributions.WindowStep | src/static/js/Changeset.js:1916-1920 | one call on a piece of a single-line attribution never throws: the shorter op is used up, a keep writes the covered characters as an insert with the piece's attributes, a delete writes nothing, and the window op never keeps a newline |
| Subattributions.WindowStepTotals | src/static/js/Changeset.js:1916-1921 | one call uses up as many characters of the piece as the window covers, and a keep writes exactly those |
| Subattributions.FetchPiece | src/static/js/Changeset.js:1915 | taking the next piece never throws on a clean single-line attribution and loses no characters |
| Subattributions.WindowTotals | src/static/js/Changeset.js:1912-1923 | a run of `doCsOp` over a single-line attribution never throws, uses up as many of the attribution's characters as the window holds (all when it is shorter), writes nothing for the delete window and, for the keep window, inserts holding exactly the characters used up |
| Subattributions.FirstWindow | src/static/js/Changeset.js:1925-1928 | the delete window of `start` characters writes nothing and leaves what the attribution holds past `start` |
| Subattributions.TailTotals | src/static/js/Changeset.js:1930-1934 | without an end, the piece in hand and the rest are copied: everything the attribution holds past `start` |
| Subattributions.KeepTotals | src/static/js/Changeset.js:1935-1938 | with an end, the keep window copies as much as it covers of what the attribution holds past `start` |
| Subattributions.SubattributionKeeps | src/static/js/Changeset.js:1906-1942 | on a single-line attribution with `0 <= start <= optEnd`, `subattribution` never throws and writes inserts holding exactly the attribution's characters from `start` up to `optEnd` (or to its end), cut off where the attribution ends; the assembled string covers the same characters |
| Subattributions.SubattributionBadWindow | src/static/js/Changeset.js:1912-1920 | a negative `start` throws at the first op, and so does an `optEnd` before `start` when the attribution goes on past `start`, because the window op has fewer characters than newlines |
| Subattributions.BadWindowOp | src/static/js/Changeset.js:1209-1213 | a window op with fewer than no characters throws at the first piece, on the check that no op has more newlines than characters |
| Builders.LastIndexAtOrBefore | src/static/js/Changeset.js:1750-1754 | `lastIndexOf(c, from)` gives the last matching index at or before `from` |
| Texts.LastIndexOf | src/static/js/Changeset.js:465 | `lastIndexOf(c)` gives the last index holding c, or -1 when none does |
| Builders.ATextTotals | src/static/js/Changeset.js:1741-1763 | the ops appended have one character and one newline fewer than the attribution's |
| Builders.AppendATextToAssembler | src/static/js/Changeset.js:1741-1763 | fails exactly when the attribution holds the error token; otherwise the assembler reaches `SmartFrom` of `ATextOps` |
| Builders.SendLast | src/static/js/Changeset.js:1741-1763 | sending all but the last op, then what becomes of the last, is sending `ATextOps` |
| Builders.AppendLast | src/static/js/Changeset.js:1748-1762 | the last op goes out less the final newline |
| Splices.ToSplicesSpecOk | src/static/js/Changeset.js:1492-1518 | `toSplices` returns the splices the loop built |
| Splices.KeepStepIs | src/static/js/Changeset.js:1500-1502 | a keep closes the current splice and moves past the kept text |
| Splices.DeleteStepIs | src/static/js/Changeset.js:1503-1510 | a delete opens or widens a splice by the deleted text |
| Splices.InsertStepIs | src/static/js/Changeset.js:1503-1513 | an insert reads its text from the bank, failing out of bounds, and adds it to the open splice |
| Splices.FoldPlaced | src/static/js/Changeset.js:1499-1515 | the loop's old position is the kept and deleted total, and its splices lie within the text |
| Splices.ToSplicesFit | src/static/js/Changeset.js:1492-1518 | splices come out in order, apart and within the old text |
| Splices.FoldAgree | src/static/js/Changeset.js:1492-1518 | the `toSplices` loop and the `applyToText` loop stay in step |
| Splices.AgreeSpliced | src/static/js/Changeset.js:1492-1518 | the splices made on the text give what `applyToText` gives |
| Splices.SplicesApply | src/static/js/Changeset.js:1492-1518 | whenever `applyToText` succeeds, `toSplices` does, and making its splices gives the same text |
| Splices.ToSplices | src/static/js/Changeset.js:1492-1518 | the method returns `ToSplicesSpec` |
| Splices.SpliceOps | src/static/js/Changeset.js:1499-1515 | the loop does the fold of `SpliceStep` |
| Splices.SpliceOp | src/static/js/Changeset.js:1500-1514 | one turn does `SpliceStep` |
| Splices.RangeStep | src/static/js/Changeset.js:1530-1567 | the shift grows by the splice's length change |
| Splices.CharacterRangeFollowCases | src/static/js/Changeset.js:1527-1569 | the range follows each splice in turn |
| Splices.CharacterRangeFollow | src/static/js/Changeset.js:1527-1569 | the method returns `CharacterRangeFollowSpec` |
| Splices.RangeStaysOrdered | src/static/js/Changeset.js:1530-1567 | a range that does not run backwards never comes out running backwards |
| Splices.RangeFollowIdentity | src/static/js/Changeset.js:1527-1569 | the identity leaves every range where it is |
| Splices.RangeFollowAfter | src/static/js/Changeset.js:1527-1569 | splices all after the range leave it unchanged |
| Splices.RangeAfterSplices | src/static/js/Changeset.js:1530-1567 | splices after the range leave its ends and move its shift by their length change |
| Splices.RangeFollowOrdered | src/static/js/Changeset.js:1527-1569 | the range that comes out does not run backwards |

## Left out

- `LegacyOpIter`, `opIterator`, `newOp` (Changeset.js:235-301) and the factories `smartOpAssembler`, `mergingOpAssembler`, `opAssembler` (558-568) are deprecated aliases of `OpIter`, `Op` and the assembler classes; they are not modelled separately.
- `inverse` (Changeset.js:1944-2101) is not modelled: it works on an attribution line array through a nested line cursor and a cache, and its correctness depends on the document it is inverted against, which the rest of this model never pins down.
- Subattributions.SubattributionKeeps: proved for single-line attribution strings, the input `subattribution` is documented for (every op an insert with at most one newline, which has a character to hold it). A window that covers an op of two or more newlines fails the line-count check of `slicerZipperFunc` in the source and in the model alike (`Window` calls the same `Slice`), but no lemma states it. Nor is it proved which attributes each kept character carries, only that each written op keeps the attributes of the piece it came from (`WindowStep`).
- `mutateAttributionLines` (Changeset.js:1260-1327) is not modelled: it drives the line mutator with a zip over attribution lines in the way `mutateTextLines` already drives it over text lines, and its result is used by no other modelled operation.
- AttributionLines.SplitFollowsText: covers only texts that end in a newline (as pad texts do); `splitAttributionLines` leaves ops after the last newline in the assembler and never returns them, and the model keeps that behaviour without a lemma about it.
- `moveOpsToNewPool`, `makeAttribution`, `eachAttribNumber`, `mapAttribNumbers`, the AText helpers, `prepareForWire`, `opAttributeValue` and `attribsAttributeValue` (Changeset.js:1579-1830) lie outside the core.
- The attribute pool is a value. `AttributePool.js` is not part of this model, and an absent pool (`pool` undefined) is not modelled: `makeAttribsString` then returns `undefined` and `attributeTester` returns the test that never holds.
- Thrown exceptions are a `Result` error. The message text is not kept, and nor is the difference between `assert` and `throw`.
- CheckReps.CheckRepSpec: attribute numbers are decoded to numbers, so an op written with a non-canonical numeral such as `*01` is re-packed as `*1`. The model then rejects a changeset the source accepts, for example `Z:1>1*01+1$a`. The same decoding runs through the rest of the model. `MergeAppend` compares attributes as numbers where the source compares strings (Changeset.js:372), so the model merges ops written `*01+1` and `*1+1` that the source keeps apart. `attributeTester` then holds for `*01` and pair 1, where the source's regex `\*1(?!\w)` does not match.
- Mutators.LineAt: a read past the end of the array fails with `MissingLine`. The source's `_linesGet` yields `undefined` and goes on, so `removeLines` inside a last line can produce `"aundefined"`.
- Assemblers.SmartOpAssembler.AppendOpWithText: an empty list of pairs with non-empty text fails at the call. The source stores `undefined` as the op's attributes and throws (`attribs must be a string`) only when `toString()` writes the op out. With empty text both ignore the ops, so neither throws.
- Builders.Builder.KeepText: an empty list of pairs with non-empty text fails at the call and leaves the builder as it was. The source throws only in `toString()`, and not at all when the keep is the trailing keep that `endDocument()` drops.
- Builders.Builder.Insert: an empty list of pairs with non-empty text fails at the call and leaves the builder and its bank as they were. The source appends the op and the text and throws later, in `toString()`.
- Following.FollowSpec: the convergence property (`compose(A, follow(A, B)) == compose(B, follow(B, A))` on text) is not proved. It is a statement about four zips at once, which would need an invariant relating the positions of all four loops and the line counts each callback checks, and no part of the source states it; the lengths, the per-op cases and the symmetry of the tie-break are proved.
- MutateApply.MutateAgreesWithApply: proved for a non-empty text and a changeset whose keeps and deletes are line-aligned: each ends before the text's last character, and one that spans newlines ends just after a newline. Outside this the two can differ:
  - A keep or delete that spans newlines but ends mid-line: for the text `y\nz\n`, the ops `|1=3+1` with bank `Q` make `applyToText` give `y\nzQ\n`, while the mutator skips whole lines and gives `y\nQz\n` (`MutateApply.UnalignedKeepApplied`, `MutateApply.UnalignedKeepMutated`).
  - A delete that starts mid-line and spans newlines up to the end: the model fails with `MissingLine`, where the source joins the line with `undefined` (see `Mutators.LineAt`).
  - An in-line op past the last line: the mutator fails on the missing line, while `applyToText` writes the insert.
  - The empty text: it has no line for the cursor to stand on.
  - A keep or delete that reaches the text's last character is not covered either. It leaves the mutator's cursor past the last line, where a following insert meets the case above.
- Composition.ApplyToAttributionTotals: proved for attributions (every op an insert) whose length the changeset's keeps and deletes do not exceed. It gives the lengths of the ops written, and relates them to the returned string only as the smart assembler's text of those ops; which attributes each character ends up with is stated only per call (`SliceTable`).
- Numbers are unbounded integers: JavaScript doubles lose precision above 2^53, which is not modelled.
- Strings are sequences of Dafny `char`s, that is of Unicode scalar values, where JavaScript strings are sequences of UTF-16 code units. The two agree on text within the Basic Multilingual Plane. A character beyond U+FFFF counts 1 in the model and 2 in JavaScript, so every op's character count, `oldLen`/`newLen`, `Substring` index and newline offset differs on such text; an unpaired surrogate cannot be written in the model at all.

## Findings

| source | as written | input that shows it | evidently intended | confidence | as-written member | corrected member |
|---|---|---|---|---|---|---|
| src/static/js/Changeset.js:400-403 | `clear()` resets the buffered op and the output but not `_bufOpAdditionalCharsAfterNewline` | append `\|1=2` and `=3`, `clear()`, append `+1`: `toString()` gives `+1+3` | `clear()` forgets the pending in-line tail too | not executed | Assemblers.StaleTailAfterClear | Assemblers.MergeClearSound |
| src/static/js/Changeset.js:354-368 | the end-of-document flush that drops a final keep leaves the tail count set | append `\|1=2` and `=3`, `endDocument()`, append `+1`: `toString()` gives `+1+3` | the dropped keep's tail is dropped with it | not executed | Assemblers.StaleTailAfterEnd | Assemblers.MergeEndSound |
| src/static/js/Changeset.js:486-492 | `clear()` calls `clear` on `_assem`, a `stringAssembler`, which has only `append` and `toString` | any `SmartOpAssembler`, then `clear()`: TypeError | the string assembler is emptied as well | not executed | Assemblers.SmartClearAsWritten | Assemblers.SmartClearFresh |
