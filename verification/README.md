# Verification of the native layer

The native layer reads JSON through an on-demand parser. It projects many paths in one walk, decodes a whole
document into a flat graph, streams a nested array in bounded batches, and guards one document with a lock-free
lifecycle. This project models those four components and proves what they promise.

A document is a tree (`Json.Value`). Strings and keys are byte sequences, object fields keep source order and
duplicate keys, numbers carry what the parser says about them, and some values or keys carry a parser error instead
of content. Everything the parser decides (types, values, error codes, whether anything follows the root value) is
given by that tree or by a parameter.

Code that changes state step by step is a class or a method with loops here too. Each such method is proved to
compute a function of its inputs or of the old state; lemmas then relate that function to an independent
specification. A cancellation callback is an object that answers check number `k` with `probe(k)`, so a claim that
excludes cancellation says that no check so far asked for it. In streaming the callback may also answer neither 0 nor
1. The lifecycle is a state machine in which every atomic access of every thread is one step, over a map of threads of
any size, with sequentially consistent interleavings.

| files | content |
|---|---|
| `Json`, `Arithmetic`, `NumberSyntax`, `Validation`, `Soundness` | the document tree, the number scanner, the validators and what they agree on |
| `DocumentOrder`, `FirstFailures` | positions in document order, and the failure a validation reports by its position |
| `ProjectionSpec`, `ProjectionTrie`, `ProjectionWalk` | independent path lookup, the trie, the walk as a function |
| `ProjectionEffect`, `ProjectionSound`, `ProjectionCorrect` | the walk does what the lookups say |
| `ProjectionEngine`, `ProjectionExecute` | the cancellable engine over caller-owned arrays, all or nothing |
| `FiniteSets`, `SortedSearch`, `ProjectionPlan*`, `ProjectionDescriptors`, `ProjectionCompiler` | compiling descriptors into the trie, and writing paths down as descriptors |
| `DecodeSpec`, `DecodeMaterializer`, `DecodeLimits`, `DecodeStops`, `DecodeRead`, `DecodeTree`, `DecodeGraph` | decoding and its consumer's check |
| `StreamTarget`, `StreamZipper`, `StreamBatch`, `StreamSpec`, `StreamCursor` | the batch cursor |
| `StreamFill`, `StreamWhole`, `StreamDepth`, `StreamRuns`, `StreamLoss`, `StreamRetry` | what batches, finished streams and whole runs establish |
| `LifecycleProtocol`, `LifecycleSafety`, `LifecycleTheorems` | the document lifecycle and what it never does |
| `LifecycleProgress` | what it grants: every operation ends, and an undisturbed one succeeds when it may |

Where the obvious claim is not true of the code, the project says what is:

- In a short array only the smallest missing requested index contributes a failure, so the slot a projection reports is
  not always the least failing one (`ProjectionCorrect.NotAlwaysTheLeast`). It is the least one that is not shadowed in
  this way (`ProjectionCorrect.WalkIsProjection`), and it is the plain least if and only if the least failing slot is
  not shadowed itself (`ProjectionCorrect.LeastIsReportedIffNotShadowed`).
- A streaming probe that answers neither 0 nor 1 in the middle of a batch puts the cursor back to ready with rows taken
  but not handed over (`StreamRuns.BadAnswerLosesARow`). `StreamLoss.LosesRowsExactly` says from the probe, the limits
  and the rows which calls do that, and a run is gapless if and only if none of its calls does
  (`StreamLoss.GaplessIffNoCallLosesRows`).
- A missed target leaves the cursor ready, but the parser has moved on. A later call searches the started root again
  and may find another array and stream that (`StreamRetry.RetryStreamsAnotherArray`). A run is safe from this,
  whatever the parser makes of the started root, if and only if none of its calls searches again
  (`StreamRetry.SafeIffNeverSearchesAgain`), which the earlier replies tell (`StreamRuns.StartedIffMissed`).
- Streaming checks rows, and siblings before the target, as if they were at depth one. A finished stream has found the
  document sound (`StreamWhole.FinishedIsSound`), but it may be deeper than any validator accepts
  (`StreamDepth.FinishedCanBeTooDeep`). It has no hard failure if and only if its height is within the bound
  (`StreamWhole.FinishedIsGoodIffShallow`).

## Model

| member | source | states |
|---|---|---|
| NumberSyntax.ValidJsonNumberSyntax | native/src/simd_json_projection.cpp:546-611 | A token is accepted if and only if, after trimming the whitespace of section 2 of RFC 8259, it is in the number grammar of section 6 of RFC 8259. |
| NumberSyntax.ScanExponent | native/src/simd_json_projection.cpp:593-611 | The rest of the token is accepted exactly when it is an optional exponent of that grammar. |
| NumberSyntax.SplitIsForced | native/src/simd_json_projection.cpp:560-611 | Any split of a token into minus, integer, fraction and exponent stops where a scanner that never looks back stops. |
| Validation.ValidateDocument | native/src/simd_json_abi.cpp:289-348 | Opening a document reports the first parser or depth error in document order, with children of the root at depth two. |
| Validation.ValidateUnselectedValue | native/src/simd_json_projection.cpp:783-932 | Unless cancelled, the result is the first hard failure of the value in document order; cancelled exactly when some check asked for it. |
| Validation.HardFailureMatchesPlainValidator | native/src/simd_json_projection.cpp:788-932 | There is no hard failure exactly when the plain validator accepts the value at the same depth bound and all its numbers are in range. |
| FirstFailures.FirstErrorByPosition | native/src/simd_json_abi.cpp:182-348 | The error a validation reports belongs to a value or key before which, in document order, everything validates; there is none exactly when everything does. |
| FirstFailures.HardFailureByPosition | native/src/simd_json_projection.cpp:783-932 | The same for hard failures: the code is the one that the first failing position deserves on its own. |
| FirstFailures.NumberFailureCodes | native/src/simd_json_projection.cpp:847-932 | A number is out of range exactly when it is a big integer, not finite, too large, or rejected although its token is in the grammar; a token the parser calls wrong and the grammar does too is invalid. |
| Soundness.NoFailureIsSoundAndShallow | native/src/simd_json_projection.cpp:847-932 | A value has no hard failure exactly when all of it reads, all numbers fit, and its nesting stays under the depth bound. |
| Soundness.CleanIsSound | native/src/simd_json_decode_materializer.cpp:156-250 | Content that decoding can take is exactly content that projection finds sound. |
| Soundness.DecodesIffNoHardFailureWithinLimits | native/src/simd_json_decode_materializer.cpp:335-396 | A document decodes exactly when projection finds no hard failure in it and it is within the configured limits. |
| ProjectionTrie.LessIsStrictOrder | native/src/simd_json_projection.cpp:208-221 | Byte-wise key comparison is transitive and total, so edges sorted by it are unique. |
| ProjectionTrie.ByteLess | native/src/simd_json_projection.cpp:208-221 | The comparison loop decides that order. |
| ProjectionPlan.DescriptorSetIsValid | native/src/simd_json_projection.cpp:250-317 | A descriptor set is accepted exactly when slots are distinct and in range, every path is non-empty and in range, every segment is well formed and every segment is used. |
| ProjectionCompiler.PathsAreRead | native/src/simd_json_projection.cpp:448-473 | The path of an entry's slot is what its raw segments say: byte j of a key is the byte j behind the segment's own key offset, and an index is the segment's own number. |
| ProjectionCompiler.DescribedPathsComeBack | native/src/simd_json_projection.cpp:448-473 | Any non-empty paths within the 32-bit counts, written down one after another, are accepted and compile to the same paths. |
| ProjectionCompiler.EverySlotHasAnEntry | native/src/simd_json_projection.cpp:256-275 | Accepted slots form a permutation: no slot is without an entry. |
| ProjectionCompiler.Plan.ObjectChild | native/src/simd_json_projection.cpp:392-416 | Following a key reuses its edge or inserts one in sorted position with a fresh node and a fresh flag. |
| ProjectionCompiler.Plan.ArrayChild | native/src/simd_json_projection.cpp:418-436 | Following an index reuses its edge or inserts one in sorted position with a fresh node. |
| ProjectionCompiler.Plan.InsertEntry | native/src/simd_json_projection.cpp:448-473 | Inserting an entry follows its whole path and adds its slot at the end. |
| ProjectionPlanTree.ChildForKeepsTree | native/src/simd_json_projection.cpp:392-436 | Following one segment keeps one path to each node, sorted unique edges and one edge for each flag, and adds at most one path. |
| ProjectionPlanContent.CompiledContent | native/src/simd_json_projection.cpp:1541-1548 | The compiled trie holds exactly the slot-to-path map, with one node for each distinct path prefix. |
| ProjectionCompiler.Plan.FinalizePlanMetadata | native/src/simd_json_projection.cpp:509-538 | One reverse pass makes every node's metadata agree with its children's. |
| ProjectionPlanMeta.MetadataIsExact | native/src/simd_json_projection.cpp:509-538 | Every node's count is the number of slots whose paths run through it, and its first slot is the least of them. |
| ProjectionPlanMeta.RootCountsEveryEntry | native/src/simd_json_projection.cpp:509-538 | The root counts every entry, and its least slot is slot 0, never the sentinel. |
| ProjectionPlanMeta.PlanIsTrie | native/src/simd_json_projection.cpp:382-473 | The finished plan, read as a tree, is well formed for execution and holds exactly the given paths. |
| ProjectionCompiler.PlanCreate | native/src/simd_json_projection.cpp:1513-1560 | A plan is created exactly for an accepted descriptor set, depends only on the path of each slot, and that path is what the slot's raw entry, segments and key bytes say. |
| ProjectionCompiler.PermutedEntriesSamePaths | native/src/simd_json_projection.cpp:1541-1548 | A permutation of the entries is accepted too and gives every slot the same path. |
| ProjectionCompiler.PermutedEntriesSamePlan | native/src/simd_json_projection.cpp:1541-1551 | Every permutation of the entries builds the identical plan, metadata included. |
| ProjectionEffect.RecordAccounts | native/src/simd_json_projection.cpp:739-781 | Recording the least failure of a group leaves pending the least failure of the group and of what was pending before, with its own code. |
| ProjectionEngine.Traversal.FillTerminals | native/src/simd_json_projection.cpp:1026-1047 | Unless cancelled, every terminal slot and no other receives the scalar. |
| ProjectionEngine.Traversal.TraverseObject | native/src/simd_json_projection.cpp:1055-1116 | The object loop is the walk over its fields, first duplicate first, then the missing keys. |
| ProjectionEngine.Traversal.TraverseArray | native/src/simd_json_projection.cpp:1118-1171 | The array loop with its monotone pointer is the walk over its elements, then the first unmet index. |
| ProjectionEngine.Traversal.TraverseValue | native/src/simd_json_projection.cpp:1173-1219 | Unless cancelled, status, slots, flags and pending failure after a traversal are those of the walk. |
| ProjectionEngine.Traversal.TraverseDocument | native/src/simd_json_projection.cpp:1221-1328 | The same for a whole document, whose scalar root is checked without its depth. |
| ProjectionEffect.BelowGrows | native/src/simd_json_projection.cpp:1065-1116 | One more child adds exactly the findings, failures and flags of its own edge. |
| ProjectionEffect.BelowAvoids | native/src/simd_json_projection.cpp:1093-1101 | What the visited children touched is disjoint from every edge still to come, so its flags are clear when it is entered. |
| ProjectionSound.WalkAgrees | native/src/simd_json_projection.cpp:1049-1219 | From clear flags, a walk stops exactly at the first hard failure, and otherwise writes exactly the found slots once and keeps the least failure seen. |
| ProjectionSound.ObjectAgrees | native/src/simd_json_projection.cpp:1055-1116 | The same for an object: a flag is set exactly when its key has been met, and later duplicates are only validated. |
| ProjectionSound.ArrayAgrees | native/src/simd_json_projection.cpp:1118-1171 | The same for an array: requests below the pointer are answered, the others are not. |
| ProjectionSound.ShortArrayAccounts | native/src/simd_json_projection.cpp:1164-1168 | A short array contributes exactly the failures under its smallest unmet index. |
| ProjectionSpec.FoundMeans | native/src/simd_json_projection.cpp:934-1047 | A lookup succeeds exactly at a scalar that reads, and its slot stands for that scalar: same kind, same value, same bytes. |
| ProjectionSpec.FailedBecause | native/src/simd_json_projection.cpp:739-781 | A lookup fails with a code if and only if its first impossible step, or the value at its end, deserves that code. |
| ProjectionCorrect.HiddenIsShadowed | native/src/simd_json_projection.cpp:1164-1168 | A slot contributes nothing exactly when another path misses a smaller index of the same short array. |
| ProjectionCorrect.FailureIsVisible | native/src/simd_json_projection.cpp:739-781 | If any path fails on its own, some failure is reported. |
| ProjectionCorrect.WalkIsProjection | native/src/simd_json_projection.cpp:1049-1328 | One walk decides what independent first-duplicate lookups say: first hard failure, else least unshadowed path failure, else every slot holds its own scalar, written once. |
| ProjectionCorrect.LeastIsReportedIffNotShadowed | native/src/simd_json_projection.cpp:739-781 | The reported slot is the least failing slot if and only if the least failing slot is not shadowed. |
| ProjectionCorrect.MissesTwiceAndReportsTheLeast | native/src/simd_json_projection.cpp:1164-1168 | Slots asking for indices 3 and 5 of an array of two: the array misses twice and the least slot is reported all the same. |
| ProjectionCorrect.NotAlwaysTheLeast | native/src/simd_json_projection.cpp:1164-1168 | Slots asking for indices 5 and 3 of an array of two: slot 1 is reported although slot 0 fails too. |
| ProjectionExecute.DocumentWalkIsValueWalk | native/src/simd_json_projection.cpp:1289-1328 | With no empty path, walking a document blames the same slot as walking its root value. |
| ProjectionExecute.PublishedIsTrie | native/src/simd_json_projection.cpp:1535-1556 | A published plan is a well-formed trie of exactly its paths. |
| ProjectionExecute.Execute | native/src/simd_json_projection.cpp:1570-1649 | OK exactly when there is no hard failure and every lookup finds a scalar, and then every slot stands for the scalar at its path; all slots empty on any failure; a second execution is refused; the unfilled-slot check never fires. |
| ProjectionExecute.ExecuteValue | native/src/simd_json_projection.cpp:1377-1432 | The same for one value at depth one, as streaming does for every row. |
| DecodeMaterializer.CopyBytesInto | native/src/simd_json_decode_materializer.cpp:122-142 | Bytes are copied in chunks behind those already copied, within the string limit and the output budget, or not at all unless cancelled. |
| DecodeMaterializer.FinalizeFrame | native/src/simd_json_decode_materializer.cpp:252-269 | Pending edges are laid out and the node's range is patched; its own entry-count check never fires. |
| DecodeMaterializer.ContainerOpened | native/src/simd_json_decode_materializer.cpp:371-393 | Pushing a frame for a container defers exactly the decoding of its items: finishing the stack is unchanged. |
| DecodeMaterializer.WorkShrinks | native/src/simd_json_decode_materializer.cpp:344-393 | Opening an item shrinks the measure over unconsumed input. |
| DecodeMaterializer.Materializer.OpenValue | native/src/simd_json_decode_materializer.cpp:156-250 | Opening finishes a scalar and only starts a container, depth checked first. |
| DecodeMaterializer.Materializer.OpenItem | native/src/simd_json_decode_materializer.cpp:357-393 | Opening an item keeps the meaning of the stack, frame depths and the reserved stack size, or stops with the recursion's code. |
| DecodeMaterializer.Materializer.Traverse | native/src/simd_json_decode_materializer.cpp:335-396 | The stack loop terminates and computes exactly the recursive decoding, with the stack never above the depth limit. |
| DecodeMaterializer.Materializer.Execute | native/src/simd_json_decode_materializer.cpp:421-447 | Cancelled exactly when asked, refused the second time, otherwise the recursive decoding's graph or stop code. |
| DecodeLimits.DecodeFits | native/src/simd_json_decode_materializer.cpp:109-169 | A value decodes exactly when it is clean and fits depth, entries, strings and the remaining budget, and then retains exactly its cost. |
| DecodeLimits.DecodeIffWithinLimits | native/src/simd_json_decode_materializer.cpp:344-410 | A document decodes if and only if its depth with scalars, entry counts, string lengths and 40 bytes a node, 32 an edge and its string bytes are within the limits. |
| DecodeStops.SoleCauseIsNamed | native/src/simd_json_decode_materializer.cpp:122-269 | A clean document over one limit stops with that limit's own code; one within all limits but not clean stops with the code of its first flaw in document order. |
| DecodeStops.StoppedForACause | native/src/simd_json_decode_materializer.cpp:335-410 | Whatever is wrong at once, the code names a limit that is exceeded or is the code of the first flaw. |
| DecodeRead.DecodeRepresents | native/src/simd_json_decode_materializer.cpp:156-250 | Decoding appends a preorder block that represents the value and leaves everything before it alone. |
| DecodeRead.ReadRepresented | native/zig/decode_materializer.zig:31-36 | Reading a represented node gives the value back. |
| DecodeRead.DecodeReadsBack | native/src/simd_json_decode_materializer.cpp:335-396 | Reading the published graph from its root gives the source document, with order, duplicate keys, bytes and number kinds. |
| DecodeRead.DecodeIsInjective | native/src/simd_json_decode_materializer.cpp:335-396 | Equal graphs come from documents that differ at most in raw number text. |
| DecodeTree.PublishedIsTree | native/src/simd_json_decode_materializer.cpp:252-269 | Each non-root node is the target of exactly one edge, from a smaller node; ranges partition the edges, a child's block before its parent's. |
| DecodeTree.EveryNodeHasAParent | native/src/simd_json_decode_materializer.cpp:358-393 | Every node but the root has a parent edge from a smaller-numbered container. |
| DecodeGraph.CheckGraph | native/zig/decode_materializer.zig:73-145 | A view is accepted exactly when storage matches its counts, the root is in range and every node and edge range lies inside the graph. |
| DecodeGraph.PublishedIsAccepted | native/zig/decode_materializer.zig:73-145 | Every published result passes the consumer's check. |
| DecodeGraph.ExecuteAndCheck | native/zig/decode_materializer.zig:177-190 | An executed result is accepted, rooted at node 0 and reads back as the document. |
| StreamTarget.ChooseSelects | native/src/simd_json_stream_cursor.cpp:369-446 | The scan finds the segment's first item exactly when everything before it validates; a clean miss reports absence. |
| StreamTarget.LocateIsLookup | native/src/simd_json_stream_cursor.cpp:448-511 | The target is found exactly when the path's first-occurrence lookup is an array past nothing that fails, and is that array. |
| StreamTarget.LocateMissesBecause | native/src/simd_json_stream_cursor.cpp:448-511 | A missed target has the code of the first thing on its way that cannot be entered, passed or found. |
| StreamTarget.SoundMissIsLookup | native/src/simd_json_stream_cursor.cpp:448-511 | In a document without hard failure, a missed target has the lookup's own failure code, or a type error at the path's end. |
| StreamZipper.LocateIsChain | native/src/simd_json_stream_cursor.cpp:395-398 | The parent frames lead from the root to the target, one a segment, each one level deeper. |
| StreamZipper.PlugIsDocument | native/src/simd_json_stream_cursor.cpp:290-300 | Frames and target together rebuild the document. |
| StreamZipper.EverySiteOnce | native/src/simd_json_stream_cursor.cpp:739-795 | The way down and the way back together visit every value outside the target exactly once, and nothing else. |
| StreamZipper.WholeFromParts | native/src/simd_json_stream_cursor.cpp:739-795 | The document is sound exactly when the target and every value outside it are. |
| StreamBatch.EncodedIsParts | native/src/simd_json_stream_cursor.cpp:669-692 | Encoded bytes are 32 a row, 24 a slot and the string bytes, so the copied-byte count derived from them never underflows. |
| StreamBatch.StoredRowHeader | native/src/simd_json_stream_cursor.cpp:728-733 | A stored row names its own element, its slot count and its size of 32 bytes, 24 a slot and its string bytes. |
| StreamBatch.StoredRowsReadBack | native/src/simd_json_stream_cursor.cpp:710-736 | Every stored row reads back as its projected slots, strings from the copied bytes. |
| StreamBatch.SlotRangesPartition | native/src/simd_json_stream_cursor.cpp:710-734 | Consecutive rows take consecutive slot ranges that make up the produced slots. |
| StreamBatch.Batch.Clear | native/src/simd_json_stream_cursor.cpp:213-224 | Every row and slot of the storage is emptied and the counts are zero. |
| StreamBatch.Batch.AppendPending | native/src/simd_json_stream_cursor.cpp:658-737 | A row is appended exactly when it fits; strings are copied contiguously; too large only for an empty batch. |
| StreamBatch.StringBytes | native/src/simd_json_stream_cursor.cpp:669-679 | The summed length is that of the row's string bytes. |
| StreamCursor.StreamCursor.ObjectSegment | native/src/simd_json_stream_cursor.cpp:369-409 | The first field with the key is entered and its frame pushed; each field before it was validated once. |
| StreamCursor.StreamCursor.ArraySegment | native/src/simd_json_stream_cursor.cpp:411-446 | The element at the index is entered and its frame pushed; each element before it was validated once. |
| StreamCursor.StreamCursor.LocateTarget | native/src/simd_json_stream_cursor.cpp:448-511 | The first search that opens the root is one lookup of the whole path, or its failure code; after that the parser decides what a search finds. |
| StreamCursor.ProjectRow | native/src/simd_json_stream_cursor.cpp:541-565 | A row projects exactly when it has no hard failure and every path finds a scalar. |
| StreamCursor.StreamCursor.ProjectCurrentRow | native/src/simd_json_stream_cursor.cpp:541-565 | A projected row becomes the pending row of the current index and is counted as one attempt. |
| StreamCursor.StreamCursor.ValidateSourceCompletion | native/src/simd_json_stream_cursor.cpp:739-795 | The frames are unwound innermost first, every later sibling validated once, and the document must end. |
| StreamCursor.StreamCursor.FinishedVisitedOnce | native/src/simd_json_stream_cursor.cpp:739-795 | The log of validated values of a finished cursor that never searched again holds every value outside the target exactly once. |
| StreamCursor.StreamCursor.TakeRow | native/src/simd_json_stream_cursor.cpp:1014-1078 | One turn takes the next row or ends the batch as specified, keeping the accounts. |
| StreamCursor.StreamCursor.NextBatch | native/src/simd_json_stream_cursor.cpp:943-1112 | A call answers exactly as specified, with its batch in the storage or the storage cleared; at every rest attempts are committed rows plus the pending one. |
| StreamFill.FillTakesRows | native/src/simd_json_stream_cursor.cpp:1014-1078 | A batch takes projected rows in order, each once, stays within row, encoded and copied limits, and ends for the right reason. |
| StreamFill.BatchIsLongestPrefix | native/src/simd_json_stream_cursor.cpp:680-707 | No run of the remaining rows within the limits is longer than a successful batch. |
| StreamFill.QuietBatchEnds | native/src/simd_json_stream_cursor.cpp:1014-1099 | Without cancellation and with projecting rows, a batch fails only on an oversized row or on completing the source. |
| StreamWhole.UnwindPasses | native/src/simd_json_stream_cursor.cpp:749-794 | Unwinding succeeds only if everything after the target validates and the document ends; without cancellation that suffices. |
| StreamWhole.UnwindRefuses | native/src/simd_json_stream_cursor.cpp:739-795 | A refused completion has the code of the first later sibling that fails, innermost container first, or of content after the document. |
| StreamWhole.FinishedIsSound | native/src/simd_json_stream_cursor.cpp:1033-1050 | When every row projected and unwinding completed, the whole document is sound, depth aside, and nothing follows it. |
| StreamWhole.FinishedIsGoodIffShallow | native/src/simd_json_stream_cursor.cpp:1033-1050 | Under the same conditions the document has no hard failure if and only if its height is within the depth bound. |
| StreamDepth.FinishedCanBeTooDeep | native/src/simd_json_stream_cursor.cpp:401-436 | A document 1202 levels deep, with one row of height 601 below 600 arrays, streams to its end although it has a hard failure. |
| StreamWhole.GoodDocumentCompletes | native/src/simd_json_stream_cursor.cpp:739-795 | In a document without hard failure every target array is found, every row validates and unwinding completes. |
| StreamRuns.StepAccounts | native/src/simd_json_stream_cursor.cpp:943-1112 | Every call keeps delivered plus lost rows equal to the position while the cursor is ready or done, and `done` means finished. |
| StreamRuns.RunsDeliverOneArray | native/src/simd_json_stream_cursor.cpp:943-1112 | Over any calls with a 0/1 probe, searches of a started root included, the batches concatenate to a prefix of one projected array with indices 0, 1, 2, ...; once done, to all of it. |
| StreamRuns.RunsDeliverAPrefix | native/src/simd_json_stream_cursor.cpp:943-1112 | If no call searches a started root again, that array is the one the path leads to, and a finished stream has found the source sound. |
| StreamRuns.StartedIffMissed | native/src/simd_json_stream_cursor.cpp:995-1001 | A call would search a started root exactly when an earlier reply was a missing target and the root opens as the path asks. |
| StreamRetry.SafeIffNeverSearchesAgain | native/src/simd_json_stream_cursor.cpp:994-1002 | A run streams the array the path leads to, whatever the parser makes of a started root, if and only if none of its calls searches again. |
| StreamRetry.RetryStreamsAnotherArray | native/src/simd_json_stream_cursor.cpp:994-1002 | After a miss at a number, a parser that counts on from there lets the next call hand over a row of the array behind it. |
| StreamRuns.DoneIffFinished | native/src/simd_json_stream_cursor.cpp:1027-1050 | In every call of every run, a batch is `done` if and only if the stream is finished after it. |
| StreamRuns.FinishedStaysDone | native/src/simd_json_stream_cursor.cpp:971-978 | A finished stream answers every further call that is not cancelled with no rows and `done`. |
| StreamRuns.ReplyTellsPhase | native/src/simd_json_stream_cursor.cpp:943-1112 | The reply tells the state: `done` or not, a batch leaves the cursor finished or ready; a first check that cancels ends a ready one, a batch broken off ends it unless the probe's answer was neither 0 nor 1, and any other refusal leaves it as it was. |
| StreamRuns.DeniedAtTheDoor | native/src/simd_json_stream_cursor.cpp:953-1011 | Before any row is taken a call is denied exactly by its first check, a cursor not at rest, a missing target, or storage for too few slots, in this order. |
| StreamRuns.DeliveredRowsMean | native/src/simd_json_stream_cursor.cpp:541-565 | In every run, each slot of each delivered row stands for the scalar at its path in the array element that the row is numbered after. |
| StreamLoss.LosesRowsExactly | native/src/simd_json_stream_cursor.cpp:1014-1026 | A call loses rows if and only if, for some k > 0 below the row capacity, the next k rows project and fit, the probe is quiet at all their checks, and its next answer, at the top of the loop, is neither 0 nor 1. |
| StreamLoss.GaplessIffNoCallLosesRows | native/src/simd_json_stream_cursor.cpp:1014-1026 | While the cursor is ready or done, what was delivered is gapless if and only if no call of the run is of that kind. |
| StreamLoss.StoppedAppendIsFinal | native/src/simd_json_stream_cursor.cpp:1056-1063 | Whatever stops an append ends the cursor, so no gap can follow. |
| StreamLoss.DeadDeliversNothing | native/src/simd_json_stream_cursor.cpp:971-981 | An ended cursor stays ended and delivers no row. |
| StreamRuns.BadAnswerLosesARow | native/src/simd_json_stream_cursor.cpp:1017-1026 | A probe answering 2 after the first of two rows leaves a ready cursor past a row never delivered. |
| StreamRuns.DrainingFinishes | native/src/simd_json_stream_cursor.cpp:1014-1099 | With room for every single row, a good source is finished after at most one call more than it has rows, every row delivered once and the last reply `done`. |
| LifecycleSafety.StepKeepsInv | native/zig/document_resource.zig:603-872 | Every atomic step of every thread keeps the invariant of shared state, thread positions and counts. |
| LifecycleSafety.StepProtects | native/zig/document_resource.zig:629-685 | A thread becomes an admission or reservation holder only by seeing the document open after being counted. |
| LifecycleTheorems.AdmittedIsHolders | native/zig/document_resource.zig:629-642 | The admission count is always the number of outstanding holders. |
| LifecycleTheorems.ReleasedOnceInOrder | native/zig/document_resource.zig:882-925 | Owned fields are released at most once each, document, then parser, then input. |
| LifecycleTheorems.NothingReleasedUnderAHolder | native/zig/document_resource.zig:855-872 | No field is released while any thread holds an admission, a reservation or a commit. |
| LifecycleTheorems.HandleIsLive | native/zig/document_resource.zig:758-824 | A committed operation that gets the document handle gets a live one. |
| LifecycleTheorems.OneCursor | native/zig/document_resource.zig:648-803 | At most one reservation is held, at most one commit ever succeeds, and the transient state always has an owner. |
| LifecycleTheorems.RollbackSucceeds | native/zig/document_resource.zig:725-786 | An uncommitted holder's rollback always succeeds, even after close begins. |
| LifecycleTheorems.ReleaseIsSound | native/zig/document_resource.zig:806-850 | The assertions made when a claim is released hold. |
| LifecycleTheorems.NothingComesBack | native/zig/document_resource.zig:464-468 | The lifecycle only moves forward, `consumed` is absorbing, and no thread passes the guard of a second construction. |
| LifecycleTheorems.NobodyEntersAfterClose | native/zig/document_resource.zig:629-715 | Once closing has begun no new thread becomes a holder. |
| LifecycleTheorems.OneCleanup | native/zig/document_resource.zig:603-621 | One close wins, one cleanup releases, and a closed document has released everything. |
| LifecycleTheorems.CleanupCompletes | native/zig/document_resource.zig:855-872 | When every claim on a closing document was given up, one cleanup by any thread releases everything and closes it. |
| LifecycleProgress.EveryStepCounts | native/zig/document_resource.zig:603-872 | No operation waits or retries: whatever other threads do, each ends after at most ten of its own accesses. |
| LifecycleProgress.AdmissionIsGranted | native/zig/document_resource.zig:629-642 | From every reachable open state, an undisturbed thread is admitted with the current generation and counted once, and nothing else changes. |
| LifecycleProgress.ReservationIsGranted | native/zig/document_resource.zig:648-715 | With the cursor fresh too, an undisturbed thread gets the reservation it asks for. |
| LifecycleProgress.CommitSucceeds | native/zig/document_resource.zig:737-803 | On an open document a reservation's holder commits, the cursor is consumed, and it is the only commit. |
| LifecycleProgress.CommitIsRefused | native/zig/document_resource.zig:737-803 | Once closing has begun a commit changes nothing and the reservation is still held. |
| LifecycleProgress.HandleIsReached | native/zig/document_resource.zig:758-824 | While the document is open, its committed operation reaches the handle and keeps its claim. |
| LifecycleProgress.ReleaseGivesBack | native/zig/document_resource.zig:806-850 | A release takes exactly its own claim off the count. |
| LifecycleProgress.CloseSucceeds | native/zig/document_resource.zig:603-621 | Closing an open document outdates every earlier generation. |
| LifecycleProgress.RefusedAtOnce | native/zig/document_resource.zig:629-715 | A closing or closed document admits nobody, a cursor in use or consumed is reserved for nobody, and a refusal leaves no trace. |

## Left out

- The parser itself, UTF-8 checks, string unescaping and padding: values, types and error codes are those of the tree.
- Null pointers, reserved fields, unknown tags and ABI layouts: the datatypes cannot express them.
- Native error codes, byte offsets and array indices in a status: a status is its code and, in projection, its slot.
- Which status stands for which parser error: `ProjectionStatus`, `DecodeStatus` and `StreamStatus` are the source's tables, and no result goes behind them.
- Exceptions, allocation failure and injected failures.
- Traversal counters, the topology hash, shared-prefix counts and timing.
- A container whose type reads but whose start token is then refused: such a value is `Unreadable`.
- An element of a streamed array whose iterator, not its value, is in error: it is a value that does not read.
- An array index, row index or sum that reaches 64 bits, except for the size of one encoded row.
- Key and target segments of a stream that are not valid UTF-8 or out of range: the path is given as segments.
- File streaming: mapping, snapshots, page advice and the document stream; its batch loop is the one modelled.
- What the parser finds when it searches a started root again: any target or failure, given as a parameter. Frames left over from the missed search are part of that answer.
- StreamCursor.ProjectRow: does not model a cancellation probe installed on the document itself, because the worker installs one only around a one-shot projection (native/zig/build_smoke.zig:2440-2446), never while a document is streamed.
- Compiled nodes point at each other by position in the node vector; execution reads them as a tree value.
- Pointers into caller storage: a stored string is its offset and length in the copied bytes.
- Construction of a document's owned state before publication, and its rollback: one thread owns the state then.
- Lifecycle clients that release or roll back a claim they do not hold: such a request changes nothing here.
- Memory ordering weaker than sequential consistency.
- Liveness of the lifecycle under interference: no operation waits, but which of several competing ones succeeds is only bounded by the safety results.
- The Elixir layer, its coordinator and worker pool.
