# Verification of the xpact native shell and its harnesses

xpact puts the Expat C API in front of a parser written in Eiffel. The parser proper is
behind a bridge of function pointers; what stands in C is a mutable shell object that owns
the input buffer, the parsing lifecycle, error codes, reset, and the links between a parser
and the parsers of its external entities. This project models that shell and the codecs and
digests around it in Dafny and proves what they promise.

| files | subject |
|---|---|
| `Core.dfy` | bytes, C `int`, small helpers |
| `ShellModel.dfy` | the shell as a value: every entry point as a function, the bridge's behaviour as a parameter |
| `NativeParser.dfy` | the shell as the C object it is, over a reallocated array; every entry point proved equal to its function |
| `ShellRuns.dfy`, `ShellTheorems.dfy` | the invariant of all runs, and what follows: window, refusals, delivery, final flag |
| `ShellOutcomes.dfy` | status, state and error code of every call, and progress |
| `ShellErrors.dfy`, `ShellStops.dfy` | how long a parse error stays, when stop flags and state agree, what the bridge contract adds |
| `ShellEquivalence.dfy`, `ShellBounds.dfy` | reset against a new parser, buffered against direct input; memory of long runs |
| `ChildForest.dfy`, `ForestRuns.dfy` | parsers and their external-entity children, calls interleaved; each parser's own run within them |
| `Utf8.dfy`, `Utf8Trim.dfy`, `UnknownEncodingDecoder.dfy`, `DecoderSizes.dfy` | UTF-8 as in RFC 3629, trimming a cut, transcoding through an application's table |
| `Crc32.dfy`, `EventDigest.dfy`, `ChunkedCrc.dfy`, `ChunkedFeed.dfy` | the chunk-independent event digest and the harness that feeds documents in chunks |
| `TextOrder.dfy`, `CanonicalXml.dfy`, `CanonicalMeaning.dfy`, `EventRecorder.dfy` | canonical XML printing and event recording |
| `WorkerPool.dfy` | the pool of worker processes |
| `TagCounter.dfy`, `TagReport.dfy` | the tag counter's hash table and its sorted report |

`dafny verify dfyconfig.toml` checks everything.

## How the shell is modelled

A parser's state is its window (the retained bytes), the capacity of its buffer, and its
lifecycle fields. Three histories are kept beside it: the chunks accepted since creation or
reset, the calls made to the bridge, and the number of merges asked for. In `NativeParser`
the state is an object with the C fields, `int` arithmetic that Dafny proves free of
overflow, and source pointers that may point into the buffer; a ghost field ties it to the
model. Everything the environment decides (callbacks, answers, allocation) is an argument
of the call, so a statement about all runs covers every bridge. Runs start from a parser as it
was made, by its user or for an external entity.

Two remarks on the code. The comment at lines 849-851 of `native/xpact_native.c` describes
`XML_ParseBuffer` finishing input of a parser that has no writable buffer; since `XML_Parse`
itself commits to that buffer, such a parser always has one, and the branch is never taken
(`ParsingHasBuffer`). And reset keeps the input storage, so a reset parser differs from a new
one in what `XML_ParseBuffer` answers to a caller who never asked for a buffer: the exact
condition is in `StorageShowsAfterReset`, and for callers who stay within what
`XML_GetBuffer` granted `ResetIsFresh` shows no difference.

## Model

| member | source | states |
|---|---|---|
| `NativeParser.MemMove` | native/xpact_native.c:107-115 | The destination range gets the bytes the source range had before the call, overlap or not; every other byte stays. |
| `NativeParser.Parser.GrowCapacity` | native/xpact_native.c:93-96 | The `capacity *= 2` loop ends without overflowing `int`, at the value of the doubling specification. |
| `NativeParser.Parser.Reallocate` | native/xpact_native.c:97-112 | A new buffer holds the old window followed by the input, also when the input lies in the old buffer. |
| `NativeParser.Parser.AppendInPlace` | native/xpact_native.c:113-115 | The input, wherever it lies, stands behind the unchanged window of the same buffer. |
| `NativeParser.Parser.MakeRoom` | native/xpact_native.c:91-115 | Fails exactly when an allocation is needed and fails, and then leaves buffer, capacity and window alone; otherwise window and input stand at the front of a buffer of the specified capacity. |
| `NativeParser.Parser.InputBuffer` | native/xpact_native.c:81-121 | Refines the commit of a chunk (or a bare request for room): window, capacity, error code and answer, for input that may alias or overlap the buffer, with the offset of the appended range in bounds. |
| `NativeParser.Parser.ConsumeInputPrefix` | native/xpact_native_private.h:82-96 | Refines dropping a consumed prefix: the pending bytes and up to 1024 bytes before them survive the overlapping move; a bad count changes nothing. |
| `NativeParser.Parser.StopParser` | native/xpact_native.c:865-912 | Refines the stop decision in each of the four states: status, error code, flags and new state. |
| `NativeParser.Parser.RunCallbacks` | native/xpact_native.c:801 | What callbacks do during a bridge call (stop requests, prefix consumption and requests for children, any number, any order) is their fold over the parser's state. |
| `NativeParser.Parser.BridgeParse` | native/xpact_native.c:801 | The bridge is shown exactly the committed slice of the buffer, before any callback acts. |
| `NativeParser.Parser.FinishExternalChildParse` | native/xpact_native.c:129-176 | Status, error code, merge request and the parent's count after a child's call, including both failing merges. |
| `NativeParser.Parser.Settle` | native/xpact_native.c:803-815 | The status dispatch that ends a parse or resume call, with the sticky error chosen as in `xp_parse_error`. |
| `NativeParser.Parser.Guard` | native/xpact_native.c:772-793 | The guards of `XML_Parse` in their order; a refused call changes the error code only, or finishes a parser without a bridge. |
| `NativeParser.Parser.AcceptChunk` | native/xpact_native.c:794-800 | The chunk is committed and the slice handed to the bridge equals the input as it was on entry. |
| `NativeParser.Parser.Parse` | native/xpact_native.c:768-818 | Refines `XML_Parse`: new state, history, status and parent credit are those of the model, whatever the bridge and its callbacks do. |
| `NativeParser.Parser.GetBuffer` | native/xpact_native.c:820-831 | Refines `XML_GetBuffer`; a returned region is in bounds and starts behind the window. |
| `NativeParser.Parser.ParseBuffer` | native/xpact_native.c:833-863 | Refines `XML_ParseBuffer`, whose input aliases the buffer it is committed to. |
| `NativeParser.Parser.ResumeParser` | native/xpact_native.c:914-958 | Refines `XML_ResumeParser`: an empty delivery with the recorded final flag. |
| `NativeParser.Parser.Reset` | native/xpact_native.c:282-321 | Refines `XML_ParserReset`: storage kept, everything else as new, child count zero; the flags kept for children are cleared. A refused reset keeps count and flags. |
| `NativeParser.Parser.constructor` | native/xpact_native.c:228-280 | A new parser is the initial state, NOT_STARTED without a bridge. |
| `NativeParser.Parser.Child` | native/xpact_native.c:979-1009 | A child is a new parser with its parent link, its parameter and literal flags, and no flags pending for a child of its own. |
| `NativeParser.Parser.ExternalEntityParserCreate` | native/xpact_native.c:969-1051 | A child exists exactly when bridge, creation and the four configuration calls succeed, else the parent gets the error code of the failing step; it is a parameter child without a context or when flagged so, and the flags are spent exactly from the first configuration call on. |
| `ShellRuns.CreatedSound` | native/xpact_native.c:228-280 | A parser as it was made, by its user or for an external entity, satisfies the invariant of reachable states. |
| `ShellRuns.GrownIsPow2` | native/xpact_native.c:82-96 | From a power of two the doubling loop stops at a power of two of at most 2^30, less than twice the request unless nothing was doubled. |
| `ShellRuns.CapacityForSound` | native/xpact_native.c:82-112 | Capacity after a request: a power of two from 2^10 to 2^30 that covers the request. |
| `ShellRuns.AcceptSound` | native/xpact_native.c:794-800 | Committing a chunk appends it to the accepted input and keeps the window its tail, or is refused with NO_MEMORY alone. |
| `ShellRuns.ThroughSound` | native/xpact_native.c:801-816 | Whatever the bridge answers and its callbacks do, one call keeps the window a tail of the input, logs exactly its bytes and, if final, closes the parser. |
| `ShellRuns.ParseSound` | native/xpact_native.c:768-818 | `XML_Parse` keeps the invariant of reachable states. |
| `ShellRuns.ParseBufferSound` | native/xpact_native.c:833-863 | `XML_ParseBuffer` keeps the invariant of reachable states. |
| `ShellRuns.GetBufferSound` | native/xpact_native.c:820-831 | `XML_GetBuffer` keeps the invariant of reachable states. |
| `ShellRuns.ResumeSound` | native/xpact_native.c:914-958 | `XML_ResumeParser` keeps the invariant of reachable states. |
| `ShellRuns.ResetSound` | native/xpact_native.c:282-321 | `XML_ParserReset` keeps the invariant of reachable states. |
| `ShellRuns.StepSound` | native/xpact_native.c:768-958 | Every entry point keeps the invariant: window is the tail of the accepted input, the bridge log matches it, lifecycle and history agree. |
| `ShellRuns.RunSound` | native/xpact_native.c:768-958 | The invariant holds after every run of calls, with any bridge answers, callbacks and allocation failures. |
| `ShellRuns.RunSameParser` | native/xpact_native.c:282-321 | Over every run bridge and parent stay, and the parameter flag of a child stays for life. |
| `ShellTheorems.WindowIsTailOfInput` | native/xpact_native.c:81-121 | In every state of every run, of a parser made by its user or for an external entity, the first `bufferLength` bytes of the buffer are exactly the last `bufferLength` bytes committed since creation or reset, and the capacity is 0 or a power of two from 2^10 to 2^30. |
| `ShellTheorems.RefusalChangesNothing` | native/xpact_native.c:82-104 | In every reachable open state a request is refused exactly when it is negative, `bufferLength + len` exceeds 2^30 or a needed allocation fails; a refusal sets the error code and nothing else, a grant changes the capacity and nothing else. |
| `ShellTheorems.ParseRefusedExactly` | native/xpact_native.c:784-797 | In every reachable state past the guards `XML_Parse` accepts its chunk exactly when the total fits 2^30 and no needed allocation fails; otherwise it is ERROR with NO_MEMORY and changes nothing else. |
| `ShellTheorems.ParsingHasBuffer` | native/xpact_native.c:848-857 | The zero-length branch of `XML_ParseBuffer` for a PARSING parser without a buffer is never taken. |
| `ShellTheorems.EveryByteDelivered` | native/xpact_native.c:794-801 | Over every run the bytes the bridge has seen are the accepted chunks, concatenated in order. |
| `ShellTheorems.ParseHistory` | native/xpact_native.c:768-801 | One parse call accepts and delivers its chunk whole, in an open state, or changes no history. |
| `ShellTheorems.ResumeDelivers` | native/xpact_native.c:936-943 | A resume that enters the bridge delivers zero bytes with the final flag of the last accepted chunk, and accepts nothing. |
| `ShellTheorems.StepHistory` | native/xpact_native.c:776-794 | Apart from reset, a call adds at most one chunk to the accepted input, and only in an open state. |
| `ShellTheorems.FinalIsFinal` | native/xpact_native.c:776-817 | Once a final chunk is accepted, no run without reset accepts a chunk or lets a further byte reach the bridge. |
| `ShellTheorems.FinishedStaysFinished` | native/xpact_native.c:776-787 | FINISHED is left by reset alone, and in it neither the accepted input nor the bridge log grows. |
| `ShellErrors.ErrorIsRecorded` | native/xpact_native.c:806-808 | An ERROR from the bridge leaves a nonzero code, the same in `errorCode` and `parseErrorCode`. |
| `ShellErrors.ErrorIsSticky` | native/xpact_native.c:784-787 | A parse error is never forgotten before reset: no chunk is accepted, no byte reaches the bridge; and unless a resume is taken in SUSPENDED, the code and the bridge log stay what they were. |
| `ShellErrors.ResumeKeepsCodeExactly` | native/xpact_native.c:922-925 | A resume keeps the recorded code whatever the bridge answers, if and only if the parser is not SUSPENDED. |
| `ShellErrors.CodeKeptExactly` | native/xpact_native.c:936-949 | Over every run without reset the recorded code is the same after each call, if and only if every resume taken in SUSPENDED that the bridge answers with ERROR names this code, or names none where its callbacks left this code, or names none and they left none where the code is UNEXPECTED_STATE. |
| `ShellErrors.ResumeMayReplaceError` | native/xpact_native.c:936-949 | A concrete run in which a resumed bridge replaces the recorded code. |
| `ShellStops.LeaveFlagsExactly` | native/xpact_native.c:803-815 | For each bridge answer, after the merges of a child, exactly when the dispatch leaves stop flags and state in agreement. |
| `ShellStops.FlagsMatchExactly` | native/xpact_native.c:768-958 | Over every run, flags and state agree after each call, if and only if, after the merges of a child, no call ends OK over a suspension or over an abort on a chunk that is not final, or SUSPENDED over an abort. |
| `ShellStops.LeavePendingExactly` | native/xpact_native.c:803-815 | A call leaves a stop pending in PARSING, if and only if after the merges of a child it ends OK, on a chunk that is not final, over a stop taken. |
| `ShellStops.GuardsReachedExactly` | native/xpact_native.c:889-896 | Over every run of a root or child parser: the state the two guards ask for is never there after a call, if and only if no call ends so. |
| `ShellStops.LeaveFlags` | native/xpact_native.c:803-815 | Under the bridge contract the status dispatch keeps the state an accepted stop has set; after an accepted abort the call ends FINISHED with ERROR. |
| `ShellStops.ContractAddsExactly` | native/xpact_native.c:803-815 | What the bridge contract asks beyond such answers: no OK over an abort on a final chunk, and no SUSPENDED unless the parser is suspended. |
| `ShellStops.StopFlagsMatchState` | native/xpact_native.c:865-912 | Under the bridge contract, after every call of every run: a pending abort means FINISHED, a pending resumable stop means SUSPENDED. |
| `ShellStops.PendingStopGuardsUnreachable` | native/xpact_native.c:889-896 | Under the bridge contract the two guards for a stop already pending in PARSING are never taken, between calls or in a callback, for root and child parsers. |
| `ShellStops.StopTakenExactly` | native/xpact_native.c:865-912 | Under the bridge contract a stop is taken exactly in PARSING, except suspending a parameter entity, or as an abort in SUSPENDED; a refusal changes the error code alone, and a stop taken is refused when it is asked for again at once. |
| `ShellStops.BrokenContractReachesGuard` | native/xpact_native.c:889-892 | A concrete bridge that answers OK after an accepted abort makes the first of the two guards reachable. |
| `ShellOutcomes.ParseRefusals` | native/xpact_native.c:772-787 | The refusals of `XML_Parse` and their codes, in order: INVALID_ARGUMENT, SUSPENDED, FINISHED, the recorded parse error; nothing but the code changes. |
| `ShellOutcomes.ParseWithoutBridge` | native/xpact_native.c:788-793 | Without a bridge the first input is answered NOT_STARTED, leaves FINISHED and records the final flag. |
| `ShellOutcomes.ThroughConcludes` | native/xpact_native.c:129-176 | One bridge call, whatever its callbacks did: the status told is the bridge answer, turned into ERROR only by a failed merge of a child; state and error code are those of that status. |
| `ShellOutcomes.ParseConcludes` | native/xpact_native.c:798-817 | Past guards and allocation the chunk is accepted and delivered; OK leaves PARSING, or FINISHED after a final chunk, SUSPENDED leaves SUSPENDED, both with no error; ERROR without a stop leaves PARSING with its code recorded: that of the bridge, else EXTERNAL_ENTITY_HANDLING for a failed merge, else UNEXPECTED_STATE when callbacks left none. |
| `ShellOutcomes.ResumeConcludes` | native/xpact_native.c:931-957 | A resume taken in SUSPENDED concludes in the same way, by the recorded final flag. |
| `ShellOutcomes.OkStaysWilling` | native/xpact_native.c:809-811 | After OK on a chunk that is not final the parser is PARSING and takes input again. |
| `ShellOutcomes.ChunksAreTaken` | native/xpact_native.c:768-818 | A parser with a bridge and no error takes every sequence of chunks of up to 2^30 bytes that its bridge answers with OK, in order, and is ready for more. |
| `ShellOutcomes.CreatedReports` | native/xpact_native.c:250-279 | A new parser is INITIALIZED, with no error, or NOT_STARTED without a bridge. |
| `ShellOutcomes.StopCodes` | native/xpact_native.c:870-911 | The codes of `XML_StopParser`: NOT_STARTED, FINISHED, SUSPENDED and SUSPEND_PE for refusals; ABORTED for an abort, none for a suspension taken. |
| `ShellOutcomes.PendingStopCodes` | native/xpact_native.c:889-910 | Over a stop already pending in PARSING: FINISHED after an abort, SUSPENDED for a second suspension; an abort over a suspension is taken. |
| `ShellOutcomes.GetBufferCodes` | native/xpact_native.c:822-829 | The codes of a refused `XML_GetBuffer`: NO_MEMORY for a negative length, SUSPENDED, FINISHED. |
| `ShellOutcomes.ParseBufferCodes` | native/xpact_native.c:836-862 | The codes of a refused `XML_ParseBuffer`: INVALID_ARGUMENT, SUSPENDED, FINISHED, NO_BUFFER; any other call is `XML_Parse` on the bytes behind the window. |
| `ShellOutcomes.ConsumeExactly` | native/xpact_native_private.h:82-96 | Exactly the pending bytes and up to 1024 bytes before them are kept; a count out of range changes nothing. |
| `ShellOutcomes.ResumeWithoutBridge` | native/xpact_native.c:926-930 | A suspended parser without a bridge, which is never reached, would end FINISHED with NOT_STARTED. |
| `ShellOutcomes.ResumeRefused` | native/xpact_native.c:922-925 | A resume elsewhere than in SUSPENDED is NOT_SUSPENDED and changes nothing else. |
| `ShellOutcomes.ResetCodes` | native/xpact_native.c:286-320 | Reset succeeds exactly for a root parser with a bridge that resets; only a missing bridge leaves a code; success leaves a parser as made, but for its storage. |
| `ShellOutcomes.ChildCodes` | native/xpact_native.c:975-997 | The code a failed request for a child leaves in the parent: NOT_STARTED, NO_MEMORY or INVALID_ARGUMENT; a granted one leaves the parent as it was. |
| `ShellEquivalence.ParseSame` | native/xpact_native.c:768-818 | Two parsers equal but for capacity that get their memory answer `XML_Parse` alike and stay equal but for capacity. |
| `ShellEquivalence.BufferSimulatesParse` | native/xpact_native.c:820-863 | Writing m bytes into the region of a successful `XML_GetBuffer(n)`, m <= n, and calling `XML_ParseBuffer(m)` is `XML_Parse` of these bytes: same window, history, state, status and credit, whatever the second allocation would have answered. |
| `ShellEquivalence.StepAlike` | native/xpact_native.c:768-958 | One polite call keeps two parsers that differ in capacity alone indistinguishable. |
| `ShellEquivalence.RunAlike` | native/xpact_native.c:768-958 | No polite run tells two parsers apart that differ in capacity alone: same answers, error codes, windows and bridge log. |
| `ShellEquivalence.ResetIsFresh` | native/xpact_native.c:283-321 | After any run and a successful reset, every later polite run has the answers, error codes and bridge log of the same run on a newly created parser. |
| `ShellEquivalence.StorageShowsAfterReset` | native/xpact_native.c:848-862 | Bytes handed to `XML_ParseBuffer` right after reset without asking for a buffer are answered as on a new parser if and only if no storage was retained. |
| `ShellBounds.ActAllHolds` | native/xpact_native_private.h:82-96 | Through any callbacks whose pending counts do not grow, the window holds exactly the pending bytes and up to 1024 bytes before them. |
| `ShellBounds.RunStaysWithin` | native/xpact_native.c:81-121 | Over a run within its limits, context, window length and capacity stay within theirs. |
| `ShellBounds.MemoryIsBounded` | native/xpact_native_private.h:82-96 | Whatever the total input: with chunks and requests of at most C bytes and at most P pending bytes, the window is the last min(total, 1024 + pending) bytes, is never longer than 1024 + P + C, and the capacity stays below max(1025, 2(1024 + P + C)). |
| `ChildForest.LeaveKeeps` | native/xpact_native.c:129-176 | Leaving a call, a parser merges at most once in its life, and credits its parent exactly for a final, non-empty `XML_Parse` that returns OK. |
| `ChildForest.NextKeeps` | native/xpact_native.c:768-1084 | Every event of the forest, with calls on different parsers nested or interleaved, keeps its invariant. |
| `ChildForest.AfterKeeps` | native/xpact_native.c:768-1084 | The invariant holds after every schedule of events. |
| `ChildForest.ChildrenAreCountedOnce` | native/xpact_native.c:129-176 | In every reachable forest a parent is older than its child, a parser merges at most once, and a parent's `externalChildParseCount` is the number of its children whose final non-empty `XML_Parse` returned OK since its last reset. |
| `ChildForest.ChildIsAdded` | native/xpact_native.c:999-1009 | A granted request adds a child as made, linked to its parent and with the flag it was asked for; one not granted adds none. |
| `ChildForest.ResetForgetsChildren` | native/xpact_native.c:286-299 | A reset that succeeds starts the count of children anew, one that is refused keeps it. |
| `ChildForest.ParentIsForever` | native/xpact_native.c:286-288 | A parent link never changes, so children stay under the parser that made them. |
| `ChildForest.EveryParserDelivers` | native/xpact_native.c:81-121 | However calls on parents and children are nested or interleaved, the window of each parser is the end of its own accepted input and its bridge has seen exactly this input, in order. |
| `ForestRuns.FollowFits` | native/xpact_native.c:768-1084 | One event of the forest moves each parser along its own run: calls with their callbacks, child requests among them, become single operations. |
| `ForestRuns.IdleIsRun` | native/xpact_native.c:768-1084 | Between any two moments at which a parser is idle it has made a run of its own, whatever other parsers did before, meanwhile or inside its calls. |
| `ForestRuns.EveryParserRuns` | native/xpact_native.c:768-1084 | Every idle parser of every reachable forest is where some run from its making leads, and satisfies the invariant of runs. |
| `ForestRuns.FinalIsFinalInForest` | native/xpact_native.c:776-817 | Once a parser of a forest has accepted a final chunk, no byte reaches its bridge until it is reset. |
| `ForestRuns.ErrorIsStickyInForest` | native/xpact_native.c:784-787 | A parser of a forest never forgets a parse error and accepts nothing after it until it is reset; the code stays unless a resume is taken in SUSPENDED. |
| `ForestRuns.StopFlagsMatchInForest` | native/xpact_native.c:865-912 | Stop flags and state of a parser agree as long as the answers of its own calls keep the bridge contract. |
| `ForestRuns.MemoryIsBoundedInForest` | native/xpact_native_private.h:82-96 | Window and capacity of a parser of a forest are bounded by its own chunks and pending bytes, whatever others are fed. |
| `Utf8.DecodeEncoded` | native/xpact_native_private.h:108-126 | A strict RFC 3629 decoder (sections 3 and 4) returns the scalars that were encoded. |
| `Utf8.EncodeDecoded` | native/xpact_native_private.h:108-126 | Re-encoding what that decoder accepts gives the same bytes: every well-formed text has one encoding, the one produced here. |
| `Utf8.SampleEncodings` | native/xpact_native_private.h:108-126 | The encodings of one character of each length that section 7 of RFC 3629 gives. |
| `Utf8Trim.AnnouncedByMask` | adapters/libexpat/xpact_test_shims.c:74-95 | The lead bytes of each length are those of the bit masks in the loop. |
| `Utf8Trim.TrimToCompleteCharacters` | adapters/libexpat/xpact_test_shims.c:69-98 | On any bytes the backward loop ends, never leaves the original range, and returns the value of the walk specification, although `walked` is reset on the way. |
| `Utf8Trim.TrimAnyCut` | adapters/libexpat/xpact_test_shims.c:69-98 | For every text and every cut of its UTF-8 encoding, the walk returns exactly the end of the last character complete before the cut. |
| `UnknownEncodingDecoder.Output.AppendUtf8` | native/xpact_native_private.h:98-144 | Appends the encoding of a scalar, or leaves text and array alone: exactly for a non-scalar, or when growth is needed and refused. Growth is asked for exactly when the bytes and the NUL do not fit, to the larger of double and need. |
| `UnknownEncodingDecoder.InfoIsValid` | native/xpact_native_private.h:146-173 | The two table loops accept exactly the valid tables: ASCII mapped to itself, -2 to -4 only with a converter, no other entry below 128 or above 0xffff. |
| `UnknownEncodingDecoder.DecodeLoop` | native/xpact_native_private.h:242-282 | NO_MEMORY exactly when one of the allocations the input asks for is refused; otherwise the encoding of exactly the scalars of the recursive specification, or its first error. |
| `UnknownEncodingDecoder.DecodeUnknownEncodingInput` | native/xpact_native_private.h:180-292 | The result in every case: UNKNOWN_ENCODING for refusals and invalid tables, NO_MEMORY exactly when an allocation that is asked for fails, else the specification's text or first error (the last UNKNOWN_ENCODING branch is unreachable); after the handler has answered, its `release` is called once on each path, never twice and after the last use of the converter. |
| `UnknownEncodingDecoder.RequestsGrow` | native/xpact_native_private.h:127-138 | Reading on never takes an allocation request back. |
| `UnknownEncodingDecoder.SingleByteExactly` | native/xpact_native_private.h:243-258 | A byte with an entry of its own decodes to that scalar; a surrogate entry or none makes INVALID_TOKEN. |
| `UnknownEncodingDecoder.SequenceExactly` | native/xpact_native_private.h:259-276 | A lead announcing n bytes decodes, with exactly these n bytes, to what the converter makes of all of them, or is INVALID_TOKEN if that is no scalar; fewer bytes are PARTIAL_CHAR. |
| `UnknownEncodingDecoder.ValidTables` | native/xpact_native_private.h:146-173 | A table is valid exactly if ASCII stands for itself, other entries are -4 to -1 or 128 to 0xffff, and none is below -1 without a converter. |
| `UnknownEncodingDecoder.DecodeConcat` | native/xpact_native_private.h:242-282 | Input that decodes, followed by any other input, decodes to its scalars followed by the rest, or fails as the rest fails. |
| `UnknownEncodingDecoder.AsciiIsItself` | native/xpact_native_private.h:149-154 | Under every valid table ASCII input comes out byte for byte. |
| `UnknownEncodingDecoder.OutputIsWellFormed` | native/xpact_native_private.h:242-291 | The output is well-formed UTF-8 and decodes back to the scalars of the input. |
| `DecoderSizes.DecodedIsRead` | native/xpact_native_private.h:242-282 | Input that decodes is read to its end, so the bounds below are bounds on its output. |
| `DecoderSizes.EnlargedOnce` | native/xpact_native_private.h:127-138 | The output array is enlarged at most once, by doubling, whatever the table and input. |
| `DecoderSizes.OutputIsBounded` | native/xpact_native_private.h:228-282 | At most 3 bytes of output for a byte of input, in at least 16 and at most max(16, 6*length+1) bytes, with at most two allocations. |
| `DecoderSizes.SafeStaysInInt` | native/xpact_native_private.h:127-131 | For inputs of at most 536,870,911 bytes every sum and doubling stays within `int`. |
| `DecoderSizes.LongOverflows` | native/xpact_native_private.h:127-131 | For every longer length, a table and an input of that length whose sizes leave `int`. |
| `DecoderSizes.IntSufficesExactly` | native/xpact_native_private.h:228-231 | The size computations stay within `int` for every table and every input of a length, if and only if the length is at most 536,870,911. |
| `Crc32.StepLinear` | tests/native/xpact_chunked_crc.c:74-80 | One step of the shift register with polynomial 0xedb88320 is linear over XOR. |
| `Crc32.TableStepIsSerial` | tests/native/xpact_chunked_crc.c:92-100 | For every 32-bit register and byte, one table lookup and shift equals eight bit-serial steps of the reflected polynomial (section 8 of RFC 1952). |
| `Crc32.SerialConcat` | tests/native/xpact_chunked_crc.c:92-100 | Updating by pieces equals updating by their concatenation. |
| `Crc32.Table.Prepare` | tests/native/xpact_chunked_crc.c:63-84 | The nested loops fill the table, once, with the eight-step image of every byte. |
| `Crc32.Table.Update` | tests/native/xpact_chunked_crc.c:92-100 | The table-driven loop computes the bit-serial CRC of the bytes. |
| `EventDigest.MergeIsMerged` | tests/native/xpact_chunked_crc.c:186-196 | Merging leaves no empty text and no two texts side by side. |
| `EventDigest.MergeIdempotent` | tests/native/xpact_chunked_crc.c:186-196 | Merging a merged trace changes nothing. |
| `EventDigest.SplitInvariant` | tests/native/xpact_chunked_crc.c:260-276 | Cutting a text in two anywhere in a trace leaves the merged trace unchanged. |
| `EventDigest.EmptyTextInvariant` | tests/native/xpact_chunked_crc.c:264-266 | An empty text anywhere in a trace leaves the merged trace unchanged. |
| `EventDigest.ReadBack` | tests/native/xpact_chunked_crc.c:112-131 | A reader of the tagged, length-prefixed stream returns the events it was written from, when lengths and counts are below 2^32. |
| `EventDigest.StreamDeterminesMergedTrace` | tests/native/xpact_chunked_crc.c:210-276 | Two traces give the same stream if and only if they agree once adjacent text is merged. |
| `EventDigest.LengthFieldWraps` | tests/native/xpact_chunked_crc.c:112-121 | Lengths that differ by 2^32 are written alike. |
| `EventDigest.LongNameIsAmbiguous` | tests/native/xpact_chunked_crc.c:123-131 | Two different merged traces with one stream: an end tag with a name of 2^32 bytes, and two end tags with shorter names. |
| `EventDigest.FieldWidthIsExact` | tests/native/xpact_chunked_crc.c:112-131 | For sizes below a bound the stream determines the merged trace, if and only if the bound is at most 2^32, names and attributes being strings without a NUL. |
| `EventDigest.SampleRecords` | tests/native/xpact_chunked_crc.c:210-258 | The records of a start tag, a text and an end tag, byte by byte: tags, little-endian lengths, counts and strings in their order. |
| `EventDigest.StreamOfThree` | tests/native/xpact_chunked_crc.c:210-276 | The stream of several events is their records one behind the other. |
| `ChunkedCrc.CheckValue` | tests/native/xpact_chunked_crc.c:63-110 | The CRC-32 of the text `a` is 0xe8b7be43. |
| `ChunkedCrc.RecordedKeepsAll` | tests/native/xpact_chunked_crc.c:271-275 | The trace digest takes in every callback that is not an empty text. |
| `ChunkedCrc.RecordedSkipsEmpty` | tests/native/xpact_chunked_crc.c:264-266 | An empty text changes neither the trace digest nor the text counter. |
| `ChunkedCrc.OneText` | tests/native/xpact_chunked_crc.c:275 | A text adds its length to the counter. |
| `ChunkedCrc.TextIsCounted` | tests/native/xpact_chunked_crc.c:275 | The text counter is the number of text bytes in the merged trace. |
| `ChunkedCrc.TextBuffer.NewCapacity` | tests/native/xpact_chunked_crc.c:142-148 | The doubling loop stays within `size_t`, covers the need, and gives up exactly beyond 2^63 bytes. |
| `ChunkedCrc.TextBuffer.Append` | tests/native/xpact_chunked_crc.c:133-159 | The text is appended, or nothing changes: exactly when it does not fit and either the reallocation fails or 2^63 bytes would be passed; the length of a text of `int` size never wraps the sum. |
| `ChunkedCrc.ParseDigest.constructor` | tests/native/xpact_chunked_crc.c:169-179 | A new digest has seen no event. |
| `ChunkedCrc.ParseDigest.FlushSemanticText` | tests/native/xpact_chunked_crc.c:186-196 | Afterwards the semantic register is the CRC of the stream of the merged trace, and no text is pending. |
| `ChunkedCrc.ParseDigest.DigestStart` | tests/native/xpact_chunked_crc.c:225-238 | The register takes in exactly the record of the tag, attribute loop included. |
| `ChunkedCrc.ParseDigest.StartElement` | tests/native/xpact_chunked_crc.c:210-240 | Keeps both registers, counters and pending text those of the callbacks seen so far, start tag included; a failed digest ignores it. |
| `ChunkedCrc.ParseDigest.EndElement` | tests/native/xpact_chunked_crc.c:242-258 | The same for an end tag. |
| `ChunkedCrc.ParseDigest.CharacterData` | tests/native/xpact_chunked_crc.c:260-276 | The same for text; it fails only when the buffer cannot grow, and then the state stays as it was. |
| `ChunkedCrc.ParseDigest.Conclude` | tests/native/xpact_chunked_crc.c:363-371 | The final semantic digest is that of the merged trace, the trace digest that of the callbacks as they came. |
| `ChunkedCrc.DigestIgnoresSplits` | tests/native/xpact_chunked_crc.c:186-276 | However character data is divided between callbacks, the semantic digest is the same. |
| `ChunkedFeed.ChunksCover` | tests/native/xpact_chunked_crc.c:349-360 | The division of a document into chunks loses nothing and keeps the order. |
| `ChunkedFeed.OnlyLastChunkFinal` | tests/native/xpact_chunked_crc.c:350-355 | Every chunk but the last has exactly the chunk size, the last at most; exactly the last is final, and only an empty document has an empty chunk. |
| `ChunkedFeed.ParseChunk` | tests/native/xpact_chunked_crc.c:294-312 | Directly or through the parser's buffer, a chunk leaves the parser what `XML_Parse` of the chunk makes of it, up to capacity and with the same status; a refused buffer request is ERROR and changes nothing more. |
| `ChunkedFeed.TakenHistory` | tests/native/xpact_chunked_crc.c:294-312 | In either mode a chunk is accepted and delivered whole, or not at all and then not answered OK. |
| `ChunkedFeed.ParseDocument` | tests/native/xpact_chunked_crc.c:314-361 | For every chunk size and mode: if every call returns OK the bridge has seen exactly the document in its chunks with the last one final, otherwise a beginning of that; and every call does return OK if the bridge answers OK, memory is granted, and the document has at most 2^30 bytes. |
| `CanonicalXml.UnescEsc` | reports/issue-0154/tools/harness/canonical.py:7-11 | `esc` has a left inverse, so it loses nothing. |
| `CanonicalXml.EscConcat` | reports/issue-0154/tools/harness/canonical.py:10-11 | Escaping pieces and joining equals escaping the joined text. |
| `CanonicalXml.EscSafe` | reports/issue-0154/tools/harness/canonical.py:7-11 | Escaped text holds no `<`, `>` or quotation mark, and is empty only for empty text. |
| `CanonicalXml.PrintCanonical` | reports/issue-0154/tools/harness/canonical.py:14-43 | The loop, with its list, dictionary and insertion at the DOCTYPE position, computes the fold over the events, notations included. |
| `CanonicalXml.CanonicalPrintsNormal` | reports/issue-0154/tools/harness/canonical.py:16-43 | Without notations the text printed is that of the normal form: ignored kinds dropped, text merged, attributes sorted. |
| `CanonicalXml.ReadAttributesBack` | reports/issue-0154/tools/harness/canonical.py:21-22 | Printed attributes are read back in order with their unescaped values. |
| `CanonicalXml.ReadNodesBack` | reports/issue-0154/tools/harness/canonical.py:16-28 | Reading a printed normal form returns it. |
| `CanonicalXml.CanonicalIsFaithful` | reports/issue-0154/tools/harness/canonical.py:14-43 | Two notation-free event lists with XML names and instruction data free of `?>` have the same canonical text if and only if they have the same normal form. |
| `CanonicalXml.EndMarkInDataIsAmbiguous` | reports/issue-0154/tools/harness/canonical.py:27-28 | The condition on instruction data is needed: two concrete lists with different normal forms print alike. |
| `CanonicalXml.AttributeOrderIsForgotten` | reports/issue-0154/tools/harness/canonical.py:21-22 | Attributes in another order, anywhere in a document, give the same canonical text. |
| `CanonicalXml.TextSplitIsForgotten` | reports/issue-0154/tools/harness/canonical.py:25-26 | Text cut in two, anywhere in a document, gives the same canonical text. |
| `CanonicalMeaning.PairsByIndex` | reports/issue-0154/tools/harness/canonical.py:21 | The attributes printed are the names at even places with the values behind them, by index; none is lost and an odd last name is dropped. |
| `CanonicalMeaning.StartsPrintAlikeExactly` | reports/issue-0154/tools/harness/canonical.py:19-22 | Two start tags of the same name print alike if and only if they have the same name-value pairs in some order. |
| `CanonicalMeaning.NormalOfTidy` | reports/issue-0154/tools/harness/canonical.py:16-28 | A list with nothing to drop or merge has a normal form with each event in its place, whole. |
| `CanonicalMeaning.DroppedIsForgotten` | reports/issue-0154/tools/harness/canonical.py:16-40 | Events of other kinds and empty texts, and no others, leave the normal form unchanged. |
| `CanonicalMeaning.OutPrintsNormal` | reports/issue-0154/tools/harness/canonical.py:16-40 | The output before the DOCTYPE is inserted is the text of the normal form, notations or not. |
| `CanonicalMeaning.DoctypeStandsAtItsEnd` | reports/issue-0154/tools/harness/canonical.py:31-32 | With notations, the DOCTYPE stands behind what was printed before the last end of a document type declaration, and the rest is the text without it. |
| `CanonicalMeaning.DoctypeStandsInFront` | reports/issue-0154/tools/harness/canonical.py:41-43 | Without such an end it stands in front. |
| `CanonicalMeaning.RootIsFirst` | reports/issue-0154/tools/harness/canonical.py:19-30 | The name in the DOCTYPE is that of the first document type declaration or element. |
| `CanonicalMeaning.NotationsAreLast` | reports/issue-0154/tools/harness/canonical.py:33-40 | One notation a name, the last declared. |
| `CanonicalMeaning.SampleNotations` | reports/issue-0154/tools/harness/canonical.py:34-40 | The three forms of a notation, an empty identifier counting as missing. |
| `CanonicalMeaning.SampleDoctype` | reports/issue-0154/tools/harness/canonical.py:42 | The text of a DOCTYPE with two notations. |
| `CanonicalMeaning.DoctypeForgetsOrder` | reports/issue-0154/tools/harness/canonical.py:42 | Notations are listed by name, whatever the order of their declarations. |
| `CanonicalMeaning.SampleNodes` | reports/issue-0154/tools/harness/canonical.py:19-28 | The text of a node of each kind. |
| `CanonicalMeaning.SampleEscapes` | reports/issue-0154/tools/harness/canonical.py:7-11 | The seven escapes. |
| `TextOrder.LeqIsBefore` | reports/issue-0154/tools/harness/canonical.py:21 | The order is that of the first differing character, a beginning coming first. |
| `TextOrder.SortedIsSorted` | reports/issue-0154/tools/harness/canonical.py:21 | Sorting returns a sorted permutation. |
| `TextOrder.SortedUnique` | reports/issue-0154/tools/harness/canonical.py:21 | There is only one sorted arrangement of given pairs. |
| `TextOrder.SortedForgetsOrder` | reports/issue-0154/tools/harness/canonical.py:21 | Sorted lists are equal if and only if the lists are permutations of each other. |
| `EventRecorder.Recorder.Add` | reports/issue-0154/tools/harness/engines.py:33-39 | The recorder keeps its list, text pieces in place, the merged list of all events added so far. |
| `EventRecorder.Recorder.Events` | reports/issue-0154/tools/harness/engines.py:41-43 | The list read is exactly the events as they were added, of whatever kind, with adjacent texts joined. |
| `EventRecorder.MergedIsApart` | reports/issue-0154/tools/harness/engines.py:33-43 | No two texts of a merged list are side by side. |
| `EventRecorder.ApartIsMerged` | reports/issue-0154/tools/harness/engines.py:33-43 | A list without adjacent texts is left alone. |
| `EventRecorder.RecordedSplitIsForgotten` | reports/issue-0154/tools/harness/engines.py:33-43 | Cutting a text in two, anywhere among any events, gives the same list. |
| `EventRecorder.MergeKeepsNormal` | reports/issue-0154/tools/harness/engines.py:33-43 | Merging keeps the normal form, so canonical texts may be taken of recorded lists. |
| `WorkerPool.ReceivedIsOwn` | reports/issue-0154/tools/harness/pool.py:63-75 | The item received is the answer to the job being waited for, or the end mark of a dead process. |
| `WorkerPool.NextKeeps` | reports/issue-0154/tools/harness/pool.py:35-75 | Every step of caller, reader, worker, death or timeout keeps the invariant of the pool. |
| `WorkerPool.AnswersMatchJobs` | reports/issue-0154/tools/harness/pool.py:59-75 | Over every interleaving: a line returned by a call answers the job of that same call, CRASH is returned for dead processes only, and a process that crashed or timed out never serves again. |
| `WorkerPool.ResultsExactly` | reports/issue-0154/tools/harness/pool.py:59-75 | Over every interleaving each call returns exactly what its end calls for: its own line if one came in time, CRASH on the end mark or a broken pipe, TIMEOUT when time ran out. |
| `WorkerPool.StepReturns` | reports/issue-0154/tools/harness/pool.py:66-75 | A call that gets a line keeps its process; any other end gives it up. |
| `WorkerPool.NoneOutOfTime` | reports/issue-0154/tools/harness/pool.py:66-68 | A schedule in which time never runs out has no call that ends so. |
| `WorkerPool.EnterUses` | reports/issue-0154/tools/harness/pool.py:60-61 | A call uses the process at hand if it is alive, and starts one otherwise. |
| `WorkerPool.CloseGivesUp` | reports/issue-0154/tools/harness/pool.py:51-57 | `close` gives the process up, and the next call starts another. |
| `WorkerPool.DeathKeepsLines` | reports/issue-0154/tools/harness/pool.py:45-49 | Lines written before a worker died are still read. |
| `WorkerPool.AnsweredInTime` | reports/issue-0154/tools/harness/pool.py:59-75 | From a pool at rest a call whose worker answers in time returns that line and leaves the pool at rest with the same process. |
| `WorkerPool.LateLineIsPossible` | reports/issue-0154/tools/harness/pool.py:66-68 | A concrete schedule in which an answer arrives after its call timed out, in the abandoned queue. |
| `TagCounter.HashStr` | examples/contributed/c-expat-xml-tag-counter/xmlcount_byfreq.c:20-28 | The loop computes the 64-bit hash of the whole name. |
| `TagCounter.HashIsDjb2` | examples/contributed/c-expat-xml-tag-counter/xmlcount_byfreq.c:19-32 | The hash is 5381 followed by the characters as digits to base 33, modulo 2^64, and the bucket its remainder by 257. |
| `TagCounter.TagTable.Find` | examples/contributed/c-expat-xml-tag-counter/xmlcount_byfreq.c:31-41 | The walk along one chain finds the one node of that name, or there is none in the whole table. |
| `TagCounter.TagTable.Increment` | examples/contributed/c-expat-xml-tag-counter/xmlcount_byfreq.c:30-49 | One more call of this name: every name keeps exactly one node in its own bucket, with its number of calls, and `n_distinct` the number of names. |
| `TagCounter.TagTable.CountExisting` | examples/contributed/c-expat-xml-tag-counter/xmlcount_byfreq.c:35-38 | Incrementing a node keeps the table a tally of the calls. |
| `TagCounter.TagTable.AddNew` | examples/contributed/c-expat-xml-tag-counter/xmlcount_byfreq.c:43-48 | A new node at the head of its bucket keeps the table a tally of the calls. |
| `TagCounter.TagTable.FlattenChain` | examples/contributed/c-expat-xml-tag-counter/xmlcount_byfreq.c:138-142 | The loop over one bucket visits each of its nodes once, every write within the array. |
| `TagCounter.TagTable.Flatten` | examples/contributed/c-expat-xml-tag-counter/xmlcount_byfreq.c:135-143 | The nested loops fill the array of `n_distinct` entries exactly, one entry per name with its number of calls. |
| `TagReport.CompareSwaps` | examples/contributed/c-expat-xml-tag-counter/xmlcount_byfreq.c:63-72 | `compare_entries` is antisymmetric, and zero only for equal entries. |
| `TagReport.CompareTransitive` | examples/contributed/c-expat-xml-tag-counter/xmlcount_byfreq.c:63-72 | `compare_entries` is transitive. |
| `TagReport.Report` | examples/contributed/c-expat-xml-tag-counter/xmlcount_byfreq.c:135-149 | The list printed has descending counts, and among equal counts each name before the next by the first differing character; it is a tally of the calls with `n_distinct` lines. |
| `TagReport.OrderedUnique` | examples/contributed/c-expat-xml-tag-counter/xmlcount_byfreq.c:145 | Two ordered lists of the same distinct entries are equal, so the algorithm of `qsort` cannot show. |
| `TagReport.ReportShowsTallyOnly` | examples/contributed/c-expat-xml-tag-counter/xmlcount_byfreq.c:135-149 | Two reports are equal if and only if the calls were the same up to order: neither buckets nor order of arrival show. |
| `TagReport.CountsAddUp` | examples/contributed/c-expat-xml-tag-counter/xmlcount_byfreq.c:35-48 | The counts add up to the number of calls. |

## Left out

- The Eiffel parser, its tokenizer, entity expansion and namespaces: a bridge call is an arbitrary `Reply` (callback actions, status, error code, merge outcomes). The bridge contract is a hypothesis of the lemmas that name it (`HonestRun` in `ShellStops`), never proved.
- Re-entrant `XML_Parse`, `XML_ParseBuffer`, `XML_ResumeParser`, `XML_GetBuffer` or `XML_ParserReset` on a parser from inside its own callback; other parsers may be called meanwhile (`ChildForest`).
- A NULL parser argument, `XML_ParserFree`, handler setters and getters, user data, base, hash salts, feature list and error strings: storage and forwarding.
- A bridge that is present in part (for example `parser_create` without `parse`): one flag says whether the parser has a usable bridge, at creation and ever after.
- The memory suite, namespace settings and unknown-encoding handler that reset retains, and the bridge's own reset: reset of the bridge succeeds or fails, and a bridge that succeeded answers as a fresh one because its answers are the same universally quantified replies.
- `activeCallbackKind` and `stopCallbackKind`, which are recorded and never decide anything, and the direct and indirect accounting counts copied to a parent.
- `externalChildParseCount` is unbounded in the model; in C it is 32 bits wide, which 2^31 finished children would exceed.
- NativeParser.Parser.ExternalEntityParserCreate: inherited handlers, user data, amplification limits and base are not modelled.
- ChildForest.NextKeeps: the forest is a state machine over model values, with the events of a call split into entry, callbacks and return; the heap form of each call is in `NativeParser`.
- UnknownEncodingDecoder.DecodeUnknownEncodingInput: sizes are unbounded integers; up to which input length they equal the `int` computations is stated exactly in `DecoderSizes`, beyond it C leaves them undefined. The converter is a pure function of the bytes its table entry announces.
- UnknownEncodingDecoder.Output.AppendUtf8: the same for a single append.
- The harness's event and text counters and its `unsigned long` lengths are unbounded integers. C strings are byte strings without a NUL.
- Allocation is an answer, yes or no, given to each request; `memmove` and `realloc` are taken by what they promise.
- CanonicalXml.CanonicalIsFaithful: stated for lists without notation declarations; the DOCTYPE form is modelled in `Canonical` and computed by `PrintCanonical`, but single-quoted identifiers are not escaped and the form is not shown to be injective.
- Python strings are strings of Unicode scalars; lone surrogates from `surrogateescape` are not modelled.
- WorkerPool.AnswersMatchJobs: workers answer each job with one whole line and close their output only by ending; JSON, exit codes and real time are not modelled.
- TagCounter.TagTable.Increment: `malloc` and `strdup` succeed, and the `long` counts are unbounded.
- TagReport.Report: `qsort` and `strcmp` stand for what they promise (an ordered permutation, byte order); formatting and printing of lines are left out.
- `chunks` of the engines, `chunkings` and `escaped` of the regression script and `unescape` of the comparison script: slices and character maps that would only add easy members. `joined_events` is a heuristic that is not invariant under splitting.
- Position reporting (byte index, line, column), benchmark, download, Windows process control and report scripts.
