# A verified model of the embedded PostgreSQL bridge

The repository runs PostgreSQL, compiled to WebAssembly and from there to C, inside a Swift
process. Around the engine stand a WASI shim, a C bridge that pumps wire-protocol messages in
and out, a Swift client and a localhost server. This project models those parts in Dafny and
proves what they keep over whole runs.

| files | what they model |
|---|---|
| `HostCalls`, `FdTable`, `FdBindings`, `Shim` | the shim's descriptor table and the host descriptors behind it, from init to dispose |
| `Errno`, `GuestMemory`, `Readdir`, `Poll`, `Vectors` | shim calls that answer by writing into guest memory |
| `Bytes`, `Framing`, `Utf8`, `Wire`, `Decode`, `Results` | message frames, the Swift encoders and decoders, and the result of a reply |
| `Pump`, `Bridge`, `ReplyText`, `ErrorAgreement`, `Rows`, `Handle` | one exchange with the engine, the bridge's entry points, the text form of a reply and back, the Swift handle |
| `ServerReader`, `ServerHandshake`, `ServerSessions`, `ServerComposition` | the server's reader, one connection from handshake to closing ROLLBACK, all connections interleaved, and the two put together |
| `Transactions`, `AppTransactions` | the app's transactions on the shared backend session, with other tasks' statements in between, and with the server's events as such statements |
| `LinearMemory`, `Table` | growth of memories and tables in the generated code's runtime |

Code that changes state step by step is a method of a class or over an array, and its contract
ties the new state to a function of the old one; the lemmas are about that function. What the
engine, the operating system and the clients do comes in as parameters, so a lemma speaks of
every behaviour of theirs. A guest call returns, leaves through `proc_exit`, or traps.

## Where the code departs from what it is meant to do

Each of these is proved, with the exact condition where there is one.

- `fd_renumber(x, x)` closes `x` (`FdBindings.RenumberMoves`).
- `poll_oneoff` with clocks alone answers with no event when the last of them waits 2^63 ns or
  more, and forgets all clocks before such a one (`Poll.NoAnswerIff`, `Poll.ShortestFrom`,
  `Poll.OverlongClockUnanswered`).
- `memory.grow` returns 0 instead of -1 when the page sum wraps to exactly zero, which a 32-bit
  memory cannot bring about (`LinearMemory.GrowIsSpecifiedIff`, `LinearMemory.ThirtyTwoBitsNeverWrap`).
- A trap while the engine boots does not mark it dead, and the close that follows enters it
  again (`Bridge.BootTrapIsEnteredAgain`).
- A request the bridge refuses for its size leaves the engine alive, and the Swift handle then
  closes the database (`Handle.RefusedRequestCloses`).
- Reading printed rows back gives the table only for rows that survive the trip; a carriage
  return before the line end is one of the ways not to (`Rows.RowsRoundTrip`).
- The C walkers step over a frame in 32 bits, and stand still on one length word, 2^32 - 1
  (`Framing.StepMoves`).
- pgl_exec sends a statement up to its first NUL, the Swift client all of it (`Bridge.SameQueryIff`).
- Where the Swift decoder gives an error up at a field that is not UTF-8, or breaks off without a
  NUL, pgl_exec reads on. The two find the same severity, message and code exactly if what is
  behind that point adds nothing to them (`ErrorAgreement.ErrorLineAgrees`), as it does in
  `ErrorAgreement.UnreadableSeverity`.
- Bytes a client sends ahead in the chunk that completes its password message, or an encryption
  request, are lost (`ServerHandshake.LeftLosesNothingIff`, `ServerHandshake.SentAheadIsLost`).
- The comment at Sources/PGliteKit/PGliteServer.swift:133-134 says that nothing reaches the
  engine before the handshake passes. It holds exactly unless the handshake throws: when the
  stream breaks inside the startup packet or the password message, or when the answer to an
  encryption request, the challenge, or the answer to the password cannot be sent
  (`ServerHandshake.BrokeIff`, `ServerHandshake.UnauthenticatedIff`). Then the closing ROLLBACK
  runs, with any password or none, and nothing else does (`ServerSessions.UnauthenticatedIff`).
  A transaction of the app stays open exactly as long as no such ROLLBACK falls in and nobody's
  batch ends it (`ServerSessions.StaysOpenIff`, `ServerSessions.StrangerUndoesApp`).
- The slot is freed by the transport's event, not by the session. If the transport fails, or the
  server is stopped, under a live connection, the old session's ROLLBACK can fall into the next
  session (`ServerSessions.DisorderBreaks`); otherwise it never does (`ServerSessions.SessionsStayApart`).
- `withTransaction` returns normally, with everything rolled back, when its closure catches the
  errors of its statements, since COMMIT of a failed transaction is no error; and called inside a
  transaction it ends the outer one (`Transactions.ThrowsIff`, `Transactions.NestedEndsOuter`).
- Its promise of all or nothing holds exactly on schedules in which no other task commits a
  statement of the closure, or splits its statements over two transactions, while it awaits
  (`Transactions.KeepsIff`, `Transactions.EarlyCommitBreaks`, `Transactions.SplitBreaks`). A closing
  ROLLBACK of the server between two statements of the closure does, and needs no password
  (`AppTransactions.ClosingSplits`, `AppTransactions.StrangerBreaksPromise`).
- A batch that ends in Terminate but does not start with it goes to the engine, and the session
  reads on (`ServerReader.TerminateStandsAlone`).

## Model

| member | source | states |
|---|---|---|
| HostCalls.OpensMatchCloses | native/shim/wasi_shim.c:250-268 | on a trail where no descriptor is closed that is not open, each descriptor is opened as often as closed, plus once if it is still open |
| FdTable.KeepsFreeing | native/shim/wasi_shim.c:367-377 | fd_close keeps the invariant: the index test and the value test for shared descriptors agree on every live slot, no owned host descriptor is in two slots, and the open host descriptors are exactly those a slot, a preopen or the log refers to |
| FdTable.KeepsMoving | native/shim/wasi_shim.c:386-388 | moving a slot's entry onto a free one, with its flags, keeps that invariant |
| FdTable.KeepsRenumber | native/shim/wasi_shim.c:379-390 | every fd_renumber, also onto itself or refused, keeps the invariant; so an overwritten descriptor is closed exactly if its slot owned it |
| FdTable.KeepsOpen | native/shim/wasi_shim.c:666-709 | path_open keeps it on every path: no slot, failed open, failed store of the result |
| FdTable.KeepsList | native/shim/wasi_shim.c:606-661 | fd_readdir closes its duplicate and leaves the table and the open set as they were |
| FdTable.KeepsRun | native/shim/wasi_shim.c:367-390 | the invariant holds after any mix of opens, closes, renumberings and listings |
| FdTable.InvInit | native/shim/wasi_shim.c:204-248 | init establishes the invariant also when it fails part-way |
| FdTable.DisposeClosesEverything | native/shim/wasi_shim.c:250-268 | dispose closes only open descriptors and leaves none open, from any state with the invariant |
| FdTable.LifecycleBalances | native/shim/wasi_shim.c:204-390 | over init, any run, then dispose, every descriptor is closed exactly as often as it was opened, never while closed, and none stays open |
| FdTable.DisposeTwice | native/shim/wasi_shim.c:250-268 | a second dispose closes nothing |
| FdBindings.LeastFreeIsLeastUnbound | native/shim/wasi_shim.c:179-183 | the allocator returns the lowest unbound number, and none only when all 256 are bound |
| FdBindings.InitBinds | native/shim/wasi_shim.c:204-248 | what the guest finds behind init, by the kernel's answers: 0 is /dev/null if it opened, 1 and 2 the appending log, 3 and 4 the directories; what each early return leaves; and when init succeeds |
| FdBindings.CodesTold | native/shim/wasi_shim.c:367-390 | the error codes of close, renumber and the table part of path_open, in numbers |
| FdBindings.DisposeUnbinds | native/shim/wasi_shim.c:250-268 | behind dispose nothing is bound, listed or logged to |
| FdBindings.ListDuplicates | native/shim/wasi_shim.c:610-660 | fd_readdir opens one duplicate and closes it |
| FdBindings.CloseUnbinds | native/shim/wasi_shim.c:367-377 | fd_close fails exactly on unbound numbers and unbinds just the one given |
| FdBindings.RenumberMoves | native/shim/wasi_shim.c:379-390 | fd_renumber moves one binding and frees its source; from == to unbinds it; no other binding changes |
| FdBindings.OpenBindsLeast | native/shim/wasi_shim.c:666-709 | path_open binds the lowest unbound number, lacks one only if all are bound, and changes no other binding |
| FdBindings.RunRefines | native/shim/wasi_shim.c:367-390 | every run of the table is a run of the abstract map, step by step |
| FdBindings.ReopenLandsOnZero | module/patches/wasipg/0003-avoid-freopen-stdin-for-wazero.patch:23-32 | after fd_close(0), a successful path_open gives 0, and nothing but the request itself can make it fail |
| Shim.WasiShim.FdAlloc | native/shim/wasi_shim.c:179-183 | the loop over the slot array finds the least free slot |
| Shim.WasiShim.FdClose | native/shim/wasi_shim.c:367-377 | the in-place update takes the table to the specified state with the specified code |
| Shim.WasiShim.FdRenumber | native/shim/wasi_shim.c:379-390 | likewise, with source and target possibly the same slot |
| Shim.WasiShim.PathOpen | native/shim/wasi_shim.c:666-709 | likewise, for the part of path_open that touches the table |
| Shim.WasiShim.Init | native/shim/wasi_shim.c:204-248 | init in place, with its early returns, yields the specified state and code |
| Shim.WasiShim.AddPreopen | native/shim/wasi_shim.c:238-246 | one directory is listed and bound, or nothing changes |
| Shim.WasiShim.IsPreopenFd | native/shim/wasi_shim.c:258-261 | the flag loop finds membership among the preopened host descriptors |
| Shim.WasiShim.Dispose | native/shim/wasi_shim.c:250-268 | both loops together issue exactly the specified closes in the specified order |
| GuestMemory.WriteU32 | native/shim/wasi_shim.c:130-150 | four little-endian bytes are written exactly when all four are in range, otherwise nothing is |
| Readdir.FdReaddir | native/shim/wasi_shim.c:606-662 | the buffer receives exactly the first buf_len bytes of the rendered entries from the cookie on, then their number, and no other byte changes; a page that leaves memory faults behind the whole records and at most a header that still fit |
| Readdir.RecordTold | native/shim/wasi_shim.c:626-657 | the bytes of an entry: cookie, inode, size of the name, type in WASI's numbers, zeros, name |
| Readdir.PageTold | native/shim/wasi_shim.c:623-659 | every entry that fits whole stands on the page in its place, in the order of the directory |
| Readdir.PageReadsBack | native/shim/wasi_shim.c:623-659 | a guest reading a page finds exactly the entries that fit whole, in order, with their cookies |
| Readdir.ShortPageIsLast | native/shim/wasi_shim.c:642-658 | a page shorter than the buffer holds every remaining entry |
| Readdir.ProgressIffFits | native/shim/wasi_shim.c:642-649 | a page shows an entry exactly if the next one fits; otherwise it is full |
| Readdir.PagingShowsAll | native/shim/wasi_shim.c:606-662 | paging by the last complete cookie until a short page ends and yields every entry once and in order, for any buffer the longest record fits |
| Poll.PollOneoff | native/shim/wasi_shim.c:800-873 | the loop over guest memory, with 32-bit addresses that wrap, computes the outcome function, faults included |
| Poll.PollAnswers | native/shim/wasi_shim.c:811-872 | with everything in range and the output at most 16 bytes behind the input, or clear of it, the answer is the events of the subscriptions as they were before the call |
| Poll.UnreadSurvives | native/shim/wasi_shim.c:811-854 | with the output at most 16 bytes behind the input, events never reach a subscription that has not been read |
| Poll.OverlapBreaks | native/shim/wasi_shim.c:811-854 | 16 is the most: 17 bytes behind, two descriptor subscriptions are answered wrongly whenever the second one's userdata starts with a non-zero byte |
| Poll.EventAt | native/shim/wasi_shim.c:840-853 | the bytes of the j-th event: eight of userdata, no error, the type, 65536 ready, no flags |
| Poll.FdAnswerTold | native/shim/wasi_shim.c:811-872 | in guest memory behind the call, for every descriptor subscription: the event in its place with the userdata from before the call, no error, its type, 65536 ready; and the number of events |
| Poll.ClockAnswerTold | native/shim/wasi_shim.c:818-872 | with clocks alone: one event with the userdata of the first clock of least wait, absolute and relative ones, and zeros |
| Poll.NothingToPoll | native/shim/wasi_shim.c:802 | no subscriptions are error 28 |
| Poll.FirstFaults | native/shim/wasi_shim.c:811-814 | a subscription outside of memory is error 21 |
| Poll.ShortestFrom | native/shim/wasi_shim.c:836-839 | the clock reported is the first of least wait among those behind the last wait of 2^63 or more |
| Poll.NoAnswerIff | native/shim/wasi_shim.c:836-871 | clocks alone yield no event exactly if there is none or the last waits 2^63 or more |
| Poll.OverlongClockUnanswered | native/shim/wasi_shim.c:836-871 | a single relative clock of 2^63 ns is never answered |
| Vectors.SizesGet | native/shim/wasi_shim.c:282-288 | count and 32-bit total size are reported, or the call faults exactly if a pointer is out of range |
| Vectors.VectorGet | native/shim/wasi_shim.c:290-300 | the copying loop computes the outcome function, faults included; environ_get is the same loop |
| Vectors.VectorDelivered | native/shim/wasi_shim.c:290-321 | pointer i addresses a NUL-terminated copy of string i, the copies tile a buffer of the reported size, and no other byte changes |
| Vectors.VectorTold | native/shim/wasi_shim.c:290-300 | the bytes of pointer i, and string i with its NUL where it points, each behind the one before |
| Vectors.BlobPlaces | native/shim/wasi_shim.c:282-288 | the size announced is that of all strings with one NUL each |
| Framing.HasReadyForQuery | native/bridge/pglite_bridge.c:110-119 | the C walker answers whether the complete frames of the buffer, as the Swift decoder cuts them, include ReadyForQuery, for every buffer on which it ends |
| Framing.StepMoves | native/bridge/pglite_bridge.c:116 | the 32-bit step of the walkers is the frame's size exactly unless its length word is 2^32 - 1 |
| Framing.ShortIsWalkable | native/bridge/pglite_bridge.c:110-119 | no buffer below 2^32 bytes holds such a frame |
| Framing.FrameList | Sources/PGliteKit/Wire.swift:87-102 | the Swift loop yields exactly the complete frames |
| Framing.EncodeTold | Sources/PGliteKit/Wire.swift:51-60 | the bytes of a message: type, big-endian size without the type, body |
| Framing.HasFrameTold | Sources/PGliteKit/Wire.swift:91-100 | when a frame is complete, and where its body lies, by its bytes |
| Framing.KindsTold | Sources/PGliteKit/PGlite.swift:211-226 | the letters of the messages that are told apart |
| Framing.EncodeThenFirst | Sources/PGliteKit/Wire.swift:51-60 | an encoded frame in front of anything is read back and leaves the rest |
| Framing.FirstThenEncode | Sources/PGliteKit/Wire.swift:87-102 | a frame that was cut off, encoded again, is the bytes it was cut from |
| Framing.FramesTile | Sources/PGliteKit/Wire.swift:87-102 | the frames of any bytes, encoded again, and the leftover are those bytes |
| Framing.FramesOfEncodeAll | Sources/PGliteKit/Wire.swift:87-102 | decoding what was encoded gives back the frames and consumes every byte |
| Framing.FramesGrow | native/bridge/pglite_bridge.c:110-119 | appending bytes never changes a frame that is already complete |
| Framing.ReadyIsStable | native/bridge/pglite_bridge.c:110-119 | once true, the ReadyForQuery test stays true as bytes are appended |
| Wire.Message | Sources/PGliteKit/Wire.swift:51-60 | a message is the frame of its type and body |
| Wire.SimpleQuery | Sources/PGliteKit/Wire.swift:9-11 | one 'Q' frame with the statement as a C string |
| Wire.ExtendedQuery | Sources/PGliteKit/Wire.swift:14-49 | the writer produces the five frames P, B, D, E, S |
| Wire.WriteBind | Sources/PGliteKit/Wire.swift:21-36 | the body of Bind, with NULL as length -1 and the parameters in order |
| Wire.ExtendedQueryFramed | Sources/PGliteKit/Wire.swift:14-49 | the decoder finds those five frames and no byte is left |
| Decode.ExtendedQueryTold | Sources/PGliteKit/Wire.swift:14-49 | the five frames byte by byte, read off the wire: P, B, D, E, S, with empty names, text formats, no type hints and no row limit |
| Wire.ParamTold | Sources/PGliteKit/Wire.swift:27-35 | the bytes of a parameter, NULL among them |
| Wire.ParamsInOrder | Sources/PGliteKit/Wire.swift:27-35 | parameters go out in their order |
| Wire.ParamBlockTold | Sources/PGliteKit/Wire.swift:26-35 | behind their number |
| Decode.DataRow | Sources/PGliteKit/Wire.swift:121-134 | the reader's loop yields the values of a row body |
| Decode.ParamsReadBack | Sources/PGliteKit/Wire.swift:121-134 | reading a parameter block as a row gives back the parameters, NULLs included |
| Decode.CutOffRows | Sources/PGliteKit/Wire.swift:121-134 | a value that runs out of its row reads as nil, and a row that ends early ends the list |
| Decode.CStringBack | Sources/PGliteKit/Wire.swift:170-174 | a C string is read back at its place, up to its own NUL |
| Decode.TextBack | Sources/PGliteKit/Wire.swift:170-174 | and yields its text if that is UTF-8 |
| Decode.MissingFieldsStay | Sources/PGliteKit/Wire.swift:110-115 | a fixed-width field that is missing is not stepped over, so what follows is read in its place |
| Utf8.Utf8Iff | Sources/PGliteKit/Wire.swift:173 | the texts taken for UTF-8 are exactly the encodings of sequences of Unicode scalar values |
| Decode.ExtendedQueryReadsBack | Sources/PGliteKit/Wire.swift:14-49 | both strings of Parse and all parameters of Bind read back from the encoded query |
| Decode.RowDescription | Sources/PGliteKit/Wire.swift:104-119 | the reader's loop yields the columns of the body, up to a name that is cut off or not UTF-8 |
| Decode.RowDescriptionReadsBack | Sources/PGliteKit/Wire.swift:104-119 | names and unsigned type oids of an encoded description read back |
| Decode.ColumnTold | Sources/PGliteKit/Wire.swift:108-117 | where a column's type stands on the wire |
| Decode.CutOffColumn | Sources/PGliteKit/Wire.swift:108-117 | a description that ends behind its first name yields that column with type 0 |
| Decode.ErrorFields | Sources/PGliteKit/Wire.swift:137-145 | the reader's loop yields the map of fields, up to one that is cut off or not UTF-8 |
| Decode.ErrorFieldsReadBack | Sources/PGliteKit/Wire.swift:137-145 | encoded error fields read back, the last of a kind winning |
| Results.BuildIndex | Sources/PGliteKit/PGlite.swift:214-217 | the dictionary of column positions |
| Results.ParseResult | Sources/PGliteKit/PGlite.swift:203-236 | the loop yields the first error if there is one, else the columns of the last description, the rows behind it and the last tag |
| Results.ThrowsIffError | Sources/PGliteKit/PGlite.swift:226-234 | an error is thrown exactly if some frame is an ErrorResponse, and then the first |
| Results.IndexIsFirst | Sources/PGliteKit/PGlite.swift:214-217 | a name is in the index exactly if a column has it, and maps to the first such column |
| Results.RowsShareColumns | Sources/PGliteKit/PGlite.swift:219-222 | every row behind a description carries its columns and index and its own values, in order |
| Results.EncodedResultMeans | Sources/PGliteKit/PGlite.swift:203-236 | a reply that ends in an encoded result means that result, NULLs in place, whatever results without an error come before it |
| Results.EncodedReplyMeans | Sources/PGliteKit/PGlite.swift:203-236 | and so from the bytes on the wire |
| ReplyText.SAppend | native/bridge/pglite_bridge.c:423-429 | the buffer keeps holding the first outcap-1 bytes of the whole text and a NUL |
| ReplyText.AppendRow | native/bridge/pglite_bridge.c:447-463 | appending cell by cell is appending the row's text |
| ReplyText.ReplaceByError | native/bridge/pglite_bridge.c:470-488 | the error line replaces everything before it |
| ReplyText.ErrorTextFits | native/bridge/pglite_bridge.c:476-488 | the line is shorter than its 640-byte buffer, so the length snprintf reports is the length written |
| ErrorAgreement.ErrorLineAgrees | native/bridge/pglite_bridge.c:474-488 | for every error body pgl_exec and the Swift decoder find the same severity, message and code exactly if the fields behind the one at which the decoder stops add nothing to those before; the line is made of both |
| ErrorAgreement.UnreadableSeverity | Sources/PGliteKit/Wire.swift:137-145 | a body on which they differ: a severity that is not UTF-8 |
| ErrorAgreement.EncodedErrorLine | native/bridge/pglite_bridge.c:474-488 | the line of an encoded error shows the last severity, message and code among its fields |
| ReplyText.RenderReply | native/bridge/pglite_bridge.c:431-493 | the buffer holds the first outcap-1 bytes of the untruncated rendering and a NUL; rc is -1 exactly if some frame is an ErrorResponse |
| ReplyText.RenderedTold | native/bridge/pglite_bridge.c:447-488 | what each kind of frame does to the text, by its letter |
| ReplyText.ErrorTold | native/bridge/pglite_bridge.c:474-488 | an error is printed as "severity: message (SQLSTATE code)", cut to 63, 511 and 15 bytes |
| ReplyText.WordsTold | native/bridge/pglite_bridge.c:447-467 | the word for NULL, tab, line feed and '#' |
| ReplyText.RenderedWithoutError | native/bridge/pglite_bridge.c:447-469 | without an error the rendering is the rows and tags of all frames in order |
| ReplyText.RenderedFromLastError | native/bridge/pglite_bridge.c:470-488 | with errors it is the last error's line and the rows and tags behind it |
| Rows.RowPrinted | native/bridge/pglite_bridge.c:447-463 | the text of an encoded row is its values joined by tabs, NULL as the word |
| Rows.ReplyPrinted | native/bridge/pglite_bridge.c:431-469 | the rendering of an encoded reply is its printed lines |
| Rows.RowsRoundTrip | Sources/PGliteKit/PGlite.swift:78-83 | splitting, filtering and cutting printed lines gives the table back exactly if every row survives: not empty, no leading '#' that is a Character of its own, no tab or line break inside, and no carriage return that joins the line end |
| Rows.PrintThenRead | Sources/PGliteKit/PGlite.swift:60-83 | the same end to end, from encoded frames through an untruncated buffer |
| Pump.PumpedReplyIff | native/bridge/pglite_bridge.c:202-226 | the pump replies after n ticks exactly if the reply is complete there or the last ten ticks were silent, for the first time, with no trap before; the reply is everything delivered by then, and that takes at most ten ticks per delivery and ten more |
| Pump.PumpedDiesIff | native/bridge/pglite_bridge.c:202-226 | the pump fails in a tick exactly if a call traps there and nothing before it makes the pump stop |
| Pump.TickTells | native/bridge/pglite_bridge.c:145-218 | a tick kills the engine exactly if a call of it traps; else it delivers channel bytes inside memory and then all of the spill file, told by the calls alone |
| Pump.CleanTick | native/bridge/pglite_bridge.c:145-175 | a tick in which every call returns delivers the channel's bytes and then the spilled ones |
| Pump.GatheredTold | native/bridge/pglite_bridge.c:202-226 | over any ticks, what was gathered is the channel bytes and spilled bytes of each, in order |
| Pump.SpilledReadyEnds | native/bridge/pglite_bridge.c:169-218 | a ReadyForQuery that is only in the spill file ends the pump in that tick |
| Pump.TenSilentTicks | native/bridge/pglite_bridge.c:202-226 | an engine that does nothing gets ten ticks |
| Pump.CallsTold | native/bridge/pglite_bridge.c:147-212 | the guest calls of a tick in their order; a channel that was read is reset |
| Bridge.ReplyBuffer.Append | native/bridge/pglite_bridge.c:130-142 | contents grow by exactly the new bytes across any number of doublings |
| Bridge.Db.Drain | native/bridge/pglite_bridge.c:147-175 | the buffer grows by what the tick delivers, the guest calls made are the specified ones, and the result tells trap, something and nothing apart |
| Bridge.Db.PumpReply | native/bridge/pglite_bridge.c:202-226 | the loop over a growing buffer returns the pump's reply, makes its guest calls, and sets the flag exactly if it fails |
| Bridge.Db.Exchange | native/bridge/pglite_bridge.c:179-226 | the whole new state and the reply, on every path |
| Bridge.NoReplyIff | native/bridge/pglite_bridge.c:179-226 | there is no reply exactly if the engine was dead, the payload is refused, or a call trapped; a refused payload changes nothing at all |
| Bridge.ServedExchange | native/bridge/pglite_bridge.c:193-226 | the engine finds the payload from the second byte of its memory on, with nothing else changed, and the reply is everything it then delivered |
| Bridge.ReplyTold | native/bridge/pglite_bridge.c:145-226 | every reply is, tick by tick, what lay in the channel and then what was in the spill file, told by the guest calls alone |
| Bridge.RejectedIff | native/bridge/pglite_bridge.c:186 | payloads are refused exactly if empty or above 6291456 bytes |
| Bridge.PayloadTold | native/bridge/pglite_bridge.c:495-501 | raw payloads go out as they are; closing sends the query CHECKPOINT |
| Bridge.BootTold | native/bridge/pglite_bridge.c:364-370 | the boot calls in their order, up to the first that traps |
| Bridge.DeadIff | native/bridge/pglite_bridge.c:179-226 | behind any run of calls the engine is dead exactly if one of them killed it |
| Bridge.SilentAfterDeath | native/bridge/pglite_bridge.c:179-226 | behind the call that killed it, no sequence of calls, pgl_close included, makes another guest call, touches guest memory or gets a reply |
| Bridge.QueryMessageFrames | native/bridge/pglite_bridge.c:383-396 | a statement is refused exactly if it has more than 6291450 bytes before its first NUL; else those bytes are sent as one frame |
| Bridge.SameQueryIff | native/bridge/pglite_bridge.c:383-396 | that is the message the Swift client builds exactly for statements without a NUL |
| Bridge.Db.Open | native/bridge/pglite_bridge.c:364-370 | the boot calls made, and the close that follows a failed one |
| Bridge.BootTrapIsEnteredAgain | native/bridge/pglite_bridge.c:364-370 | the engine is entered again after its boot calls exactly if one of them trapped |
| Bridge.Db.Exec | native/bridge/pglite_bridge.c:431-493 | -2 and an empty text without a reply; otherwise the rendering of the reply and its code |
| Bridge.Db.ExecWire | native/bridge/pglite_bridge.c:398-407 | as much of the reply as fits is copied, the rest of the buffer stays |
| Bridge.Db.ExecWireAlloc | native/bridge/pglite_bridge.c:409-416 | the whole reply, or failure |
| Bridge.Db.Close | native/bridge/pglite_bridge.c:495-506 | one CHECKPOINT unless the engine is dead |
| Handle.PGlite.ExecWire | Sources/PGliteKit/PGlite.swift:87-99 | the reply, or the database is closed and the call throws |
| Handle.PGlite.Query | Sources/PGliteKit/PGlite.swift:62-74 | the rendering up to its first NUL, as text or as an SQL error, or the database is closed |
| Handle.AnswersTold | Sources/PGliteKit/PGlite.swift:62-74 | a query throws an SQL error exactly if its reply holds an ErrorResponse, with the rendered text either way |
| Handle.OpenIff | Sources/PGliteKit/PGlite.swift:54-99 | behind any run of calls the database is open exactly if none was refused, killed the engine or closed it |
| Handle.RefusedRequestCloses | Sources/PGliteKit/PGlite.swift:87-99 | a refused request leaves the bridge as it was and still makes the handle checkpoint and close |
| ServerReader.ReadMessage | Sources/PGliteKit/PGliteServer.swift:223-242 | the message and what is left are those of the stream, however it is cut into chunks; no chunk is received that is not needed |
| ServerReader.ReadBatch | Sources/PGliteKit/PGliteServer.swift:247-261 | the batch and what is left depend on the bytes alone, not on chunks |
| ServerReader.Serve | Sources/PGliteKit/PGliteServer.swift:116-123 | the session sends the stream's batches in order until one starts with Terminate, there are no more, an exchange throws, or a reply cannot be sent |
| ServerReader.BatchesAreGroups | Sources/PGliteKit/PGliteServer.swift:247-261 | the batches are the frames of the stream cut behind each Sync, Query and Terminate and nowhere else, with an unterminated last group unless the stream broke off |
| ServerReader.CutIsUnique | Sources/PGliteKit/PGliteServer.swift:247-261 | there is only one such cut |
| ServerReader.BatchesTile | Sources/PGliteKit/PGliteServer.swift:247-261 | batches and leftover together are the stream |
| ServerReader.GroupIsOneBatch | Sources/PGliteKit/PGliteServer.swift:247-261 | a terminated group of encoded frames is read as one batch, whatever follows |
| ServerReader.ExtendedQueryIsOneBatch | Sources/PGliteKit/Wire.swift:14-49 | the client's extended query arrives as one whole batch |
| ServerReader.SimpleQueryIsOneBatch | Sources/PGliteKit/Wire.swift:9-11 | and so does a simple query |
| ServerReader.TerminateStandsAlone | Sources/PGliteKit/PGliteServer.swift:120 | a batch starts with Terminate exactly if it is one Terminate frame |
| ServerReader.OthersAreCollected | Sources/PGliteKit/PGliteServer.swift:247-261 | 'S', 'Q' and 'X' end a batch and every other message, Flush for one, is collected |
| ServerReader.BadLengthEnds | Sources/PGliteKit/PGliteServer.swift:228-229 | a length word below four ends the reading and gives out what was collected |
| ServerReader.TerminateTold | Sources/PGliteKit/PGliteServer.swift:120 | the session ends at the first batch that starts with 'X' |
| ServerHandshake.ReadStartup | Sources/PGliteKit/PGliteServer.swift:207-221 | the startup packet is that of the stream, and no chunk is received that is not needed |
| ServerHandshake.Handshake | Sources/PGliteKit/PGliteServer.swift:135-183 | passes, refuses or throws as specified, with encryption requests and with sends that throw, and leaves the specified chunks and sends to the session |
| ServerHandshake.BrokeIff | Sources/PGliteKit/PGliteServer.swift:110-183 | the handshake throws exactly if the stream breaks inside the startup packet or the password message, or a send among the answers to encryption requests, the challenge and the answer to a password fails; told by bytes and the number of that send |
| ServerHandshake.PassedIff | Sources/PGliteKit/PGliteServer.swift:135-183 | it passes exactly with a version 3.0 startup packet, the expected password and all sends, behind any encryption requests; what the session then reads |
| ServerHandshake.UnauthenticatedIff | Sources/PGliteKit/PGliteServer.swift:110-134 | without a handshake that passes nothing reaches the engine, except one ROLLBACK exactly in the cases in which the handshake throws |
| ServerHandshake.SilentClientRollsBack | Sources/PGliteKit/PGliteServer.swift:110-131 | a connection that fails before its first byte is such a case |
| ServerHandshake.HelloPassesIff | Sources/PGliteKit/PGliteServer.swift:135-183 | a startup packet and a password, in any chunks, pass exactly if both sends succeed and the password is the expected one; with a failing send the handshake throws whatever the password |
| ServerHandshake.OtherProtocolsRefused | Sources/PGliteKit/PGliteServer.swift:143-148 | any protocol but 3.0 and the encryption requests is refused |
| ServerHandshake.BadSizeRefused | Sources/PGliteKit/PGliteServer.swift:212-213 | a startup size below 8 or of 10000 and more is refused |
| ServerHandshake.StartupTold | Sources/PGliteKit/PGliteServer.swift:138-157 | the bytes of a startup packet, and the protocol numbers |
| ServerHandshake.EncryptionStartsOver | Sources/PGliteKit/PGliteServer.swift:143-147 | an encryption request is followed by a handshake on the chunks behind the one that completed it |
| ServerHandshake.LeftLosesNothingIff | Sources/PGliteKit/PGliteServer.swift:116-145 | dropping the buffer keeps a suffix of the stream, and loses nothing exactly if a chunk ends where the bytes read end |
| ServerHandshake.Session | Sources/PGliteKit/PGliteServer.swift:110-131 | everything the connection has executed: batches and then ROLLBACK, nothing if refused, ROLLBACK alone if the handshake throws |
| ServerHandshake.RollbackTold | Sources/PGliteKit/PGliteServer.swift:129 | the closing exchange byte by byte |
| ServerHandshake.SessionIgnoresChunks | Sources/PGliteKit/PGliteServer.swift:110-131 | for every handshake that passes, behind any encryption requests, the session reads exactly the bytes behind the password message if and only if a chunk ends there; then what the engine executes is told by those bytes and not by the chunks |
| ServerHandshake.HelloIgnoresChunks | Sources/PGliteKit/PGliteServer.swift:110-131 | the same for a client that sends a startup packet and the right password, whichever send or exchange fails |
| ServerHandshake.Md5AnswerIsText | Sources/PGliteKit/PGliteServer.swift:191-197 | the answer the server expects, "md5" and hex digits, is one these theorems are about |
| ServerHandshake.SentAheadIsLost | Sources/PGliteKit/PGliteServer.swift:116-136 | a query in the chunk that completes the password never reaches the engine, in a chunk of its own it does |
| ServerSessions.KeepsInv | Sources/PGliteKit/PGliteServer.swift:90-131 | every orderly event keeps the invariant of server, log and transaction |
| ServerSessions.SessionsStayApart | Sources/PGliteKit/PGliteServer.swift:90-183 | over every orderly run at most one connection is live, batches come only from connections that passed the handshake, a finished session ended with its ROLLBACK and nothing behind it, that ROLLBACK precedes every exchange of a later session, and no open transaction belongs to a finished session |
| ServerSessions.ReleaseIsPending | Sources/PGliteKit/PGliteServer.swift:96-101 | over every orderly run, a connection that is over and still holds the slot has its release queued |
| ServerSessions.NextClientGetsIn | Sources/PGliteKit/PGliteServer.swift:90-131 | from every good listening state the remaining events of the connection that holds the slot free it, and the next connection then holds it |
| ServerSessions.VisitRuns | Sources/PGliteKit/PGliteServer.swift:90-131 | a client that finds the slot free has its batches executed in order, then a ROLLBACK, and leaves the slot free |
| ServerSessions.BusyTurnsAway | Sources/PGliteKit/PGliteServer.swift:91-94 | while the slot is held another connection is turned away and nothing else changes |
| ServerSessions.NoAcceptWhenStopped | Sources/PGliteKit/PGliteServer.swift:81-86 | over every run, behind a stop nothing is accepted before the next start |
| ServerSessions.AppIsServed | Sources/PGliteKit/PGlite.swift:167-187 | the app's queries are executed whatever the server does |
| ServerSessions.DisorderBreaks | Sources/PGliteKit/PGliteServer.swift:81-101 | from any good state a transport failure under a live connection, or a stop, can be followed without further disorder by a run in which the old ROLLBACK falls behind the new session's first batch and ends the transaction that batch ran in: its own if none was open before, else the one it found open |
| ServerSessions.UnauthenticatedIff | Sources/PGliteKit/PGliteServer.swift:110-134 | over every run, a connection that never passed has something executed exactly if it left out of its handshake by an error and its ROLLBACK followed; and it is that ROLLBACK |
| ServerSessions.StaysOpenIff | Sources/PGliteKit/PGliteServer.swift:125-130 | a corollary over every run: an open transaction, the app's say, stays open exactly as long as no batch ends it and no closing ROLLBACK falls in |
| ServerSessions.StrangerUndoesApp | Sources/PGliteKit/PGliteServer.swift:110-131 | so an orderly run in which a connection that never passed undoes the app's transaction exists from every good state with a free slot |
| ServerComposition.LogIsOfSessions | Sources/PGliteKit/PGliteServer.swift:90-183 | over every run, however interleaved, what is executed for a connection is a prefix of what the verified session executes for its chunks, and all of it once the session has left or been refused and is over; a connection turned away has nothing executed; without passing it is one ROLLBACK, for a handshake that throws |
| ServerSessions.Server.AcceptConnection | Sources/PGliteKit/PGliteServer.swift:90-95 | the slot is taken if free, otherwise the connection is cancelled |
| ServerSessions.Server.ClearSlot | Sources/PGliteKit/PGliteServer.swift:96-101 | the slot is freed only if it is still this connection's |
| ServerSessions.Server.StartListening | Sources/PGliteKit/PGliteServer.swift:54-70 | the listener is up and the slot is as it was |
| ServerSessions.Server.StopListening | Sources/PGliteKit/PGliteServer.swift:81-86 | the listener and the slot are given up at once |
| Transactions.AllOrNothing | Sources/PGliteKit/PGlite.swift:187-201 | with no other task ending the transaction, everything done meanwhile is committed in order exactly if every statement, other tasks' included, and the commit succeed and the closure returns; otherwise nothing is, and none stays open |
| Transactions.ThrowsIff | Sources/PGliteKit/PGlite.swift:189-201 | the call throws exactly if an error is let through or the commit fails; a closure that catches its errors gets a normal return with everything rolled back |
| Transactions.KeepsIff | Sources/PGliteKit/PGlite.swift:187-201 | with other tasks' statements anywhere in between, all-or-nothing for the closure, and nothing for a call that throws, hold whatever fails exactly on the schedules in which the closure's statements all fall in transactions, none is committed by another task, and they are not split between lost transactions and the last |
| Transactions.UndisturbedKeeps | Sources/PGliteKit/PGlite.swift:187-201 | other tasks that neither commit nor roll back never break it |
| Transactions.EarlyCommitBreaks | Sources/PGliteKit/PGlite.swift:189-201 | another task's COMMIT behind a statement of the closure, as of a second such call, always does |
| Transactions.SplitBreaks | Sources/PGliteKit/PGlite.swift:189-201 | so does another task's ROLLBACK between two statements of the closure, with none behind the second |
| AppTransactions.ServerLeavesAlone | Sources/PGliteKit/PGliteServer.swift:116-130 | a run of the server in which nothing ends the transaction keeps the promise |
| AppTransactions.ClosingSplits | Sources/PGliteKit/PGliteServer.swift:125-130 | a run in which a closing ROLLBACK falls between two queries of the closure, and nothing ends a transaction behind them, breaks it |
| AppTransactions.StrangerBreaksPromise | Sources/PGliteKit/PGliteServer.swift:110-131 | from every good state with a free slot and the app in a transaction there is such a run, orderly and with a connection that never passes its handshake |
| Transactions.NestedEndsOuter | Sources/PGliteKit/PGlite.swift:189-201 | inside an open transaction the inner call ends the outer one, with its work; inside a failed one it throws and changes nothing |
| Transactions.Database.InTransaction | Sources/PGliteKit/PGlite.swift:189-201 | BEGIN, the closure with other tasks falling in, COMMIT, or ROLLBACK on any error, on the shared state, as specified |
| LinearMemory.GrowIsSpecifiedIff | native/runtime/wasm-rt-mem-impl-helper.inc:140-149 | the runtime's growth is the specified one exactly unless the page sum wraps to zero, and even then the memory is the same |
| LinearMemory.GrowTold | native/runtime/wasm-rt-mem-impl-helper.inc:140-163 | what a growth answers and leaves behind, in pages and bytes |
| LinearMemory.ThirtyTwoBitsNeverWrap | native/runtime/wasm-rt-mem-impl-helper.inc:140-149 | a 32-bit memory never meets that case |
| LinearMemory.RunReads | native/runtime/wasm-rt-mem-impl-helper.inc:140-163 | over every run of grows and stores size is pages times page size, the limit holds, memory never shrinks, and every address reads as the last value stored there or zero |
| LinearMemory.ReservationSuffices | native/runtime/wasm-rt-mem-impl.c:124-139 | growth up to the limit stays inside the reservation exactly without guard pages or for at most 131072 pages |
| LinearMemory.ReservedTold | native/runtime/wasm-rt-mem-impl.c:124-139 | the reservations in bytes |
| LinearMemory.NoOverflow | native/runtime/wasm-rt-mem-impl-helper.inc:150-152 | none of the three products wraps for growth within the limit |
| LinearMemory.RuntimeMemory.constructor | native/runtime/wasm-rt-mem-impl-helper.inc:66-106 | either allocation strategy starts with the initial pages, all zero |
| LinearMemory.RuntimeMemory.Expand | native/runtime/wasm-rt-mem-impl-helper.inc:109-138 | mprotect inside the reservation and realloc with a cleared tail both append zeros to the same bytes |
| LinearMemory.RuntimeMemory.GrowBy | native/runtime/wasm-rt-mem-impl-helper.inc:140-163 | growing in either strategy is the one abstract step, with its result |
| Table.RunAppends | native/runtime/wasm-rt-impl-tableops.inc:61-83 | over any run of growths the limit holds, no element changes, and exactly the successful fills are appended |
| Table.GrowTold | native/runtime/wasm-rt-impl-tableops.inc:61-83 | what a growth answers and leaves behind, element by element |
| Table.RuntimeTable.constructor | native/runtime/wasm-rt-impl-tableops.inc:49-55 | a table starts with null elements up to its size |
| Table.RuntimeTable.GrowBy | native/runtime/wasm-rt-impl-tableops.inc:61-83 | growth keeps the old elements and fills exactly the new ones, or changes nothing; the 32-bit fill loop ends |

## Left out

- Framing.HasReadyForQuery: for replies without a frame of length word 2^32 - 1 before the first ReadyForQuery, on which the walker would never end; Bridge.Db.PumpReply and what calls it ask for the same.
- ReplyText.RenderReply: for replies without such a frame anywhere, and with rows whose cells lie inside their frames, which the C code does not check; ReplyText.AppendRow asks the latter.
- Bridge.Db.PumpReply: an engine that never goes quiet would keep the loop going for ever; the engine delivers in finitely many ticks and is silent behind them.
- Bridge.Db.Drain: failed allocation is not modelled, and a spill file is what could be read of it.
- Bridge.Db.Open: authentication inside pgl_open and the search_path statement are ordinary exchanges; their payloads, the MD5 password and the walk for the authentication frame are not modelled.
- Bridge.Db.Exec: asks for a buffer of at least one byte, which the appends need, and for rows whose cells lie inside their frames, which the C code does not check.
- Bridge.Db.Close: asks the same of the reply to its CHECKPOINT.
- Handle.PGlite.Query: String(cString:) repairs text that is not UTF-8, which the model does not; the text is bytes.
- Results.ParseResult: replies with a negative column count, on which Swift traps, are excluded.
- Results.IndexIsFirst: names are compared as bytes; Swift also takes canonically equivalent strings for equal.
- Rows.RowsRoundTrip: which marks join a '#' is a parameter, and command tags do not start with one; whether components(separatedBy:) finds a tab that carries a mark is not modelled.
- Readdir.FdReaddir: a page that runs past the end of a full 4 GiB memory, where addresses wrap, is not covered.
- Poll.PollAnswers: for arguments in range and output out of the way of unread input; for all others only Poll.PollOneoff speaks.
- Vectors.VectorDelivered: for two disjoint regions in range; for all others only Vectors.VectorGet speaks.
- ServerHandshake.Session: what the server sends, the salt and the MD5 comparison are not modelled; whether a send succeeds and the expected answer are parameters.
- ServerSessions.SessionsStayApart: about runs in which the transport does not fail under a live connection and the server is not stopped over one; for the others see ServerSessions.DisorderBreaks.
- Transactions.Database.InTransaction: statements of the closure and of other tasks are plain ones, BEGIN, COMMIT and ROLLBACK; an engine that dies in between is not modelled.
- LinearMemory.RuntimeMemory.GrowBy: big-endian layout, shared-memory locks and the failure handler are not modelled; a failing first allocation aborts or is unchecked in the source.
- The engine, the generated code and the COPY sub-protocol are not modelled.
- Opening, reading, writing and sleeping are answers of the operating system; errno mapping, file status packing and the path forwarders are one-branch facts.
- The text forms of typed values, seeding of the data directory, and build scripts are not modelled.
