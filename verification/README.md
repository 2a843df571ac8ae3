# Proofs about the CLI's stream protocols, stores and scripts

This project models the stateful cores of the command line launcher (`cli/src`) and of a few
development scripts, and proves what they guarantee over every input and every run.

* `RpcStreams`, `StreamReplacement`, `RpcCalls`, `StreamReaders` and `ReceiveLoop` are the concurrent parts of the
  RPC dispatcher: the write halves that pass between stream records and write loops, the table
  of pending calls, the reader tasks of announced streams, and the receive loop with its
  bounded channel. Each is a state machine whose steps are the regions the program runs under
  one lock or between two awaits; a run is any interleaving. A class beside it holds the
  program's own fields, and each of its methods is proved to make exactly one step.
* `MsgPack`, `WireFormat`, `Framing` and `Incoming` are the incremental decoder: a parser for the
  values of the MessagePack format and the encoder, the meaning of the format written out marker
  by marker, the loop that decodes from a growing buffer with any deserializer that reads from
  left to right, and the deserializer of incoming messages.
* `Singleton` is the election of a singleton process over a lock file.
* `Keyring` and `DevicePoll` are credential chunking and the device-code poll loop.
* `PersistedState` and `DownloadCache` are the least-recently-used download cache.
* `ImportMerge` and `TextEdits` are the source transformations of the protocol sync script.
* `PolicyState`, `PolicyEffects` and `Overrides` are the mock policy server: transactional updates,
  what they mean in terms of the request's JSON, and wiring the product configuration to the
  server and back.
* `LineBuffer` and `WorkerPool` are the output re-chunker of forked processes and the worker
  pool of the end-to-end test runner.

What runs depend on outside the program (scheduling, failing writes, file system and keyring
answers, clocks, grant answers) is a parameter or a step that may happen at any time.

Some statements one would expect do not hold of the code at a boundary. What does hold is proved
as an exact condition:

* Inserting a stream under an id that is in use drops at once the half that the old record holds,
  if it holds it, and the writes queued there, if there are any
  (`StreamReplacement.InsertKeepsOwnersExactly`, `StreamReplacement.InsertKeepsWritesExactly`).
  A write loop that runs for the old record goes on under the id. It can drop the new half when
  it gives its own back (`StreamReplacement.GiveBackDropsNewHalf`), and it can take a write that
  was accepted for the new stream and put it on the old half
  (`StreamReplacement.OldHalfGetsNewWrite`); if the stream is removed in time, nothing more is lost
  (`StreamReplacement.RemovalSavesNewHalf`). Whatever happens later, every half keeps one owner
  exactly when the id is new (`StreamReplacement.InsertNeedsFreshId`), and every accepted write
  stays accounted for exactly when no loop runs for the id
  (`StreamReplacement.WritesNeedNoRunningLoop`).
* A response dispatched between sending a request and registering its callback is discarded, and
  so is one dispatched after another call with the same id registered; the latter takes two calls
  whose ids were issued a multiple of 2^32 apart (`RpcCalls.CompletesExactly`,
  `RpcCalls.SharedIdExactly`). The replaced callback never fires (`RpcCalls.LostForGood`), and every
  waiting callback can be replaced that way (`RpcCalls.WrapAroundLosesCallback`). A response
  without an id poisons the call table.
* A read whose replies do not fit into the free slots of the channel blocks the connection for
  good (`ReceiveLoop.CanReturnExactly`, `ReceiveLoop.NineRepliesNeverReturn`).
* A credential whose sealed length is a multiple of the chunk size, or whose last chunk ends in
  the marker, is not read back unless older entries supply what is missing
  (`Keyring.StoreThenReadExactly`).
* A line that starts with the placeholder of the import merge makes it throw if it names no
  imported module (`ImportMerge.ThrowsExactly`), and otherwise silently becomes one more import
  (`ImportMerge.ImitationBecomesImport`); other lines keep their places exactly when there is no
  such line (`ImportMerge.OutlineIsKeptExactly`). Merging twice changes the result when there is one,
  or when a name is imported both by `import type` and with the `type` modifier
  (`ImportMerge.IdempotentExactly`).
* The lines that the output re-chunker passes on are the complete lines of the output exactly when
  no chunk overflows the buffer; each overflow shows one line too many
  (`LineBuffer.LinesAreShownExactly`).
* The comment on `unwireOverrides` says that the endpoint URLs are restored to the product's
  values. With a backup the code restores the backup instead, which after two wires is a wired
  file (`Overrides.SecondUnwireResets`), and a backup left over from earlier comes back when
  the overrides file was missing (`Overrides.WireThenUnwireExactly`).

## Model

| member | source | states |
|---|---|---|
| `RpcStreams.InvStep` | cli/src/rpc.rs:543-631 | every insert, write, removal, write-loop and shutdown step keeps the ownership, custody and conservation invariants |
| `RpcStreams.InvRun` | cli/src/rpc.rs:531-631 | the invariants hold after every interleaving of steps over any number of streams |
| `RpcStreams.EveryHalfHasOneOwner` | cli/src/rpc.rs:531-631 | in every reachable state a write half is held by exactly one of: a record, a task, a completed shutdown |
| `RpcStreams.WritesStayInOrder` | cli/src/rpc.rs:564-631 | in every reachable state the items handled, then those in the loop's hand, then the queue, are the buffers of the run's writes that found the stream's record, in order; after shutdown all were handled |
| `RpcStreams.BytesStayInOrder` | cli/src/rpc.rs:564-631 | without write errors the bytes delivered, then in hand, then queued, are the bytes of those writes; after shutdown all were delivered |
| `RpcStreams.EveryWriteIsAccepted` | cli/src/rpc.rs:564-584 | in every run, a stream that is inserted and not removed keeps its record, and the writes to it are exactly the run's writes to its id since, from the steps alone |
| `RpcStreams.ShutNeedsRemoval` | cli/src/rpc.rs:543-562 | in every run a half is shut down only after its stream was removed |
| `RpcStreams.RemovalLeadsToShutdown` | cli/src/rpc.rs:543-562 | from every reachable state, removing a stream leads, by its own task or its write loop, to the shutdown of its half with all accepted writes handled |
| `RpcStreams.FailureEndsBatch` | cli/src/rpc.rs:623-627 | a failing write puts out its item up to the error, and the loop writes nothing more before its next lock |
| `RpcStreams.NothingIsDiscarded` | cli/src/rpc.rs:543-631 | immediate removal discards no write, a loop at its lock finds its record, and nothing is written to or shut down on a half already shut down |
| `RpcStreams.ShutdownIsFinal` | cli/src/rpc.rs:558-561 | after a half is shut down no later step of any run changes its history, so shutdown happens at most once |
| `StreamReplacement.InsertKeepsOwnersExactly` | cli/src/rpc.rs:575-584 | in every reachable state, insertion leaves every half with one owner if and only if no record of the id holds its half; otherwise that half has no owner |
| `StreamReplacement.InsertKeepsWritesExactly` | cli/src/rpc.rs:575-584 | in every reachable state, right after an insertion every accepted write is handled, in hand or queued if and only if a replaced record had nothing queued |
| `StreamReplacement.OldHalfGetsNewWrite` | cli/src/rpc.rs:603-627 | in every reachable state with a loop running for the id, a write accepted for the newly inserted stream can be delivered to the old half, and is then missing from the new one |
| `StreamReplacement.WritesNeedNoRunningLoop` | cli/src/rpc.rs:564-631 | in every reachable state, every accepted write is handled, in hand or queued after an insertion and every continuation if and only if the id has no record or its record holds its half |
| `StreamReplacement.GiveBackDropsNewHalf` | cli/src/rpc.rs:610-617 | in every reachable state with a loop running for the id, the loop's own next steps after an insertion leave the new half without an owner |
| `StreamReplacement.RemovalSavesNewHalf` | cli/src/rpc.rs:543-562 | in every such state a removal before the loop's next lock leads to a state where both halves are shut down once and the items in hand were written |
| `StreamReplacement.InsertNeedsFreshId` | cli/src/rpc.rs:575-631 | in every reachable state, every half has one owner after an insertion and every continuation if and only if the id has no record |
| `RpcStreams.LoopFinishes` | cli/src/rpc.rs:596-631 | from every reachable state a write loop left alone can finish, having written everything in its hand and queue in order; the half is then shut down if and only if the stream was ended |
| `RpcStreams.Streams.constructor` | cli/src/rpc.rs:537-540 | there are no records, tasks or halves |
| `RpcStreams.Streams.Insert` | cli/src/rpc.rs:575-584 | adds or replaces the record with the given half and an empty queue; with a new id it is the insert step |
| `RpcStreams.Streams.Write` | cli/src/rpc.rs:564-573 | is the write step: queues the bytes, and hands the half to a new loop if the record has it |
| `RpcStreams.Streams.Remove` | cli/src/rpc.rs:543-562 | is the remove step: takes record and half for shutdown, or marks the record ended |
| `RpcStreams.Streams.LoopLock` | cli/src/rpc.rs:603-621 | is the locked step of a loop: takes the queue, gives the half back, or ends |
| `RpcStreams.Streams.LoopWriteAll` | cli/src/rpc.rs:623-627 | is the write step of a loop; an error drops the rest of the drained items |
| `RpcStreams.Streams.Shutdown` | cli/src/rpc.rs:630-630 | is the shutdown step of a task |
| `RpcCalls.InvRun` | cli/src/rpc.rs:342-450 | in every run each pending entry belongs to a registered call with that id that has not fired, and each call fired at most once |
| `RpcCalls.FiresAtMostOnceWithOwnId` | cli/src/rpc.rs:361-378 | in every run, however many ids were issued, a callback fires at most once and only with a response that carries the call's id |
| `RpcCalls.ResponseMattersExactly` | cli/src/rpc.rs:439-449 | in every run a response with an id changes the state if and only if no dispatch panicked and a call with that id registered after the last response to it |
| `RpcCalls.StrayResponseCanBeLeftOut` | cli/src/rpc.rs:439-449 | leaving an unknown or repeated response out of a run gives a run with the same end state |
| `RpcCalls.SharedIdExactly` | cli/src/rpc.rs:397-400 | in every run two calls share an id if and only if their ids were issued a multiple of 2^32 apart |
| `RpcCalls.CallHasNextId` | cli/src/rpc.rs:397-400 | in every run a call's id is the number of ids taken by the steps before it, modulo 2^32 |
| `RpcCalls.RefusedCallEnds` | cli/src/rpc.rs:356-359 | in every run a call whose request could not be sent never registers and never completes |
| `RpcCalls.PoisonedTableIsFrozen` | cli/src/rpc.rs:439-449 | after a dispatch panicked no call registers or completes any more |
| `RpcCalls.ExpectedRun` | cli/src/rpc.rs:342-450 | the outcome of a call after any run, from any state that satisfies the invariant, is the one computed from the run's steps |
| `RpcCalls.CompletesExactly` | cli/src/rpc.rs:356-378 | in every run, with any number of ids, a call completes if and only if a response with its id is dispatched after its registration, before any panic and before another call with its id registers; it gets the first such response |
| `RpcCalls.CompletesBeforeWrapAround` | cli/src/rpc.rs:356-378 | until 2^32 ids were issued, a call completes if and only if a response with its id is dispatched after its registration and before any panic |
| `RpcCalls.RegisterKeepsExactly` | cli/src/rpc.rs:362-378 | a registration loses no waiting callback if and only if its id is not pending |
| `RpcCalls.LostForGood` | cli/src/rpc.rs:362-378 | a registered callback that has not fired and is not in the table never fires in any continuation |
| `RpcCalls.WrapAroundLosesCallback` | cli/src/rpc.rs:362-363 | from every reachable state with a waiting callback, at most 2^32 more ids and no response lead to a state after which it never fires |
| `RpcCalls.CallTable.constructor` | cli/src/rpc.rs:393-397 | no calls are pending and no id was issued |
| `RpcCalls.CallTable.NextMessageId` | cli/src/rpc.rs:397-400 | is the allocation step with a counter that wraps at 2^32 |
| `RpcCalls.CallTable.RegisterCallback` | cli/src/rpc.rs:361-378 | is the registration step; it panics on a poisoned table |
| `RpcCalls.CallTable.DispatchResponse` | cli/src/rpc.rs:439-449 | is the response step and returns the call whose callback ran |
| `StreamReaders.MessagesOfAStream` | cli/src/rpc.rs:453-524 | in every interleaving, the outbound messages about a stream are the announcement that a registration of the run asked for, with its ids and request, then one message per segment that the run's steps read, in order and of at most 4096 bytes, then at most one end; while the channel is open, only the segment in hand is missing, and a reader is finished if and only if its end was sent |
| `StreamReaders.ReaderForwards` | cli/src/rpc.rs:483-522 | on an open channel the reader of an announced stream can forward any segments and then its end |
| `StreamReaders.NothingBeforeAnnouncement` | cli/src/rpc.rs:458-475 | in every run nothing is sent about a stream that was not announced |
| `StreamReaders.StreamRun` | cli/src/rpc.rs:453-524 | the relation between a stream's history and the messages about it is kept by every run |
| `StreamReaders.Registrar.constructor` | cli/src/rpc.rs:453-457 | the channel is open and empty and there are no streams |
| `StreamReaders.Registrar.SendMessage` | cli/src/rpc.rs:489-502 | appends the message if and only if the channel is open |
| `StreamReaders.Registrar.RegisterStream` | cli/src/rpc.rs:453-480 | is the registration step: announces all ids in one message, and starts nothing if that fails |
| `StreamReaders.Registrar.ForwardSegment` | cli/src/rpc.rs:488-507 | is the data step of a reader; a closed channel stops it |
| `StreamReaders.Registrar.ForwardEnd` | cli/src/rpc.rs:511-521 | is the end step of a reader |
| `ReceiveLoop.DeadExactly` | cli/src/msgpack_rpc.rs:66-106 | no step of any kind is possible if and only if the loop wants to send and the channel is full |
| `ReceiveLoop.MessagesAre` | cli/src/msgpack_rpc.rs:71-96 | what draining sends is the message of each frame that sends one, in the order of the frames |
| `ReceiveLoop.FirstInFirstOut` | cli/src/msgpack_rpc.rs:99-101 | until the loop shuts down, messages are handed out in the order in which the steps of the run put them in, with none lost |
| `ReceiveLoop.BlockedForever` | cli/src/msgpack_rpc.rs:71-101 | a run that comes to a state where the loop's own send meets a full channel ends there |
| `ReceiveLoop.CanReturnExactly` | cli/src/msgpack_rpc.rs:66-101 | draining a read can end if and only if the loop's own messages fit into the free slots |
| `ReceiveLoop.NineRepliesNeverReturn` | cli/src/msgpack_rpc.rs:59-76 | after a read with more than eight replies the loop never returns to its select, even on an idle connection |
| `ReceiveLoop.CanBlockExactly` | cli/src/msgpack_rpc.rs:71-101 | with a given number of sends by spawned tasks the loop can block if and only if it has something to send and all messages together exceed the capacity |
| `ReceiveLoop.Outbound.constructor` | cli/src/msgpack_rpc.rs:59-59 | the channel is empty |
| `ReceiveLoop.Outbound.DrainRead` | cli/src/msgpack_rpc.rs:71-97 | with no other traffic, gets through if and only if the replies fit, and otherwise stops in a blocked state with exactly the earlier replies queued |
| `MsgPack.ParseStable` | cli/src/msgpack_rpc.rs:139-163 | bytes appended to a buffer never change an answer of the parser other than the need for more bytes |
| `MsgPack.StrictPrefixNeedsMore` | cli/src/msgpack_rpc.rs:143-150 | a buffer that ends inside a value asks for more bytes |
| `MsgPack.RoundTrip` | cli/src/msgpack_rpc.rs:27-35 | every encodable value is read back from its encoding with exactly its length, whatever follows |
| `WireFormat.HeadSound` | cli/src/msgpack_rpc.rs:139-163 | whatever marker and length the parser finds is what the format says of those bytes, with numbers as literal sums of their bytes |
| `WireFormat.HeadComplete` | cli/src/msgpack_rpc.rs:139-163 | the parser finds every header of the format, in short and long forms, with its meaning and its size |
| `WireFormat.ParseExactly` | cli/src/msgpack_rpc.rs:139-163 | the parser reads a value of some length off a buffer if and only if those bytes are a form of the value, shortest or not |
| `WireFormat.BadExactly` | cli/src/msgpack_rpc.rs:151-154 | the parser reports an error if and only if no continuation of the buffer starts with a value |
| `WireFormat.EncodedIsForm` | cli/src/msgpack_rpc.rs:27-30 | what the encoder writes is a form of the value |
| `WireFormat.EncodedIsShortest` | cli/src/msgpack_rpc.rs:27-30 | no form of a value is shorter than what the encoder writes |
| `MsgPack.ItemsRoundTrip` | cli/src/msgpack_rpc.rs:27-35 | so is every sequence of encodable values |
| `Framing.Decode` | cli/src/msgpack_rpc.rs:139-163 | a decoded frame carries exactly the bytes at the front of the buffer, and at least one |
| `Framing.DecodeStable` | cli/src/msgpack_rpc.rs:139-163 | a frame or an error found in a buffer is found in every extension of it |
| `Framing.DecodeAllAppend` | cli/src/msgpack_rpc.rs:66-98 | draining a buffer and then the leftover with more bytes is draining everything at once |
| `Framing.ChunkingDoesNotMatter` | cli/src/msgpack_rpc.rs:66-98 | however the bytes are cut into reads, the messages, the failure and the leftover are those of decoding the concatenation |
| `Framing.EncodedMessagesArrive` | cli/src/msgpack_rpc.rs:66-98 | however encoded messages followed by an incomplete one are cut into reads, exactly those messages arrive with exactly their bytes, and the incomplete one is left over |
| `Framing.StartIsIncomplete` | cli/src/msgpack_rpc.rs:143-150 | every proper prefix of a readable message's encoding is waited on |
| `Incoming.IncomingIsLeftToRight` | cli/src/rpc.rs:641-647 | the deserializer of incoming messages, which gives up early on repeated fields and wrong types, gives up for good and never on a readable message |
| `Incoming.ReadExactly` | cli/src/rpc.rs:641-647 | a value is read if and only if it is a map with each of id, method and error at most once and of its type; the message has those values and nothing else |
| `Incoming.FitsExactly` | cli/src/rpc.rs:643-696 | an id is nil or an unsigned 32-bit number, a method nil or a string, an error nil or a map with a 32-bit code and a string message, once each |
| `Incoming.WrittenIsRead` | cli/src/rpc.rs:668-696 | every request, success response and error response is read with its id, method and error, whatever its parameters or result are |
| `Incoming.MessagesArrive` | cli/src/msgpack_rpc.rs:66-98 | however the bytes of requests and responses, and of the start of another one, are cut into reads, exactly those messages are seen with exactly their bytes, that start is left over, and the connection does not fail |
| `Framing.Receiver.constructor` | cli/src/msgpack_rpc.rs:60-61 | the connection before any read |
| `Framing.Receiver.DecodeNext` | cli/src/msgpack_rpc.rs:139-162 | takes the front frame off the buffer, and leaves the buffer alone otherwise |
| `Framing.Receiver.OnRead` | cli/src/msgpack_rpc.rs:68-97 | one read: the decoding loop terminates in the state that draining at once gives |
| `Singleton.InvRun` | cli/src/singleton.rs:56-153 | lock, file contents, listeners and process states agree after every run of elections, crashes and client steps |
| `Singleton.AtMostOneServer` | cli/src/singleton.rs:27-30 | in every run at most one process holds a server, it holds the lock, and the file publishes it |
| `Singleton.ConnectionReachesHolder` | cli/src/singleton.rs:112-128 | every successful connection, even on stale contents, reaches the process that wrote them, which serves and holds the lock at that moment |
| `Singleton.FreshReadCanConnect` | cli/src/singleton.rs:86-108 | while a process serves, a client that reads the file gets its socket and can connect to it |
| `Singleton.CanServe` | cli/src/singleton.rs:65-108 | whenever the lock is free, an idle process with a new socket name can come to serve by its own steps: it holds the lock, the file names it and its socket listens for it |
| `Singleton.CanConnect` | cli/src/singleton.rs:112-148 | while a process serves, a reading client or an idle process can connect to it by its own steps with one more connect |
| `Singleton.ElectionWorks` | cli/src/singleton.rs:56-74 | from every reachable state with a free lock, one idle process can come to serve and another can then connect to it |
| `Singleton.LockIsHandedOn` | cli/src/singleton.rs:27-30 | from every reachable state, a crash of the lock's holder or the drop of its server frees the lock and the socket, and another idle process can come to serve |
| `Singleton.ClientsGiveUp` | cli/src/singleton.rs:110-153 | in every run a client is within 11 rounds of at most 6 connects and 66 connects in all |
| `Singleton.ClientUsesAllRounds` | cli/src/singleton.rs:110-153 | the bounds are reached: a client whose connects all fail makes six in each of the rounds it has left of eleven, and then gives up |
| `Singleton.RetryConnect` | cli/src/singleton.rs:139-153 | stops at the first success or exit within 6 connects, and otherwise after exactly 6 |
| `Singleton.ConnectAsClient` | cli/src/singleton.rs:112-137 | returns the outcome of the first decisive round among the first 11, and gives up if and only if there is none |
| `Keyring.ReadAfterStore` | cli/src/auth.rs:327-371 | reading after storing over any old entries gives the text, unless the last chunk is open-ended; then what the read goes on to find is appended |
| `Keyring.StoreThenReadExactly` | cli/src/auth.rs:327-371 | a non-empty text is read back if and only if its length is no multiple of the step and its last chunk does not end in the marker, or old entries happen to supply just what is missing |
| `Keyring.FullLastChunkIsLost` | cli/src/auth.rs:357-360 | a length that is a multiple of the step, with no entry after those written, reads as no credential |
| `Keyring.EntriesWithinLimit` | cli/src/auth.rs:349-371 | storing writes a block of non-empty entries within the limit and changes no other entry |
| `Keyring.EntriesAreFull` | cli/src/auth.rs:351-363 | every entry of a stored text but the last is the next limit minus 6 characters followed by the marker, so exactly as long as the limit; the last one is the rest |
| `Keyring.StoredIsCleared` | cli/src/auth.rs:349-383 | clearing after a store, on a storage with any entries open, comes to those and to the ones a read looks at, older ones included if the last chunk is open-ended; it succeeds if and only if all of them exist, deletes every entry written and the older ones with no missing one before, and leaves nothing to read |
| `Keyring.KeyringStorage.constructor` | cli/src/auth.rs:303-310 | no entry is opened |
| `Keyring.KeyringStorage.GetNextEntry` | cli/src/auth.rs:312-324 | returns the entry of the index, opening it if it is the next one |
| `Keyring.KeyringStorage.Read` | cli/src/auth.rs:327-347 | reassembles what the entries say, or none at a missing entry, and opens exactly the entries it looks at |
| `Keyring.KeyringStorage.StoreSealed` | cli/src/auth.rs:349-371 | succeeds if and only if no entry needed is refused, with the entries needed open; a failure is at the first refused entry, with the earlier ones written, the later ones as they were, and the entries up to it open |
| `Keyring.KeyringStorage.Clear` | cli/src/auth.rs:373-383 | deletes the entries open after a read up to the first that does not exist, and succeeds if and only if there is none such |
| `DevicePoll.PollsAreBounded` | cli/src/auth.rs:816-835 | the intervals before a poll's loop entry sum to less than the lifetime, so polls are at most the lifetime over 5 rounded up; with c slow-downs before it, whatever the other answers, 5c(c+1)/2 is below the lifetime |
| `DevicePoll.BoundIsReached` | cli/src/auth.rs:816-835 | without delays, slow-downs and grants exactly that many polls are made |
| `DevicePoll.IntervalIs` | cli/src/auth.rs:816-830 | the first interval is 5 seconds and grows by 5 exactly after a slow-down or a status 429 |
| `DevicePoll.ClockIs` | cli/src/auth.rs:817-820 | every round advances the clock by its interval and its lag |
| `DevicePoll.Poll` | cli/src/auth.rs:816-835 | each interval is 5 plus 5 per earlier slow-down or 429; the loop makes exactly the polls before expiry and grant |
| `PersistedState.Container.constructor` | cli/src/state.rs:107-115 | the value is the one stored in the file, or the default |
| `PersistedState.Container.LoadOrGet` | cli/src/state.rs:46-59 | returns the value and does not change it |
| `PersistedState.Container.Save` | cli/src/state.rs:61-86 | the new value counts even if writing the file fails |
| `DownloadCache.InvRun` | cli/src/download_cache.rs:52-139 | every sequence of operations keeps the list and the directories in step |
| `DownloadCache.ListAndDirectoriesAgree` | cli/src/download_cache.rs:52-139 | in every run the list has no duplicates, lists every finished directory, and is at most 5 plus the failed evictions long, which are at most the operations that could not evict |
| `DownloadCache.DirectoriesChangeExactly` | cli/src/download_cache.rs:52-139 | in every reachable state a directory appears if and only if a creation of it succeeds, and disappears if and only if it is deleted or is the last of more than five names when another is touched |
| `DownloadCache.DeletedIsGone` | cli/src/download_cache.rs:63-72 | deleting takes exactly that name out of the list and exactly its directory away, unless the directory cannot be removed |
| `DownloadCache.ReportedIsKept` | cli/src/download_cache.rs:52-117 | an entry that `exists` reports or `create` finishes is first in the list and is not evicted |
| `DownloadCache.RecentMeaning` | cli/src/download_cache.rs:121-124 | the reference order lists each name of the history once, by its latest use |
| `DownloadCache.ListIsFiveMostRecent` | cli/src/download_cache.rs:119-139 | in every run in which evictions succeed and nothing is deleted, the list is the five most recent distinct names that the run's operations touch |
| `DownloadCache.ReopenedFindsList` | cli/src/state.rs:128-133 | while saves are written, a cache opened anew finds the same list after every run |
| `DownloadCache.MoveToFront` | cli/src/download_cache.rs:121-124 | removes the first occurrence and inserts the name at the front |
| `DownloadCache.Cache.constructor` | cli/src/download_cache.rs:32-37 | the empty cache |
| `DownloadCache.Cache.Touch` | cli/src/download_cache.rs:119-139 | is the touch operation on list, directories and file |
| `DownloadCache.Cache.MakeRoom` | cli/src/download_cache.rs:126-136 | pops the last name if there are more than 5 and its directory is gone or removed, then saves |
| `DownloadCache.Cache.Exists` | cli/src/download_cache.rs:52-60 | is the exists operation and tells whether the directory was there |
| `DownloadCache.Cache.Delete` | cli/src/download_cache.rs:63-72 | is the delete operation and its error |
| `DownloadCache.Cache.Create` | cli/src/download_cache.rs:78-117 | is the create operation with at most 21 renames; it succeeds if and only if the directory is there |
| `ImportMerge.Unique` | scripts/sync-agent-host-protocol.ts:206-207 | has the same elements, each once |
| `ImportMerge.MeaningIsKept` | scripts/sync-agent-host-protocol.ts:158-220 | whenever the merge does not throw, for every module the merged lines import the same names as types and the same names as values |
| `ImportMerge.UniqueNext` | scripts/sync-agent-host-protocol.ts:206-207 | elements come in the order of their first occurrence |
| `ImportMerge.MergedLineIs` | scripts/sync-agent-host-protocol.ts:205-216 | the merged import of a module is an `import type` if and only if no value import names anything from it; names come in order of first occurrence, those of value imports first |
| `ImportMerge.OutlineIsKeptExactly` | scripts/sync-agent-host-protocol.ts:173-219 | the merge succeeds with one import per module at its first place and all other lines in order if and only if no other line starts with the placeholder |
| `ImportMerge.ImitationBecomesImport` | scripts/sync-agent-host-protocol.ts:203-216 | when the merge does not throw, a line that starts with the placeholder becomes a second import of the module it names |
| `ImportMerge.ThrowsExactly` | scripts/sync-agent-host-protocol.ts:202-206 | the merge throws if and only if another line starts with the placeholder and names no imported module |
| `ImportMerge.IdempotentExactly` | scripts/sync-agent-host-protocol.ts:158-220 | whenever the merge does not throw, merging again changes nothing if and only if no other line starts with the placeholder and no module has a name listed by both kinds of type import |
| `ImportMerge.Collect` | scripts/sync-agent-host-protocol.ts:177-192 | one import line extends the names collected per module |
| `ImportMerge.ReplacePlaceholders` | scripts/sync-agent-host-protocol.ts:202-219 | every placeholder becomes the combined import of its module, or the merge throws |
| `ImportMerge.MergeDuplicateImports` | scripts/sync-agent-host-protocol.ts:169-219 | the loop over the lines computes the merge |
| `TextEdits.LastToFirstIsSplice` | scripts/sync-agent-host-protocol.ts:56-60 | sorted disjoint edits made from last to first are the simultaneous splice against the original offsets |
| `TextEdits.ApplyEdits` | scripts/sync-agent-host-protocol.ts:57-60 | the loop makes the edits from last to first, clamping offsets as `substring` does, and so the splice when they are sorted |
| `TextEdits.UncoveredStays` | scripts/sync-agent-host-protocol.ts:56-60 | a character no edit covers is in the result, moved by the growth of the edits before it |
| `TextEdits.NewTextIsPlaced` | scripts/sync-agent-host-protocol.ts:56-60 | the new text of every edit is in the result at its moved offset |
| `TextEdits.SpliceLength` | scripts/sync-agent-host-protocol.ts:56-60 | the length changes by the growth of the edits |
| `PolicyState.AcceptedExactly` | scripts/mock-policy-server/server.ts:253-311 | a batch is accepted if and only if each update is valid by itself and no two name the same endpoint |
| `PolicyEffects.RequestAcceptedExactly` | scripts/mock-policy-server/server.ts:234-311 | a request is accepted if and only if its JSON is a well-formed update, or nothing but a non-empty array of them with distinct endpoints |
| `PolicyEffects.RequestTakesEffect` | scripts/mock-policy-server/server.ts:313-341 | an accepted request sets the status, body and activity of each endpoint it names to what its JSON says, else to what the first preset of the given name says, 200 and active included, else leaves them; other endpoints stay |
| `PolicyEffects.ResetGives` | scripts/mock-policy-server/server.ts:344-354 | a reset gives each endpoint the status and body of its first preset, or 200 and an empty object, and activates those mocked by default |
| `PolicyState.BatchIsAtomic` | scripts/mock-policy-server/server.ts:313-341 | a rejected batch changes nothing; an accepted one changes each named endpoint by its update and no other, and keeps the ids |
| `PolicyState.OrderDoesNotMatter` | scripts/mock-policy-server/server.ts:253-341 | every permutation of a batch is accepted or rejected alike with the same resulting state |
| `PolicyState.StatusesStayInRange` | scripts/mock-policy-server/server.ts:288-354 | over all runs of requests and resets the endpoints are the defined ones, each with a status from 200 to 599, given that the presets are |
| `PolicyState.ValidateAll` | scripts/mock-policy-server/server.ts:253-311 | the validation loop with its set of seen endpoints computes the validation, including the first error |
| `PolicyState.CommitAll` | scripts/mock-policy-server/server.ts:313-336 | the commit loop computes the next state from a copy |
| `PolicyState.Server.constructor` | scripts/mock-policy-server/server.ts:344-354 | the server starts with the first preset of every endpoint |
| `PolicyState.Server.ResetEndpointState` | scripts/mock-policy-server/server.ts:344-354 | every endpoint is back at its first preset |
| `PolicyState.Server.ApplyEndpointUpdates` | scripts/mock-policy-server/server.ts:234-342 | the request takes effect as a whole or returns its error |
| `Overrides.WireThenUnwireExactly` | scripts/mock-policy-server/server.ts:690-733 | wire then unwire restores the overrides file exactly, whatever it held, if and only if it existed or no backup was left over |
| `Overrides.WireTimesIs` | scripts/mock-policy-server/server.ts:690-719 | after any number of wires the file is wired and is the one the first wire wrote; the second wire overwrites the backup with it |
| `Overrides.WiredAt` | scripts/mock-policy-server/server.ts:690-719 | wiring backs an existing file up; every endpoint key gets the URL of the last endpoint with it, every other field is what the file's own agent says, else the product, else absent, other top-level keys are kept, and a file that holds null stays |
| `Overrides.UnwiredAt` | scripts/mock-policy-server/server.ts:735-765 | unwiring without a backup changes a file if it has an object or true value as agent: endpoint keys get the product's value or are dropped, all other fields and top-level keys stay |
| `Overrides.IsWiredExactly` | scripts/mock-policy-server/server.ts:664-677 | the overrides count as wired if and only if the file's agent has the server's URL for every endpoint key |
| `Overrides.UnwiresWired` | scripts/mock-policy-server/server.ts:690-765 | wiring and then unwiring without the backup gives every endpoint key the product's value or none, every other field what the file said or else the product, and keeps other top-level keys |
| `Overrides.RemovedExactly` | scripts/mock-policy-server/server.ts:753-765 | unwiring without a backup removes a file if and only if it has no other top-level key and its agent says what the product says, endpoints aside |
| `Overrides.UnwireSettles` | scripts/mock-policy-server/server.ts:735-765 | unwiring without a backup a second time changes nothing |
| `Overrides.SecondUnwireResets` | scripts/mock-policy-server/server.ts:690-766 | after two or more wires one unwire leaves every endpoint wired; the second resets them all and keeps the rest |
| `Overrides.OverrideFiles.constructor` | scripts/mock-policy-server/server.ts:690-692 | the files as they are found |
| `Overrides.OverrideFiles.OverrideUrls` | scripts/mock-policy-server/server.ts:655-661 | the URLs by key, with exactly the keys of the endpoints |
| `Overrides.OverrideFiles.WireOverrides` | scripts/mock-policy-server/server.ts:690-719 | backs the file up and rewrites it, after which it is wired; on a file that holds null it throws after the backup |
| `Overrides.OverrideFiles.UnwireOverrides` | scripts/mock-policy-server/server.ts:726-766 | restores the backup, or resets the endpoint keys and drops what is left empty; without a backup it throws on a file that holds null |
| `LineBuffer.NothingIsLost` | src/bootstrap-fork.ts:118-137 | for every chunking, the texts passed on, each newline cut followed by its newline, and the buffer, are the whole input; the buffer holds no newline and stays within the limit |
| `LineBuffer.LinesAreShownExactly` | src/bootstrap-fork.ts:118-137 | for every chunking, the texts passed on, split at newlines, are the complete lines of the input if and only if each chunk, with the unfinished line before it, is within the limit |
| `LineBuffer.OverflowsShowMore` | src/bootstrap-fork.ts:127-132 | the number of lines shown is the number of complete lines of the input covered plus the number of overflows |
| `LineBuffer.Stream.constructor` | src/bootstrap-fork.ts:122-122 | the buffer is empty |
| `LineBuffer.Stream.Write` | src/bootstrap-fork.ts:126-132 | is one write, and returns the text passed on, if any |
| `WorkerPool.EverySuiteOnce` | scripts/test-agent-host-e2e.ts:74-84 | in every completion order each suite is started once, in order, at most `jobs` run at once, and each result is stored once at its own suite's index |
| `WorkerPool.NoResultMissing` | scripts/test-agent-host-e2e.ts:77-84 | when all workers are done every suite has its result |
| `WorkerPool.ResultLandsAtOwnIndex` | scripts/test-agent-host-e2e.ts:78-81 | in every run the result with which a worker comes back is stored for good at the index that is the number of tries to take a suite before the worker's own |
| `WorkerPool.RunsAreBounded` | scripts/test-agent-host-e2e.ts:77-84 | every run takes at most two steps per suite and one per worker, and exactly that many if and only if all workers are done |
| `WorkerPool.JobCount` | scripts/test-agent-host-e2e.ts:133-138 | the worker count is the smaller of the request, or of the cores, and the number of suites; requests that are not positive integers are refused |
| `WorkerPool.Pool.constructor` | scripts/test-agent-host-e2e.ts:74-77 | all workers are about to take a suite |
| `WorkerPool.Pool.TakeNext` | scripts/test-agent-host-e2e.ts:78-80 | is the step that takes the next suite or ends the worker |
| `WorkerPool.Pool.Store` | scripts/test-agent-host-e2e.ts:81-81 | is the step that stores the awaited result |

## Left out

- Incoming.Read: reads maps with string keys, as the serializer writes them; the positional form and other kinds of keys, which the serialization library also accepts, are not modelled.
- MsgPack.Parse: UTF-8 validity and the nesting limit are not modelled; the format's reserved marker is the only invalid one.
- Keyring.StoreThenReadExactly: sealed text is single-byte characters, since chunks are cut by byte; sealing, encryption and keyring errors other than a missing entry or a refused update are not modelled.
- RpcStreams.LoopFinishes: says what a loop does when it is scheduled; that the runtime schedules it, and that a write or a shutdown returns, is not claimed.
- Singleton.InvRun: takes the file lock as exclusive, socket names as never reused, a half-written lock file as unreadable, and a crash as releasing lock and listener together.
- ReceiveLoop.CanReturnExactly: a decoding error ends the loop instead of returning it to its select; it is part of `Framing` and not of the channel model.
- DownloadCache.ListAndDirectoriesAgree: covers operations one after the other; `create` touches the list before its rename, so concurrent calls are not covered. Names that collide with the state file or with staging directories are not modelled.
- ImportMerge.MergeDuplicateImports: starts from parsed lines; line-ending normalisation, the collapsing of multi-line imports and the regular expressions are not modelled.
- Overrides.WireThenUnwireExactly: JSON is modelled up to key order within an agent, with agents that are objects, null, numbers or booleans; string and array agents and top-level values other than objects and null are not modelled.
- WorkerPool.NoResultMissing: a suite run that rejects, which ends the whole runner, is not modelled; neither is the text of the arguments.
- Mutexes, channels, tasks and file locks are atomic steps, FIFO queues and exclusive locks; their implementations are not modelled.
- The request handlers, method table and serialization of `cli/src/rpc.rs`, and the outer loop that asks for a new device code, are not modelled.
- The choice between keyring and file storage (`store_credentials`), the OAuth transport and token refresh are not modelled.
- `convertIndentation`, `stripExistingHeader`, the request log, the HTTP routes and the proxy of the scripts would only add easy members.
- The other files of the repository are not part of this model.
