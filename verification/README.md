# Verified models of the CLI's protocols and of the code around them

This project models the parts of the repository in which order, ownership, arithmetic or graphs
make the code hard to trust by reading, and proves what they keep over whole runs. Methods that
change state (`class` members) are proved to compute exactly what a specification function says;
the theorems are about those functions and about runs of the steps made of them.
`dafny verify dfyconfig.toml` checks everything.

## Parts

- **Streams of the RPC layer** (`Streams`, `StreamProtocol`, `StreamRuns`, `StreamBatches`,
  `StreamOverwrites`). A table of records under a lock passes the write half of a pipe between an idle record and a write loop. Every section
  under the lock and every piece of a write is one step that any task may take at any time.
  Main results: `DeliveryIsFifo`, `OneHolder`, `RecordNeverMissing`, `ShutIsFinal`,
  `EndedStreamCloses`, `InsertCanLoseIffBusy`.
- **Dispatcher and calls** (`Rpc`, `Calls`). What one message leads to, and outbound calls whose
  replies may arrive between any two of their steps. Main results: `AnsweredByKind`,
  `CompletedByOwnReply`.
- **Transports** (`Transport`, `TransportOrder`, `TransportProgress`, `TransportAnnouncements`). The
  loops of both transports with response futures and stream readers, all sending into a channel of capacity 8 that only the
  loop empties. Main results: `ExactlyOneResponse`, `AnnouncedExactlyOnce`, `StreamsGoOutInOrder`, `FinishesIffRoom`,
  `ResponsesWrittenIffRoom`.
- **Frames** (`MsgPack`, `MsgPackFormats`, `MsgPackCodec`). The whole "Formats" table of the MessagePack
  specification, and decoding a byte stream that arrives in arbitrary pieces. Main results:
  `ReaderAnswers`, `EncodeParse`, `ChunkingInvariance`, `WrittenMessagesArrive`.
- **The accessor rule** (`AwaitPaths`, `AwaitRule`, `AwaitUses`, `AwaitTheorems`, `AwaitExactness`,
  `AwaitDeadCode`, `AwaitEvaluation`). Function bodies get a semantics of paths, and the walk of the lint rule is
  compared with it. Main results: `ReportsAreUses`, `RuleIsSound`, `RuleIsExactUpToDeadCode`,
  `CallOrderIsTheOnlyGap`.
- **Credentials** (`Keyring`, `Credentials`, `TokenTiming`). Chunked keyring entries, the fallback
  to a file across restarts of the process, polling for a token and keeping it alive. Main results:
  `StoreThenRead`, `FreshProcessReadsLastStore`, `WorkingKeyringIsUsed`, `CurrentIsLastStored`,
  `IntervalCountsSlowDowns`, `NextRefreshTime`.
- **Download cache** (`DownloadCache`). A list of recently used names in memory and in a file, and
  the directories on disk. Main results: `ListIsMostRecent`, `DirectoriesAreListedAndBounded`,
  `RestartAfterLostSavesIff`.
- **Daily digest** (`Digest`). One mail a local day, although the day is remembered as a midnight in
  UTC. Main results: `MailsIff`, `DigestsOfADay`, `ExactlyOneADay`.
- **Console piping** (`ConsolePipe`, `ConsoleText`, `ConsoleTrees`, `ConsoleMarks`, `ConsoleArrival`). Output gathered into whole lines, and arguments
  that may refer to objects in a cycle. Main results: `NothingLost`, `InputArrivesIffAllFit`,
  `SerializesTree`, `MarksAreTrueIff`.

## Where the code falls short of what one might expect

In these cases the model follows the code; a lemma shows an input, and another one says exactly when
the expectation holds.

- A sealed credential whose length is a multiple of the chunk step, or whose last chunk happens to
  end with the marker, is lost in the keyring, and clearing it is an error; or it comes back with
  stale data of an older one (`Keyring.RoundTripOverNothingStale`, `Keyring.RoundTripOverStale`,
  `Keyring.ClearsIffReadsBack`).
- West of Greenwich the remembered day reads back as the day before, so every tick in the user's
  hour sends a digest (`Digest.WestReadsDayBefore`, `Digest.DigestsOfADay`).
- A transport loop that has more to send than its own channel has room for stops for ever
  (`TransportProgress.BlockedForEver`, `TransportProgress.FinishesIffRoom`,
  `TransportProgress.ResponsesWrittenIffRoom`).
- A reply that is dispatched before the callback is filed is dropped (`Calls.EarlyReplyIsLost`,
  `Calls.CompletedByOwnReply`).
- An insert over a record whose half is out with a write loop can lose bytes, of the old stream and
  of the new one (`StreamRuns.OverwritingInsertLosesBytes`, `StreamOverwrites.InsertCanLoseIffBusy`).
- The rule reports uses in dead code, and misses a call on the accessor that awaits in its own
  arguments and a call that awaits behind the accessor among its arguments
  (`AwaitExactness.DeadCodeIsReported`, `AwaitExactness.RuleIsExactUpToDeadCode`,
  `AwaitDeadCode.HarmlessDeadCodeIsExact`,
  `AwaitEvaluation.AwaitInArgumentIsMissed`, `AwaitEvaluation.AwaitBehindAccessorIsMissed`,
  `AwaitEvaluation.CallOrderIsTheOnlyGap`).
- A list of the cache that could not be saved hides directories from the next process
  (`DownloadCache.LostSaveHidesDirectory`, `DownloadCache.RestartAfterLostSavesIff`).
- `[Circular]` is also written for an object that is merely shared (`ConsoleText.SharedIsMarked`,
  `ConsoleMarks.MarksAreTrueIff`).
- Console output is replaced by a notice when a text sent at once is too long: after an overflow, for
  a long line, or for several lines written together (`ConsolePipe.OverflowIsOmitted`,
  `ConsoleArrival.LongLineIsOmitted`, `ConsoleArrival.CuttingDecides`,
  `ConsoleArrival.InputArrivesIffAllFit`).
- The last poll for a token can come after the code has expired (`TokenTiming.LastPollCanBeLate`,
  `TokenTiming.AllInTimeIff`).
- A comment at `polvocode/cli/src/auth.rs:870` speaks of falling back to 60 seconds; the code falls
  back to 10, and the model follows it (`TokenTiming.SleepBounds`).

## What is a parameter

Reads, writes, the keyring, the network and the file system are values that say how each operation
goes: pieces of a write that get through, failing keyring entries, saves that cannot be opened or are
cut short, evictions and renames that fail, replies of the authorization server with the time they
take. Clocks are integers. Sealing and unsealing a credential is an abstract pair of functions, of
which only `unseal(seal(c)) == Some(c)` is assumed.

## Model

| member | source | states |
|---|---|---|
| `Streams.StreamTable.Insert` | polvocode/cli/src/rpc.rs:575-584 | a record with the write half, an empty queue and no end replaces whatever was under the id |
| `Streams.StreamTable.Write` | polvocode/cli/src/rpc.rs:564-573 | a present record gets the segment at the end of its queue; a half found there is taken out for a new write loop; without a record nothing happens |
| `Streams.StreamTable.Remove` | polvocode/cli/src/rpc.rs:543-562 | an idle record disappears and its half is to be shut down; a busy one is only marked as ended |
| `Streams.StreamTable.TakeTurn` | polvocode/cli/src/rpc.rs:602-621 | one turn under the lock: close, hand the half back, or swap the queue for the drained vector |
| `Streams.StreamTable.WriteLoop` | polvocode/cli/src/rpc.rs:596-631 | undisturbed, the loop gets the queued bytes through in order, up to the first write that fails, then puts the idle record back or, when ended, removes it and shuts the half down once |
| `Streams.AllGetsThroughIffNoFailure` | polvocode/cli/src/rpc.rs:623-627 | what gets through of a batch is a prefix of it, and all of it exactly when no write fails |
| `StreamBatches.BatchSends` | polvocode/cli/src/rpc.rs:623-627 | a batch written by steps among all other tasks does what the undisturbed loop does: it sends exactly what its writes get through, and after a failed write nothing of it is left |
| `StreamProtocol.StepKeepsInv` | polvocode/cli/src/rpc.rs:531-631 | every step of every task, in any interleaving, keeps: a record holds its half and is idle, or exactly one loop holds it; settled and pending bytes make up the accepted ones |
| `StreamRuns.RunKeepsInv` | polvocode/cli/src/rpc.rs:531-631 | the invariant holds after every run whose inserts use free ids |
| `StreamRuns.DeliveryIsFifo` | polvocode/cli/src/rpc.rs:564-631 | after any run: bytes delivered, bytes lost to failed writes and bytes queued are, in order, exactly the accepted segments; without a failed write, delivered followed by queued is all that was accepted |
| `StreamRuns.AcceptedAreTheWrites` | polvocode/cli/src/rpc.rs:564-573 | the accepted segments are exactly those written while the record was present, in the order of the writes, including writes after an end |
| `StreamRuns.OneHolder` | polvocode/cli/src/rpc.rs:531-631 | a present record either has its half, an empty queue and no end, with no loop on it, or has no half and exactly one live loop |
| `StreamRuns.RecordNeverMissing` | polvocode/cli/src/rpc.rs:602-621 | a live loop always finds its record, so the missing-record branch is never taken; it closes exactly when the queue is empty and the stream ended |
| `StreamRuns.ShutAtMostOnce` | polvocode/cli/src/rpc.rs:558-631 | a half is shut down at most once, and no live task works on a half that was |
| `StreamRuns.ShutIsFinal` | polvocode/cli/src/rpc.rs:610-631 | after its shutdown a pipe never changes again in any continuation |
| `StreamRuns.WorkIsBounded` | polvocode/cli/src/rpc.rs:596-631 | in any run the steps taken for a pipe are bounded by what was queued for it, by a potential that every step pays for |
| `StreamRuns.HolderCanMove` | polvocode/cli/src/rpc.rs:596-631 | tasks have a step to take for a pipe exactly while one of them holds its half: there is no deadlock |
| `StreamRuns.RemoveEnds` | polvocode/cli/src/rpc.rs:543-562 | a remove of a present record puts its pipe into the ending state at once |
| `StreamRuns.EndedStreamCloses` | polvocode/cli/src/rpc.rs:543-631 | from the end on tasks take boundedly many steps, stop only after the one shutdown, and by then have delivered everything accepted unless a write failed |
| `StreamRuns.ImmediateEndDeliversAll` | polvocode/cli/src/rpc.rs:742-754 | two writes followed at once by a remove: however the tasks are scheduled, the half is shut down once, and unless a write to this stream failed both segments have arrived |
| `StreamRuns.InsertSafeIffFresh` | polvocode/cli/src/rpc.rs:575-584 | an insert keeps the invariant exactly when its id has no record |
| `StreamRuns.OldPipeLosesItsQueue` | polvocode/cli/src/rpc.rs:575-584 | what an insert over a record costs the pipe that was there at once: exactly the bytes in the queue of the record |
| `StreamOverwrites.InsertCanLoseIffBusy` | polvocode/cli/src/rpc.rs:575-584 | an insert over a record can cost accepted bytes in some continuation without failed writes exactly when the record is busy |
| `StreamOverwrites.IdleInsertLosesNothing` | polvocode/cli/src/rpc.rs:575-584 | over an idle record it never does, in any continuation and for any pipe |
| `StreamOverwrites.OldHalfComesBack` | polvocode/cli/src/rpc.rs:610-617 | an old loop whose batch is sent puts its own half into the new record; the new half is dropped |
| `StreamOverwrites.LoopWithoutRecordShuts` | polvocode/cli/src/rpc.rs:604-607 | a loop that finds no record under its id shuts its half down once and touches nothing else |
| `StreamOverwrites.OldHalfIsShut` | polvocode/cli/src/rpc.rs:604-631 | that happens to the old loop of a stream that was inserted over and then ended |
| `StreamOverwrites.GoneForGood` | polvocode/cli/src/rpc.rs:564-573 | a pipe whose half nobody holds gets no byte more in any continuation |
| `StreamRuns.OverwritingInsertLosesBytes` | polvocode/cli/src/rpc.rs:575-584 | an insert over a busy record loses accepted bytes although no write fails |
| `StreamRuns.IdsRepeatAfterWrap` | polvocode/cli/src/rpc.rs:397-400 | two draws from the 32-bit counter give the same id exactly when their distance is a multiple of 2^32 |
| `StreamRuns.DistinctIdsAreFresh` | polvocode/cli/src/rpc.rs:575-584 | pairwise distinct inserted ids are always free when they are inserted |
| `StreamRuns.CounterIdsAreSafe` | polvocode/cli/src/rpc.rs:397-400 | with distinct draws below 2^32, inserted in any order, every run with ids from the counter is one whose inserts use free ids, so all of the above applies |
| `Rpc.Dispatcher.NextMessageId` | polvocode/cli/src/rpc.rs:397-400 | returns the old value of the 32-bit counter, which then wraps modulo 2^32 |
| `Rpc.Dispatcher.DrawIds` | polvocode/cli/src/rpc.rs:242-252 | a duplex request draws consecutive ids |
| `Rpc.Dispatcher.Call` | polvocode/cli/src/rpc.rs:342-381 | draws an id, sends, and files the callback under it only when the request was sent; panics then if an earlier panic poisoned the lock |
| `Rpc.Dispatcher.DispatchWithPartial` | polvocode/cli/src/rpc.rs:420-450 | the outcome of a message (which one is said by `Rpc.AnsweredByKind` and `Rpc.AnsweredExactlyWhenAsked`), the ids drawn, and the one callback that a reply removes and runs, by its own id only; a message without method and id panics and poisons the lock, so that later replies panic too |
| `Rpc.AnsweredExactlyWhenAsked` | polvocode/cli/src/rpc.rs:115-143 | a message is answered exactly when it has a method and an id, under that id, with success exactly when the method exists, its parameters are right and its callback succeeds; it panics exactly without both |
| `Rpc.AnsweredByKind` | polvocode/cli/src/rpc.rs:420-450 | in which way, by the kind of the registered method alone: from a future exactly for an async one; with streams exactly for a duplex one whose parameters are right, as many as registered, under consecutive ids and for the request's id; at once for sync ones, unknown methods and replies |
| `Calls.StepKeepsInv` | polvocode/cli/src/rpc.rs:342-381 | while fewer than 2^32 ids were drawn, every step keeps: a callback is filed under an id exactly while the call with that id waits |
| `Calls.CallStep` | polvocode/cli/src/rpc.rs:439-449 | a call changes only by its own steps or by a reply under its own id that finds its callback; a completed call stays as it is |
| `Calls.CompletedByOwnReply` | polvocode/cli/src/rpc.rs:342-381 | over any run a call completes at most once, exactly when a reply under its id comes after the filing of its callback, and with the first such reply |
| `Calls.ReplyAfterFiling` | polvocode/cli/src/rpc.rs:439-449 | what that means in plain words: some reply under the id is dispatched at a position after the filing |
| `Calls.NeverFiled` | polvocode/cli/src/rpc.rs:354-381 | a call whose request could not be sent never completes |
| `Calls.EarlyReplyIsLost` | polvocode/cli/src/rpc.rs:354-381 | a reply dispatched between the send and the filing is dropped, and the call waits on |
| `Calls.NextCallId` | polvocode/cli/src/rpc.rs:397-400 | a call gets the next id of the counter, counting every draw before it, modulo 2^32 |
| `Calls.WrappedIdDropsOlderCall` | polvocode/cli/src/rpc.rs:342-381 | once the counter has wrapped, a call that files its callback under the id of one that still waits drops that one, and the next reply under the id is its own |
| `MsgPack.MoreBytes` | polvocode/cli/src/msgpack_rpc.rs:139-162 | bytes behind a value, or behind something that is none, do not change what is read |
| `MsgPack.ParseEncode` | polvocode/cli/src/msgpack_rpc.rs:139-162 | reading an encoded value gives that value and its length, whatever follows; which bytes are values is said by `MsgPackFormats.ReaderAnswers` |
| `MsgPack.EncodeParse` | polvocode/cli/src/msgpack_rpc.rs:139-162 | the bytes a value is read from are its one encoding |
| `MsgPack.CutOffIsEof` | polvocode/cli/src/msgpack_rpc.rs:139-162 | every strict prefix of an encoding reads as incomplete, never as a value or an error |
| `MsgPackFormats.ReadsWritten` | polvocode/cli/src/msgpack_rpc.rs:139-162 | a message written in any format of the specification, with tags, sizes and both halves of each map entry spelled out, is read whole and no byte more, whatever follows |
| `MsgPackFormats.ReadsExactlyTheMessages` | polvocode/cli/src/msgpack_rpc.rs:139-162 | the reader takes n bytes off the front exactly when those are some message of the specification |
| `MsgPackFormats.ReaderAnswers` | polvocode/cli/src/msgpack_rpc.rs:139-162 | for every buffer: a value exactly when a message stands in front, incomplete exactly when the buffer is a strict beginning of a message, an error otherwise |
| `MsgPackFormats.WrittenMessagesArrive` | polvocode/cli/src/msgpack_rpc.rs:67-98 | written messages, and a cut-off one behind them, arrive frame by frame for every cutting of the stream |
| `MsgPackFormats.OnePairIsOneFrame` | polvocode/cli/src/msgpack_rpc.rs:183-192 | the bytes of a map with one entry are one message of four bytes |
| `MsgPackCodec.Codec.Decode` | polvocode/cli/src/msgpack_rpc.rs:139-162 | takes one frame off the front of the buffer together with its bytes, or leaves the buffer as it is |
| `MsgPackCodec.Codec.OnRead` | polvocode/cli/src/msgpack_rpc.rs:70-98 | one read: the frames and the buffer left are those of draining the old buffer with the chunk behind it |
| `MsgPackCodec.DrainKeepsBytes` | polvocode/cli/src/msgpack_rpc.rs:139-162 | the bytes of the frames followed by the leftover are exactly the buffer |
| `MsgPackCodec.DrainInTwo` | polvocode/cli/src/msgpack_rpc.rs:70-98 | draining, and draining again after more bytes came, is draining once |
| `MsgPackCodec.ChunkingInvariance` | polvocode/cli/src/msgpack_rpc.rs:67-98 | for every way of cutting a byte stream into reads: the frames, the failure and the leftover of the whole stream |
| `MsgPackCodec.SameFramesHoweverCut` | polvocode/cli/src/msgpack_rpc.rs:67-98 | two ways of cutting the same stream give the same frames, and frames plus leftover are the bytes received |
| `MsgPackCodec.FeedEnds` | polvocode/cli/src/msgpack_rpc.rs:139-162 | a connection fails exactly when the bytes it is left with are no message; otherwise they are an incomplete one |
| `MsgPackCodec.MsgPackIsSound` | polvocode/cli/src/msgpack_rpc.rs:139-162 | the MessagePack reader meets what the codec theorems ask of a reader |
| `MsgPackCodec.FramesAreEncodings` | polvocode/cli/src/msgpack_rpc.rs:139-162 | each frame carries exactly the encoding of its message |
| `MsgPackCodec.MessagesArrive` | polvocode/cli/src/msgpack_rpc.rs:67-98 | messages sent in a row, with a cut-off one behind them, arrive as those messages for every cutting, and the cut-off bytes stay in the buffer |
| `Transport.ExactlyOneResponse` | polvocode/cli/src/json_rpc.rs:69-102 | over every run of either transport a response is written at most as often as requests ask for it, and exactly as often once the loop is idle, the channel empty and every future finished |
| `Transport.StepConserves` | polvocode/cli/src/msgpack_rpc.rs:66-108 | every step keeps each response asked for in exactly one place: frame, loop, future, channel or wire |
| `Transport.DispatchConserves` | polvocode/cli/src/rpc.rs:409-450 | a dispatch turns what its frame asks for into exactly that response |
| `TransportAnnouncements.AnnouncedExactlyOnce` | polvocode/cli/src/rpc.rs:453-481 | over every run of either transport: streams are announced for a request id, with the number of streams of its method, at most as often as such calls came in, and exactly as often when the loop is in its select and the channel empty |
| `TransportOrder.StepKeepsInv` | polvocode/cli/src/rpc.rs:453-524 | every step keeps, for all streams at once, what was heard of each in line with where it is |
| `TransportOrder.StreamsGoOutInOrder` | polvocode/cli/src/rpc.rs:453-524 | for any interleaving of streams and responses: the announcement, then segments of 1 to 4096 bytes that make up the bytes read, then at most one end |
| `TransportOrder.InsertedBeforeNextDispatch` | polvocode/cli/src/msgpack_rpc.rs:85-95 | before the next frame is dispatched every announced stream is in the stream table |
| `TransportProgress.BlockedForEver` | polvocode/cli/src/msgpack_rpc.rs:59-108 | once the loop blocks on its own full channel no step of any task changes loop, channel or wire again |
| `TransportProgress.OvercommittedNeverFinishes` | polvocode/cli/src/msgpack_rpc.rs:66-98 | with more to send than there is room for, or a frame that panics ahead, the loop never gets back to its select |
| `TransportProgress.Finishes` | polvocode/cli/src/msgpack_rpc.rs:66-98 | with room for everything, the loop alone works its batch off |
| `TransportProgress.MustFinishWithRoom` | polvocode/cli/src/msgpack_rpc.rs:66-98 | with room for all it has to send and no frame that panics, the loop gets back to its select in every run in which no other task sends, within a bounded number of its own steps, never blocking |
| `TransportProgress.LoopWorkIsBounded` | polvocode/cli/src/msgpack_rpc.rs:66-98 | in every run of a batch, whatever the others do, the loop takes boundedly many steps |
| `TransportProgress.FinishesIffRoom` | polvocode/cli/src/msgpack_rpc.rs:66-98 | in any state of a batch: with room for all that the loop has to send and no frame that panics, it gets back to its select in every undisturbed run; otherwise in no run at all |
| `TransportProgress.BatchFinishesIffRoom` | polvocode/cli/src/msgpack_rpc.rs:59-98 | k queued messages and a batch with m sends of the loop: every undisturbed run finishes it when k + m <= 8, and no run otherwise |
| `TransportProgress.OverfullWritesNothing` | polvocode/cli/src/msgpack_rpc.rs:66-104 | with more to send than there is room for, no run ever writes anything again |
| `TransportProgress.ResponsesWrittenIffRoom` | polvocode/cli/src/msgpack_rpc.rs:59-108 | after any run of the MessagePack transport and a batch without panics: all responses asked for can be written exactly when k + m <= 8 or none was left to write; above the bound no run writes anything more |
| `TransportProgress.LineIsAnsweredIffRoom` | polvocode/cli/src/json_rpc.rs:46-102 | for a line of the JSON transport: unless it opens streams while the channel is full |
| `TransportProgress.OneLineNeedsRoomForAnAnnouncement` | polvocode/cli/src/json_rpc.rs:46-102 | a line of the JSON transport needs room for one message, and only when it opens streams; then every undisturbed run gets through it |
| `TransportProgress.CompetingSends` | polvocode/cli/src/msgpack_rpc.rs:59-108 | sends of other tasks during a batch take room away one by one; the loop does not block while there is room for its own and theirs |
| `AwaitRule.Checker.Visit` | polvocode/.eslint-plugin-local/code-no-accessor-after-await.ts:124-253 | the walk with its closure variables computes the await state and the reports of its specification (what those report is said by `AwaitUses.ReportsAreUses`); on a tree the visited set cuts nothing off |
| `AwaitRule.Checker.VisitIf` | polvocode/.eslint-plugin-local/code-no-accessor-after-await.ts:159-191 | an if: both branches from the state before them, merged by which of them always exit |
| `AwaitRule.Checker.VisitConditional` | polvocode/.eslint-plugin-local/code-no-accessor-after-await.ts:193-203 | a conditional expression: both branches from the same state, merged by disjunction |
| `AwaitRule.Checker.VisitList` | polvocode/.eslint-plugin-local/code-no-accessor-after-await.ts:298-397 | children are visited in order, each from the state left by the one before |
| `AwaitUses.ReportsAreUses` | polvocode/.eslint-plugin-local/code-no-accessor-after-await.ts:278-296 | told by the shape of the nodes alone: from every entry state only calls of a method of the accessor and the accessor as an argument of a call are reported; once something was awaited, all of the outermost ones are |
| `AwaitUses.NoMentionNoReport` | polvocode/.eslint-plugin-local/code-no-accessor-after-await.ts:278-296 | a body without an identifier of the accessor's name gets no report, from every entry state |
| `AwaitTheorems.ExitsNeverCompletes` | polvocode/.eslint-plugin-local/code-no-accessor-after-await.ts:260-272 | a statement said to exit always has no path that falls through |
| `AwaitTheorems.WalkCovers` | polvocode/.eslint-plugin-local/code-no-accessor-after-await.ts:116-203 | from every entry state the walk accounts for every path: misuses raise the report count, and an await on a completing path sets the state |
| `AwaitTheorems.RuleIsSound` | polvocode/.eslint-plugin-local/code-no-accessor-after-await.ts:116-203 | for every body: a path that uses the accessor after an await gets a report |
| `AwaitExactness.StmtCompletes` | polvocode/.eslint-plugin-local/code-no-accessor-after-await.ts:260-272 | a clean statement completes on some path exactly when it is not said to exit always |
| `AwaitExactness.AwaitStateIsExact` | polvocode/.eslint-plugin-local/code-no-accessor-after-await.ts:159-203 | after a clean statement that can complete, the await state is set exactly when some path through it has awaited |
| `AwaitExactness.CleanBodiesAreExact` | polvocode/.eslint-plugin-local/code-no-accessor-after-await.ts:116-203 | on bodies without dead statements there is a report exactly when there is a misuse, and every reported node is misused on some path |
| `AwaitExactness.PruneIsClean` | polvocode/.eslint-plugin-local/code-no-accessor-after-await.ts:260-272 | leaving out the statements behind one that always exits makes a body clean |
| `AwaitExactness.PruneKeepsPaths` | polvocode/.eslint-plugin-local/code-no-accessor-after-await.ts:260-272 | and keeps its paths |
| `AwaitExactness.RuleIsExactUpToDeadCode` | polvocode/.eslint-plugin-local/code-no-accessor-after-await.ts:116-203 | for every body: there is a misuse exactly when the rule reports something on the body without its dead statements |
| `AwaitExactness.DeadCodeIsReported` | polvocode/.eslint-plugin-local/code-no-accessor-after-await.ts:116-203 | a body whose only report is behind a return |
| `AwaitDeadCode.HarmlessDeadCodeIsExact` | polvocode/.eslint-plugin-local/code-no-accessor-after-await.ts:116-203 | the rule is exact on every body whose dead statements do not use the accessor and end in one that always exits too |
| `AwaitEvaluation.CallOrderIsTheOnlyGap` | polvocode/.eslint-plugin-local/code-no-accessor-after-await.ts:139-155 | with uses placed where they happen, the accessor can be used after an await exactly when the live part has a report, or a call on the accessor that awaits while it is evaluated, or a call that is handed the accessor and awaits in a later argument |
| `AwaitEvaluation.AwaitInArgumentIsMissed` | polvocode/.eslint-plugin-local/code-no-accessor-after-await.ts:278-285 | a call on the accessor with an await among its arguments is a misuse without a report |
| `AwaitEvaluation.AwaitBehindAccessorIsMissed` | polvocode/.eslint-plugin-local/code-no-accessor-after-await.ts:286-294 | a call that is handed the accessor before an argument that awaits is a misuse without a report |
| `Keyring.KeyringStorage.GetNextEntry` | polvocode/cli/src/auth.rs:312-324 | entry handles are opened once each and kept |
| `Keyring.KeyringStorage.Read` | polvocode/cli/src/auth.rs:327-347 | concatenates chunks up to the first without marker; a missing entry is no credential, a failing one an error; says which handles it opens |
| `Keyring.KeyringStorage.Store` | polvocode/cli/src/auth.rs:349-371 | writes all chunks, or stops at the first failing entry with exactly those before it written |
| `Keyring.KeyringStorage.Clear` | polvocode/cli/src/auth.rs:373-383 | deletes the opened entries in order, all of them exactly when each is there and can be deleted; otherwise stops at the first that is not |
| `Keyring.ClearedEntries` | polvocode/cli/src/auth.rs:373-383 | entry by entry: a clear removes those before the first, among the ones with a handle or opened by a read, that is missing or cannot be deleted, keeps all others, and goes through when there is no such entry |
| `Keyring.ReadStops` | polvocode/cli/src/auth.rs:327-347 | a read ends at the first entry that cannot be accessed, with an error; that is missing, with no credential; or that does not end with the marker, with all entries up to it strung together without their markers |
| `Keyring.ChunksFit` | polvocode/cli/src/auth.rs:349-371 | every entry a store writes is not empty and fits the limit; all others are untouched |
| `Keyring.StoreThenRead` | polvocode/cli/src/auth.rs:326-371 | for every string and every earlier content of the keyring, what a read yields after a store |
| `Keyring.RoundTripOverNothingStale` | polvocode/cli/src/auth.rs:326-371 | with nothing stale behind: the string comes back exactly when its length is no multiple of the step and its last chunk does not end with the marker; otherwise the read finds nothing |
| `Keyring.RoundTripOverStale` | polvocode/cli/src/auth.rs:326-371 | over stale entries such strings come back exactly when the stale rest reads as nothing, or as the marker itself |
| `Keyring.ClearsIffReadsBack` | polvocode/cli/src/auth.rs:373-383 | with nothing stale behind, a clear after a store succeeds and leaves nothing exactly when the credential could be read back |
| `Keyring.ClearLeavesStale` | polvocode/cli/src/auth.rs:373-383 | over any earlier content, clearing a credential that reads back goes through and leaves exactly the older entries behind its own |
| `Credentials.Auth.WithStorage` | polvocode/cli/src/auth.rs:439-488 | settles on keyring or file at first use (on which is said by `Credentials.OpensKeyringIff`), and on nothing else later |
| `Credentials.OpensKeyringIff` | polvocode/cli/src/auth.rs:456-486 | a fresh process works on the keyring, with the file to fall back on, exactly when no file is preferred, there is no token file and the keyring answers, even if it holds nothing; what it then finds in keyring or file |
| `Credentials.WorkingKeyringIsUsed` | polvocode/cli/src/auth.rs:439-488 | over any run in which the keyring answers and its stores go through: no token file ever comes about, every process works on the keyring, and the last credential that can be read back is there |
| `Credentials.FileIsThereIff` | polvocode/cli/src/auth.rs:614-636 | over any run from no token file: there is one in the end exactly when some process that works on the file, or whose keyring store failed, wrote it |
| `Credentials.Auth.StoreCredentials` | polvocode/cli/src/auth.rs:614-636 | opens the storage if need be, stores, falls back to the file once when the keyring fails, and remembers the credential in any case |
| `Credentials.StoreEffects` | polvocode/cli/src/auth.rs:614-636 | told entry by entry: the keyring has exactly the chunks that were written over what it had, the file is written exactly by a storage on it or one that falls back on it for good, and the credential is remembered in any case |
| `Credentials.Auth.ClearCredentials` | polvocode/cli/src/auth.rs:514-521 | opens the storage if need be, leaves in the keyring exactly what a keyring clear leaves, and forgets the credential only when that went through |
| `Credentials.StoreReachesIff` | polvocode/cli/src/auth.rs:614-636 | which stores can be read back later: through the keyring with a length and an end that read back, or into the file, at once or after the keyring failed |
| `Credentials.StepKeepsInv` | polvocode/cli/src/auth.rs:439-488 | every step of any process keeps: the last credential that reached its destination is in the file, or in the keyring with no file to hide it |
| `Credentials.FreshProcessReadsLastStore` | polvocode/cli/src/auth.rs:614-636 | over any run of stores, clears and restarts from any disk: a fresh process reads the last credential that reached its destination exactly when the token file exists or nothing keeps it from the keyring; after a clear it reads none |
| `Credentials.CurrentIsLastStored` | polvocode/cli/src/auth.rs:506-512 | what the current credential is, in a fresh process or one in use: over any run in which nothing keeps a process from the keyring, that of the last store, while its process lives even if it reached no destination; none after a clear that went through |
| `Credentials.FileHidesKeyring` | polvocode/cli/src/auth.rs:456-463 | once the token file exists it stays, and no process reads or writes the keyring any more |
| `TokenTiming.PollForToken` | polvocode/cli/src/auth.rs:815-834 | the polling loop for one code ends; without a grant only when the code has expired |
| `TokenTiming.IntervalCountsSlowDowns` | polvocode/cli/src/auth.rs:815-834 | each poll comes 5 seconds, and 5 more for every earlier reply `slow_down` or 429, after the one before was answered; no other reply changes the pause (section 3.5 of RFC 8628) |
| `TokenTiming.OnlyLastMayBeLate` | polvocode/cli/src/auth.rs:816-834 | every poll but the last is sent, and answered, before the code expires, and not granted |
| `TokenTiming.AllInTimeIff` | polvocode/cli/src/auth.rs:815-834 | exactly when no poll comes after the expiry, over the turns alone: the code was expired from the start, or the first turn that is granted or answered after the expiry sends its request before it |
| `TokenTiming.InTimeIffGrantedInTime` | polvocode/cli/src/auth.rs:816-834 | with replies that come at once: exactly when there is no poll, or one is granted before the expiry |
| `TokenTiming.LastPollCanBeLate` | polvocode/cli/src/auth.rs:816-834 | the last poll can come after the code has expired |
| `TokenTiming.PollsAreBounded` | polvocode/cli/src/auth.rs:815-834 | a code that lives E seconds is polled at most E/5 times, rounded up, and never when E is not positive |
| `TokenTiming.BoundIsReached` | polvocode/cli/src/auth.rs:815-834 | the bound is met when every poll fails at once without a slow-down |
| `TokenTiming.AllSlowedDown` | polvocode/cli/src/auth.rs:815-834 | n polls that are all told to slow down take at least 5n(n+1)/2 seconds |
| `TokenTiming.SplitKeepsValue` | polvocode/cli/src/auth.rs:854-864 | seconds and nanoseconds, divided towards zero, are balanced and keep the value and its sign |
| `TokenTiming.TwoThirdsDoNotOverflow` | polvocode/cli/src/auth.rs:854-859 | no representable duration overflows on the way to two thirds of it |
| `TokenTiming.SleepBounds` | polvocode/cli/src/auth.rs:848-871 | the sleep is at least 10 seconds, exactly 10 after an error, an hour without expiry, two thirds of the time left from 15 seconds on; the token outlives it exactly when 10 seconds are left |
| `TokenTiming.Refresh` | polvocode/cli/src/auth.rs:873-895 | what each outcome of a refresh does to the loop |
| `TokenTiming.KeepTokenAlive` | polvocode/cli/src/auth.rs:841-897 | the loop is the fold of its rounds, and does nothing after its end |
| `TokenTiming.GivesUpIffFatal` | polvocode/cli/src/auth.rs:873-882 | the loop ends exactly at the first reply with a status from 400 to 499, with that status, or for want of a refresh token; no refresh follows, and until then there is one for every round |
| `TokenTiming.RemembersLastRound` | polvocode/cli/src/auth.rs:883-895 | while the loop runs: it has stored exactly the credentials that refreshes brought, works with the last of them, and remembers an error exactly when its last refresh was one |
| `TokenTiming.NextRefreshTime` | polvocode/cli/src/auth.rs:846-873 | when the next refresh begins: ten seconds after a failed one, otherwise after two thirds of the time that the credential gained last still has, and after an hour without an expiry |
| `TokenTiming.StaysSteady` | polvocode/cli/src/auth.rs:841-897 | over any run: refreshes are at least 10 seconds apart and use the credential stored last |
| `TokenTiming.RetriesBeforeExpiry` | polvocode/cli/src/auth.rs:848-896 | while refreshes fail, n of them are made before the token expires whenever their pauses and delays fit into the last third of the time left |
| `DownloadCache.Cache.LoadOrGet` | polvocode/cli/src/state.rs:46-59 | memory first, then the file, then the empty list |
| `DownloadCache.Cache.SaveList` | polvocode/cli/src/state.rs:61-86 | memory takes the list in any case, the file only when the save works |
| `DownloadCache.Cache.RemovePosition` | polvocode/cli/src/download_cache.rs:121-123 | takes out the first occurrence of a name |
| `DownloadCache.Cache.Touch` | polvocode/cli/src/download_cache.rs:119-139 | name to the front, and at most one eviction, of the last name with its directory |
| `DownloadCache.Cache.Exists` | polvocode/cli/src/download_cache.rs:52-60 | answers by the directory and touches the name only when it is there |
| `DownloadCache.Cache.Delete` | polvocode/cli/src/download_cache.rs:63-72 | directory and name go together; when the directory cannot be removed nothing changes |
| `DownloadCache.Cache.RenameStaging` | polvocode/cli/src/download_cache.rs:102-114 | succeeds exactly when one of the 21 attempts does |
| `DownloadCache.Cache.Create` | polvocode/cli/src/download_cache.rs:78-117 | the directories and the list after each way in which a creation can end |
| `DownloadCache.ListIsMostRecent` | polvocode/cli/src/download_cache.rs:119-139 | with evictions that succeed, after any touches the list is the up to five most recently touched distinct names, newest first |
| `DownloadCache.TouchIsSafe` | polvocode/cli/src/download_cache.rs:119-139 | in any case a touch keeps the list distinct, never evicts the name just touched, loses no listed directory, and lets the list grow over five only by a failed eviction |
| `DownloadCache.ListStep` | polvocode/cli/src/download_cache.rs:52-139 | what each step does to the list: name to the front and the last of more than five dropped unless its directory cannot be removed; a deleted name taken out; all others kept in their order |
| `DownloadCache.StagingStep` | polvocode/cli/src/download_cache.rs:93-114 | the staging directory is left exactly by a creation that made it and did not get it renamed, or that did neither make nor clean it |
| `DownloadCache.StepKeepsAgreement` | polvocode/cli/src/download_cache.rs:52-139 | exists, delete and create keep every directory on the list, whichever of their parts fail |
| `DownloadCache.DirsStep` | polvocode/cli/src/download_cache.rs:52-139 | which directory a step makes and which it removes, by deletion or by an eviction that is due |
| `DownloadCache.RunAgreesAndIsBounded` | polvocode/cli/src/download_cache.rs:52-139 | over any run the list stays distinct and covers the directories, and is at most as long as at the start plus the evictions that were due and failed |
| `DownloadCache.DirectoriesAreListedAndBounded` | polvocode/cli/src/download_cache.rs:52-139 | from an empty cache: at most five directories plus one for every eviction that was due and failed |
| `DownloadCache.RestartAfterLostSavesIff` | polvocode/cli/src/state.rs:61-86 | after any number of lost saves the next process can go on from the file exactly when every directory these steps leave behind, by what each makes and removes, is on the old list; after one that was cut short, exactly when they leave none |
| `DownloadCache.RestartAfterStepIff` | polvocode/cli/src/state.rs:61-86 | for a single step, by its save, the directory it makes and those it removes |
| `DownloadCache.LostSaveHidesDirectory` | polvocode/cli/src/state.rs:72-86 | a first creation whose list cannot be saved leaves a directory no later process lists |
| `Digest.Jobs.ProcessDigest` | openpolvobackend/internal/schedule/finance_jobs.go:75-91 | who gets a mail, for which day, and what is remembered, for every way an attempt can end |
| `Digest.Jobs.RunJobs` | openpolvobackend/internal/schedule/finance_jobs.go:65-73 | a tick handles each listed row by its listed settings and touches no other |
| `Digest.ProcessedIff` | openpolvobackend/internal/schedule/finance_jobs.go:75-91 | a mail goes out exactly in the user's hour of a day for which none is remembered, to a user with an address, when sending works; a marked one is remembered as that day's midnight in UTC |
| `Digest.MailsIff` | openpolvobackend/internal/schedule/finance_jobs.go:65-73 | over a whole tick: a user gets the mail of a day exactly when a row of the user is due for it |
| `Digest.KeyReadsBackIff` | openpolvobackend/internal/schedule/finance_jobs.go:79-91 | the stored midnight reads back as its own day exactly for offsets from 0 to less than a day |
| `Digest.AtMostOneADay` | openpolvobackend/internal/schedule/finance_jobs.go:79-91 | for offsets of 0 or more, at most one digest a local day, but for those that could not be marked |
| `Digest.DigestsOfADay` | openpolvobackend/internal/schedule/finance_jobs.go:75-91 | exactly, for every offset: one if the user's hour saw a tick that day, and for negative offsets one for every such tick |
| `Digest.WestReadsDayBefore` | openpolvobackend/internal/schedule/finance_jobs.go:79-91 | for negative offsets the stored midnight reads back as the day before |
| `Digest.TicksApart` | openpolvobackend/internal/schedule/finance_jobs.go:21-40 | two ticks are as far apart as the configured interval; an interval under a minute stands for an hour |
| `Digest.EveryHourIsHitIff` | openpolvobackend/internal/schedule/finance_jobs.go:24-27 | a ticker hits every user's hour exactly when its interval is at most an hour |
| `Digest.ExactlyOneADay` | openpolvobackend/internal/schedule/finance_jobs.go:21-40 | ticks at most an hour apart around the user's hour bring exactly one digest |
| `ConsolePipe.WrappedStream.Write` | polvocode/src/bootstrap-fork.ts:118-137 | one write: what goes to the console, what stays gathered, and that the chunk is passed through |
| `ConsolePipe.NothingLost` | polvocode/src/bootstrap-fork.ts:126-133 | over any run of writes the texts sent with their consumed line breaks, and the rest, are exactly the input; the rest has no line break and at most 1 MiB |
| `ConsolePipe.CuttingDoesNotMatter` | polvocode/src/bootstrap-fork.ts:126-133 | without overflow, the lines of the texts given to the console, followed by the rest, are those of the whole input, however it was cut into writes |
| `ConsolePipe.OverflowIsOmitted` | polvocode/src/bootstrap-fork.ts:65-69 | a text goes out without a consumed line break exactly when more than 1 MiB was gathered; it then is all of it, and never arrives: the console sends a notice in its place |
| `ConsoleArrival.EscapedBack` | polvocode/src/vs/base/common/console.ts:30-51 | the JSON text of every string reads back as that string |
| `ConsoleArrival.TextArrivesIffFits` | polvocode/src/vs/base/common/console.ts:30-51 | a text given to the console arrives with all its lines exactly when its JSON text is not too long; otherwise one line tells of a notice |
| `ConsoleArrival.InputArrivesIffAllFit` | polvocode/src/bootstrap-fork.ts:65-69 | over every run of writes: the lines that arrive, followed by the rest, are those of the whole input exactly when every text sent fits |
| `ConsoleArrival.LongLineIsOmitted` | polvocode/src/bootstrap-fork.ts:67-69 | a whole line that does not fit is replaced by the notice although nothing overflows |
| `ConsoleArrival.CuttingDecides` | polvocode/src/bootstrap-fork.ts:126-133 | two lines that fit one by one but not together arrive when written one by one, and become the notice when written together |
| `ConsoleText.Serializer.Replace` | polvocode/src/bootstrap-fork.ts:54-64 | a container met before becomes the mark, any other is remembered |
| `ConsoleText.Serializer.Stringify` | polvocode/src/bootstrap-fork.ts:54-64 | the serialization of a value and the containers met by its end; it ends on every graph |
| `ConsoleText.ExpandsEachReachableOnce` | polvocode/src/bootstrap-fork.ts:52-65 | on every finite graph, cyclic or not: no container is expanded twice, only reachable ones are, and all of them when nothing throws |
| `ConsoleTrees.SerializesTree` | polvocode/src/bootstrap-fork.ts:52-65 | the serialization fails exactly when something that can be reached throws, and with such an error; otherwise it is the JSON text of the tree that unfolds each container where it is met first in reading order and is a mark wherever it is met again |
| `ConsoleTrees.SentTextIs` | polvocode/src/bootstrap-fork.ts:52-74 | the text sent for a call: that of the array of its arguments up to 100000 characters, a notice for a longer one, and a notice with the error when something throws |
| `ConsoleTrees.MassagedAre` | polvocode/src/bootstrap-fork.ts:25-49 | undefined becomes that word, an error its stack, or its description when it has none, and any other argument stays |
| `ConsoleMarks.MarksAreTrueIff` | polvocode/src/bootstrap-fork.ts:52-65 | when nothing throws: the circular mark is written only for references back to a container they are inside of exactly when every reachable container has one simple route from the root; and not at all exactly when each has one route, that is, when they form a tree |
| `ConsoleMarks.MarksAreExtraReferences` | polvocode/src/bootstrap-fork.ts:57-60 | over any listing of the reachable containers: the marks number their references minus those a tree of them has |
| `ConsoleText.SharedIsMarked` | polvocode/src/bootstrap-fork.ts:57-60 | an object that is shared but not circular is marked as circular |
| `ConsoleText.Massage` | polvocode/src/bootstrap-fork.ts:25-49 | undefined and errors are replaced before serialization |
| `ConsoleText.SafeToString` | polvocode/src/bootstrap-fork.ts:21-75 | the text sent for a call, also when inspection throws or the text is too long |
| `ConsoleText.LongStringIsOmitted` | polvocode/src/bootstrap-fork.ts:67-71 | exactly when a single string's JSON text is over the limit, the notice is sent instead |

## Left out

- Streams.StreamTable.WriteLoop: the method runs undisturbed; loops that are interleaved with other calls are tasks of the machine in `StreamProtocol`, whose lock sections are the functions the class is proved against.
- Transport loops: modelled as machines of atomic steps on values, not as methods, because their parts run interleaved with other tasks; read and write errors, end of input and shutdown of the connection are not modelled.
- StreamRuns.EndedStreamCloses: liveness is a bound on the steps of the tasks together with the absence of deadlock; fairness of the scheduler, which makes the steps happen, is not modelled, nor is memory ordering.
- MsgPack.Parse: gives the bytes of one value of the format; the depth limit of the decoder and errors of typed deserialization, which come after it, are not modelled.
- StreamRuns.CounterIdsAreSafe: for more than 2^32 draws only `IdsRepeatAfterWrap` and `InsertSafeIffFresh` say what happens.
- AwaitTheorems.RuleIsSound: bodies without loops, `switch` and `try`; there the rule walks a body once by design, and its reports are not about paths.
- AwaitRule.Checker.Visit: finding the functions to check and their accessor parameter (lines 25-115, 400-420) is not modelled; node kinds that only hold children in order share one constructor.
- Keyring.StoreThenRead: strings of one-byte characters, as lengths are in bytes there; slicing inside a longer character panics.
- Credentials.Auth.StoreCredentials: the time limit of the keyring thread on Linux is a store that fails after some chunks; two processes at the same time are not modelled.
- TokenTiming.PollForToken: one device code; the outer loop asks for a new code, with the interval back at five seconds, when it has expired.
- DownloadCache.Cache.Create: concurrent creations and the delay between rename attempts are not modelled; a name that equals the list's own file is not considered.
- Digest.Jobs.ProcessDigest: the text of the mail, reminders for subscriptions, user lookup errors other than a missing address, and changes of the offset (daylight saving) are not modelled.
- Digest.EveryHourIsHitIff: ticks that a slow job makes the ticker drop are not modelled.
- ConsoleText.Serializer.Stringify: leaves are given by their JSON text; `toJSON`, `RegExp`, `Date` and unpaired surrogates are not modelled.
- ConsoleArrival.InputArrivesIffAllFit: the receiver's handling of a trailing stack argument and of characters written as surrogate escapes is not modelled, nor is a parent that closed the channel.
- ConsolePipe.WrappedStream.Write: characters instead of UTF-16 units; decoding of binary chunks is not modelled, nor is the mode in which only errors are sent.
- Self-update, service installation, locking between processes, the launcher's paths, other lint rules and the rest of the back end: plumbing around the parts above.
