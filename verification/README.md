# Verified model of the connection tracker, the RPC transport and the log writer

This project models three subsystems of the library and proves what they promise over whole runs.

**Heartbeat tracker.** `HeartBeatList` is the intrusive doubly linked list on heap nodes. `ElementMgr` couples it with
the map and the counter, as a class. `Tracker` states each manager operation as a step on values, and every class
method is proved to make exactly that step and to call back exactly what that step reports. `ActivityLog` knows
nothing of lists or maps: it says what a bare history of events (added, touched, deleted, expired, ...) implies about
who is live, since when and in which order. The central result is that every run leaves the tracker in the state its
history explains (`Tracker.RunIsExplained`), so that conservation, LRU eviction, expiry and "no return without a new
add" are theorems about histories. `HeartBeatSystem` adds the task queue, the self re-arming timer and a microsecond
clock; `HeartBeatService` is the object.

**RPC transport.** `Frames` holds the eight-byte header, the printers and a recursive reference decoder of byte
streams. `Protocol` is the resumable parser, proved equal to that decoder whatever the chunking; `Sessions` is what
follows over openings, breaks and resets; `Monitoring` joins it to the heartbeat service that closes silent
connections. `SendQueue` is the write queue with one write in flight. `Pipeline` joins
sender, wire and receiver and proves in-order delivery in every interleaving. `Compression` models the compressing
printers around an arbitrary codec.

**Log rotation.** `LogRotation` models the writer, its counters and the truncating open, begun on a disk that may
already hold files, and proves file bounds and file content. `LogSurvival` proves exactly when texts are lost.

## Findings

- The limit and bulk removal. Bulk removals do not lower the element counter, so with a limit K the room left is K
  minus everything ever removed in bulk, and the next add reads through null exactly when K elements have been removed
  that way (`Tracker.LimitHolds`, `Tracker.AddCrashesExactly`; `Tracker.BulkRemovalUsesUpTheLimit` is a run of three calls
  that ends so). Without bulk removal and with K at least 1 it never
  happens (`Tracker.BoundedWithoutBulk`). K = 0 is the case where the first add fails.
- The list's `erase` documents -1 for a node it does not hold. A node strictly inside another chain is unlinked there
  and reported as found, unless the list asked is empty; the contract of `HeartBeatList.HeartBeatList.Erase` says
  exactly when 0 is returned, `HeartBeatList.EraseInsideAnother` shows it for every such node and
  `HeartBeatList.ErasedThroughTheWrongList` on four concrete nodes.
- The early stop of the timeout handler is exact iff no stale entry stands in front of a fresh one
  (`Tracker.EarlyStopIsExactIff`). A clock that never goes back guarantees that; `Tracker.ClockGoingBackHidesStale` is
  a run in which it does go back.
- A last message without a body is not posted until another byte arrives (`Frames.StreamDecodes`,
  `Pipeline.PostedExactly`; `Frames.BareHeaderWaits` is the one-message stream).
- A body of 2^32 bytes or more is framed with a truncated length (`Frames.FrameRoundTripIff`); one of exactly 2^32
  bytes is read as an empty message (`Frames.FourGigabytesReadAsNothing`).
- The second compressing printer flags its output even when the codec failed. The body comes back when compression is
  off, the message is below the size limit or the codec succeeded, and otherwise only if what the failed codec left
  happens to inflate to it (`Compression.RecompressedRoundTrip`). With a codec that fails and leaves nothing,
  every message large enough is lost (`Compression.FailedCodecLosesTheBody`).
- The first compressing printer looks its command up in a filter table of 65535 entries, so command 65535 reads past
  the end, exactly when compression is on and the message is not below the size limit (`Compression.CompressMsg`;
  mylib/rpc/rpc_utility.h:13, mylib/rpc/rpc_utility.cpp:20).
- Log files are truncated on opening, and only the first file after a start looks for a free number. On any disk, what
  is found there is safe from a restart exactly when no file of the day above the number chosen holds a text
  (`LogSurvival.RestartIsSafeIff`; `LogSurvival.GapIsOverwritten` is a day with a file missing in the middle). The
  writer itself leaves no gaps (`LogSurvival.NoGapArises`), so its own files survive (`LogSurvival.OwnFilesSurvive`).
- For the same reason a date can be written on for ever without loss exactly when it is the date the writer is on or
  one without texts (`LogSurvival.ReturnIsUnsafeIff`, on any disk). Where every date with texts has some in its file
  number zero, a single run loses a text exactly when a date returns (`LogSurvival.NothingIsLostIff`;
  `LogSurvival.ReturningDateLosesText` is a run of three entries). Otherwise a return may lose nothing until rotation
  gets far enough (`LogSurvival.EmptyZeroDelaysLoss`).
- The heartbeat service accepts new settings and a new start after a stop, but its io service stays stopped: no task and
  no timer ever runs again (`HeartBeatSystem.StoppedForGood`).
- The connection monitor calls `asyn_add_element`, `asyn_update_element` and `asyn_del_element`
  (mylib/rpc/rpc_conn_monitor.cpp:49-69), names the service does not declare; it has `async_...`. They are taken to be
  the same.

## Assumptions

- Each io service has one thread, so tasks run one at a time in the order posted. Timer handlers may run at any point
  between tasks once their deadline has passed; the detection bound takes a bound `late` on how long after.
- Callbacks do not call back into the manager. The clock is a parameter of each step.
- The socket completes a write it was given with at most its size, and with exactly its size on success.
- Header bytes are modelled low byte first; both ends are taken to use the same order. Sizes are 64 bits wide.
- `set_write_state` is declared without a body; it is taken to assign the flag. `sync_close_i` is likewise declared
  only; the model counts the requests made to it.
- The string decompressor and both compressors are parameters. A round trip assumes, of the one message it is about,
  that what a successful compressor made of it inflates back to it.
- The monitor is started before the sessions it watches, and a passive connection object serves one session.
- Popping, map removal and counting of one node are one method here where the source repeats them inline, and
  the three bulk removals share one loop. The log writer's entry handler is split into its three parts, and the
  service's `stop` into what it does before and after waiting for the service thread.

## Model

| member | source | states |
|---|---|---|
| HeartBeatList.HeartBeatList.PushFront | mylib/heart_beat/heart_beat_list.h:134-157 | puts the node in front of the sequence and keeps all links mutually inverse; null is refused |
| HeartBeatList.HeartBeatList.PushBack | mylib/heart_beat/heart_beat_list.h:159-182 | puts the node behind the sequence and keeps all links mutually inverse |
| HeartBeatList.HeartBeatList.PopFront | mylib/heart_beat/heart_beat_list.h:184-208 | takes the first node off, fully detached, or returns null on an empty list |
| HeartBeatList.HeartBeatList.PopBack | mylib/heart_beat/heart_beat_list.h:210-234 | takes the last node off, fully detached, or returns null on an empty list |
| HeartBeatList.HeartBeatList.Erase | mylib/heart_beat/heart_beat_list.h:248-298 | removes exactly the node given, detached; returns 0 iff the node is a member or strictly inside another chain; -1 changes nothing anywhere |
| HeartBeatList.EraseInsideAnother | mylib/heart_beat/heart_beat_list.h:286-294 | asked of any nonempty list, erase detaches a node strictly inside another list and returns 0; the other chain is left without it, its ends unchanged |
| HeartBeatList.ErasedThroughTheWrongList | mylib/heart_beat/heart_beat_list.h:248-298 | a concrete run: the middle one of three nodes is erased through a list of one other node |
| HeartBeatList.BypassedIsLinked | mylib/heart_beat/heart_beat_list.h:286-294 | relinking the neighbours of one node yields the chain without it |
| ActivityLog.LiveIsRecency | mylib/heart_beat/heart_beat_element_mgr.h:195-406 | after any history the live elements are exactly those last added or touched, with that time, most recent first, each once |
| ActivityLog.LiveIsSorted | mylib/heart_beat/heart_beat_element_mgr.h:289-320 | with a clock that never goes back the entries are sorted newest first |
| ActivityLog.LegalIsBounded | mylib/heart_beat/heart_beat_element_mgr.h:257-290 | live elements plus all bulk removals never exceed the limit |
| ActivityLog.EvictionTakesTheOldest | mylib/heart_beat/heart_beat_element_mgr.h:257-276 | an eviction happens only at the limit and takes the live element touched longest ago |
| ActivityLog.ExpiryIsNeverEarly | mylib/heart_beat/heart_beat_element_mgr.h:206-231 | an expired element had not been touched for the whole timeout |
| ActivityLog.Conservation | mylib/heart_beat/heart_beat_element_mgr.h:206-406 | successful adds of an element equal its removals of all six kinds plus one if it is live |
| ActivityLog.NoReturnWithoutAdd | mylib/heart_beat/heart_beat_element_mgr.h:297-357 | after its removal nothing happens to an element until it is added again |
| Tracker.StepIsExplained | mylib/heart_beat/heart_beat_element_mgr.h:195-406 | every operation appends events that are legal in turn and explain exactly the new list and counter |
| Tracker.UpdateTouches | mylib/heart_beat/heart_beat_element_mgr.h:297-324 | an update of a live element always succeeds: it is touched now and goes to the front, all others stay in order, the counter stands; any other is refused without effect |
| Tracker.DelRemoves | mylib/heart_beat/heart_beat_element_mgr.h:326-357 | a deletion of a live element always succeeds: it is gone and counted out, all others stay in order; any other is refused without effect |
| Tracker.AddSucceedsIff | mylib/heart_beat/heart_beat_element_mgr.h:243-275 | an add is refused iff the element is live, reads through null iff it is not and bulk removals have used up the limit, and succeeds in every other case |
| Tracker.AddEvictsIff | mylib/heart_beat/heart_beat_element_mgr.h:257-295 | a successful add puts the element in front, touched now; it evicts the last one, keeping the counter, iff live elements and bulk removals have reached the limit, and otherwise counts one up |
| Tracker.TickTakesStaleTail | mylib/heart_beat/heart_beat_element_mgr.h:200-236 | whatever the clock has done, a tick removes and reports the longest stale tail, back to front, counts it out and touches nothing else; with the timeout off it does nothing |
| Tracker.BulkRemovesAll | mylib/heart_beat/heart_beat_element_mgr.h:359-406 | a bulk removal takes every live element, front to back, as the kind asked for; the counter stands |
| Tracker.RunIsExplained | mylib/heart_beat/heart_beat_element_mgr.h:117-131 | over every run list and counter are what the history says: the counter is the live size plus all bulk removals |
| Tracker.RunIsSorted | mylib/heart_beat/heart_beat_element_mgr.h:206-236 | in every reachable state the list is sorted by time if the clock never goes back |
| Tracker.EarlyStopIsExactIff | mylib/heart_beat/heart_beat_element_mgr.h:206-236 | stopping at the first fresh tail removes exactly the stale entries iff no stale entry is in front of a fresh one |
| Tracker.TickExpiresExactly | mylib/heart_beat/heart_beat_element_mgr.h:200-236 | a tick expires an element iff it is live and was last touched at least the timeout ago |
| Tracker.TickExpiresInOrder | mylib/heart_beat/heart_beat_element_mgr.h:206-231 | expiries are called back oldest touch first and the survivors keep their order |
| Tracker.RunTickExpiresExactly | mylib/heart_beat/heart_beat_element_mgr.h:195-241 | the same in every state reachable with a clock that never goes back |
| Tracker.ClockGoingBackHidesStale | mylib/heart_beat/heart_beat_element_mgr.h:232-235 | a concrete run with a clock going back in which a stale element survives a tick |
| Tracker.LimitHolds | mylib/heart_beat/heart_beat_element_mgr.h:257-290 | the room under the limit shrinks by every element ever removed in bulk |
| Tracker.AddCrashesExactly | mylib/heart_beat/heart_beat_element_mgr.h:259-275 | an add reads through null iff the limit is on and bulk removals have used it up |
| Tracker.BulkRemovalUsesUpTheLimit | mylib/heart_beat/heart_beat_element_mgr.h:259-275 | a concrete run: limit one, an add, a bulk removal and an add that reads through null |
| Tracker.BoundedWithoutBulk | mylib/heart_beat/heart_beat_element_mgr.h:257-290 | without bulk removal and with limit at least 1, no crash, counter equal to live size, never above the limit |
| Tracker.CallbacksAreReported | mylib/heart_beat/heart_beat_element_mgr.h:206-231 | the calls made by the steps of a run, one after the other, are the expired, evicted and triggered elements of its history, in that order; none without a callback |
| Tracker.RunBalances | mylib/heart_beat/heart_beat_element_mgr.h:206-406 | over every run adds, removals and live elements balance, and the calls made name an element once for each time it expired, was evicted or was triggered |
| Tracker.RunEvictsLeastRecent | mylib/heart_beat/heart_beat_element_mgr.h:257-290 | an evicting add removes exactly the live element touched longest ago and adds the new one |
| ElementMgr.ElementMgr.HandleTimeout | mylib/heart_beat/heart_beat_element_mgr.h:195-241 | performs the tick step on map, list and counter, keeps them in bijection, calls back what expired; its error branch is never taken |
| ElementMgr.ElementMgr.AddElement | mylib/heart_beat/heart_beat_element_mgr.h:243-295 | performs the add step, refusal, eviction and null read included |
| ElementMgr.ElementMgr.UpdateElement | mylib/heart_beat/heart_beat_element_mgr.h:297-324 | performs the update step: moved to the front with a new time, or refused |
| ElementMgr.ElementMgr.DelElement | mylib/heart_beat/heart_beat_element_mgr.h:326-357 | performs the delete step, or refuses |
| ElementMgr.ElementMgr.GetAllElementAndClear | mylib/heart_beat/heart_beat_element_mgr.h:374-389 | returns all elements front to back and empties list and map, not the counter |
| ElementMgr.ElementMgr.TriggerAllTimeout | mylib/heart_beat/heart_beat_element_mgr.h:391-406 | calls every element back once, front to back, and empties list and map, not the counter |
| ElementMgr.DropIndexed | mylib/heart_beat/heart_beat_element_mgr.h:228-230 | forgetting the element of one node keeps map and list in bijection |
| ElementMgr.PushIndexed | mylib/heart_beat/heart_beat_element_mgr.h:288-290 | entering one new node keeps map and list in bijection |
| HeartBeatSystem.BehaviourIsSound | mylib/heart_beat/heart_beat_service.h:232-336 | history, queue, flags and timer invariants hold in every behaviour |
| HeartBeatSystem.LiveIsDetected | mylib/heart_beat/heart_beat_service.h:321-326 | no live element has been untouched longer than timeout plus one timer period plus lateness |
| HeartBeatSystem.RemovalBound | mylib/heart_beat/heart_beat_service.h:244-326 | an element not touched again has left within one period plus lateness after its timeout, in whatever way; if it expired, not before its timeout |
| HeartBeatSystem.DetectionBound | mylib/heart_beat/heart_beat_service.h:244-326 | an element touched and then left alone is called back, not before its timeout and not later than one period plus lateness after it |
| HeartBeatSystem.StoppedForGood | mylib/heart_beat/heart_beat_service.h:232-285 | after a stop, started again or not, the history and the tracker never change |
| HeartBeatSystem.BehaviourIsARun | mylib/heart_beat/heart_beat_service.h:277-336 | in every interleaving the queue is what was posted but for the tasks run so far, and history and tracker are those of the run of manager calls in which the i-th task run is the i-th posted and each timer is a tick |
| HeartBeatSystem.RequestsAreThePosts | mylib/heart_beat/heart_beat_service.h:277-309 | leaving out the ticks, the calls made on the manager are those the posted tasks ask for, each once and in post order |
| HeartBeatSystem.TimerNeverDrifts | mylib/heart_beat/heart_beat_service.h:311-326 | the deadline moves on by exactly one period for each run of the timer, however late it was |
| HeartBeatSystem.TimerKeepsPace | mylib/heart_beat/heart_beat_service.h:232-326 | from its start on, a running service has run the timer once for each full period, to within one period and the lateness |
| HeartBeatSystem.NoResurrection | mylib/heart_beat/heart_beat_service.h:287-309 | in every interleaving of tasks and timer an element added at most once never returns after its removal |
| HeartBeatSystem.LateTasksAreRefused | mylib/heart_beat/heart_beat_element_mgr.h:302-352 | late updates and deletions of a removed element fail and change nothing |
| HeartBeatService.HeartBeatService.SetMaxLimit | mylib/heart_beat/heart_beat_service.h:206-229 | the limit is changed unless the service is started; refused, it stays |
| HeartBeatService.HeartBeatService.AskToStop | mylib/heart_beat/heart_beat_service.h:257-269 | stop posts one task behind all others, or does nothing if not started |
| HeartBeatService.HeartBeatService.FinishStop | mylib/heart_beat/heart_beat_service.h:270-274 | once the thread has ended the service counts as not started and accepts settings |
| HeartBeatService.HeartBeatService.RunTask | mylib/heart_beat/heart_beat_service.h:277-424 | runs the oldest posted task, keeping the others, and makes exactly the step of the behaviour |
| HeartBeatService.HeartBeatService.HandleTimeout | mylib/heart_beat/heart_beat_service.h:311-336 | re-arms from the previous deadline and performs the tick |
| Frames.HeadRoundTrip | mylib/rpc/rpc_msg_head.h:9-35 | the header encoding is a bijection on eight-byte strings |
| Frames.HeadLayout | mylib/rpc/rpc_msg_head.h:9-13 | four bytes of length, then two of command, then two of result, low byte first |
| Frames.FrameRoundTripIff | mylib/rpc/rpc_utility.cpp:48-56 | a printed frame is read back as sent iff the body size fits 32 bits |
| Frames.FourGigabytesReadAsNothing | mylib/rpc/rpc_utility.cpp:51 | a body of 2^32 bytes is read as an empty message |
| Frames.DecodeInChunks | mylib/rpc/rpc_common_conn_protocol.cpp:52-111 | decoding is independent of where the bytes are cut |
| Frames.DecodeLosesNothing | mylib/rpc/rpc_common_conn_protocol.cpp:93-111 | the decoded messages printed again, followed by what is held, are the bytes read |
| Frames.StreamDecodes | mylib/rpc/rpc_common_conn_protocol.cpp:58-88 | a whole stream decodes to all messages sent, but for a last one without a body |
| Frames.BareHeaderWaits | mylib/rpc/rpc_common_conn_protocol.cpp:58 | a stream of one message without a body is held, not posted |
| Frames.PrefixDecodes | mylib/rpc/rpc_common_conn_protocol.cpp:52-91 | any part of a stream decodes to the first messages sent, in order |
| Frames.DeliveredExactly | mylib/rpc/rpc_common_conn_protocol.cpp:58-88 | message i is out iff its frame and at least one byte beyond its header have been read |
| Protocol.Protocol.ReadHead | mylib/rpc/rpc_common_conn_protocol.cpp:93-102 | appends to the bytes held, by overwriting the header in place; no underflow |
| Protocol.Protocol.ReadBody | mylib/rpc/rpc_common_conn_protocol.cpp:104-111 | appends to the body, never beyond the announced length; no underflow |
| Protocol.Protocol.OnRead | mylib/rpc/rpc_common_conn_protocol.cpp:52-91 | terminates and posts exactly the messages the reference decoder finds in the bytes held plus the new ones, and holds the rest |
| Protocol.NextMessage | mylib/rpc/rpc_common_conn_protocol.cpp:71-86 | a complete frame is the next message of the stream |
| Sessions.ReadInChunks | mylib/rpc/rpc_common_conn_protocol.cpp:52-111 | two reads are one read of both chunks, in every parser state |
| Sessions.AnyChunking | mylib/rpc/rpc_common_conn_protocol.cpp:52-111 | any chunking posts the same messages and leaves the same state |
| Sessions.ResetForgets | mylib/rpc/rpc_common_conn_protocol.cpp:14-19 | after a reset everything goes as on a new parser, whatever was held before |
| Sessions.SessionsBeginAnew | mylib/rpc/rpc_common_conn_protocol.cpp:25-50 | being opened or connected starts a session on a new parser, behind all earlier posts; an opened monitored one is added to the monitor |
| Sessions.BreakNoticeOnce | mylib/rpc/rpc_common_conn_protocol.cpp:113-129 | until the next reset exactly one break notice if the session breaks and none otherwise; earlier posts stay in front |
| Sessions.BreakNoticeInPlace | mylib/rpc/rpc_common_conn_protocol.cpp:113-129 | the notice stands right behind everything posted before the first break and in front of everything after it |
| Sessions.MonitorSeesOneSession | mylib/rpc/rpc_common_conn_protocol.cpp:25-122 | a monitored session posts one add, one update for each message, then one deletion |
| Sessions.OpenSessionIsWatched | mylib/rpc/rpc_common_conn_protocol.cpp:25-91 | while it is open it has posted one add and one update for each message |
| Monitoring.ConnectionStaysGone | mylib/rpc/rpc_conn_monitor.cpp:44-71 | in every interleaving, a connection watched for one session never returns once it was deleted, expired, evicted or removed in bulk |
| Monitoring.SessionTasks | mylib/rpc/rpc_conn_monitor.cpp:44-71 | a monitored session asks the service for one add, one update for each message and, once closed, one deletion, in that order |
| Monitoring.ClosedSessionIsForgotten | mylib/rpc/rpc_conn_monitor.cpp:64-71 | once everything a closed session asked for has been run, its connection is not watched |
| Monitoring.BehaviourIsCaused | mylib/heart_beat/heart_beat_service.h:287-326 | every add, touch, deletion and bulk removal in the history was asked for by a posted task; expiries and evictions need their switch |
| Monitoring.SilentConnectionIsClosed | mylib/rpc/rpc_conn_monitor.cpp:86-100 | with the timeout on, a connection that falls silent is watched no longer than the timeout, a timer period and lateness; it expired, not before the timeout, or was evicted under a limit, or all were removed on request, or its session closed |
| SendQueue.Connecter.SyncWrite | mylib/rpc/rpc_connecter.cpp:80-93 | queues the buffer and starts a write iff none is in flight |
| SendQueue.Connecter.WriteComplete | mylib/rpc/rpc_connecter.cpp:103-118 | drops the finished front and starts the next write, or after a failure asks to close; no underflow |
| SendQueue.Connecter.RemoteOpen | mylib/rpc/rpc_connecter.cpp:35-40 | the connecter counts as connected; queue and accounts stand |
| SendQueue.OrderIsKept | mylib/rpc/rpc_connecter.cpp:80-118 | accepted buffers are those ended followed by the queue, and the one write in flight, if any, is the front of the queue |
| SendQueue.BytesAreAccounted | mylib/rpc/rpc_connecter.cpp:82-108 | the byte counter is the queued bytes plus what failed writes left unsent, exact until the first failure |
| SendQueue.StrandedExactly | mylib/rpc/rpc_connecter.cpp:89-117 | a nonempty queue has no write in flight iff the last thing that happened was a failed write |
| SendQueue.ClosesAreFailures | mylib/rpc/rpc_connecter.cpp:110-116 | over every run a connected socket is asked to close once for each failed write and for nothing else; an unconnected one never |
| Pipeline.DeliveredInOrder | mylib/rpc/rpc_connecter.cpp:80-118 | in every interleaving the messages posted are the first ones sent, unchanged and in order |
| Pipeline.QuietMeansDelivered | mylib/rpc/rpc.cpp:41-44 | once all bytes are read everything sent has been posted, but for a last message without a body |
| Pipeline.PostedExactly | mylib/rpc/rpc_common_conn_protocol.cpp:58-88 | message i has been posted iff its frame and a byte beyond its header have been read |
| Pipeline.NeverStuck | mylib/rpc/rpc_connecter.cpp:95-118 | until all is delivered, writer, socket or receiver can always take a step |
| Pipeline.RunsDry | mylib/rpc/rpc_connecter.cpp:95-118 | between sends the number of steps is bounded by the work left |
| Pipeline.EverythingArrives | mylib/rpc/rpc_connecter.cpp:80-118 | from every reachable state the pipe can go on without sends, within the work left, until all is quiet and everything sent has been posted, but for a last message without a body |
| Compression.CompressMsg | mylib/rpc/rpc_utility.cpp:13-46 | a message is sent compressed and flagged iff compression is on, its size is not below the limit, its command is not filtered and the codec yields something, and as it is otherwise; the filter table is read past its end iff compression is on, the size is not below the limit and the command is 65535 |
| Compression.CompressFrame | mylib/rpc/rpc_utility.h:29-50 | a frame left alone is returned as it is; any other keeps its command, gets the flag and the codec's output whatever its code, and counts it iff that fits 32 bits |
| Compression.RecompressedIsHonest | mylib/rpc/rpc_utility.h:40-48 | only body, length and flag are replaced, and the length is right iff the output fits 32 bits |
| Compression.PrintedFrameIsHonest | mylib/rpc/rpc_utility.cpp:13-46 | the length counts what follows iff it fits 32 bits, and the flag is set iff the payload is compressed, whatever the codec does |
| Compression.CodecRoundTrip | mylib/rpc/rpc_utility.h:52-64 | printed, parsed out of any stream or at its end and uncompressed, the body comes back when both ends agree on the setting; an empty message at the very end is held |
| Compression.RecoveredExactly | mylib/rpc/rpc_utility.h:52-64 | which bodies come back when the ends disagree |
| Compression.RecompressedRoundTrip | mylib/rpc/rpc_utility.h:29-64 | parsed out of any stream and uncompressed, a message comes back if compression is off, it is below the limit or the codec succeeded; otherwise what comes back is what the failed codec's output inflates to |
| Compression.FailedCodecLosesTheBody | mylib/rpc/rpc_utility.h:43-47 | with a codec that fails and leaves nothing, every large message arrives flagged and empty |
| LogRotation.LogWriter.FirstFreeSn | mylib/log/log_impl.cpp:156-165 | the first file number is the least that no file has |
| LogRotation.LogWriter.HandleWriteFile | mylib/log/log_impl.cpp:249-292 | one write: new day, append, rotation check, late counters |
| LogRotation.FilesAreBounded | mylib/log/log_impl.cpp:273-290 | every file opened has at most maxline + 1 lines and fewer than maxsize + 2L bytes |
| LogRotation.NoEarlyRotation | mylib/log/log_impl.cpp:276-288 | a file is followed by the next number only once it is full, up to the one entry the counters run ahead |
| LogRotation.FilesAreTheLog | mylib/log/log_impl.cpp:249-292 | on dates that never return no name is opened twice and the files in opening order hold exactly the texts submitted, whatever was on the disk |
| LogRotation.OpenedOnceIff | mylib/log/log_impl.cpp:254-272 | begun with a day's first file, no name is opened twice iff dates never return |
| LogSurvival.GoingOnIsSafeIff | mylib/log/log_impl.cpp:254-288 | in any state, writing on for ever on a day loses nothing iff no file of the day yet to be opened holds a text |
| LogSurvival.RestartIsSafeIff | mylib/log/log_impl.cpp:156-167 | on any disk, no run in which no date with texts returns destroys a text iff no file of the starting day above the number chosen holds one |
| LogSurvival.ReturnIsUnsafeIff | mylib/log/log_impl.cpp:254-272 | on any disk, if nothing lay ahead and no date has returned, going on with a day is safe iff it is the current date or one without texts |
| LogSurvival.RunMatches | mylib/log/log_impl.cpp:254-288 | over every run the dates holding texts are those found with texts and those written on |
| LogSurvival.NothingIsLostIff | mylib/log/log_impl.cpp:254-272 | if no text lies above the number chosen and every date with texts, the starting day included unless begun at zero, has some in its file zero: no text is destroyed iff no such date or date written on returns |
| LogSurvival.EmptyZeroDelaysLoss | mylib/log/log_impl.cpp:156-167 | a concrete disk with an empty file zero on which a date returns and nothing is lost yet |
| LogSurvival.LossesAreCounted | mylib/log/log_impl.cpp:254-288 | on any disk and over every run, files found and not opened are unchanged, and opening one that held texts is counted as a loss |
| LogSurvival.ExistingFilesSurvive | mylib/log/log_impl.cpp:156-167 | files found below the number chosen for the day, or of other dates, are never opened or changed until one of their dates returns |
| LogSurvival.NoGapArises | mylib/log/log_impl.cpp:156-288 | started on a disk whose days are numbered without a gap, the writer never makes one, whether dates return or not |
| LogSurvival.OwnFilesSurvive | mylib/log/log_impl.cpp:156-167 | started on a day numbered without a gap, the writer loses nothing and touches no file it found until it returns to one of their dates |
| LogSurvival.GapIsOverwritten | mylib/log/log_impl.cpp:276-288 | a concrete run: with files 0 and 2 there, rotation out of file 1 empties file 2 |
| LogSurvival.ReturningDateLosesText | mylib/log/log_impl.cpp:270-271 | a concrete run of three entries: the first text is gone when its date returns |

## Left out

- Sockets, acceptor, resolver, threads and `sync_connect`: foreign calls; only FIFO execution and the write contract are assumed.
- The codec's inside: a parameter. Compression selects raw deflate data (section 3.2 of RFC 1951) while decompression initialises for the zlib wrapper (section 2.2 of RFC 1950), so the inverse assumed here is not given by that pair.
- The busy-wait handshake of the service's blocking collection call: a memory-model question; only the posted task is modelled.
- Failed allocation of a list node: it would return -1 after an eviction.
- Wrap-around of the element counter, the byte counter and the log counters at their machine widths.
- Delivery after a failed write: what the closed socket still carries depends on `sync_close_i`, whose body is not part of this model.
- The connection monitor's own `start` and `stop`: `Monitoring` models the calls it forwards once started; the order in which it shuts down promises nothing.
- Message dispatch by command (`rpc.cpp`): a table lookup with one effect for each branch.
- Log levels, line heads, printing, directories: one-branch logic and I/O.
- LogSurvival.NothingIsLostIff: a single run on a disk that has a date with texts but an empty or missing file zero, as two starts on one day before anything is written can leave, has no date condition of its own; what can happen from there on is `LogSurvival.ReturnIsUnsafeIff`.
