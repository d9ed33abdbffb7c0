# A verified model of the radio daemon

A Dafny model of the parts of Android's radio interface layer where several functions, threads or lists have to agree,
and proofs about every run of them. `dafny verify dfyconfig.toml` checks everything.

Most components come twice: as a specification on values, with the theorems about all runs or all inputs, and as
classes with the fields, pointers, buffers and loops of the program, whose methods are proved to do what the
specification says.

| Files | Part of the program |
|---|---|
| Timeval, Sequences, TimerQueue, RilEvent, WatchTable, EventLoop | the event loop of `libril/ril_event.cpp`: time arithmetic, intrusive rings, watch table |
| RilVersion, WakeLock, Ril | the wake lock and its cancellable timers (`libril/ril.cpp`), composed with the event loop |
| RequestLog, Requests | the pending-request lists (`libril/ril.cpp`) |
| CallbackGuard, RadioService | recovery from a dead client (`libril/ril_service.cpp`): locks, generation counters, any number of threads |
| ByteSource, RecordStream | length-prefixed records (`librilutils/record_stream.c`) |
| LineSplitter, LineReader | the buffered line reader of `reference-ril/atchannel.c` |
| AtProtocol, AtChannel | the command protocol of `reference-ril/atchannel.c` |
| CString, Tokens, AtTok | the tokenizer `reference-ril/at_tok.c` |
| LineParsers, ReferenceRil | the +CLCC, +CREG and +CGREG parsers of `reference-ril/reference-ril.c` |
| Options | a value that may be missing |

How the model reads the program:

- Concurrency is a run of atomic steps. A critical section is one step; `Ril.Daemon`, `AtChannels.AtChannel`,
  `Requests.PendingRequests` and `RadioServices.RadioService` carry the steps taken so far as a ghost field, and every
  method that a thread can call adds its step. Other threads act at each point where the program waits or has given up
  its lock, and between the phases of the event loop.
- `read`, `select`, the clock and what other threads and clients do are nondeterministic: any number of bytes, any set of
  descriptors, any progress of time, any legal call.
- A `UserCallbackInfo` and the event record inside it are one object. The kernel lock is a boolean.
- `long` has 64 bits and `int` 32; the conversion between them is modelled, and so is the saturation of `strtol`.

## Findings

- `parseRegistrationState` allocates one slot per field but always clears slots 1 and 2 in the one- and two-field
  forms. `LineParsers.InBoundsIff` says for every line whether the writes stay inside the array,
  `LineParsers.ShortAnswerLeavesArray` gives a line for which they do not.
- The comment in `readline` (`reference-ril/atchannel.c` line 405), that the new cursor is never past the end of the text,
  fails exactly after an SMS prompt: `LineReader.Cut` states this in both directions. `LineReaders.StaleAfterPrompt` is an
  input for which the cursor then stands on remains of an earlier line, which the next call takes for new text, and
  `LineReaders.PromptAtTheEnd` one for which it stands outside the buffer; `ReadLine` says exactly when that happens. The
  reader is sound again after a prompt if the character at the cursor happens to be NUL.
- `record_stream.c` says that records have a 16-bit length; the code reads a 32-bit length, and so does the model.
- A second ack of a pending request is acknowledged to the client again; only the flag is idempotent.
- When several final responses come before the waiter wakes, the latest one is returned (`LatestFinal`).
- `onReaderClosed` marks the channel closed only if a callback for it is set, so otherwise a command without a timeout
  waits on.
- Slots 0 and 1 share one lock in `getRadioServiceRwlock`, which counts slots from one, while its callers count from
  zero; NITZ indications enter `checkReturnStatus` with the write lock and leave it with the read lock. The invariant
  holds in both cases.

## Model

| member | source | states |
|---|---|---|
| WakeLock.LockHeldIffOneTimerLives | libril/ril.cpp:647-718 | In every state of every run (version 13 on): the lock is held iff the count is positive iff exactly one wake timeout in flight is uncancelled; that one is the latest, and the latest record is in flight, so never a freed one |
| WakeLock.CountIsOutstanding | libril/ril.cpp:647-718 | From version 13 on, after every run: the count is the number of grabs nobody has undone, told on the steps taken (a grab adds one, a release takes one off but never below zero, a live timeout leaves none), and the lock is held iff there are any |
| WakeLock.LegacyHeldIffGrabbedLast | libril/ril.cpp:647-718 | Before version 13, after every run: the lock is held iff of the grabs, releases and live timeouts a grab came last |
| WakeLock.TimesAreTold | libril/ril_event.cpp:345-384 | The times that the bounds speak of are those of the latest grab and the latest pass among the steps taken |
| WakeLock.TimeoutsAreTold | libril/ril.cpp:801-817 | Before version 13: the time of the latest timeout, and whether a grab came after it, are those of the steps taken |
| WakeLock.ScheduledIsTold | libril/ril.cpp:856-887 | What counts as scheduled is exactly what the steps taken schedule, wake timeouts 200000 microseconds after they are set |
| WakeLock.LockIsReleasedInTime | libril/ril.cpp:143 | Once a pass whose clock reading exceeds the latest grab among the steps taken by more than 200000 microseconds has emptied the pending list, the lock is not held, whatever else ran |
| WakeLock.Reachable | libril/ril.cpp:335-349 | The invariant that ties counter, lock, latest timer, cancellation, deadlines and log together holds after any sequence of grabs, releases, timers, passes and firings |
| WakeLock.ListsReachable | libril/ril_event.cpp:112-180 | For every version: timer list sorted, no record linked twice or on both lists, and nothing scheduled lost, in every reachable state |
| WakeLock.NothingLostNothingEarly | libril/ril_event.cpp:158-213 | For every version and run: the scheduled events are, as a multiset, those on the timer list, those pending and those fired; no timer fired on a reading that was not past its deadline |
| WakeLock.PassFiresExpiredTimers | libril/ril_event.cpp:345-384 | For every version: a pass that has emptied the pending list has fired exactly the timers with deadline before its reading, once each, in deadline order, then only watched events, although callbacks and other threads acted meanwhile |
| WakeLock.PassIsQueue | libril/ril_event.cpp:202-213 | Within a pass what has fired followed by what is pending only ever grows by watched events at the end |
| WakeLock.CallbacksNeverProlongPass | libril/ril_event.cpp:202-213 | Timers added by callbacks do not join the pass: firing n records shortens the pending list by n |
| WakeLock.LockKept | libril/ril.cpp:647-718 | Every step keeps the counter, lock and latest-timer invariant |
| WakeLock.TimeKept | libril/ril.cpp:856-887 | Every step keeps the relation of deadlines to the clock, the latest pass and the latest grab |
| WakeLock.LinkedKept | libril/ril_event.cpp:112-131 | Every step keeps the two lists sorted, repetition-free and apart |
| WakeLock.LogKept | libril/ril_event.cpp:158-213 | Every step keeps the balance of scheduled, listed and fired events, for every version |
| WakeLock.LiveTimer | libril/ril.cpp:655-665 | While the lock is held there is one uncancelled wake timeout, it is the latest, and it is the only one |
| WakeLock.LegacyOneTimerLives | libril/ril.cpp:801-817 | Before version 13, in every state of every run: there is a latest timeout iff exactly one wake timeout in flight is uncancelled, it is that one, and it is never a freed record |
| WakeLock.LegacyLockIsReleasedInTime | libril/ril.cpp:713-717 | Before version 13: unless a grab came after the latest timeout was set, told on the steps taken, the lock is not held after a pass whose reading is past that moment by more than 200000 microseconds |
| WakeLock.LegacyReachable | libril/ril.cpp:801-817 | Before version 13 the invariant of lock, latest timeout and cancellation holds in every reachable state |
| TimerQueue.CountBelowIs | libril/ril_event.cpp:303-309 | The search position is the only one that separates earlier deadlines from a later one |
| TimerQueue.InsertSorted | libril/ril_event.cpp:286-312 | Insertion before the first deadline not less than the new one keeps the list sorted |
| TimerQueue.InsertMembers | libril/ril_event.cpp:286-312 | Insertion adds exactly the new event |
| TimerQueue.SplitIsComplete | libril/ril_event.cpp:158-180 | On a sorted list the expired prefix is exactly the events with deadline before the reading, and nothing is lost by the split |
| TimerQueue.FirstIsEarliest | libril/ril_event.cpp:222-235 | The head of a sorted list is the earliest deadline of the whole list |
| Timevals.TimerAdd | libril/ril_event.cpp:37-47 | timeradd adds microseconds and keeps tv_usec in range |
| Timevals.TimerSub | libril/ril_event.cpp:56-66 | timersub subtracts microseconds and keeps tv_usec in range |
| Timevals.TimerLess | libril/ril_event.cpp:49-54 | timercmp compares microseconds |
| Timevals.NormalFormIsUnique | libril/ril_event.cpp:37-66 | A normalised timeval is determined by its microseconds, so the two contracts above fix the results |
| RilEvents.RilEvent.InitList | libril/ril_event.cpp:104-110 | An initialised list is a ring of its own |
| RilEvents.AddToList | libril/ril_event.cpp:112-119 | Linking a record in before another inserts it there into the ring, both directions |
| RilEvents.RemoveFromList | libril/ril_event.cpp:121-131 | Unlinking removes exactly that record from the ring and clears its pointers |
| RilEvents.MoveToTail | libril/ril_event.cpp:170-176 | Unlinking from one ring and linking at the tail of the other keeps both rings |
| EventLoops.EventLoop.FindPlace | libril/ril_event.cpp:303-306 | The search stops at the first deadline not less than the new one, or at the sentinel |
| EventLoops.EventLoop.TimerAdd | libril/ril_event.cpp:286-312 | The linked timer list becomes the sorted insertion of the new event at its deadline; without an interval nothing changes |
| EventLoops.EventLoop.ProcessTimeouts | libril/ril_event.cpp:158-180 | The linked lists: exactly the events with deadline before the reading go to the tail of the pending list, in order; the others stay |
| EventLoops.EventLoop.CalcNextTimeout | libril/ril_event.cpp:215-238 | -1 iff there is no timer, otherwise max(0, earliest deadline of the whole list - now) |
| EventLoops.EventLoop.TakeFirst | libril/ril_event.cpp:202-213 | A turn of firePending unlinks the first pending record |
| EventLoops.EventLoop.EventAdd | libril/ril_event.cpp:265-283 | The first free slot takes the event, a full table drops it; lists and table stay sound; the record may have been in the table before |
| EventLoops.EventLoop.ScanSlot | libril/ril_event.cpp:187-195 | One slot of the scan is one step of the specified sweep, although the table changes under it |
| EventLoops.EventLoop.ProcessReadReadies | libril/ril_event.cpp:182-200 | The scan appends exactly the events the sweep finds, in slot order, and leaves the table of the sweep |
| WatchTables.ScanIsComplete | libril/ril_event.cpp:182-200 | If n counts the ready descriptors and all are watched, the countdown never stops early: every ready event is found once, in slot order, and exactly the ready non-persistent ones leave |
| WatchTables.CountdownSuffices | libril/ril_event.cpp:187-195 | The countdown reaches the last ready slot |
| WatchTables.BoundsMeansLargest | libril/ril_event.cpp:146-154 | nfds is the largest watched descriptor plus one, and at most 1 when nothing is watched |
| WatchTables.WatchTable.Add | libril/ril_event.cpp:265-283 | The first free slot gets the event, its index and descriptor bit; a full table drops it; the table stays consistent |
| WatchTables.WatchTable.RemoveWatch | libril/ril_event.cpp:134-156 | Exactly one slot becomes free; descriptor set, index and bound stay consistent |
| WatchTables.WatchTable.Delete | libril/ril_event.cpp:315-329 | An event in the table is removed, any other is left alone |
| WatchTables.Added | libril/ril_event.cpp:270-279 | Adding a new descriptor keeps set and bound equal to what the slots hold |
| WatchTables.Removed | libril/ril_event.cpp:134-156 | Removing a descriptor and recomputing the bound keeps set and bound equal to what the slots hold |
| Ril.Daemon.LoopTurn | libril/ril_event.cpp:345-384 | Over the linked lists, with other threads between phases and callbacks: a turn fires exactly the timers that had expired at its reading, in order, then what the scan of the table finds; afterwards nothing is pending, and the lock is not held unless grabbed within 200000 microseconds of the reading (before version 13: unless grabbed since the latest timeout, or that one is so recent) |
| Ril.Daemon.NotHeldForLong | libril/ril.cpp:647-718 | The theorems about every run hold of the fields: the count is that of the outstanding grabs, and the bounds are told on the steps taken |
| Ril.Daemon.GrabPartialWakeLock | libril/ril.cpp:647-671 | One grab step of the run, with its timer and the cancellation of the previous one; the lock is held afterwards and, from version 13 on, the count one more |
| Ril.Daemon.ReleaseWakeLock | libril/ril.cpp:673-695 | One release step of the run: from version 13 on a count above one is lowered by one and the lock stays as it is, otherwise the count is zero and the lock free; before, the lock is free |
| Ril.Daemon.WakeTimeout | libril/ril.cpp:700-718 | The timeout does what the run prescribes for a cancelled or a live timer |
| Ril.Daemon.WakeFired | libril/ril.cpp:335-349 | Firing a wake timeout runs it and forgets it if it is the latest, as one step of the run |
| Ril.Daemon.ClientFired | libril/ril.cpp:335-349 | Firing any other record, with a callback that may call back in any way, keeps the fields in step with the run |
| Ril.Daemon.InternalRequestTimedCallback | libril/ril.cpp:856-887 | A cleared record is scheduled at the present reading plus the interval, zero if none is given; everything listed stays what it was |
| Ril.Daemon.RequestTimedCallback | libril/ril.cpp:890-894 | One timer step of the run, with the interval asked for; the record carries the caller's parameter and the function of a client |
| Ril.Daemon.FirePending | libril/ril_event.cpp:202-213 | Every pending record is fired once, in list order, and the list is empty afterwards, callbacks and other threads included |
| Ril.Daemon.FireFirst | libril/ril_event.cpp:206-211 | Exactly the first pending record is fired and unlinked |
| Ril.Daemon.SetLegacyTimeout | libril/ril.cpp:802-817 | Before version 13 one timeout step of the run, which cancels the timeout before; nothing from version 13 on |
| Ril.Daemon.ExpireTimers | libril/ril_event.cpp:158-180 | One pass-beginning step of the run |
| Ril.Daemon.QueueReadies | libril/ril_event.cpp:182-200 | One step of the run that appends what the sweep of the table finds |
| Ril.Daemon.WatchNew | libril/ril.cpp:378-381 | A new record with this descriptor is in the first free slot afterwards, if there is one, and the fields stay in step with the run |
| Ril.Daemon.Unwatch | libril/ril_event.cpp:315-329 | The slot of the event is free afterwards and all others are as before; an event that is not in the table is left alone |
| Ril.Daemon.Rewatch | libril/ril_event.cpp:265-283 | A record that left the table is in the first free slot again, if there is one |
| RequestLog.Refines | libril/ril.cpp:498-645 | For every run with tokens never reused: lists, ack flags and messages are those of an account told request by request |
| RequestLog.PendingPlace | libril/ril.cpp:196-246 | A request is in the list that its socket is given and no other, once, exactly while it is pending |
| RequestLog.PendingInOwnList | libril/ril.cpp:196-246 | Each of the sockets that are compiled in has a list of its own, in order; a request waits in that of its socket and in no other, exactly while it is pending |
| RequestLog.AddedInFront | libril/ril.cpp:196-246 | A new request goes to the front of its list; the other lists stay and nothing is sent |
| RequestLog.AckIsPassedOn | libril/ril.cpp:555-587 | An ack of a pending request is passed on to the client unless muted, a repeated one too, is remembered, and leaves the lists alone; any other ack sends nothing |
| RequestLog.CompletionIsAnswered | libril/ril.cpp:588-645 | A completion of a pending request is answered unless muted, with the kind that an earlier ack and the version call for; any other sends nothing |
| RequestLog.OneResponse | libril/ril.cpp:588-645 | The first completion delivers one response, none before; its kind asks for an ack iff version >= 13 and an ack was accepted earlier |
| RequestLog.OneResponseOverRun | libril/ril.cpp:588-645 | Of what is sent over a whole run a request gets exactly that one response if it was completed other than muted, and none otherwise |
| RequestLog.CompletedForGood | libril/ril.cpp:498-553 | A completed request stays completed, whatever follows |
| RequestLog.LateCallsDoNothing | libril/ril.cpp:555-602 | An ack or completion of a request that is not pending changes nothing at all |
| RequestLog.CompletionKeepsOrder | libril/ril.cpp:531-549 | A completion removes exactly the request and keeps the order of all others |
| Requests.PendingRequests.AddRequestToList | libril/ril.cpp:196-246 | The linked list of the socket gets the new request at its front, the others stay; one step of the run |
| Requests.PendingRequests.Splice | libril/ril.cpp:544-544 | Assigning through the pointer to a pointer removes exactly that node, head or not |
| Requests.PendingRequests.CheckAndDequeueRequestInfoIfAck | libril/ril.cpp:498-553 | True iff the request is in its list; then an ack sets the flag and a completion unlinks it, otherwise nothing changes |
| Requests.PendingRequests.OnRequestAck | libril/ril.cpp:555-587 | One ack step of the run; exactly a pending request that is not cancelled is acknowledged to the client |
| Requests.PendingRequests.OnRequestComplete | libril/ril.cpp:588-645 | One completion step of the run; exactly a pending request neither local nor cancelled is answered; the wake lock is grabbed iff that response asks for an ack, that is from version 13 on after an accepted ack |
| Requests.PendingRequests.ResponsesSent | libril/ril.cpp:498-645 | Of the linked lists after any calls: one response per completed request, and a request listed exactly while pending, under its own socket |
| CallbackGuard.Reachable | libril/ril_service.cpp:755-832 | The lock, thread, counter and log invariant holds for any number of threads and any interleaving |
| CallbackGuard.CheckDropsExactlyTheDeadClient | libril/ril_service.cpp:775-789 | The check drops callbacks iff the registration that the thread failed on is still installed, and then only that one |
| CallbackGuard.ClearedOnceAndOnPurpose | libril/ril_service.cpp:755-799 | No registration is cleared twice and none but the one a call failed on |
| CallbackGuard.HoldsReadLockOnce | libril/ril_service.cpp:763-797 | A thread holds the read lock exactly as often as its place in the code says: once or not at all; writers are alone |
| CallbackGuard.LockFreeIff | libril/ril_service.cpp:8632-8646 | In every reachable state a slot can be locked for writing iff no thread is inside a slot that shares its lock, for reading iff none is there to write; slots 2 to 4 share with no other, the rest share one |
| CallbackGuard.WriterIsAlone | libril/ril_service.cpp:8632-8646 | While a registration of a slot may change, no other thread has a failed call on it in hand |
| CallbackGuard.LocksKept | libril/ril_service.cpp:755-832 | Every step keeps each lock held by exactly the threads that are where they need it |
| CallbackGuard.ThreadsKept | libril/ril_service.cpp:755-832 | Every step keeps: a noted counter is current iff the registration the thread failed on is still installed |
| CallbackGuard.LogKept | libril/ril_service.cpp:775-789 | Every step keeps: registrations are distinct and cleared ones are gone |
| RadioServices.RadioService.CheckReturnStatus | libril/ril_service.cpp:755-799 | With any other threads at work during its two waits it returns with the read lock, once, and the registration it failed on is not installed |
| RadioServices.RadioService.SetResponseFunctions | libril/ril_service.cpp:805-832 | Stores the callbacks of one key, and as version 1.1 ones the same two iff both clients implement that version, otherwise none; counts; other keys untouched; one step of the run |
| RadioServices.RadioService.ResetIfUnchanged | libril/ril_service.cpp:775-789 | Clears the callbacks of the key and counts iff the counter is the one noted; one step of the run |
| RadioServices.OthersLeave | libril/ril_service.cpp:805-832 | Whatever others do, a registration that has gone never comes back |
| RecordStreams.ReadAll | librilutils/record_stream.c:127-186 | For every chunking: the payloads of the stream in order, exactly the sent ones when they were sent within the limit, and then never too long |
| RecordStreams.FramesOfEncoded | librilutils/record_stream.c:114-126 | Splitting the concatenation of encoded records gives the records back |
| RecordStreams.LengthOfHeader | librilutils/record_stream.c:84-84 | The big-endian header is read back for every length |
| RecordStreams.MoreToCome | librilutils/record_stream.c:73-93 | A complete record is the same whatever follows it |
| RecordStreams.RecordStream.GetNextRecord | librilutils/record_stream.c:95-112 | Returns the first complete record and consumes exactly it, or nothing |
| RecordStreams.RecordStream.Compact | librilutils/record_stream.c:153-164 | Moving the remainder to the front keeps it |
| RecordStreams.RecordStream.GetNext | librilutils/record_stream.c:127-186 | The first record of everything unread, at once if it is buffered; otherwise nothing is lost and no complete record is buffered; too long only if the stream insists on it; read is never asked for zero bytes; an end only where read reports one |
| RecordStreams.RecordStream.ReadMore | librilutils/record_stream.c:166-186 | One read of any size after compaction gives the record it completes, or the unread bytes unchanged |
| LineReaders.ReadAllLines | reference-ril/atchannel.c:325-410 | For every chunking of a readable NUL-free stream the lines are those of the splitter, a prefix of them only after a read that failed; interruptions never end it |
| LineSplitter.ShortIsReadable | reference-ril/atchannel.c:301-410 | Any stream that is shorter than the buffer and does not contain the prompt is readable |
| LineSplitter.SpansAreLines | reference-ril/atchannel.c:401-410 | The spans are exactly the non-empty maximal CR/LF-free runs that CR or LF follows |
| LineSplitter.LinesAreSpans | reference-ril/atchannel.c:325-410 | The lines of the splitter are what stands in the spans |
| LineSplitter.SpansInOrder | reference-ril/atchannel.c:325-410 | Each span ends before the next begins |
| LineSplitter.FirstLineIs | reference-ril/atchannel.c:401-410 | The first line is the only way to cut a stream into line ends, a line, its terminator and a rest |
| LineSplitter.PromptIsNotReadable | reference-ril/atchannel.c:303-306 | On a readable stream the reader never takes the prompt for a line |
| LineReaders.NextLine | reference-ril/atchannel.c:325-410 | One call on a readable stream returns the next line, and none only if read reported the end or failed, which is counted in the source |
| LineReaders.LineReader.ReadLine | reference-ril/atchannel.c:325-410 | For any NUL-free stream: what was unread is what is dropped, the line, its terminator and what stays; only line ends are dropped when the line fits; nothing is returned only if no line and no prompt is there and one read reported the end or failed, and no read failed otherwise; the cursor is outside the buffer iff a prompt ended at its very end |
| LineReaders.LineReader.FindNextEol | reference-ril/atchannel.c:301-312 | The end of the prompt if it is all there is, otherwise the first line end, and none only if there is neither |
| LineReaders.LineReader.Fill | reference-ril/atchannel.c:365-399 | The read loop ends with something to cut, or at the end of the stream; the buffer is ditched only when the text cannot fit |
| LineReaders.LineReader.ReadPiece | reference-ril/atchannel.c:374-382 | Interruptions are retried; one piece joins the text, or nothing came, exactly one read having reported the end or failed |
| LineReaders.LineReader.MoveUp | reference-ril/atchannel.c:352-360 | Moving a partial line up keeps it |
| LineReaders.LineReader.Store | reference-ril/atchannel.c:374-382 | A piece joins the text and the NUL stays after it |
| LineReaders.LineReader.Cut | reference-ril/atchannel.c:403-406 | Only the character at the cut changes; the rest of the text is kept; the cursor stays within the text if and only if the text was not the prompt |
| LineReaders.ReadPrompt | reference-ril/atchannel.c:303-306 | A stream that ends with the prompt alone has it returned, however it arrives |
| LineReaders.StaleAfterPrompt | reference-ril/atchannel.c:404-406 | A longer line and then the prompt leave the cursor on what is left of the line |
| LineReaders.PromptAtTheEnd | reference-ril/atchannel.c:404-406 | A full buffer that ends with the prompt leaves the cursor outside the buffer |
| AtProtocol.Reachable | reference-ril/atchannel.c:252-292 | The invariant of pending response, lines seen, PDU and roles holds for every interleaving of reader and one command thread |
| AtProtocol.ReturnIsRight | reference-ril/atchannel.c:672-732 | A return leaves nothing pending; 0 iff no timeout, a final response and an open channel; the response handed out has the latest final line and, in order of arrival, the intermediates its lines call for |
| AtProtocol.WrapperOutcome | reference-ril/atchannel.c:785-851 | The wrappers turn a return into the invalid-response error iff it is a success of class OK or CONNECT, the response is wanted and no intermediate was expected; they pass any other on |
| AtProtocol.ClosedIff | reference-ril/atchannel.c:413-427 | After every run the channel is closed iff a caller closed it or the reader ended with a callback set |
| AtProtocol.NothingLeftBehind | reference-ril/atchannel.c:556-565 | However a command ends no response, prefix or PDU is left |
| AtProtocol.SuccessAgreesWithFinal | reference-ril/atchannel.c:220-250 | In every state success tells the class of the stored final line, which is the latest one |
| AtProtocol.EveryLineHasOneRole | reference-ril/atchannel.c:430-468 | Every line read is used up in exactly one role, in order, but for a first half that awaits its second; which role, says RolesAreRight |
| AtProtocol.RolesAreRight | reference-ril/atchannel.c:230-292 | In every reachable state a line outside a notification is unsolicited if no command is pending, final iff it is of a final class, releases the PDU given to the command iff it is the first prompt, is an intermediate iff the expected intermediates grow by it, and unsolicited otherwise |
| AtProtocol.FinalClasses | reference-ril/atchannel.c:141-207 | The classes are the lines that begin with the texts listed, and no line is both a success and an error |
| AtProtocol.LatestFinalIs | reference-ril/atchannel.c:220-225 | The final line kept is one that no other final line follows |
| AtProtocol.OrdinaryCounts | reference-ril/atchannel.c:220-276 | Every line that is not final counts as often as it came, but for the one prompt that releases a PDU |
| AtProtocol.FirstIsExpected | reference-ril/atchannel.c:252-276 | The singleline and numeric commands expect the first such line that has the prefix or begins with a digit |
| AtProtocol.PduSentOnce | reference-ril/atchannel.c:243-249 | The PDU of a command is sent at most once, and iff the prompt was seen while it was pending |
| AtProtocol.MultilineKeepsAll | reference-ril/atchannel.c:270-276 | A multiline command gets every line with its prefix that is not final, as often as it came |
| AtProtocol.IntermediatesBounded | reference-ril/atchannel.c:252-276 | A pending command never holds more intermediates than its type allows, and only matching lines |
| AtProtocol.ExactlyOneIntermediate | reference-ril/atchannel.c:785-851 | A successful return of the singleline, numeric and sms commands has exactly one intermediate, with the prefix or a digit |
| AtProtocol.ReversedTwice | reference-ril/atchannel.c:650-663 | Collecting at the head and reversing gives order of arrival |
| AtProtocol.ExpectedSnoc | reference-ril/atchannel.c:252-276 | One more line changes the expected intermediates by at most itself |
| AtChannels.StrStartsWith | reference-ril/misc.c:21-30 | True iff the second string is a prefix of the first |
| AtChannels.InTable | reference-ril/atchannel.c:150-160 | True iff the line starts with an entry of the table |
| AtChannels.TablesAreClasses | reference-ril/atchannel.c:141-207 | The tables are the classes of annex B of 3GPP TS 27.007 and of two-line notifications that the protocol model uses |
| AtChannels.ATResponse.AddIntermediate | reference-ril/atchannel.c:121-134 | The new line becomes the head of the linked list |
| AtChannels.ATResponse.ReverseIntermediates | reference-ril/atchannel.c:650-663 | In place: the same nodes, linked in the opposite order |
| AtChannels.LinesOnReversed | reference-ril/atchannel.c:650-663 | Reversing the nodes reverses the lines |
| AtChannels.AtChannel.ProcessLine | reference-ril/atchannel.c:230-292 | The fields become those the protocol prescribes for the line, whose role RolesAreRight tells |
| AtChannels.AtChannel.Dispatch | reference-ril/atchannel.c:430-468 | Two-line notifications are paired, other lines processed, as the protocol prescribes |
| AtChannels.AtChannel.ReaderLine | reference-ril/atchannel.c:430-468 | One line step of the run |
| AtChannels.AtChannel.OnReaderClosed | reference-ril/atchannel.c:413-427 | One end-of-reader step of the run: closed only if a callback is set |
| AtChannels.AtChannel.AtClose | reference-ril/atchannel.c:601-616 | One close step of the run |
| AtChannels.AtChannel.BeginCommand | reference-ril/atchannel.c:679-697 | One command step of the run, with its three ways to fail |
| AtChannels.AtChannel.WakeCommand | reference-ril/atchannel.c:699-732 | One wake-up step of the run: waiting on, timed out, closed, or the response handed over |
| AtChannels.AtChannel.OtherStep | reference-ril/atchannel.c:430-468 | A step of the reader thread or of closing is taken exactly if it can happen |
| AtChannels.AtChannel.AwaitResponse | reference-ril/atchannel.c:699-711 | The wait ends with the first round after which there is a final response, the channel is closed, or a timeout is reported |
| AtChannels.AtChannel.AtSendCommandFullNolock | reference-ril/atchannel.c:672-732 | A whole command with others at work during its waits: exactly the steps taken, the result code and when each occurs, final line and intermediates of the lines seen meanwhile, nothing left pending |
| AtChannels.AtChannel.AtSendCommandForOne | reference-ril/atchannel.c:785-851 | The three wrappers: the same steps; where the command fails its code is returned, otherwise 0, but the invalid-response code iff a response is wanted, the final line is a success and none of the lines seen was expected; a success has exactly one matching intermediate |
| Tokens.TokensOfPrinted | reference-ril/at_tok.c:28-87 | Any colon-free header and non-empty list of bare or quoted fields, printed, gives the fields back in order, and then there are no more tokens |
| Tokens.FieldIsToken | reference-ril/at_tok.c:70-87 | One printed field is one token, last or not |
| Tokens.QuotedToken | reference-ril/at_tok.c:57-87 | Whatever stands between a closing quote and the next comma is skipped; without a comma the cursor is at the end, without a closing quote it is NULL |
| Tokens.DecimalRoundTrip | reference-ril/at_tok.c:97-137 | Every non-negative int printed in decimal is read back |
| Tokens.HexRoundTrip | reference-ril/at_tok.c:145-148 | Every 32-bit value printed in hexadecimal is read back as the int with those bits |
| Tokens.TextScanned | reference-ril/at_tok.c:97-126 | strtol and strtoul read any text as its one way into white space, sign, prefix, digits and a rest prescribes |
| Tokens.TakenApart | reference-ril/at_tok.c:97-126 | Every text can be taken apart in that way |
| Tokens.IntRoundTrip | reference-ril/at_tok.c:97-137 | Every int, negative ones included, printed in decimal is read back |
| Tokens.AnyDecimalRead | reference-ril/at_tok.c:97-126 | Any number in decimal, with white space before it and anything but a digit after it, is read as the int congruent to it modulo 32 bits, or as -1 or 0 beyond the range of long |
| Tokens.AnyHexRead | reference-ril/at_tok.c:97-126 | The same for hexadecimal numbers with or without 0x, or as -1 beyond the range of unsigned long |
| Tokens.FlagRead | reference-ril/at_tok.c:150-171 | Of all ints printed in decimal a boolean accepts 0 and 1 only, and moves past the others |
| AtToks.Tokenizer.StrSep | reference-ril/at_tok.c:78-84 | The token ends at a NUL written over its delimiter; nothing before it changes |
| AtToks.Tokenizer.SkipWhiteSpace | reference-ril/at_tok.c:48-55 | The cursor moves past the white space |
| AtToks.Tokenizer.SkipNextComma | reference-ril/at_tok.c:57-68 | The cursor moves past the next comma, or to the end |
| AtToks.Tokenizer.AtTokStart | reference-ril/at_tok.c:28-46 | The cursor moves behind the first colon, or becomes NULL and the call fails |
| AtToks.Tokenizer.NextTok | reference-ril/at_tok.c:70-87 | The token and the rest are those of the specification; the token ends before the cursor; nothing done before changes |
| AtToks.Tokenizer.AtTokNextIntBase | reference-ril/at_tok.c:97-126 | Code, stored value and cursor are those of the specification, conversions of 64-bit longs to 32-bit ints included |
| AtToks.Tokenizer.AtTokNextBool | reference-ril/at_tok.c:150-171 | Only 0 and 1 are accepted, and nothing is stored otherwise |
| AtToks.Tokenizer.AtTokNextStr | reference-ril/at_tok.c:173-182 | The next token, or -1 on a NULL cursor |
| AtToks.Tokenizer.AtTokHasMore | reference-ril/at_tok.c:184-188 | True iff the cursor is at a character |
| AtToks.Tokenizer.Take | reference-ril/at_tok.c:173-188 | After any number of calls every token returned still stands in the line unchanged |
| LineParsers.CallRoundTrip | reference-ril/reference-ril.c:287-344 | Every call, printed by section 7.18 of 3GPP TS 27.007 with any white space, quoting and further optional fields, is read back into a cleared record; the number is kept iff it begins with a plus sign or a digit |
| LineParsers.CallLineRoundTrip | reference-ril/reference-ril.c:289-290 | The line form in the comment of the parser, for every call |
| LineParsers.CallAccepted | reference-ril/reference-ril.c:287-344 | Any line of bare or quoted fields is accepted iff its five numbers are there, the two flags are 0 or 1, the state is 0 to 5, and a type of address follows where anything follows; the record then holds those numbers |
| LineParsers.StatesAre | reference-ril/reference-ril.c:269-281 | The numbers 0 to 5 are the six states in this order, any other number is none |
| LineParsers.RegistrationRead | reference-ril/reference-ril.c:1388-1424 | A line of three, four or five fields is accepted iff every field holds a number, and the array holds those numbers |
| LineParsers.RegistrationRoundTrip | reference-ril/reference-ril.c:1388-1430 | The three-, four- and five-field forms of one state give the same state, area code and cell for all 32-bit hexadecimal values |
| LineParsers.SlotsFilled | reference-ril/reference-ril.c:1370-1424 | The array handed out has every number in the slot its call names, and zeros elsewhere |
| LineParsers.InBoundsIff | reference-ril/reference-ril.c:1362-1386 | The highest array slot written is inside the array iff the line has at least two commas or lacks a number before that write |
| LineParsers.ShortAnswerLeavesArray | reference-ril/reference-ril.c:1368-1375 | An answer with the state alone is a line for which it is not inside |
| ReferenceRil.CallFromClccLine | reference-ril/reference-ril.c:287-344 | Record and result are those of the specification, whose acceptance CallAccepted settles; the number points into the line and still stands there |
| ReferenceRil.NumberFromLine | reference-ril/reference-ril.c:318-337 | The number survives the reading of the type of address |
| ReferenceRil.ClccStateToRilState | reference-ril/reference-ril.c:269-281 | The six states for 0 to 5, and the error -1 for any other number |
| ReferenceRil.Registration.CountCommas | reference-ril/reference-ril.c:1362-1366 | The number of commas that are left |
| ReferenceRil.Registration.Numbers | reference-ril/reference-ril.c:1388-1422 | The switch fills the array with the numbers of the form, or fails iff one is missing |
| ReferenceRil.Registration.ParseRegistrationState | reference-ril/reference-ril.c:1328-1437 | Result and array are those of the specification; area code and cell are remembered on success and kept on failure |

## Left out

- WakeLock.LegacyLockIsReleasedInTime: the same assumptions as the next line; the grab and the timeout of one unsolicited response are two steps, between which others may act.
- WakeLock.LockHeldIffOneTimerLives: assumes that `grabPartialWakeLock` gets its memory and that `userTimerCallback` is one step; part of the latter runs outside the mutex in the program.
- Ril.Daemon.GrabPartialWakeLock: the same two assumptions; also the trigger that wakes the event loop is left out, since a pass may begin at any time.
- LineParsers.RegistrationRoundTrip: the one- and two-field forms of a registration, for which the program leaves its array.
- ReferenceRil.Registration.ParseRegistrationState: requires a line for which the writes stay inside the array, and leaves out the radio technology that it also returns.
- ReferenceRil.CallFromClccLine: requires a cleared record, as all callers pass; the user-to-user information, which is always set to NULL, is left out.
- LineReaders.ReadAllLines: streams in which a line begins like the SMS prompt, or an unterminated remainder that contains it while being too long; single calls of ReadLine cover prompts.
- AtChannels.AtChannel.AtSendCommandFullNolock: one command at a time, as the write mutex is meant to ensure; the pending check would otherwise clear the command in progress.
- AtChannels.AtChannel.AwaitResponse: the clock behind the timed wait; a command with a timeout may time out at any of its waits.
- RequestLog.Refines: a token is never reused, which in the program depends on the allocator, and a late ack or completion finds its record intact, although the program reads the socket of a record that it has freed by then (lines 512-527 of `libril/ril.cpp`); `sendErrorResponse`, which answers without dequeuing, is not a call of the model.
- Requests.PendingRequests.AddRequestToList: allocation failure.
- CallbackGuard.Reachable: the generation counter is unbounded, and `sendErrorResponse`, which calls the client without the lock, is not a step.
- RadioServices.RadioService.CheckReturnStatus: the waits are assumed to end; whether a lock is ever free is the scheduler's affair.
- WatchTables.WatchTable.Add: descriptors are distinct and not negative; the size limit of fd_set is left out.
- EventLoops.EventLoop.TimerAdd: intervals are normalised; the macro carries once only, so any other would give a deadline that is not.
- Ril.Daemon.InternalRequestTimedCallback: the same.
- Ril.Daemon.RequestTimedCallback: the same.
- RilEvents.RilEvent.constructor: `fcntl` on the descriptor.
- Tokens.TokensOfPrinted: white space is that of the C locale, and characters are not signed.
- The retries of `at_handshake`, the contents of what is written to the modem, and the reader thread's own check against calling commands from it.
- The marshalling of requests, responses and indications, the SAP service and its queue, MCC and MNC coding, string and command tables, and start-up: repetitive or dependent on libraries that are not part of this model.
