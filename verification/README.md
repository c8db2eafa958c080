# Verified models of the stateful cores of the repository

The repository is a collection of snippets; several of them are real libraries
with invariants that no single function shows. This project models those in
Dafny and proves what they are for. `dafny verify dfyconfig.toml` checks it.

* **The `ae` event loop** (`Ae*.dfy`). The event table and `maxfd`, the four
  polling backends, each proved to hold exactly the interest of the table after
  any run in which callbacks create and delete events, the timer pass over a linked
  list that callbacks change under it, and whole runs of both, in which callbacks of
  either kind change both. Kernels are objects with abstract
  maps; their answers, and what callbacks do, are arbitrary parameters.
* **The CherryPy byte streams** (`PlainStream.dfy`, `FileObject.dfy`,
  `RequestBody.dfy`, `Chunk*.dfy`, `WsgiApp.dfy`, `HttpRequest.dfy`). Two
  buffered file objects, the bounded readers on top of them, the chunked coding
  in both directions, and a request and response exchange with any application,
  with the exact condition under which it leaves the connection at the next request.
* **The worker pool** (`WorkerPool.dfy`). A step relation of any number of
  threads over one bounded queue with stop signals.
* **The timer index of the reactor** (`TimerHeap.dfy`, `TimerReactor.dfy`). An
  array heap used as an index over a multimap, with stale entries.
* **The packet codecs** (`Bytes.dfy` to `LldpPacket.dfy`). Printers and parsers
  of IPv4, TCP, DHCP and LLDP, and the one's-complement checksum (RFC 1071).
* **Smaller pieces**: `HtmlQuote.dfy`, `SharedCounter.dfy`, `Zmalloc.dfy`.

What the reference functions mean is stated apart from them: times in milli- or
microseconds, digits by their place, packet fields by their bytes, a handler by the
last operation that set it, a result by the call that returned it.

Objects that the source updates in place are classes; each method is proved
against functions on values, and what is promised is proved about those
functions. Where a promise does not hold in general, the exact condition is
proved, and the code is modelled as it is:

* The comment of `aeProcessEvents` promises file events when the flags ask for
  them. The code also processes them when the flags ask for time events only: then
  no file callback can be made exactly when no descriptor is registered
  (`NoFileCallExactly`).
* The same comment promises the file events that timer callbacks of the turn
  register. The code polls before the timers: a descriptor can get a callback in a
  turn exactly when it is registered at the time of the poll (`CanBeCalledExactly`;
  `TimerRegistersTooLate` is a turn that shows it). Timers that file callbacks
  create do belong to the same turn (`FileTimerFires`).
* Not every descriptor a kernel reports gets a callback: with event ports errors and
  hang-ups reach nobody, with epoll only writers (`EvportReportIsCalled`,
  `EpollReportIsCalled` say exactly when; `EvportMissesHangup`, `EpollMissesHangup`
  are inputs).
* The checksums fold once, so some headers and segments do not check. The code
  is right exactly when the high half plus the low half of the sum is at most
  0xffff (`HeaderChecks`, `ShortSegmentChecks`); `SomeHeaderFails` and
  `SomeSegmentFails` name a header and a segment that do not check. A receiver of an
  IPv4 header sums what was written exactly when there are at most 40 bytes of options
  (`LengthCoversHeader`).
* The comment of `serialize` in IPv4.java says that the header length and total
  length are computed when they are 0; the code always computes them, so a value the
  caller sets is kept exactly when it is the computed one (`IPv4.Serialize`).
* `readlines` of `KnownLengthRFile` passes its hint on as a size. It returns nothing
  exactly when the hint is 0, its default, or there is nothing to read (`NoLines`),
  and with a positive hint it returns whole lines exactly when those that begin
  within the hint are no longer than it (`WholeLinesExactly`; `SomeLinesAreMissed`).
* A negative size makes `KnownLengthRFile` read beyond the body, and into the next
  request. Each of its readers stays within the body exactly under a condition on
  the size and on what is pending (`RemainingAfterRead`, `RemainingAfterReadline`,
  `RemainingAfterReadlines`; `SomeReadPassesTheBody`), and a kept connection is left
  at the next request exactly when every read of the application does
  (`Respond`, `KeptIsFramedExactly`; `SomeRequestIsEaten`).
* A status without a body does not keep the application from writing one, and then
  the bytes stand on a kept connection with nothing to say where they end
  (`UnframedExactly`; `SomeBytesAreUnframed`).
* The comment of `aeProcessEvents` promises the number of events processed. It counts
  every fired event, with or without a callback (`CountedIsServedExactly`); with select
  that is every registered descriptor once one is ready (`SelectCountsIdle`).
* `deserialize` of IPv4 and of TCP leaves the options of the object in place when the
  header has no room for any, so such a header comes back only into an object with the
  same options (`IPv4Packet.RoundTripExact`, `TcpSegment.RoundTripExact`).
* The counter of shm.c ends at the number of loops rounded up to an even number
  (`NoDeadlock`).
* A timer that no heap entry covers is not fired; a full heap is the way to such
  a timer (`AddTimerEventHandler`, `ScanFiresAllDue`, `SomeTimerIsLost`).
* A pool without workers leaves all work in the queue (`NoWorkersNoWork`), and blocks
  its user once the queue is full (`NoWorkersBlock`); with workers it never does
  (`PutIsNotStuck`, `SlotIsFreed`).

The rounding unit of `zmalloc`, a power of two, its prefix and its range are
parameters. Java's bytes, shorts and ints are their unsigned bit patterns, with the
sign written out where the code looks at it. Exceptions, error returns and underruns
are values of result types; a null array stands for an exception of a serializer.
Python strings are sequences of characters that stand for bytes.

## Model

| member | source | states |
|---|---|---|
| `AeEvport.ApiState.LookupPending` | Clang/aio/ae/ae_evport.c:104-116 | Finds the slot of a pending descriptor; -1 means that no slot holds it. |
| `AeEvport.ApiState.AddEvent` | Clang/aio/ae/ae_evport.c:147-176 | Against the table as it was before the call: afterwards every registered descriptor is in exactly one of the kernel associations and the pending array, with the new full mask; a pending descriptor is left out of the kernel. |
| `AeEvport.ApiState.DelEvent` | Clang/aio/ae/ae_evport.c:178-236 | Against the reduced table: the either-or rule holds again, an emptied descriptor is in neither place, and the kernel is asked to dissociate only what is associated, so the call to abort is unreachable. |
| `AeEvport.ApiState.Reassociate` | Clang/aio/ae/ae_evport.c:249-267 | The first loop of the poll: every pending descriptor goes back into the kernel with its mask, so the kernel alone holds exactly the table. |
| `AeEvport.ApiState.RecordEvents` | Clang/aio/ae/ae_evport.c:292-307 | Each retrieved event is recorded as fired with its event bits and as pending with its registered mask. |
| `AeEvport.ApiState.Poll` | Clang/aio/ae/ae_evport.c:238-311 | For every answer the kernel can give: the either-or rule holds afterwards, the pending array is exactly the answer, counts fit both arrays. |
| `AeEpoll.Epoll.Ctl` | Clang/aio/ae/ae_epoll.c:77-81 | A kernel that refuses ADD on a present and MOD or DEL on an absent descriptor. |
| `AeEpoll.ApiState.AddEvent` | Clang/aio/ae/ae_epoll.c:66-82 | ADD or MOD is chosen so that the kernel never refuses; afterwards it holds exactly the table. |
| `AeEpoll.ApiState.DelEvent` | Clang/aio/ae/ae_epoll.c:84-101 | MOD or DEL is chosen so that the kernel never refuses; afterwards it holds exactly the reduced table. |
| `AeEpoll.ApiState.Poll` | Clang/aio/ae/ae_epoll.c:103-126 | The fired array holds the answer, with HUP and ERR turned into writable; the count fits. |
| `AeKqueue.ApiState.AddEvent` | Clang/aio/ae/ae_kqueue.c:69-82 | The two filters of every descriptor are exactly the bits of the table. |
| `AeKqueue.ApiState.DelEvent` | Clang/aio/ae/ae_kqueue.c:84-96 | The two filters of every descriptor are exactly the bits of the reduced table. |
| `AeKqueue.ApiState.Poll` | Clang/aio/ae/ae_kqueue.c:98-128 | The fired array holds one entry an event, in order; the count fits. |
| `AeSelect.ApiState.AddEvent` | Clang/aio/ae/ae_select.c:55-61 | The two descriptor sets are exactly the bits of the table. |
| `AeSelect.ApiState.DelEvent` | Clang/aio/ae/ae_select.c:63-68 | The two descriptor sets are exactly the bits of the reduced table. |
| `AeSelect.ApiState.Poll` | Clang/aio/ae/ae_select.c:70-95 | The scan up to maxfd writes what a scan of the whole table would. |
| `AeSelect.ScanFits` | Clang/aio/ae/ae_select.c:80-93 | The scan reports registered descriptors only, and no more than the array holds. |
| `AeSelect.ScanMissesNothing` | Clang/aio/ae/ae_select.c:80-93 | Every registered descriptor has its entry in the scan. |
| `AeSelect.ScanStopsAtMaxfd` | Clang/aio/ae/ae_select.c:80-93 | Scanning up to maxfd equals scanning everything whenever nothing is registered above maxfd. |
| `AeMask.ReadyFits` | Clang/aio/ae/ae.c:322-396 | A possible answer names each registered descriptor once, so it fits the fired array. |
| `AeEventLoop.EventLoop.constructor` | Clang/aio/ae/ae.c:63-92 | A new loop, over any of the four backends, is empty and consistent. |
| `AeEventLoop.EventLoop.CreateFileEvent` | Clang/aio/ae/ae.c:105-123 | Error exactly outside the table; otherwise each direction of the mask is registered with the handler given, the data is the data given, the rest is as it was, and backend and maxfd agree with the table again. |
| `AeEventLoop.HandlerOfLastCreate` | Clang/aio/ae/ae.c:105-141 | After any operations: the handler of a descriptor for a direction is that of the last create for both; no other operation, and no delete, changes it. |
| `AeEventLoop.DataOfLastCreate` | Clang/aio/ae/ae.c:105-141 | After any operations: the data of a descriptor is that of the last create for it; nothing else changes it. |
| `AeEventLoop.RegisteredByLast` | Clang/aio/ae/ae.c:105-141 | After any operations: a descriptor is registered for a direction exactly when the last operation for both is a create, or, without any, when it was before. |
| `AeEventLoop.EventLoop.DeleteFileEvent` | Clang/aio/ae/ae.c:125-141 | The mask is reduced, nothing else changes, maxfd is -1 or registered with nothing registered above it, and the backend agrees. |
| `AeEventLoop.EventLoop.LowerMaxFd` | Clang/aio/ae/ae.c:131-138 | The loop that lowers maxfd finds the next registered descriptor, or -1. |
| `AeEventLoop.EventLoop.PerformAll` | Clang/aio/ae/ae.c:105-141 | Any sequence of creates and deletes is the fold of the operations on the table, with the backend in agreement after every step; maxfd is the greatest descriptor registered for reading or writing, or -1. |
| `AeEventLoop.EventLoop.Poll` | Clang/aio/ae/ae.c:322-396 | Over every backend, the fired array is what the kernel answer stands for. |
| `AeEventLoop.FiredFits` | Clang/aio/ae/ae.c:322-396 | Whichever backend reports them, fired events are for registered descriptors and fit the array. |
| `AeEventLoop.NothingReadyIsMissed` | Clang/aio/ae/ae.c:322-396 | Over every backend, a descriptor reported as ready for reading or for writing fires with that direction. |
| `AeCalls.CallsAreCurrent` | Clang/aio/ae/ae.c:362-387 | Every callback of a pass is for a direction that fired and that the table still has at that moment, with the handler and data it has at that moment; what an earlier callback deleted is not called. |
| `AeCalls.DueIsCalled` | Clang/aio/ae/ae.c:362-387 | Nothing due is left out: at the turn of each fired event, a direction that fired and is still registered is called exactly once, in the order of the fired array and reading first, unless it is the write direction with the handler just called to read. |
| `AeCalls.MadeExactly` | Clang/aio/ae/ae.c:362-387 | A fired event gets a callback exactly when its slot, at its turn, has one of its directions. |
| `AeCalls.CreatedIsCalled` | Clang/aio/ae/ae.c:105-141 | Over every backend: after any operations, a poll that reports a direction whose last operation is a create leads, with idle callbacks, to a call of the handler of that create with the data of the last create. |
| `AeCalls.EpollReportIsCalled` | Clang/aio/ae/ae_epoll.c:111-122 | A descriptor epoll reports gets a callback exactly when it is registered for reading and readable, or registered for writing and writable, in error or hung up. |
| `AeCalls.EvportReportIsCalled` | Clang/aio/ae/ae_evport.c:292-307 | A descriptor an event port reports gets a callback exactly when it is registered for reading and readable, or registered for writing and writable. |
| `AeCalls.KqueueReportIsCalled` | Clang/aio/ae/ae_kqueue.c:113-125 | An event kqueue reports leads to a callback exactly when it is for reading and the slot asks for that, or for writing and the slot asks for that. |
| `AeCalls.SelectReportIsCalled` | Clang/aio/ae/ae_select.c:79-94 | A descriptor select leaves in its sets gets a callback exactly when it is registered for reading and in the read set, or registered for writing and in the write set. |
| `AeCalls.EpollMissesHangup` | Clang/aio/ae/ae_epoll.c:111-122 | A hang-up that epoll reports to a reader leads to no callback. |
| `AeCalls.EvportMissesHangup` | Clang/aio/ae/ae_evport.c:292-307 | A hang-up that an event port reports leads to no callback, even for both directions. |
| `AeCalls.RegisteredCanBeCalled` | Clang/aio/ae/ae.c:358-387 | Over every backend, a registered descriptor has an answer that gets it a callback. |
| `AeCalls.CanBeCalledExactly` | Clang/aio/ae/ae.c:309-396 | A descriptor can get a callback in a turn exactly when it is registered at the time of the poll, hence before any timer of the turn. |
| `AeCalls.NoneCanBeCalled` | Clang/aio/ae/ae.c:332-333 | No poll can lead to any callback exactly when no descriptor is registered. |
| `AeProcess.AeLoop.Dispatch` | Clang/aio/ae/ae.c:369-385 | The callbacks of one fired event, for callbacks that change table and timers arbitrarily: the table is read anew before each, and a handler for both directions is called once. |
| `AeProcess.AeLoop.DispatchAll` | Clang/aio/ae/ae.c:358-388 | Calls, table and timers after the loop over the fired array equal the reference for every script of callbacks. |
| `AeProcess.EmptyTableFiresNothing` | Clang/aio/ae/ae.c:332-333 | Leaving the poll out while maxfd is -1 misses nothing, over every backend. |
| `AeProcess.AeLoop.ProcessFiles` | Clang/aio/ae/ae.c:332-389 | The file half is that of the reference whether the poll is made or left out. |
| `AeProcess.AeLoop.ProcessEvents` | Clang/aio/ae/ae.c:322-396 | Flags for neither kind of event: nothing happens. Otherwise file events and then, if asked for, timers, on table and timers as the reference says, though callbacks of either kind change both; the result counts the fired events and the timers (CountedIsServedExactly), and with proper times the wait of a loop that handles timers ends exactly when the earliest is due. |
| `AeCalls.CountedIsServedExactly` | Clang/aio/ae/ae.c:309-388 | The number of file events counted as processed is the number of those that got a callback if and only if the slot of each, at its turn, asks for something that fired. |
| `AeCalls.SelectCountsIdle` | Clang/aio/ae/ae_select.c:70-95 | With select, two readers of which one is ready are two processed events and one callback. |
| `AeProcess.AeLoop.RunLoop` | Clang/aio/ae/ae.c:420-427 | Whole runs of aeMain, for any answers and any callbacks: after every turn table, timers, lastTime and backend are as the reference says, and the list and the either-or rule stay valid; without negative delays times stay proper, and each wait of the run is endless exactly without timers and otherwise ends exactly when the timer that is then the earliest is due. |
| `AeTurnSpec.WaitsAreNormal` | Clang/aio/ae/ae.c:420-427 | Without negative delays, times are proper clock readings at every wait of a run. |
| `AeProcess.NoFileCallExactly` | Clang/aio/ae/ae.c:309-396 | Whatever the flags that ask for timers: no answer and no callbacks can lead to a file callback if and only if no descriptor is registered. |
| `AeProcess.TimerRegistersTooLate` | Clang/aio/ae/ae.c:309-396 | A concrete turn in which a timer registers a descriptor and no answer gets it a callback in the same turn, against the order the comment promises. |
| `AeTurnSpec.FileTimerFires` | Clang/aio/ae/ae.c:241-307 | A timer that a file callback creates belongs to the pass of the same turn: if due, it fires exactly when no earlier callback of the pass deletes it; a timer created in the pass does not fire. |
| `AeTurnSpec.TurnKeepsNormal` | Clang/aio/ae/ae.c:322-396 | A turn without negative delays keeps every time a proper clock reading. |
| `AeTimerSpec.AddMillisecondsExact` | Clang/aio/ae/ae.c:159-171 | The result is exactly now plus the delay, also for negative delays; it is a proper clock reading for every non-negative delay, and for a negative one exactly under the stated condition. |
| `AeTimerSpec.DueAgain` | Clang/aio/ae/ae.c:281-289 | A timer put off by r is due again in the same pass exactly when r is not positive. |
| `AeTimerSpec.DueIsReached` | Clang/aio/ae/ae.c:275-277 | A timer with a proper time is due exactly when the clock, counted in milliseconds, has reached it. |
| `AeTimerSpec.AddedIsThere` | Clang/aio/ae/ae.c:173-190 | A timer that a callback adds has the next free identifier; unless a later operation deletes it, it is there after the callback, due exactly its delay from now in milliseconds. |
| `AeTimerSpec.FireEffect` | Clang/aio/ae/ae.c:268-291 | One firing removes the timer and what its callback deleted from what is still to fire, and adds nothing, so the pass ends although it starts again from the head. |
| `AeTimerSpec.PassFiresEachOnce` | Clang/aio/ae/ae.c:241-307 | A pass fires, in strictly decreasing order of identifier, exactly the timers that were due at its start and that no callback made earlier deleted; identifiers stay strictly decreasing; nothing due is left. |
| `AeTimerSpec.PassIsOnTime` | Clang/aio/ae/ae.c:241-307 | The same in milliseconds: a pass fires exactly the timers up to maxId whose time the clock has reached and that no callback made earlier deleted, and every timer up to maxId that it leaves lies ahead of the clock. |
| `AeTimerSpec.SkewedIsDue` | Clang/aio/ae/ae.c:255-261 | After the reset every timer is due, from second 1 on. |
| `AeTurnSpec.TimersAreOnTime` | Clang/aio/ae/ae.c:241-307 | Unless the clock has gone back, the timer half fires exactly the timers whose time in milliseconds the clock has reached and that no earlier callback deleted. |
| `AeTurnSpec.StepBackFiresAll` | Clang/aio/ae/ae.c:241-307 | After a step back of the clock it fires all timers, but for those that an earlier callback deletes. |
| `AeTimerSpec.PassLeavesOthers` | Clang/aio/ae/ae.c:241-307 | A timer that does not fire is left as it was exactly when no callback of the pass deletes it, and is gone otherwise. |
| `AeTimerSpec.PassSettlesFired` | Clang/aio/ae/ae.c:281-293 | A timer that fired is gone if its callback answered NOMORE or a later one deleted it; otherwise it is due exactly as long after now as its callback asked for. |
| `AeTimerSpec.PassKeepsNormal` | Clang/aio/ae/ae.c:241-307 | A pass, and the clock-skew reset, keep every time a proper clock reading, as the wait before a poll needs. |
| `AeTimers.TimeEvents.CreateTimeEvent` | Clang/aio/ae/ae.c:173-190 | The new node is at the head of the list, with the next identifier, and due exactly the delay from now in milliseconds. |
| `AeTimers.TimeEvents.DeleteTimeEvent` | Clang/aio/ae/ae.c:192-212 | Unlinks the node with this identifier from the linked list, if there is one; the result says which. |
| `AeTimers.TimeEvents.SearchNearestTimer` | Clang/aio/ae/ae.c:225-238 | A node no other comes before; null exactly for an empty list. |
| `AeTimers.TimeEvents.WaitTime` | Clang/aio/ae/ae.c:330-356 | The poll waits for the nearest timer, never shorter than until it is due; with proper clock readings, exactly until then, or less than a second when it is overdue; not at all, and for ever, exactly in the stated cases. |
| `AeTimers.TimeEvents.ResetTimes` | Clang/aio/ae/ae.c:255-261 | After a step back of the clock every timer is due at second 0, and nothing else changes. |
| `AeTimers.TimeEvents.CheckClock` | Clang/aio/ae/ae.c:255-261 | The times are reset exactly when the clock has gone back, and the time is noted. |
| `AeProcess.AeLoop.FireOne` | Clang/aio/ae/ae.c:268-296 | One firing on the linked list, with a callback that adds and deletes timers and file events, is the firing of the reference. |
| `AeProcess.AeLoop.RunPass` | Clang/aio/ae/ae.c:263-306 | The loop over the list that callbacks change under it ends, and is the pass of the reference, of which PassIsOnTime says what it fires; the table is that of the callbacks in order. |
| `AeProcess.AeLoop.ProcessTimeEvents` | Clang/aio/ae/ae.c:241-307 | The whole pass on the linked list, clock-skew reset included, refines the reference; it counts its callbacks, and unless the clock has gone back, fires exactly the timers whose time in milliseconds has come and that no earlier callback deleted. |
| `AeTimers.BeforeIsEarlier` | Clang/aio/ae/ae.c:225-238 | Comparing seconds and then milliseconds compares total times. |
| `PlainStream.ReadlineUnique` | python/http/cherrPy-wsgi.py:1002-1198 | The three clauses that describe a line determine it. |
| `PlainStream.ReadlineSatisfies` | python/http/cherrPy-wsgi.py:1002-1198 | The reference readline meets them. |
| `FileObject.CPFileObject.ReadIO` | python/http/cherrPy-wsgi.py:942-1000 | StringIO form: the plain read, for every size and every way the socket cuts the stream; buffer and unread stream hold exactly the rest. |
| `FileObject.CPFileObject.ReadlineIO` | python/http/cherrPy-wsgi.py:1002-1086 | StringIO form: the plain readline, likewise. |
| `FileObject.CPFileObject.ReadlineIOLimited` | python/http/cherrPy-wsgi.py:1045-1086 | StringIO form with a limit, where a received piece may hold the newline, reach the limit, or neither. |
| `FileObject.CPFileObject.ReadStr` | python/http/cherrPy-wsgi.py:1088-1128 | str form: the plain read; an unbuffered object never keeps anything in its buffer. |
| `FileObject.CPFileObject.ReadlineStr` | python/http/cherrPy-wsgi.py:1130-1198 | str form: the plain readline; the assertion that an unbuffered object has an empty buffer holds. |
| `FileObject.CPFileObject.Read` | python/http/cherrPy-wsgi.py:930-1128 | Both forms are the plain read: the result is determined by what is pending, and pending is the result followed by the new pending. |
| `FileObject.CPFileObject.Readline` | python/http/cherrPy-wsgi.py:1002-1198 | Both forms are the plain readline, likewise. |
| `RequestBody.SizeCheckWrapper.Read` | python/http/cherrPy-wsgi.py:210-218 | The plain read, refused exactly when the count passes the limit. |
| `RequestBody.SizeCheckWrapper.ReadlineSized` | python/http/cherrPy-wsgi.py:220-224 | The plain readline, refused exactly when the count passes the limit. |
| `RequestBody.SizeCheckWrapper.ReadlineUnsized` | python/http/cherrPy-wsgi.py:226-237 | The line fetched in pieces of 256 is the plain line; it is refused exactly when the whole line passes the limit, and then at most 256 bytes too many have been read. |
| `RequestBody.KnownLengthRFile.Read` | python/http/cherrPy-wsgi.py:272-282 | The plain read of at most what remains of the body, for all sizes; remaining goes down by what was read, and stays non-negative exactly under the condition of RemainingAfterRead. |
| `RequestBody.KnownLengthRFile.Readline` | python/http/cherrPy-wsgi.py:284-294 | The plain readline within what remains of the body; remaining goes down by its length, and stays non-negative exactly under the condition of RemainingAfterReadline. |
| `RequestBody.KnownLengthRFile.Readlines` | python/http/cherrPy-wsgi.py:296-307 | For every hint the lines are those of the reference loop on the plain stream, and are, put together, what was taken from the stream and from remaining; remaining stays non-negative exactly under the condition of RemainingAfterReadlines. |
| `RequestBody.NoLines` | python/http/cherrPy-wsgi.py:296-307 | There are no lines if and only if nothing is pending, nothing remains, or the hint is 0, its default. |
| `RequestBody.WholeLinesExactly` | python/http/cherrPy-wsgi.py:296-307 | With a positive hint, the elements are whole lines of the body if and only if every line that begins in the first hint bytes is at most hint bytes long. |
| `RequestBody.SomeLinesAreMissed` | python/http/cherrPy-wsgi.py:296-307 | A body the default hint loses, and a line that a hint cuts. |
| `RequestBody.RemainingAfterRead` | python/http/cherrPy-wsgi.py:272-282 | remaining stays non-negative exactly when the size is not negative, or nothing beyond the body is there to read. |
| `RequestBody.SomeReadPassesTheBody` | python/http/cherrPy-wsgi.py:272-282 | A negative size that reads past the body. |
| `RequestBody.RemainingAfterReadline` | python/http/cherrPy-wsgi.py:284-294 | remaining stays non-negative exactly when the size is not negative, or the line ends within the body. |
| `RequestBody.RemainingAfterReadlines` | python/http/cherrPy-wsgi.py:296-307 | remaining stays non-negative exactly when the hint is not negative, nothing remains, nothing lies beyond the body, or the body ends in a newline. |
| `RequestBody.BodyIsPrefix` | python/http/cherrPy-wsgi.py:272-294 | With proper sizes the reader behaves as a plain stream that holds exactly the body. |
| `ChunkSizeLine.ChunkSizeRoundTrip` | python/http/cherrPy-wsgi.py:341-351 | The size write prints is the size _fetch parses, for every size. |
| `ChunkSizeLine.SizeOfDigits` | python/http/cherrPy-wsgi.py:345-351 | For every string of hexadecimal digits, of either case and with zeros in front or not, followed by blanks and by an extension or not: the size read is the number these digits stand for to base 16. |
| `ChunkedCoding.FetchStepExact` | python/http/cherrPy-wsgi.py:337-371 | On any stream: a fetch takes a chunk exactly when a positive size is announced, the limit allows line and chunk, and that many bytes and CRLF follow; it closes the body exactly at a size that is not positive. |
| `ChunkedCoding.ChunkedRFile.FetchOpen` | python/http/cherrPy-wsgi.py:337-371 | One fetch on any stream: the fault, the bytes counted, the buffer and what is left of the stream, for the size that the line announces (SizeOfDigits). |
| `ChunkedCoding.ChunkedRFile.Fetch` | python/http/cherrPy-wsgi.py:337-371 | On a well-formed body, whatever digits, blanks and extensions its size lines have, it takes exactly the first chunk, or closes the body at the last one. |
| `ChunkedCoding.ChunkedRFile.Read` | python/http/cherrPy-wsgi.py:374-391 | On a well-formed body the next bytes of the chunks put together, short only at the end; on any stream, short without a fault only once closed. |
| `ChunkedCoding.ChunkedRFile.ReadTrailerLines` | python/http/cherrPy-wsgi.py:435-456 | Lines, fault and what is left are those of the reference loop on a plain string; every byte taken is counted; an open body is refused untouched. |
| `ChunkedTrailer.TrailerExact` | python/http/cherrPy-wsgi.py:435-456 | Accepted if and only if lines ending in CRLF and then CRLF come, within the limit; too large if and only if a line passes the limit first; bad if and only if, within the limit, a line not ending in CRLF or the end of the stream comes. |
| `ChunkedTrailer.AcceptedIsTaken` | python/http/cherrPy-wsgi.py:435-456 | An accepted trailer is, with the final CRLF, exactly what was taken from the stream. |
| `ChunkedMessage.ReadPieces` | python/http/cherrPy-wsgi.py:374-391 | Any sequence of reads of positive sizes returns what the same reads of the plain chunk data return. |
| `ChunkedMessage.ReadMessage` | python/http/cherrPy-wsgi.py:374-456 | On every well-formed body, however its sizes are written: reads of any sizes give the whole body, and the trailer, its fault and what is left of the stream are those of the loop on a plain string. |
| `ChunkedMessage.ResponseIsWellFormed` | python/http/cherrPy-wsgi.py:760-822 | A chunked response, whatever the application wrote, is a well-formed chunked body of the non-empty pieces, followed by an empty trailer. |
| `HttpRequest.HTTPRequest.Decide` | python/http/cherrPy-wsgi.py:824-856 | Chunking and closing are decided by status, announced length, version and method exactly as stated, with the headers that announce it. |
| `WsgiApp.FramingChoice` | python/http/cherrPy-wsgi.py:832-850 | A response that may have a body and announces no length is chunked for HTTP/1.1 unless only the head was asked for, and otherwise ended by closing; the statuses below 200 and 204, 205, 304 are neither; 413 closes. |
| `HttpRequest.HTTPRequest.SendHeaders` | python/http/cherrPy-wsgi.py:824-885 | Unless the connection is closed, what is left of the body is read before the header block is sent; otherwise nothing is. |
| `HttpRequest.HTTPRequest.WriteChunk` | python/http/cherrPy-wsgi.py:816-822 | A non-empty piece is framed when the response is chunked; an empty one never ends it. |
| `HttpRequest.HTTPRequest.Respond` | python/http/cherrPy-wsgi.py:760-781 | For every application, with reads of any sizes, and every Content-Length: it is left by an exception exactly when the application raises or never starts the response. The stream is left behind what has been read, and remaining is what Left says, negative exactly when some read left the body; so a kept connection is left at the next request if and only if every read stays within the body. Whether it is kept and chunked follows from what the application declared, and what is sent is the header block and the pieces, framed exactly when chunked. |
| `WsgiApp.ReadsWithinExactly` | python/http/cherrPy-wsgi.py:272-307 | One reading step takes no more than remains of the body if and only if the condition of its reader holds. |
| `WsgiApp.StaysInBodyExactly` | python/http/cherrPy-wsgi.py:760-877 | For every application, what remains of the body when the response is through, or an exception has stopped it, is not negative if and only if every read, at its turn, meets the condition of its reader. |
| `WsgiApp.KeptIsDrained` | python/http/cherrPy-wsgi.py:858-877 | A response that goes out on a kept connection leaves nothing of the body unread. |
| `WsgiApp.KeptIsFramedExactly` | python/http/cherrPy-wsgi.py:858-877 | A kept connection is left just behind the body if and only if every read of the application stays within it. |
| `WsgiApp.ProperSizesStay` | python/http/cherrPy-wsgi.py:272-307 | Sizes and hints that are not negative are enough for that. |
| `WsgiApp.SomeRequestIsEaten` | python/http/cherrPy-wsgi.py:272-282 | An application whose read(-1) takes the next request, after which its response still goes out. |
| `WsgiApp.HeadIsFixed` | python/http/cherrPy-wsgi.py:2033-2062 | Once the headers are sent, or the application has raised, what it declared cannot change. |
| `WsgiApp.GoesOutExactly` | python/http/cherrPy-wsgi.py:2033-2089 | The response goes out exactly when the application starts it before it writes, again only with exc_info, and never once it has written; otherwise it raises, unless it does neither. |
| `WsgiApp.LastStartCounts` | python/http/cherrPy-wsgi.py:2033-2062 | The status is the one the application started with last. |
| `WsgiApp.LengthIsAnnounced` | python/http/cherrPy-wsgi.py:2033-2062 | A length is announced exactly when some start announced one. |
| `HttpRequest.UnframedExactly` | python/http/cherrPy-wsgi.py:816-848 | Bytes go out on a kept connection with no length, no chunks and no end exactly when the status is below 200 or 204, 205 or 304, no length was announced, and the application wrote a piece. |
| `HttpRequest.SomeBytesAreUnframed` | python/http/cherrPy-wsgi.py:816-848 | A 204 response with a piece of one byte, which stands on a kept connection where the next response belongs. |
| `WorkerPool.InitHolds` | python/multithreading.py:172-190 | The invariant holds when all workers have been started. |
| `WorkerPool.FifoStep` | python/multithreading.py:88-101 | What was taken followed by what is queued is, in order, what was put. |
| `WorkerPool.AccountedStep` | python/multithreading.py:88-101 | Each item taken is in exactly one of results, stored exceptions and current calls. |
| `WorkerPool.SignalsStep` | python/multithreading.py:192-203 | There is one stop signal, queued or to come, for every live worker, and no work behind a signal. |
| `WorkerPool.StepKeeps` | python/multithreading.py:88-211 | Every action of every thread keeps the whole invariant. |
| `WorkerPool.NeverStuck` | python/multithreading.py:192-211 | Once the exit has begun some thread can always act until it is through, also when the queue is full; inside the context, the thread that leaves it can. |
| `WorkerPool.PutIsNotStuck` | python/multithreading.py:88-101 | A thread that wants to put is not blocked for ever, because it can put or some worker can act, if and only if there is a worker or room in the queue. |
| `WorkerPool.SlotIsFreed` | python/multithreading.py:88-101 | Workers free a slot of the queue within one step more than there are calls under way. |
| `WorkerPool.ExitEnds` | python/multithreading.py:192-211 | Every run from the start of the exit is finite, whatever the interleaving. |
| `WorkerPool.PoolIsDone` | python/multithreading.py:88-211 | In every run that gets through, with at least one worker: every item was given to func once and in order, the queue is empty, each worker took one signal, the results are those of the calls that returned, in order and with their items, the exceptions of each worker those of its own calls that raised, and the counter went up by the number of calls that raised. |
| `WorkerPool.HistoryIs` | python/multithreading.py:88-101 | At every point of every run: results are, in order, item and value of each call that returned, each worker has stored, in order, item and exception of each of its calls that raised, told from the actions and the items handed over by get. |
| `WorkerPool.NoWorkersNoWork` | python/multithreading.py:172-211 | A run with no worker that gets through leaves everything put in the queue. |
| `WorkerPool.NoWorkersBlock` | python/multithreading.py:167-203 | Without workers a put is possible if and only if fewer items than the queue holds have been put; after that nothing is left to do but to leave the context. |
| `TimerHeap.RootIsLeast` | cpp/epoll/MiniHeap.h:38-41 | In a heap-ordered array the root is least. |
| `TimerHeap.LeqIsInTime` | cpp/epoll/reactor.cpp:385-393 | Between proper times the order of the heap, the multimap and the clock comparison is that of the microseconds. |
| `TimerHeap.MinHeap.Insert` | cpp/epoll/MiniHeap.h:22-29 | Refuses exactly when full; otherwise the heap holds what it held and the new element. |
| `TimerHeap.MinHeap.RemoveMin` | cpp/epoll/MiniHeap.h:30-37 | Takes out a least element, with proper times one with the fewest microseconds, and keeps exactly the others, heap-ordered. |
| `TimerHeap.MinHeap.FilterUp` | cpp/epoll/MiniHeap.h:70-89 | Restores the heap order above a position, as a permutation in place. |
| `TimerHeap.MinHeap.FilterDown` | cpp/epoll/MiniHeap.h:91-113 | Restores the heap order below a position, as a permutation in place. |
| `TimerHeap.MinHeap.Drain` | cpp/epoll/MiniHeap.h:30-37 | Removing until empty yields a sorted permutation. |
| `TimerReactor.BoundsSplit` | cpp/epoll/reactor.cpp:389-403 | lower_bound and upper_bound enclose exactly the entries of a key. |
| `TimerReactor.InsertedInTime` | cpp/epoll/reactor.cpp:356-362 | An entry goes behind all that are due no later in microseconds, equal ones included, and before all that are due later. |
| `TimerReactor.OrderedInTime` | cpp/epoll/reactor.cpp:356-362 | The order of the multimap is the order of the microseconds. |
| `TimerReactor.EventHandlerSet.AddTimerEventHandler` | cpp/epoll/reactor.cpp:356-362 | Both structures take the entry; the heap keeps covering the multimap exactly when it is not full or has a copy of the time to spare. |
| `TimerReactor.EventHandlerSet.DelTimerEventHandler` | cpp/epoll/reactor.cpp:364-377 | Erases exactly the first entry of this handler at its time; the heap keeps covering the multimap. |
| `TimerReactor.EventHandlerSet.FireAt` | cpp/epoll/reactor.cpp:396-407 | Fires and erases exactly the entries of one time, in order. |
| `TimerReactor.EventHandlerSet.ScanTimer` | cpp/epoll/reactor.cpp:379-415 | For any heap, multimap and sequence of clock readings: the least times of the heap are popped, each due when compared, exactly the entries of the popped times are fired in order and erased, and it ends; in microseconds, nothing is fired before a reading has reached it, and what is left in the heap is later than the last reading. |
| `TimerReactor.ScanIsAtLast` | cpp/epoll/reactor.cpp:391-395 | While the clock goes forward, a scan pops exactly the times due at its last reading. |
| `TimerReactor.ScanIsMapScan` | cpp/epoll/reactor.cpp:379-415 | When the heap covers the multimap, a scan is a scan of the multimap alone, stale heap entries or not. |
| `TimerReactor.ScanFiresAllDue` | cpp/epoll/reactor.cpp:379-415 | A scan fires all that is due if and only if every due time of the multimap is in the heap. |
| `TimerReactor.SomeTimerIsLost` | cpp/epoll/reactor.cpp:356-415 | From a new set with room for one time: of two timers added the second is refused by the heap; a scan when both are due fires the first only, and no later scan, at whatever time, fires the second. |
| `TimerReactor.ScanKeepsCover` | cpp/epoll/reactor.cpp:379-415 | After a scan the heap still covers the multimap. |
| `TimerReactor.Perform` | cpp/epoll/reactor.cpp:356-415 | One operation, with room in the heap if it is an addition, does to the multimap, and fires, what it would on a plain multimap without a heap; the heap goes on covering it, and holds what is stated. |
| `TimerReactor.ScanInTime` | cpp/epoll/reactor.cpp:379-415 | On the plain multimap a scan fires the front, which is exactly what the clock has reached in microseconds. |
| `TimerReactor.PerformScan` | cpp/epoll/reactor.cpp:379-415 | A scan with a heap that covers the multimap fires the front of the multimap, in microseconds exactly what the clock has reached, and leaves the rest. |
| `TimerReactor.Run` | cpp/epoll/reactor.cpp:356-415 | Whole runs of additions, deletions and scans, of any length, in which the heap never fills, fire what a plain multimap would fire, in the same order, and leave what it would leave. |
| `Checksum.FoldsToOnes` | java/packet/IPv4.java:360-371 | The full one's-complement sum is all ones exactly for positive multiples of 0xffff. |
| `Checksum.ChecksumExact` | java/packet/IPv4.java:360-371 | Data with its checksum in place checks if and only if the carries lost by the 32-bit accumulator and by the single fold cancel out; for sums of any size. |
| `Checksum.ChecksumValid` | java/packet/IPv4.java:360-371 | Below 2 to the 32nd it checks if and only if high half plus low half is at most 0xffff. |
| `Checksum.Accumulate` | java/packet/TCP.java:224-231 | The loop with its odd tail sums the words, wrapping at 32 bits. |
| `Checksum.WordSumIsByPlace` | java/packet/TCP.java:224-231 | The sum of the words is the sum of the bytes, those at even places, a last odd one included, weighing 256. |
| `IPv4Packet.HeaderChecks` | java/packet/IPv4.java:360-371 | For every header the code can build: all the bytes of the serialized header check if and only if high half plus low half of their sum is at most 0xffff. |
| `IPv4Packet.LengthCoversHeader` | java/packet/IPv4.java:326-342 | A receiver, which goes by the four bits of the header length, takes all of the header for it if and only if there are at most 40 bytes of options. |
| `IPv4Packet.SomeHeaderFails` | java/packet/IPv4.java:360-371 | A concrete header whose checksum does not check. |
| `IPv4Packet.IPv4.Serialize` | java/packet/IPv4.java:326-373 | Fails exactly when the total length does not fit; otherwise the bytes, and the fields it sets, are those of the reference. |
| `IPv4Packet.IPv4.Deserialize` | java/packet/IPv4.java:375-440 | Fields, payload and failures are those of the reference parser, for all bytes; a header without options leaves those of the object alone. |
| `IPv4Packet.RoundTripExact` | java/packet/IPv4.java:326-440 | Exactly the headers whose fields fit their bits, with at most 40 bytes of options, come back as they went out; one without options only into an object that has none. |
| `IPv4Packet.HeaderLayout` | java/packet/IPv4.java:326-358 | Every field of a written header is where RFC 791 has it, most significant byte first. |
| `IPv4Packet.PaddingIsCut` | java/packet/IPv4.java:375-440 | Bytes behind the packet are not taken for payload. |
| `IPv4Packet.ParseFailsExactly` | java/packet/IPv4.java:375-440 | Reading fails exactly below 20 bytes, on another version, on a header that is cut off, and on a total length below the header length. |
| `IPv4Packet.CutOffIsKept` | java/packet/IPv4.java:375-440 | Of a packet cut off behind its header, what there is of the payload is kept. |
| `TcpSegment.SegmentChecks` | java/packet/TCP.java:209-237 | For every header, payload and pseudo header, of any length: the exact condition under which the segment checks, accumulator wrap included. |
| `TcpSegment.PseudoIsSummed` | java/packet/TCP.java:213-222 | What is added for an IPv4 parent is the sum of the pseudo header of RFC 793: both addresses, zero, 6 and the length. |
| `TcpSegment.ShortSegmentChecks` | java/packet/TCP.java:209-237 | For every segment whose length fits 16 bits: it checks if and only if high half plus low half of the sum is at most 0xffff. |
| `TcpSegment.SomeSegmentFails` | java/packet/TCP.java:209-237 | A concrete segment whose checksum does not check. |
| `TcpSegment.TCP.Serialize` | java/packet/TCP.java:173-239 | Fails exactly for the data offsets and options that outgrow the buffer; otherwise bytes, default offset, checksum and the protocol of the parent are as stated. |
| `TcpSegment.TCP.Deserialize` | java/packet/TCP.java:280-315 | Fields, options, payload and failures are those of the reference parser, for all bytes. |
| `TcpSegment.ParseSegment` | java/packet/TCP.java:280-315 | What comes back of a segment: flags cut to nine bits, options padded. |
| `TcpSegment.SegmentLayout` | java/packet/TCP.java:173-207 | Every field of a written segment is where RFC 793 has it, most significant byte first. |
| `TcpSegment.ParseFailsExactly` | java/packet/TCP.java:280-315 | Reading fails exactly below 20 bytes and for a data offset below 5; options and payload that are cut off are what there is of them. |
| `TcpSegment.RoundTripExact` | java/packet/TCP.java:173-315 | Exactly the headers with nine bits of flags, four bits of offset and options that fill their room come back as they went out; one without room for options only into an object that has the same options already. |
| `DhcpOptions.ParsedIsFaithful` | java/packet/DHCP.java:469-502 | On arbitrary bytes: no Pad is kept, End only in last place, and every option with data has as much as its length byte says. |
| `DhcpOptions.ParseByCases` | java/packet/DHCP.java:469-502 | What reading makes of any bytes: Pad is skipped, End ends the list, an option is taken with its data, and one that is cut off reads as End. |
| `DhcpOptions.OptionLayout` | java/packet/DHCP.java:397-411 | Codes 0 and 255 stand alone on the wire; every other code is followed by length and data. |
| `DhcpOptions.RoundTrip` | java/packet/DHCP.java:397-502 | Whatever the zero padding, exactly the faithful option lists come back as they went out, with or without End. |
| `DhcpOptions.Reread` | java/packet/DHCP.java:397-502 | Options that were read can be written and read again without change. |
| `DhcpOptions.FaithfulFits` | java/packet/DHCP.java:363-371 | A faithful list takes exactly the room reserved for it. |
| `DhcpPacket.FaithfulPacketFits` | java/packet/DHCP.java:357-411 | With a hardware address of at most 16 bytes, faithful options never outgrow the buffer. |
| `DhcpPacket.DHCP.Serialize` | java/packet/DHCP.java:357-411 | Fails exactly when an option lacks its data or the buffer is too small; otherwise the bytes are those of the reference, zero padded. |
| `DhcpPacket.PacketLayout` | java/packet/DHCP.java:357-411 | Every field of a written packet is where RFC 2131 has it, with the magic cookie before the options; it is at least 300 bytes long. |
| `DhcpPacket.DHCP.ReadOptions` | java/packet/DHCP.java:469-502 | The option loop ends and stays within the buffer on arbitrary bytes, and appends what the reference parser finds. |
| `DhcpPacket.DHCP.Deserialize` | java/packet/DHCP.java:436-505 | Short buffers change nothing, an overlong hardware address fails, everything else is as in the reference parser, for all bytes. |
| `DhcpPacket.ParsedIsConsistent` | java/packet/DHCP.java:436-505 | Whatever is read has a hardware address as long as its length byte, and faithful options. |
| `DhcpPacket.RoundTripExact` | java/packet/DHCP.java:357-505 | Exactly the packets with a true hardware address length and faithful options come back as they went out. |
| `LldpTlvs.LengthIsWritten` | java/packet/LLDP.java:104-112 | The computed length is the number of bytes written. |
| `LldpTlvs.FirstOf` | java/packet/LLDPTLV.java:78-105 | One faithful element is unpacked from its seven and nine bits as it was packed. |
| `LldpTlvs.TlvLayout` | java/packet/LLDPTLV.java:78-89 | The type is the upper seven bits of the first byte, the length its last bit and the second byte. |
| `LldpTlvs.FirstExactly` | java/packet/LLDPTLV.java:91-105 | In bytes: type, length and value of the element at the front, and exactly when its value is cut off. |
| `LldpTlvs.ParsedIsFaithful` | java/packet/LLDP.java:131-157 | On arbitrary bytes, every element kept has a type from 1 to 127 and a value as long as its length, null for 0. |
| `LldpTlvs.StoreAllKeeps` | java/packet/LLDP.java:140-155 | Whatever is stored is in the place of its type. |
| `LldpTlvs.ParseList` | java/packet/LLDP.java:104-157 | Faithful elements followed by the end are read as they were written, nulls left out. |
| `LldpTlvs.RoundTripExact` | java/packet/LLDP.java:104-157 | Exactly the frames whose elements are faithful and in their places (types 1, 2, 3, and 4 to 127) come back as they went out, nulls dropped. |
| `LldpPacket.LLDPTLV.Serialize` | java/packet/LLDPTLV.java:78-89 | Fails exactly for a negative length or a value longer than it; otherwise the packed bytes, the value and zeros. |
| `LldpPacket.LLDPTLV.Deserialize` | java/packet/LLDPTLV.java:91-105 | Fails exactly below two bytes; null exactly on an underrun; otherwise the element at the front, and the buffer moves past it. |
| `LldpPacket.LLDP.Serialize` | java/packet/LLDP.java:104-128 | Fails exactly for a missing mandatory or an unwritable element; otherwise the bytes of the reference. |
| `LldpPacket.LLDP.ComputeLength` | java/packet/LLDP.java:105-110 | The length, computed over the fields, is that of the list. |
| `LldpPacket.LLDP.Deserialize` | java/packet/LLDP.java:131-157 | What is stored, and whether it fails, is as in the reference parser, for all bytes. |
| `HtmlQuote.QuotePass` | python/net.py:149-153 | Each replace pass of the quoting acts on the text character by character. |
| `HtmlQuote.UnquotePass` | python/net.py:163-167 | The matching pass of the unquoting takes back exactly that. |
| `HtmlQuote.RoundTrip` | python/net.py:142-168 | Unquoting what was quoted gives the text back, for every text. |
| `HtmlQuote.QuoteIsStandard` | python/net.py:142-154 | Quoting replaces each of the five characters by its own HTML entity, wherever it stands, and nothing else. |
| `HtmlQuote.QuotedIsSafe` | python/net.py:142-154 | Quoted text has no raw angle bracket or quotation mark, and every ampersand in it begins one of the five entities. |
| `SharedCounter.ParentKeeps` | Clang/APUE/coding/shm.c:135-142 | A step of the parent keeps the one-turn invariant. |
| `SharedCounter.ChildKeeps` | Clang/APUE/coding/shm.c:145-153 | A step of the child keeps the one-turn invariant. |
| `SharedCounter.Exclusive` | Clang/APUE/coding/shm.c:53-154 | In every interleaving and for every number of loops: never both processes at the counter, and every update returns the loop variable of its process. |
| `SharedCounter.NoDeadlock` | Clang/APUE/coding/shm.c:53-154 | One process can move until both loops are over; then the counter is the number of loops rounded up to even, and the pipes are empty. |
| `SharedCounter.RunsEnd` | Clang/APUE/coding/shm.c:53-154 | Every run is finite. |
| `Zmalloc.RoundWithPrefix` | Clang/aio/ae/zmalloc.c:61-83 | For every prefix that is a multiple of the rounding unit: rounding with the prefix is rounding without it, plus the prefix. |
| `Zmalloc.RoundedIsNext` | Clang/aio/ae/zmalloc.c:61-83 | A size is rounded to the next multiple of the unit. |
| `Zmalloc.MaskIsRemainder` | Clang/aio/ae/zmalloc.c:61-83 | The bit mask with which sizes are rounded is the remainder for every size if and only if the unit is a power of two. |
| `Zmalloc.WrapRounded` | Clang/aio/ae/zmalloc.c:61-83 | For every range of size_t that is a multiple of the rounding unit, rounding commutes with the wrap-around. |
| `Zmalloc.Allocator.Malloc` | Clang/aio/ae/zmalloc.c:96-122 | The block is live, and used_memory is the total over the live blocks, modulo the range of size_t. |
| `Zmalloc.Allocator.Realloc` | Clang/aio/ae/zmalloc.c:124-151 | The balance is kept although the statistics leave the prefix out. |
| `Zmalloc.Allocator.Free` | Clang/aio/ae/zmalloc.c:167-183 | The block is gone and the balance is kept. |
| `Zmalloc.Allocator.UsedMemory` | Clang/aio/ae/zmalloc.c:193-200 | Exactly the sum of zmalloc_size over the live blocks, as long as that fits a size_t; so it never underflows. |

## Left out

- AeEventLoop: an empty mask given to aeCreateFileEvent and negative descriptors, which the callers of the source avoid; failed kernel calls; descriptors above FD_SETSIZE; aeProcessEvents called from within a callback; aeWait.
- AeTurnSpec: the clock is the same for the wait and the callbacks of the file half, and for all of the timer half.
- AeTimerSpec: callbacks that delete their own timer and then ask to be called again (the source would use a freed node), and reschedule values of 0 or below other than AE_NOMORE, whose effect on the pass is stated by DueAgain. The clock is fixed during a pass. Finalizers, running out of memory and the wrap-around of the identifier are not modelled.
- FileObject: Python's StringIO is modelled with the semantics its documentation gives; a size of None counts as negative; retries after an interrupted recv, and SSL.
- FileObject.CPFileObject.ReadlineStr: the branches for a negative and for a given size, which differ in the limit only, are one loop.
- RequestBody: readlines and iteration of SizeCheckWrapper, and `__next__` of KnownLengthRFile, which is not bounded.
- ChunkedCoding: read without a size, readline and readlines of ChunkedRFile, which do not take from their buffer or do not step over a newline.
- HttpRequest: requests whose own body is chunked; parsing of request line and headers; what the connection does with an exception; the reply 500 the gateway sends, and the cutting of a piece, when an application writes more than the Content-Length it announced. The text of the header block, and of the refusal, is a parameter, not tied to the headers added.
- WorkerPool: exceptions other than Exception, calls of stop by others, producers that go on during the exit, and the printing of MultiThreadingManager.
- TimerReactor: handlers that restart themselves during a scan, which are added again under their old time; callbacks that change the timers; the descriptor side of the reactor.
- TimerReactor.Run: the clock stands still during each scan; ScanTimer and ScanIsAtLast say what a clock that moves does.
- TimerHeap.MinHeap.RemoveMin: on an empty heap the source reads and writes outside what it holds; its caller checks first.
- IPv4Packet: payload classes other than raw data, the fragment and truncation marks, and options so long that the header length does not fit a signed byte.
- TcpSegment: deserialize of a payload other than raw data; a null port.
- DhcpPacket: the names are the 64 and 128 bytes they occupy; their decoding and trimming, and the reset of checksums in the parent packets.
- LldpPacket: setting the type of an Ethernet parent; equals, hashCode and the other packet classes.
- SharedCounter: failing pipes, reads and writes, and a counter beyond the range of long.
- Zmalloc: the build with HAVE_MALLOC_SIZE, threads, and zstrdup, which is zmalloc and a copy.
