# A verified model of handy and its scheduler

This project models the stateful core of a C++11 network and scheduling library and proves what its
components promise over whole runs. It covers:

- **Cron search** (`Calendar`, `Cron`, `CronProof`, `CronHalts`, `Loop`): the field-by-field search of
  `Cron::cron_to_next` over the civil calendar in UTC ("Seconds Since the Epoch", section 4.16 of the
  POSIX.1-2017 Base Definitions). The loop is shown to return the least later match for exactly the
  expressions for which it does, and to end for exactly those for which it does.
- **Thread pool and scheduler** (`ThreadPool`, `ThreadPoolProof`, `PoolProgress`, `StopExactly`, `Scheduler`,
  `SchedulerProof`, `SchedulerProgress`): the worker loop, `push` and `stop(true)` of the pool, the
  interruptible sleep and the scheduler thread as interleaved atomic steps of all threads: what every run
  keeps, and that every task is reached in time.
- **Event loop** (`Timers`, `TimerRuns`, `EventLoop`, `Poller`, `SelfPipe`): one-shot and repeating timers
  with nested `runAt` and `cancel` calls, the epoll batch that handlers may edit, and the self-pipe.
- **Byte-stream path** (`Buffer`, `BufferCost`, `BufferMemory`, `Conn`, `Framing`, `FramingProof`): the growable
  window buffer, what its moves cost and what memory it takes, the send and drain logic under any pattern of
  short writes, the read loop, and the decode loop under any chunking of the stream.
- **HTTP codec** (`Slices`, `Http`, `HttpMessages`, `HttpIncremental`, `HttpRefused`, `HttpRoundTrip`,
  `HttpServe`, `Callbacks`, `Pipelined`): the resumable parser, its agreement with one-shot parsing, what it
  refuses, the round trip, and a server that decodes once for each read callback. Message format: section 3
  of RFC 7230.

Code that updates objects in place is modelled as classes and loops whose contracts equate the new state
with a function of the old one; the promises are then proved about those functions. Code whose point is
the interleaving of threads is modelled as a state machine over its atomic steps. The kernel, the clock
and user callbacks are arbitrary: every contract and lemma quantifies over their answers. Callbacks are
lists of the calls they may make.

## Findings

- **Cron with a month and a weekday.** The month jump (`scheduler/Cron.h:83-95`) leaves the weekday of the old
  date in place. `CronProof.CorrectExactlyIfTame` shows that among the expressions that can match at all, the
  search is right from every start if and only if the month or the weekday is `*`, or the day of the month is
  set and is not 1. `CronProof.StaleWeekdayMisses` gives, for every other expression, a start from which a
  match is skipped. The loop may even run for ever: `CronHalts.EndsExactlyIfStops` shows that it ends from
  every start if and only if the day fits the month and, besides the expressions above, the day is `*`, or
  the month is April, June, September or November, or hour and minute are each `*` or 0.
  `CronHalts.NeverEnds` gives, for every other expression whose day fits, starts from which it does not end:
  between the first after the month and the month's next first lie 334, 335 or 337 days, never a multiple
  of 7, so the weekday that the month jump accepts is the wrong one every year.
- **Line codec and byte 4.** A lone byte 4 is a message (`handy/codec.cc:8-11`), so a line that starts with it
  is delivered differently when its first byte arrives alone. `FramingProof.ExactlyTheGoodSurvive` shows that
  this and a newline inside a message are the only obstacles for lines, and a length above 1 MiB the only one
  for length frames; `FramingProof.CutAnywhereExactlyIfPlain` that such a line is the only thing in any
  stream that makes a difference to how it may be cut.
- **A length of -8.** The length codec never checks for negative lengths (`handy/codec.cc:33-40`).
  `FramingProof.WaitsForEverExactly` shows that with the length -8, and only with it, a connection waits for more
  whatever comes; `FramingProof.NegativeLength` that from -7 to -1 part of the header is consumed and the message
  is a slice that ends before it begins; `FramingProof.RefusedExactly` that everything below is refused.
- **Memory of a buffer that is read into.** Making room to read always doubles the allocation and never moves
  the bytes to its front (`handy/net.h:63-66`). `BufferMemory.MemoryGrows` shows that a stream of which one byte is
  always left over makes the memory grow beyond any number, although the buffer never contains more than one
  read and a byte; `BufferMemory.MemoryForWhatCame` bounds it by what has come since the buffer was last empty.
- **Room to read.** After `makeRoom()` there may be less space than suggested, if the suggested size was raised
  after the last allocation: `Buffers.RoomToRead` says exactly when, `Buffers.RoomMayBeShort` gives such a
  buffer.
- **Pipelined requests.** One request is decoded for each read callback (`handy/http.cc:186-201`), and there
  is one read callback each time the socket has been read empty (`handy/conn.cc:122-130`) and one when it is
  closed (`handy/conn.cc:85-87`). `Pipelined.BurstHandlesOneEach` shows that of any requests that arrive in
  one burst only the first is handled at once, and each other only by a further callback, and
  `Pipelined.ThirdIsLost` a burst of three that loses the third when the peer then closes;
  `Pipelined.AllHandledExactly` gives the exact condition under which none is left.
- **A push that comes too late.** `stop(true)` deletes what is queued when all workers have returned
  (`scheduler/ctpl_stl.h:149-151`). `StopExactly.LatePushIsLost` gives a run that deletes a task unrun, from any
  state in which stop has notified and there is someone to push; `StopExactly.EmptiesExactlyIfServed` and
  `StopExactly.AlwaysEmptiesExactly` say exactly when nothing can be lost.
- **A status line without a status.** `handy/http.cc:159` reads on behind the line, into what has come of the
  body. `HttpIncremental.ResumesExactlyWithStatus` shows that decoding early and decoding late agree, whatever
  follows the header, if and only if the header has a status or is refused anyway.
- **Expect.** `handy/http.cc:64` looks up `Expect`, but decoded names are in lower case:
  `HttpIncremental.NeverContinues` shows that no state of the parser without that name gives the 100-continue
  answer or comes to hold it.
- **A refused stream.** Closing the channel from inside the decode loop runs that loop once more on the unread
  input. `Framing.Receiver.OnMsg` shows that nothing is delivered twice.

## Model

| member | source | states |
|---|---|---|
| Calendar.YearStartIsEpochDays | scheduler/Cron.h:17-22 | counting years day by day agrees with the POSIX formula for seconds since the epoch, for every year, leap centuries included |
| Calendar.BreaksDownOnce | scheduler/Cron.h:17-22 | an instant has one broken-down form, so `localtime` undoes `mktime` |
| Calendar.BrokenDown | scheduler/Cron.h:78 | every instant, before 1970 too, has a broken-down form with the right weekday |
| Calendar.UtcExists | scheduler/Cron.h:17-22 | library functions that satisfy the UTC assumption exist |
| Calendar.NextMonth | scheduler/Cron.h:84-92 | the first of the next month follows the last day of this one, December to January included |
| Calendar.Cycle | scheduler/Cron.h:17-22 | dates and weekdays repeat every 400 years |
| CronSearch.CronToNext | scheduler/Cron.h:75-124 | the loop with its five branches ends in the first state at which no branch applies, and returns its instant |
| CronProof.StepAdvances | scheduler/Cron.h:82-119 | every turn, of any expression, moves to a later whole minute |
| CronProof.StepSkipsNoMatch | scheduler/Cron.h:82-119 | no instant that a month, day, hour or minute jump passes over is a match |
| CronProof.SearchReaches | scheduler/Cron.h:82-119 | the distance to the least match falls with every turn, and the loop stops exactly there |
| CronProof.SearchIsNext | scheduler/Cron.h:75-124 | for every valid expression with month or weekday `*`, or a day of the month other than 1, and every start, the loop ends if and only if the expression can match at all, and then on the least matching minute strictly after the start's minute |
| CronProof.LeapYears | scheduler/Cron.h:67-71 | the seven leap years from 2004 to 2028 give a date, 29 February included, seven different weekdays |
| CronProof.DateOnWeekday | scheduler/Cron.h:67-71 | every date that exists in some year falls on every weekday in some year |
| CronProof.MatchAhead | scheduler/Cron.h:58-72 | an expression whose day fits the longest form of its month matches after every instant |
| CronProof.StopsOnlyIfFits | scheduler/Cron.h:82-119 | if the loop ends, for any expression, the day fits the longest form of the month |
| CronProof.StaleWeekdayMisses | scheduler/Cron.h:83-96 | for every expression with month and weekday set and day `*` or 1, a start from which a match is skipped |
| CronProof.CorrectExactlyIfTame | scheduler/Cron.h:75-124 | the result is the least later match from every start if and only if month or weekday is `*` or the day is set and not 1 |
| CronHalts.FollowDistance | scheduler/Cron.h:83-96 | the days from the first after a month to the month's next first: 336 only for a month of 30 days across a leap day, otherwise 334, 335 or 337 |
| CronHalts.NeverEnds | scheduler/Cron.h:82-119 | with month, weekday and day 1 set, a month not of 30 days, and an hour or minute of at least 1, the loop does not end from any start later in that month, although the expression can match |
| CronHalts.EndsExactlyIfStops | scheduler/Cron.h:75-124 | the loop ends from every start if and only if the day fits the longest form of the month and the expression is none of those |
| ThreadPoolProof.StepInv | scheduler/ctpl_stl.h:126-218 | every atomic step of every worker, pusher and the stopper keeps the invariant of the pool |
| ThreadPoolProof.NoLostWakeupEver | scheduler/ctpl_stl.h:157-182 | before stop, with a task queued and no push between enqueue and notify, some worker is awake and will pop again, although queue and condition variable use different mutexes |
| ThreadPoolProof.PushesCount | scheduler/ctpl_stl.h:157-182 | every push by a client or a task adds a task, and none is lost: those started and those queued are as many as were pushed |
| ThreadPoolProof.KeptPushes | scheduler/ctpl_stl.h:157-182 | the pushes that count as kept are those made inside a task and those that return before stop |
| PoolProgress.StepNears | scheduler/ctpl_stl.h:157-218 | until stop, every step of any thread brings a queued task nearer to a worker, except for what new pushes and spurious wake-ups add |
| PoolProgress.QueuedIsStarted | scheduler/ctpl_stl.h:157-218 | in every run, under every scheduling, a queued task has been started or no more steps have passed than a bound given by the state, the pushes and the spurious wake-ups |
| PoolProgress.QueuedIsStartedInTime | scheduler/ctpl_stl.h:157-218 | so after more steps than that it has been started, in its turn |
| PoolProgress.QueuedMoves | scheduler/ctpl_stl.h:157-218 | until then some step is possible that is neither a push nor a spurious wake-up |
| ThreadPoolProof.StopDrains | scheduler/ctpl_stl.h:126-218 | once all workers have returned, every task that left the queue ran exactly once, in push order, and every push that returned before stop or was made inside a running task is among them |
| ThreadPoolProof.StopEmptiesQueue | scheduler/ctpl_stl.h:126-154 | with no push still under way when stop is called, the queue ends empty and every task ran exactly once |
| StopExactly.EmptiesExactlyIfServed | scheduler/ctpl_stl.h:126-154 | once stop has notified, with no new push from a client, every run leaves the queue empty if and only if it is empty or some worker will look into it before it leaves |
| StopExactly.LatePushIsLost | scheduler/ctpl_stl.h:149-151 | from every such state, if there is a client, a run at whose end a pushed task is deleted unrun |
| StopExactly.AlwaysEmptiesExactly | scheduler/ctpl_stl.h:126-154 | with pushes at any time, every run leaves the queue empty if and only if there is no client and some worker will look into what is queued |
| ThreadPoolProof.ShutdownShrinks | scheduler/ctpl_stl.h:193-216 | after notify_all every step that brings no new task lowers a measure |
| ThreadPoolProof.ShutdownMoves | scheduler/ctpl_stl.h:193-216 | until all workers have returned some step is possible, whoever holds the mutex |
| ThreadPoolProof.ShutdownEnds | scheduler/ctpl_stl.h:126-154 | so under every scheduling the joins of stop(true) come to an end |
| SchedulerProof.StepInv | scheduler/Scheduler.h:69-224 | every atomic step of scheduler thread, adders, pool workers, clock and destructor keeps the invariant |
| SchedulerProof.NeverOversleeps | scheduler/Scheduler.h:70-81 | with a task earlier than the chosen wake time, the interrupt flag is set or its adder is between emplace and interrupt; a set flag has notified the sleeper |
| SchedulerProof.SleepsUntilEarliest | scheduler/Scheduler.h:70-76 | with the flag not set and nobody about to set it, the thread sleeps until exactly the time of the earliest task, and without an end if there is none |
| SchedulerProgress.StepNears | scheduler/Scheduler.h:69-224 | before the destructor, every step of the thread brings a due task nearer to the pool or hands it over, and no step of another thread takes it away |
| SchedulerProgress.DueIsHanded | scheduler/Scheduler.h:69-224 | in every run, a due task has been handed over or the thread has taken no more steps than a bound given by the state and the tasks added since |
| SchedulerProgress.DueIsHandedInTime | scheduler/Scheduler.h:69-224 | so after more steps of the thread than that it has been handed over |
| SchedulerProgress.DueMoves | scheduler/Scheduler.h:69-224 | until then the thread can take a step that counts, or whoever has the lock can finish |
| SchedulerProgress.HandsOver | scheduler/Scheduler.h:69-224 | from every state with a due task a run of the thread, and of whoever has the lock, hands it over within a bounded number of steps |
| SchedulerProof.AddsTask | scheduler/Scheduler.h:178-182 | a task added for a time is in the map for that time, with all that was there, and the thread is told |
| SchedulerProof.DestructorEndsThread | scheduler/Scheduler.h:91-94 | after the destructor's interrupt the thread begins at most one more round and is not left asleep |
| SchedulerProof.ThreadNears | scheduler/Scheduler.h:69-94 | after that interrupt every step of the thread brings it nearer to its end, in a measure that no step of another thread changes |
| SchedulerProof.ThreadMoves | scheduler/Scheduler.h:69-94 | until it has ended, the thread or whoever holds the lock can take a step |
| SchedulerProof.IntervalInOnePlace | scheduler/Scheduler.h:199-206 | an interval task is at most once in pool queue and workers' hands, and with the lock free exactly once in map, queue or hands |
| SchedulerProof.RecurringInMap | scheduler/Scheduler.h:207-222 | with the lock free each `every` or `cron` task has exactly one map entry |
| SchedulerProof.RecursAt | scheduler/Scheduler.h:207-222 | an `every` or `cron` task that a round hands over is in the map for its new time when the round ends |
| SchedulerProof.IntervalComesBack | scheduler/Scheduler.h:199-206 | an interval task whose function has returned can be added for its new time, and the worker is free again |
| SchedulerProof.HandedRuns | scheduler/Scheduler.h:195-212 | in every run, everything handed to the pool is in its queue, running, or has run, as often as it was handed |
| SchedulerProof.OnceHandedOnce | scheduler/Scheduler.h:96-106 | an `in` task is handed to the pool at most once, and is in the map until then |
| SchedulerProof.RoundHandsDue | scheduler/Scheduler.h:184-224 | a round hands over exactly the entries due at its clock sample, in order, and erases no other |
| SchedulerProof.EmplaceSorted | scheduler/Scheduler.h:178-182 | emplacing keeps the multimap ordered |
| Buffers.Buffer.constructor | handy/net.h:49 | an empty buffer |
| Buffers.Buffer.Clear | handy/net.h:51-56 | no bytes, no memory, and the suggested size kept |
| Buffers.Buffer.MoveHead | handy/net.h:107-111 | the overlapping copy to the front keeps the bytes |
| Buffers.Buffer.Expand | handy/net.cc:92-101 | a new allocation of at least the suggested size, twice the old, and what is needed holds the same bytes |
| Buffers.Buffer.MakeRoom | handy/net.cc:82-90 | room for the bytes asked for, the contents unchanged, and what it cost |
| Buffers.Buffer.MakeReadRoom | handy/net.h:63-66 | the form used before reads: a larger allocation with the same bytes exactly if there is less space than suggested |
| Buffers.RoomToRead | handy/net.h:63-66 | after it there is some space, and as much as suggested if and only if there was, or the buffer is empty, or twice its memory leaves that much |
| Buffers.RoomMayBeShort | handy/net.h:63-66 | a buffer in which it leaves less than suggested |
| Buffers.Buffer.AllocRoom | handy/net.h:69-73 | the new bytes come after the old contents |
| Buffers.Buffer.AddRead | handy/conn.cc:116-137 | bytes read into the space at the end are appended without a move |
| Buffers.Buffer.Append | handy/net.h:74-79 | the contents grow by exactly the data |
| Buffers.Buffer.Consume | handy/net.h:85-90 | the contents lose exactly their first bytes |
| Buffers.Buffer.Absorb | handy/net.cc:111-125 | the contents of both, in order, in one and nothing in the other, by swap or append; a buffer does not absorb itself |
| BufferCost.AppendIsPaid | handy/net.cc:82-101 | copying for an append is paid by the potential max(0, 2 e - cap) and twice the appended bytes |
| BufferCost.AbsorbIsPaid | handy/net.cc:111-125 | so is absorbing, over both buffers |
| BufferCost.ReadRoomIsPaid | handy/net.h:63-66 | growing before a read costs less than the suggested size on top |
| BufferCost.StepPaid | handy/net.h:51-90 | every operation on any of many buffers keeps the account |
| BufferCost.CopiesAtMostTwice | handy/net.cc:82-125 | in any run from empty buffers the bytes copied are at most twice the bytes appended |
| BufferMemory.MemoryForWhatCame | handy/net.cc:82-101 | in any run from an empty buffer its memory is at most twice the suggested size and what has come since it was last empty |
| BufferMemory.MemoryGrows | handy/net.h:63-66 | reads of the suggested size, each used up but for one byte, make the memory larger than any number while the buffer never contains more than one of them and a byte |
| BufferMemory.WhenItGrows | handy/net.cc:82-101 | an append takes more memory only if the contents then fill half of what there is, and then at least twice as much; a read does so whatever the contents |
| Conn.NoneOvertaken | handy/conn.cc:206-220 | writing new bytes directly keeps the order when nothing waits before them |
| Conn.TcpConn.ISend | handy/conn.cc:183-204 | for any short writes, EINTR and EAGAIN exactly as many bytes go to the wire as the kernel takes before it is full, no answer is asked for in vain, and write interest is on if it is not all |
| Conn.FullOrAll | handy/conn.cc:183-204 | what the kernel was asked for is a first part of its answers, and a block is left over only if they end with the full socket |
| Conn.TcpConn.Send | handy/conn.cc:206-224 | what the kernel takes is written at once unless bytes wait already, wire followed by output stays everything sent in order, waiting bytes imply write interest, and the caller's buffer is emptied |
| Conn.TcpConn.SendOutput | handy/conn.h:50 | the same when the buffer sent is the output buffer itself |
| Conn.TcpConn.SendBytes | handy/conn.cc:226-239 | the same for a block of memory |
| Conn.TcpConn.SendMsg | handy/conn.cc:261-264 | the same for an encoded message |
| Conn.TcpConn.Callback | handy/conn.cc:171-173 | the same for any list of sends of all kinds made by the writable callback |
| Conn.TcpConn.HandleWrite | handy/conn.cc:166-181 | as much of the output goes to the wire, in order, as the kernel takes; the callback is called if and only if that is all and it is set; and write interest is on afterwards exactly if bytes wait |
| FramingProof.HtoBeTwice | handy/port_posix.h:7-37 | for words of any width, swapping twice is the identity and the stored bytes come out most significant first |
| FramingProof.LengthFieldIs | handy/codec.cc:33-34 | the length of a frame is the signed number of four bytes, the most significant first |
| FramingProof.RefusedExactly | handy/codec.cc:29-42 | a frame header is refused if and only if it does not begin with `mBdT` or its length is above 1 MiB or below -8, and a line never |
| FramingProof.NegativeLength | handy/codec.cc:33-40 | how a length from -7 to -1 is answered |
| FramingProof.WaitsForEverExactly | handy/codec.cc:29-42 | whatever comes, the codec waits for more if and only if the length is -8 |
| FramingProof.LineEndsEither | handy/codec.cc:12-21 | a line ends in `\n` or `\r\n`, neither of which belongs to the message |
| Framing.LineTryDecode | handy/codec.cc:7-24 | the scan finds the first newline, strips `\r\n` or `\n`, and takes a lone byte 4 for a message |
| Framing.LengthTryDecode | handy/codec.cc:29-42 | magic, size limit, missing bytes and negative lengths are answered as the code does |
| Framing.LineEncode | handy/codec.cc:25-27 | the message and `\r\n` are appended |
| Framing.LengthEncode | handy/codec.cc:43-45 | magic, big-endian length and message are appended |
| Framing.Receiver.OnMsg | handy/conn.cc:241-259 | the loop delivers the decoded messages in order and keeps the rest; on a refused stream it runs once more through the channel's close and delivers nothing twice |
| Framing.Receiver.Close | handy/event_base.cc:339-347 | closing a refused stream re-enters the read handler without changing what was delivered |
| Framing.Receiver.Cleanup | handy/conn.cc:84-92 | the remaining input is handed over once before the connection is closed |
| Framing.Receiver.HandleRead | handy/conn.cc:112-140 | for any answers of the kernel, all bytes read up to EAGAIN or the end of the stream go through the decode loop as one chunk, of the size that `Framing.Reading` tells; the connection stays open if and only if the end was not reached and the codec accepts what has come |
| Framing.ReadsWhatIsOffered | handy/conn.cc:116-137 | as many bytes are read as the kernel offers, up to the suggested size for each answer, or all there are |
| Framing.ReadsNoMore | handy/conn.cc:116-137 | and no more than it offers |
| Framing.EndsWhenTold | handy/conn.cc:122-135 | for a kernel that offers no more than has arrived, the end of the stream is taken for reached if and only if it says so |
| Framing.AllIsRead | handy/conn.cc:116-137 | if the kernel offers what has arrived in answers of at most the suggested size, all of it is read, and the connection is left as the kernel says |
| FramingProof.FrameStable | handy/codec.cc:7-42 | more bytes behind a frame or a refused header do not change it |
| FramingProof.ParseSplit | handy/conn.cc:241-259 | parsing what has come and then what was left with the rest is parsing it all |
| FramingProof.ChunkIndependence | handy/conn.cc:112-140 | for a stream without a line that starts with byte 4, any two ways of cutting it into reads deliver the same messages, accept or refuse alike, and leave the same tail |
| FramingProof.CutAnywhereExactlyIfPlain | handy/codec.cc:7-24 | every cutting of a stream gives the parse of the whole if and only if the codec is the length codec or no line of the stream starts with byte 4 |
| FramingProof.RoundTrip | handy/codec.cc:7-45 | encoded messages with an unfinished one behind, read in any chunks, are delivered exactly and in order and leave exactly the unfinished tail |
| FramingProof.ExactlyTheGoodSurvive | handy/codec.cc:7-45 | every chunking delivers exactly the messages if and only if no line contains a newline or starts with byte 4, or no frame exceeds 1 MiB |
| Timers.ScheduledKeeps | handy/event_base.cc:243-261 | scheduling keeps the maps in one-to-one correspondence, the sequence numbers distinct, silenced timers silent and repeating ones on schedule |
| Timers.WithdrawnKeeps | handy/event_base.cc:263-280 | so does cancelling |
| Timers.WithdrawnEnds | handy/event_base.cc:263-280 | cancelling a live timer removes exactly the entries that it owns, from both maps, and is recorded |
| Timers.RanKeeps | handy/event_base.cc:235-241 | so does taking an entry out and re-arming it |
| EventLoop.EventsImp.RunAt | handy/event_base.cc:243-261 | the new maps and the id returned, and nothing after exit |
| EventLoop.EventsImp.Cancel | handy/event_base.cc:263-280 | the entry leaves both maps, the answer says whether there was one, and there is none afterwards |
| EventLoop.EventsImp.RepeatableTimeout | handy/event_base.cc:235-241 | the timer is re-armed one interval later before its callback runs |
| EventLoop.EventsImp.HandleTimeouts | handy/event_base.cc:170-179 | with callbacks that schedule only later, a pass ends, is a run of single steps as in `TimerRuns`, runs strictly in order of time and number only what is due, leaves nothing due, and every entry it found is still there, ran or was cancelled |
| EventLoop.RanLess | handy/event_base.cc:170-179 | the sum of now - at + 1 over due entries falls even if the entry is re-armed and due again |
| EventLoop.PassTurn | handy/event_base.cc:170-179 | one turn with any nested calls keeps everything and lowers that sum |
| TimerRuns.AlwaysConsistent | handy/event_base.cc:170-280 | in every run of outside calls, clock samples and due entries that fire, with any calls from callbacks and at any time, the two maps correspond, sequence numbers are distinct and silenced timers are gone |
| TimerRuns.SilentAfterCancel | handy/event_base.cc:263-280 | a live timer that is cancelled, from outside or from a callback, is not live afterwards, and in no continuation does its callback run |
| TimerRuns.NothingNewAfterExit | handy/event_base.cc:243-246 | in no run after exit does anybody come to own a timer who did not own one |
| TimerRuns.StaysArmed | handy/event_base.cc:235-241 | a repeating timer comes out of every run, so of every pass, armed with its interval and callback, unless it was cancelled |
| TimerRuns.RepeatingTimer | handy/event_base.cc:170-261 | in every run, a timer scheduled with first time T and interval I fires for T, T + I, T + 2 I and so on, in order and leaving out none, stays armed until cancelled, and when nothing is due has fired for exactly the instants up to the clock sample |
| TimerRuns.OneShotTimer | handy/event_base.cc:170-261 | in every run, a one-shot timer fires at most once, for its time, and when its time has come and nothing is due it has fired or was cancelled |
| TimerRuns.NeitherDriftsNorSkips | handy/event_base.cc:235-254 | the same for any repeating timer of any consistent maps with nothing due |
| Poller.PollerEpoll.AddChannel | handy/poller.cc:54-63 | the channel becomes live |
| Poller.PollerEpoll.RemoveChannel | handy/poller.cc:75-84 | the channel is no longer live and is crossed out wherever it still waits in the batch |
| Poller.PollerEpoll.DispatchLast | handy/poller.cc:93-106 | a crossed-out entry is skipped; any other is called, its read handler for data or an error, its write handler if there is only room to write |
| Poller.PollerEpoll.LoopOnce | handy/poller.cc:86-108 | for any handlers, the calls made are those of the batch without the channels removed since the report, last first |
| Poller.BatchIsSafe | handy/poller.cc:92-107 | every channel that is called is live at that moment, also when a removed channel's address is used again |
| Poller.CallsAreReported | handy/poller.cc:92-107 | every call is for a reported channel, to its read handler if it is readable or in error, and to its write handler if it is only writable |
| Poller.TakenAreRemoved | handy/poller.cc:75-84 | only channels that a handler removes are left out |
| Poller.CalledOnce | handy/poller.cc:92-107 | no channel is called twice in a batch |
| Poller.CalledOrGone | handy/poller.cc:92-107 | every reported channel is called, at the handler for its events, or was removed by a handler of the batch |
| SelfPipe.SafeQueue.Push | handy/threads.h:77-85 | appended, or refused after exit or at capacity |
| SelfPipe.SafeQueue.PopWait | handy/threads.h:101-110 | the oldest item, or none |
| SelfPipe.StepInv | handy/event_base.cc:72-84 | every step of callers and loop thread keeps the invariant |
| SelfPipe.NeverStranded | handy/event_base.cc:152-167 | a queued task implies a byte in the pipe, a caller between push and write, or a handler still draining, at any capacity |
| SelfPipe.RunInOrder | handy/event_base.cc:152-160 | accepted tasks run in push order, each at most once; without a limit every call is accepted |
| SelfPipe.AllAccepted | handy/threads.h:77-85 | without a limit, every call so far has been accepted, and its task has run or is queued |
| SelfPipe.BoundedQueue | handy/threads.h:77-85 | a bounded queue never holds more than its capacity, and while it holds less every call is accepted |
| SelfPipe.Settles | handy/event_base.cc:152-160 | the loop thread left to itself comes to rest with the queue empty and every accepted task run |
| Slices.Slice.EatWord | handy/slice.h:60-71 | the first word, and what follows it |
| Slices.Slice.EatLine | handy/slice.h:73-79 | everything before the first `\r` or `\n` |
| Slices.Slice.TrimSpace | handy/slice.h:81-87 | white space removed at both ends |
| Slices.TrimmedIs | handy/slice.h:81-87 | what is left lies between white space and neither begins nor ends in it |
| Http.HttpMsg.TryDecode | handy/http.cc:25-78 | result, fields, scan position and first line for any state of the parser and any input |
| HttpMessages.HttpRequest.TryDecode | handy/http.cc:95-137 | verb, uri, version and arguments are taken from the first line when the header is found, and a uri must begin with a slash |
| HttpMessages.HttpRequest.ReadArgs | handy/http.cc:110-128 | the index loops read the arguments between ampersands; the last of equal keys wins |
| HttpMessages.HttpResponse.TryDecode | handy/http.cc:154-163 | version and status word are taken from the first line, and so is the status if the line has one; if not, it is read from what follows the line |
| HttpMessages.EncodeRest | handy/http.cc:85-92 | every header once, in the order of the keys, then the encoder's two and the body |
| HttpMessages.HttpRequest.Encode | handy/http.cc:80-93 | the encoding is appended, its first line cut at the size of the fixed buffer |
| HttpMessages.HttpResponse.Encode | handy/http.cc:139-152 | the same for a response |
| HttpIncremental.BodyAsCounted | handy/http.cc:60-76 | with a length in its header a message is complete exactly when so many bytes have come behind it, and they are its body; without one, at the end of the header |
| HttpRefused.FieldsAreRead | handy/http.cc:43-58 | a header line is taken for a field if and only if it is a name without white space, a colon, white space and a value |
| HttpRefused.AcceptedExactly | handy/http.cc:43-58 | the lines of a header are accepted if and only if all are fields, or all but a blank last one |
| HttpRefused.RequestRefusedExactly | handy/http.cc:95-137 | a request whose header has come is refused if and only if some line is no field or its uri does not begin with a slash, unless a negative length ends in an exception first |
| HttpRefused.ResponseRefusedExactly | handy/http.cc:154-163 | a response, if and only if some line is no field |
| HttpIncremental.ScanResumes | handy/http.cc:33-39 | no header end lies before the place from which a later call scans on |
| HttpIncremental.RequestIncremental | handy/http.cc:95-137 | for any growing prefixes, repeated decoding up to the first answer gives the answer, fields and byte count of one call on the last prefix; for a refused message, its first line, arguments and headers |
| HttpIncremental.ResponseIncremental | handy/http.cc:154-163 | the same for responses with a status in the header, if the header is there and not refused |
| HttpIncremental.ResumesExactlyWithStatus | handy/http.cc:154-163 | for a header that has just come, decoding now and decoding with any more later agree if and only if it has a status or is refused |
| HttpIncremental.NeverContinues | handy/http.cc:64-66 | from every state of the parser without the name `Expect`, the answer for such a header is not given, and the name is not added |
| HttpRoundTrip.ArgsRead | handy/http.cc:110-128 | the arguments of any query are those between its ampersands: one with no key is left out, one with no equals sign has the empty value, and the last of equal keys wins |
| HttpRoundTrip.AnyQuery | handy/http.cc:110-128 | every query is made of such arguments |
| HttpRoundTrip.UriRead | handy/http.cc:106-134 | the uri is the part before the question mark, and the arguments are what follows it |
| HttpRoundTrip.SignedSpelled | handy/http.cc:159 | the number read is the number printed, whatever follows that is not a digit |
| HttpRoundTrip.RequestRoundTrip | handy/http.cc:80-137 | decoding an encoded request with anything behind it is complete, recovers first line, uri and arguments, lower-case headers and body, and counts exactly the encoded bytes |
| HttpRoundTrip.ResponseRoundTrip | handy/http.cc:139-163 | the same for responses, status and status word included |
| HttpServe.HttpConn.ClearData | handy/http.cc:216-224 | on either side the input loses exactly the decoded bytes, and the message is as new |
| HttpServe.HttpConn.HandleRead | handy/http.cc:186-201 | on a server one decode per callback, handed over and cleared when complete, closed when refused |
| HttpServe.NothingAfterRefusal | handy/http.cc:186-194 | a request that is refused is not handled, nor is anything that comes after it |
| Pipelined.ServesCount | handy/http.cc:186-224 | however requests arrive in pieces, after each callback the server has handled a first part of them, in order and each as it was sent, of a length given by the pieces alone, and keeps exactly what came behind |
| Callbacks.CountReaches | handy/http.cc:186-201 | a reader that takes one text for each callback comes to take n of them if and only if at every moment at least as many callbacks were still to come as texts, of those n, were not yet there |
| Pipelined.AllHandledExactly | handy/http.cc:186-224 | all of them are handled if and only if at every moment at least as many callbacks were still to come as requests were not yet there |
| Pipelined.BurstHandlesOneEach | handy/http.cc:186-224 | of n requests in one burst, one is handled at once and one more by each further callback |
| Pipelined.ThirdIsLost | handy/conn.cc:84-92 | of three requests in one burst, followed by the end of the stream, the third is never handled |

## Left out

- Cron strings: splitting the expression into fields and the exceptions of `verify_and_set`; the model starts from fields in their checked ranges.
- CronSearch.CronToNext: is called only where the loop ends; `CronHalts.EndsExactlyIfStops` says for which expressions that is everywhere.
- Time zones, daylight saving and the range of `time_t` and `tm_year`: the calendar is UTC and unbounded.
- `Scheduler::at`: parsing of time strings.
- Pool: `resize`, `stop(false)`, external `pop`, futures, exceptions and `nWaiting`.
- The C++ memory model: an unlocked read such as `scheduler/Scheduler.h:72-75` is one atomic step.
- ThreadPoolProof.StopEmptiesQueue: assumes that no push is under way when stop is called; without that it fails, exactly as `StopExactly` says.
- Connections: handshakes, reconnects, idle lists, sends before Connected or after close through `sendMsg`, and write errors other than EINTR and EAGAIN.
- Read errors other than EINTR and EAGAIN are taken for the end of the stream, as the code does, and a suggested size of 0, with which no read has room, is not one that the code sets.
- SchedulerProgress.DueIsHanded: counts the steps of the scheduler thread without its spurious wake-ups; when the system schedules the thread is not modelled.
- PoolProgress.QueuedIsStarted: a task that runs is taken to return, or to push again, by a step of its own.
- Callbacks that close their own connection synchronously or consume its input: the message callback of `Framing.Receiver` only receives.
- FramingProof.ChunkIndependence: requires that no line starts with byte 4, exactly the streams for which it holds (`FramingProof.CutAnywhereExactlyIfPlain`), and that less than 2 GiB wait in the buffer when the decode loop starts, since both codecs pass sizes through `int`.
- FramingProof.CutAnywhereExactlyIfPlain: for streams below 2 GiB, for the same reason.
- FramingProof.ExactlyTheGoodSurvive: for encodings below 2 GiB, for the same reason.
- Sums of sizes beyond `size_t`, failing allocations, and copying of buffers (`copyFrom`).
- `nextTimeout_`: how long the poller waits is not modelled; a pass is correct whenever it comes.
- Timers with a first time that is not positive or a negative interval, and cancelling a repeating timer that is not there, which the code does not allow for (`handy/event_base.cc:264-266`); callbacks leave out such cancels.
- A repeating timer cancelled by its own callback: the maps are modelled, the lifetime of the running closure is not.
- `lastActive_` before the first `loop_once`, failing epoll calls, and events that are neither readable, writable nor errors, on which the code aborts.
- The self-pipe's `EINTR`, a full pipe, and leaving the loop with tasks queued.
- Waiting in `SafeQueue::pop_wait` with a timeout: the loop thread does not wait there.
- HTTP: lower-casing of names inside the input buffer (the model changes only the stored copy), the sharing of the body with the input when it is not copied, and `sendFile`.
- HTTP numbers beyond `int`, and for a status that is not there, memory behind the text that has come, which reads as no number.
- HttpIncremental.ResponseIncremental: requires a status in the header, or none to come; `HttpIncremental.ResumesExactlyWithStatus` shows that it fails without one.
- HttpRoundTrip.RequestRoundTrip: for encodings no longer than the largest `int`, and first lines that the encoder's buffer holds.
- HttpRoundTrip.ResponseRoundTrip: the same.
- HttpMessages.EncodeRest: a body slice that a negative content-length left pointing backwards is not encoded.
- HttpServe.HttpConn.HandleRead: a user's callback that answers at once, and nothing after a refused request; the client's side decodes a response in the same way.
- EventLoop.EventsImp.HandleTimeouts: callbacks schedule only later than the pass's sample, without which a pass need not end; what `TimerRuns` proves needs no such thing.
- HttpMessages.HttpRequest.TryDecode: memory beyond the text is not modelled, so the comparison of a uri with its terminating NUL is left to the end of the text.
- Logging, status objects, configuration, UDP, daemon, file helpers, stat server, HSHA, the protobuf codec, the kqueue poller and `scheduler/my_*.h`.
