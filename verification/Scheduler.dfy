/** scheduler/Scheduler.h with InterruptableSleep.h: the scheduler thread, the threads that add tasks,
    the pool threads that run them, and the destructor, as interleaved atomic steps. Whoever adds a
    task does so with the lock held; the sleeper's own mutex is held only within one step. */
module Scheduler {

  /** `in` and `at` tasks run once, `every` and `cron` tasks are re-added by the scheduler thread,
      `interval` tasks re-add themselves after they have run. */
  datatype Kind = Once | Recurring | Interval

  datatype Entry = Entry(time: int, task: nat)

  /** When the thread will wake by itself. */
  datatype WakeTime = Never | At(time: int)

  datatype Thread =
    | Checking                                         // while (!done)
    | Looking                                          // tasks.empty(), read without the lock
    | Peeking                                          // tasks.begin()->first, read without the lock
    | Chosen(wake: WakeTime)                           // about to call sleep or sleep_until
    | Asleep(wake: WakeTime, notified: bool)           // blocked in it
    | Managing                                         // about to take the lock
    | Handing(now: int, due: nat, next: nat, again: seq<Entry>)  // handing tasks[next..due] to the pool
    | Readding(again: seq<Entry>)                      // due entries erased, recurring ones go back
    | Gone

  datatype Worker =
    | Free
    | Running(task: nat)    // in task->f()
    | Returning(e: Entry)   // f() has returned, add_task waits for the lock
    | Adding(e: Entry)      // add_task has the lock
    | Added                 // emplaced, not yet interrupted

  datatype Holder = Nobody | ByThread | ByClient(e: Entry, emplaced: bool) | ByWorker(w: nat)

  datatype Destructor = NotYet | DoneSet | Interrupted

  datatype State = State(
    tasks: seq<Entry>, kinds: seq<Kind>, holder: Holder, clock: int,
    interrupted: bool, thread: Thread, done: bool, destructor: Destructor,
    queue: seq<nat>, workers: seq<Worker>,
    handed: seq<nat>,  // history: everything handed to the pool
    ran: seq<nat>,     // history: calls that have returned
    rounds: nat)       // history: calls of manage_tasks begun since done was set

  datatype Action =
    | Check | Look | Peek | Sleep | Wakeup | Timeout | LockTasks | Hand(newTime: int) | Erase | Readd | Unlock
    | ClientLock(time: int, kind: Kind) | ClientEmplace | ClientInterrupt
    | Take(w: nat) | Return(w: nat, newTime: int) | WorkerLock(w: nat) | WorkerEmplace(w: nat) | WorkerInterrupt(w: nat)
    | SetDone | Interrupt | Tick(now: int)

  function Init(workers: nat, now: int): State {
    State([], [], Nobody, now, false, Checking, false, NotYet, [], seq(workers, _ => Free), [], [], 0)
  }

  // ----- the multimap

  /** `upper_bound`: how many entries are not later than `t`. */
  function UpperBound(es: seq<Entry>, t: int): (k: nat)
    ensures k <= |es|
    ensures forall i | 0 <= i < k :: es[i].time <= t
    ensures k < |es| ==> t < es[k].time
  {
    if es == [] || t < es[0].time then 0 else 1 + UpperBound(es[1..], t)
  }

  /** `emplace` puts an entry after all entries with the same key. */
  function Emplace(es: seq<Entry>, e: Entry): seq<Entry> {
    if es == [] || e.time < es[0].time then [e] + es else [es[0]] + Emplace(es[1..], e)
  }

  // ----- the steps

  /** `interrupt`: the flag sticks, and a blocked thread is notified. */
  function Announce(s: State): State {
    s.(interrupted := true, thread := if s.thread.Asleep? then s.thread.(notified := true) else s.thread)
  }

  predicate Enabled(s: State, a: Action) {
    match a
    case Check => s.thread.Checking?
    case Look => s.thread.Looking?
    case Peek => s.thread.Peeking? && s.tasks != []
    case Sleep => s.thread.Chosen?
    case Wakeup => s.thread.Asleep?
    case Timeout => s.thread.Asleep? && s.thread.wake.At? && s.thread.wake.time <= s.clock
    case LockTasks => s.thread.Managing? && s.holder == Nobody
    case Hand(_) => s.thread.Handing? && s.thread.next < s.thread.due <= |s.tasks| && s.tasks[s.thread.next].task < |s.kinds|
    case Erase => s.thread.Handing? && s.thread.next == s.thread.due <= |s.tasks|
    case Readd => s.thread.Readding? && s.thread.again != []
    case Unlock => s.thread.Readding? && s.thread.again == []
    case ClientLock(_, _) => s.holder == Nobody
    case ClientEmplace => s.holder.ByClient? && !s.holder.emplaced
    case ClientInterrupt => s.holder.ByClient? && s.holder.emplaced
    case Take(w) => w < |s.workers| && s.workers[w].Free? && s.queue != []
    case Return(w, _) => w < |s.workers| && s.workers[w].Running? && s.workers[w].task < |s.kinds|
    case WorkerLock(w) => w < |s.workers| && s.workers[w].Returning? && s.holder == Nobody
    case WorkerEmplace(w) => w < |s.workers| && s.workers[w].Adding?
    case WorkerInterrupt(w) => w < |s.workers| && s.workers[w].Added?
    case SetDone => s.destructor == NotYet
    case Interrupt => s.destructor == DoneSet
    case Tick(now) => s.clock <= now
  }

  function Do(s: State, a: Action): State
    requires Enabled(s, a)
  {
    match a
    case Check => s.(thread := if s.done then Gone else Looking)
    case Look => s.(thread := if s.tasks == [] then Chosen(Never) else Peeking)
    case Peek => s.(thread := Chosen(At(s.tasks[0].time)))
    case Sleep =>
      if s.interrupted then s.(interrupted := false, thread := Managing)
      else s.(thread := Asleep(s.thread.wake, false))
    case Wakeup =>
      if s.interrupted then s.(interrupted := false, thread := Managing)
      else s.(thread := s.thread.(notified := false))
    case Timeout => s.(interrupted := false, thread := Managing)
    case LockTasks =>
      s.(holder := ByThread, thread := Handing(s.clock, UpperBound(s.tasks, s.clock), 0, []),
         rounds := if s.done then s.rounds + 1 else s.rounds)
    case Hand(newTime) =>
      var x := s.tasks[s.thread.next].task;
      var again := if s.kinds[x] == Recurring then Emplace(s.thread.again, Entry(newTime, x)) else s.thread.again;
      s.(queue := s.queue + [x], handed := s.handed + [x], thread := s.thread.(next := s.thread.next + 1, again := again))
    case Erase => s.(tasks := s.tasks[s.thread.due..], thread := Readding(s.thread.again))
    case Readd => s.(tasks := Emplace(s.tasks, s.thread.again[0]), thread := Readding(s.thread.again[1..]))
    case Unlock => s.(holder := Nobody, thread := Checking)
    case ClientLock(time, kind) => s.(holder := ByClient(Entry(time, |s.kinds|), false), kinds := s.kinds + [kind])
    case ClientEmplace => s.(tasks := Emplace(s.tasks, s.holder.e), holder := s.holder.(emplaced := true))
    case ClientInterrupt => Announce(s).(holder := Nobody)
    case Take(w) => s.(queue := s.queue[1..], workers := s.workers[w := Running(s.queue[0])])
    case Return(w, newTime) =>
      var x := s.workers[w].task;
      s.(workers := s.workers[w := if s.kinds[x] == Interval then Returning(Entry(newTime, x)) else Free], ran := s.ran + [x])
    case WorkerLock(w) => s.(workers := s.workers[w := Adding(s.workers[w].e)], holder := ByWorker(w))
    case WorkerEmplace(w) => s.(tasks := Emplace(s.tasks, s.workers[w].e), workers := s.workers[w := Added])
    case WorkerInterrupt(w) => Announce(s).(workers := s.workers[w := Free], holder := Nobody)
    case SetDone => s.(done := true, destructor := DoneSet)
    case Interrupt => Announce(s).(destructor := Interrupted)
    case Tick(now) => s.(clock := now)
  }

  ghost predicate Reaches(s: State, actions: seq<Action>, t: State)
    decreases |actions|
  {
    if actions == [] then s == t
    else Enabled(s, actions[0]) && Reaches(Do(s, actions[0]), actions[1..], t)
  }

  // ----- what every step keeps

  ghost predicate Sorted(es: seq<Entry>) {
    forall i, j | 0 <= i < j < |es| :: es[i].time <= es[j].time
  }

  ghost predicate OneHolder(s: State) {
    && (s.thread.Handing? || s.thread.Readding? <==> s.holder == ByThread)
    && (forall w | 0 <= w < |s.workers| :: s.workers[w].Adding? || s.workers[w].Added? <==> s.holder == ByWorker(w))
    && (s.holder.ByWorker? ==> s.holder.w < |s.workers|)
  }

  function Tasks(es: seq<Entry>): seq<nat> {
    seq(|es|, i requires 0 <= i < |es| => es[i].task)
  }

  /** Only interval tasks come back from the pool. */
  predicate HandKnown(w: Worker, kinds: seq<Kind>) {
    && (w.Running? ==> w.task < |kinds|)
    && (w.Returning? || w.Adding? ==> w.e.task < |kinds| && kinds[w.e.task] == Interval)
  }

  ghost predicate Known(s: State) {
    && (forall e | e in s.tasks :: e.task < |s.kinds|)
    && (forall e | e in Again(s) :: e.task < |s.kinds| && s.kinds[e.task] == Recurring)
    && (s.holder.ByClient? ==> s.holder.e.task < |s.kinds|)
    && (forall x | x in s.queue :: x < |s.kinds|)
    && (forall x | x in s.handed :: x < |s.kinds|)
    && (forall w | 0 <= w < |s.workers| :: HandKnown(s.workers[w], s.kinds))
  }

  /** In the hands of a pool worker: from leaving the queue until it is back in the map. */
  function InHand(w: Worker, x: nat): nat {
    if (w.Running? && w.task == x) || ((w.Returning? || w.Adding?) && w.e.task == x) then 1 else 0
  }

  function Hands(ws: seq<Worker>, x: nat): nat {
    if ws == [] then 0 else Hands(ws[..|ws| - 1], x) + InHand(ws[|ws| - 1], x)
  }

  function Calls(ws: seq<Worker>, x: nat): nat {
    if ws == [] then 0 else Calls(ws[..|ws| - 1], x) + if ws[|ws| - 1] == Running(x) then 1 else 0
  }

  /** Entries of the map that manage_tasks has not handed over yet. */
  function Waiting(s: State): seq<Entry> {
    if s.thread.Handing? && s.thread.next <= |s.tasks| then s.tasks[s.thread.next..] else s.tasks
  }

  function Again(s: State): seq<Entry> {
    if s.thread.Handing? || s.thread.Readding? then s.thread.again else []
  }

  function Count(es: seq<Entry>, x: nat): nat {
    if es == [] then 0 else Count(es[..|es| - 1], x) + if es[|es| - 1].task == x then 1 else 0
  }

  function CountIds(xs: seq<nat>, x: nat): nat {
    if xs == [] then 0 else CountIds(xs[..|xs| - 1], x) + if xs[|xs| - 1] == x then 1 else 0
  }

  /** The task a client is about to put into the map. */
  function Entering(s: State): seq<nat> {
    if s.holder.ByClient? && !s.holder.emplaced then [s.holder.e.task] else []
  }

  /** In the map and not handed over, or in the hands of the client that is adding it. */
  function InMap(s: State, x: nat): nat {
    Count(Waiting(s), x) + if Entering(s) == [x] then 1 else 0
  }

  function InPool(s: State, x: nat): nat {
    CountIds(s.queue, x) + Hands(s.workers, x)
  }

  /** Every task is in exactly one place. */
  ghost predicate Accounted(s: State, x: nat) {
    x < |s.kinds| ==>
      match s.kinds[x]
      case Once => InMap(s, x) + CountIds(s.handed, x) == 1
      case Recurring => InMap(s, x) + Count(Again(s), x) == 1
      case Interval => InMap(s, x) + InPool(s, x) == 1
  }

  ghost predicate AllAccounted(s: State) {
    forall x: nat :: Accounted(s, x)
  }

  /** What was handed to the pool is in its queue, running, or has run, each time it was handed. */
  ghost predicate HandedThere(s: State, x: nat) {
    CountIds(s.handed, x) == CountIds(s.queue, x) + Calls(s.workers, x) + CountIds(s.ran, x)
  }

  ghost predicate AllHandedThere(s: State) {
    forall x: nat :: HandedThere(s, x)
  }

  ghost predicate MapOk(s: State) {
    && Sorted(s.tasks)
    && (s.thread.Peeking? ==> s.tasks != [])
    && (s.thread.Handing? ==>
          && s.thread.next <= s.thread.due <= |s.tasks| && s.thread.next <= |s.handed|
          && (forall i | 0 <= i < |s.tasks| :: i < s.thread.due <==> s.tasks[i].time <= s.thread.now)
          && s.handed[|s.handed| - s.thread.next..] == Tasks(s.tasks[..s.thread.next]))
  }

  /** Between its emplace and its interrupt. */
  predicate AboutToInterrupt(s: State) {
    || (s.holder.ByClient? && s.holder.emplaced)
    || (s.holder.ByWorker? && s.holder.w < |s.workers| && s.workers[s.holder.w].Added?)
  }

  predicate Before(e: Entry, wake: WakeTime) {
    wake.Never? || e.time < wake.time
  }

  /** A task due before the chosen wake time is announced, or about to be; and an announcement wakes. */
  ghost predicate Punctual(s: State) {
    && (s.thread.Chosen? || s.thread.Asleep? ==>
          (exists i :: 0 <= i < |s.tasks| && Before(s.tasks[i], s.thread.wake)) ==> s.interrupted || AboutToInterrupt(s))
    && (s.thread.Asleep? && s.interrupted ==> s.thread.notified)
  }

  /** A chosen wake time is that of a task. */
  ghost predicate Aimed(s: State) {
    (s.thread.Chosen? || s.thread.Asleep?) && s.thread.wake.At? ==>
      exists e :: e in s.tasks && e.time == s.thread.wake.time
  }

  /** Once done is set at most one more round is begun, and once the destructor has interrupted the
      thread finds the flag set wherever it could go to sleep. */
  ghost predicate Ending(s: State) {
    && (s.done <==> s.destructor != NotYet) && (s.thread.Gone? ==> s.done)
    && s.rounds <= 1
    && (s.rounds == 1 ==> s.thread.Handing? || s.thread.Readding? || s.thread.Checking? || s.thread.Gone?)
    && (!s.done ==> s.rounds == 0)
    && (s.destructor == Interrupted && (s.thread.Looking? || s.thread.Peeking? || s.thread.Chosen? || s.thread.Asleep?) ==> s.interrupted)
  }

  ghost predicate Inv(s: State) {
    OneHolder(s) && Known(s) && AllAccounted(s) && MapOk(s) && Punctual(s) && Aimed(s) && Ending(s)
    && AllHandedThere(s)
  }
}
