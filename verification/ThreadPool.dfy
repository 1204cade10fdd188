/** The worker loop, `push` and `stop(true)` of scheduler/ctpl_stl.h as interleaved atomic steps. The
    queue has its own mutex, so each queue operation is one step; the other mutex guards only the
    condition variable. Tasks are numbered in the order in which they enter the queue. */
module ThreadPool {
  import opened Loop

  /** A call of `push`: the task is in the queue, the mutex is taken, and then one waiter is notified. */
  datatype Push = Idle | Enqueued(task: nat) | Locked(task: nat)

  datatype Worker =
    | Popping                          // about to pop, ctpl_stl.h:198 and 206
    | Running(task: nat, inner: Push)  // inside the task, which may itself push
    | Locking                          // about to take the mutex: first wait, or just woken
    | Testing                          // holds the mutex, about to evaluate the wait predicate
    | Got(task: nat)                   // holds the mutex, the predicate popped a task
    | Empty                            // holds the mutex, the predicate found the queue empty
    | Blocking                         // holds the mutex, isDone read as false: about to block
    | Waiting                          // blocked on the condition variable
    | Leaving                          // holds the mutex, isDone read as true
    | Exited

  datatype Holder = Nobody | ByWorker(w: nat) | ByTask(w: nat) | ByClient(j: nat) | ByStop

  datatype Stop = NotYet | DoneSet | Notifying | Joining | Joined

  datatype State = State(
    queue: seq<nat>, pushed: nat, started: seq<nat>, ran: seq<nat>,
    workers: seq<Worker>, clients: seq<Push>, holder: Holder, isDone: bool, stop: Stop,
    kept: set<nat>)  // history: pushes that returned before isDone, and pushes made inside a task

  datatype Action =
    | Pop(w: nat) | Finish(w: nat) | Lock(w: nat) | Test(w: nat) | ReadDone(w: nat) | Block(w: nat)
    | Release(w: nat) | Spurious(w: nat)
    | TaskPush(w: nat) | TaskLock(w: nat) | TaskNotify(w: nat, woken: Option<nat>)
    | ClientPush(j: nat) | ClientLock(j: nat) | ClientNotify(j: nat, woken: Option<nat>)
    | SetDone | StopLock | NotifyAll | Join

  function Init(workers: nat, clients: nat): State {
    State([], 0, [], [], seq(workers, _ => Popping), seq(clients, _ => Idle), Nobody, false, NotYet, {})
  }

  // ----- the steps

  function Put(s: State, w: nat, pc: Worker): State
    requires w < |s.workers|
  {
    s.(workers := s.workers[w := pc])
  }

  function Enqueue(s: State): State {
    s.(queue := s.queue + [s.pushed], pushed := s.pushed + 1)
  }

  function Dequeue(s: State): State
    requires s.queue != []
  {
    s.(queue := s.queue[1..], started := s.started + [s.queue[0]])
  }

  /** `notify_one` wakes one waiting worker, any of them, if there is one. */
  predicate MayWake(s: State, woken: Option<nat>) {
    match woken
    case Some(w) => w < |s.workers| && s.workers[w].Waiting?
    case None => forall w | 0 <= w < |s.workers| :: !s.workers[w].Waiting?
  }

  function Wake(s: State, woken: Option<nat>): State
    requires MayWake(s, woken)
  {
    match woken
    case Some(w) => Put(s, w, Locking)
    case None => s
  }

  predicate Enabled(s: State, a: Action) {
    && s.stop != Joined
    && match a
       case Pop(w) => w < |s.workers| && s.workers[w].Popping?
       case Finish(w) => w < |s.workers| && s.workers[w].Running? && s.workers[w].inner.Idle?
       case Lock(w) => w < |s.workers| && s.workers[w].Locking? && s.holder == Nobody
       case Test(w) => w < |s.workers| && s.workers[w].Testing?
       case ReadDone(w) => w < |s.workers| && s.workers[w].Empty?
       case Block(w) => w < |s.workers| && s.workers[w].Blocking?
       case Release(w) => w < |s.workers| && (s.workers[w].Got? || s.workers[w].Leaving?)
       case Spurious(w) => w < |s.workers| && s.workers[w].Waiting?
       case TaskPush(w) => w < |s.workers| && s.workers[w].Running? && s.workers[w].inner.Idle?
       case TaskLock(w) => w < |s.workers| && s.workers[w].Running? && s.workers[w].inner.Enqueued? && s.holder == Nobody
       case TaskNotify(w, woken) => w < |s.workers| && s.workers[w].Running? && s.workers[w].inner.Locked? && MayWake(s, woken)
       case ClientPush(j) => j < |s.clients| && s.clients[j].Idle?
       case ClientLock(j) => j < |s.clients| && s.clients[j].Enqueued? && s.holder == Nobody
       case ClientNotify(j, woken) => j < |s.clients| && s.clients[j].Locked? && MayWake(s, woken)
       case SetDone => s.stop == NotYet
       case StopLock => s.stop == DoneSet && s.holder == Nobody
       case NotifyAll => s.stop == Notifying
       case Join => s.stop == Joining && AllExited(s)
  }

  predicate AllExited(s: State) {
    forall w | 0 <= w < |s.workers| :: s.workers[w].Exited?
  }

  function Do(s: State, a: Action): State
    requires Enabled(s, a)
  {
    match a
    case Pop(w) =>
      if s.queue == [] then Put(s, w, Locking) else Put(Dequeue(s), w, Running(s.queue[0], Idle))
    case Finish(w) => Put(s, w, Popping).(ran := s.ran + [s.workers[w].task])
    case Lock(w) => Put(s, w, Testing).(holder := ByWorker(w))
    case Test(w) => if s.queue == [] then Put(s, w, Empty) else Put(Dequeue(s), w, Got(s.queue[0]))
    case ReadDone(w) => Put(s, w, if s.isDone then Leaving else Blocking)
    case Block(w) => Put(s, w, Waiting).(holder := Nobody)
    case Release(w) =>
      Put(s, w, if s.workers[w].Got? then Running(s.workers[w].task, Idle) else Exited).(holder := Nobody)
    case Spurious(w) => Put(s, w, Locking)
    case TaskPush(w) =>
      Put(Enqueue(s), w, s.workers[w].(inner := Enqueued(s.pushed))).(kept := s.kept + {s.pushed})
    case TaskLock(w) => Put(s, w, s.workers[w].(inner := Locked(s.workers[w].inner.task))).(holder := ByTask(w))
    case TaskNotify(w, woken) => Put(Wake(s, woken), w, s.workers[w].(inner := Idle)).(holder := Nobody)
    case ClientPush(j) => Enqueue(s).(clients := s.clients[j := Enqueued(s.pushed)])
    case ClientLock(j) => s.(clients := s.clients[j := Locked(s.clients[j].task)], holder := ByClient(j))
    case ClientNotify(j, woken) =>
      Wake(s, woken).(clients := s.clients[j := Idle], holder := Nobody,
                      kept := if s.isDone then s.kept else s.kept + {s.clients[j].task})
    case SetDone => s.(isDone := true, stop := DoneSet)
    case StopLock => s.(stop := Notifying, holder := ByStop)
    case NotifyAll =>
      s.(workers := seq(|s.workers|, w requires 0 <= w < |s.workers| => if s.workers[w].Waiting? then Locking else s.workers[w]),
         stop := Joining, holder := Nobody)
    case Join => s.(queue := [], stop := Joined)
  }

  /** Any interleaving: a list of actions, each enabled when it is taken. */
  ghost predicate Reaches(s: State, actions: seq<Action>, t: State)
    decreases |actions|
  {
    if actions == [] then s == t
    else Enabled(s, actions[0]) && Reaches(Do(s, actions[0]), actions[1..], t)
  }

  // ----- what every step keeps

  predicate HoldsMutex(pc: Worker) {
    pc.Testing? || pc.Got? || pc.Empty? || pc.Blocking? || pc.Leaving?
  }

  ghost predicate WorkerAgrees(s: State, w: nat)
    requires w < |s.workers|
  {
    && (HoldsMutex(s.workers[w]) <==> s.holder == ByWorker(w))
    && (s.workers[w].Running? && s.workers[w].inner.Locked? <==> s.holder == ByTask(w))
  }

  ghost predicate OutsideAgrees(s: State) {
    && (forall j | 0 <= j < |s.clients| :: s.clients[j].Locked? <==> s.holder == ByClient(j))
    && (s.stop == Notifying <==> s.holder == ByStop)
    && (s.holder.ByWorker? || s.holder.ByTask? ==> s.holder.w < |s.workers|)
    && (s.holder.ByClient? ==> s.holder.j < |s.clients|)
  }

  /** The mutex is held by exactly the thread whose position says so. */
  ghost predicate OneHolder(s: State) {
    OutsideAgrees(s) && forall w | 0 <= w < |s.workers| :: WorkerAgrees(s, w)
  }

  function UpTo(n: nat): seq<nat> {
    seq(n, i => i)
  }

  /** Tasks leave the queue in the order in which they entered it, and none is lost or doubled. */
  ghost predicate InOrder(s: State) {
    s.stop != Joined ==> s.started + s.queue == UpTo(s.pushed)
  }

  predicate Holds(pc: Worker, t: nat) {
    (pc.Running? || pc.Got?) && pc.task == t
  }

  /** A started task is in the hands of one worker or has run, once. */
  ghost predicate RunOnce(s: State) {
    && (forall t :: t in s.started <==> t in s.ran || exists w :: 0 <= w < |s.workers| && Holds(s.workers[w], t))
    && (forall i, k | 0 <= i < k < |s.ran| :: s.ran[i] != s.ran[k])
    && (forall w, t | 0 <= w < |s.workers| && Holds(s.workers[w], t) :: t !in s.ran)
    && (forall v, w, t | 0 <= v < w < |s.workers| && Holds(s.workers[v], t) :: !Holds(s.workers[w], t))
  }

  ghost predicate Numbered(s: State) {
    && (forall t | t in s.kept :: t < s.pushed)
    && (forall j | 0 <= j < |s.clients| && !s.clients[j].Idle? :: s.clients[j].task < s.pushed)
  }

  /** Workers leave only after isDone, and nobody sleeps once stop has notified. */
  ghost predicate Stopping(s: State) {
    && (s.isDone <==> s.stop != NotYet)
    && (forall w | 0 <= w < |s.workers| && !s.isDone :: !s.workers[w].Leaving? && !s.workers[w].Exited?)
    && (s.stop == Joining ==> forall w | 0 <= w < |s.workers| :: !s.workers[w].Waiting? && !s.workers[w].Blocking?)
  }

  /** Awake, and going to pop again before it can sleep. */
  predicate Awake(pc: Worker) {
    pc.Popping? || pc.Running? || pc.Locking? || pc.Testing? || pc.Got?
  }

  ghost predicate SomeAwake(s: State) {
    exists w :: 0 <= w < |s.workers| && Awake(s.workers[w])
  }

  ghost predicate PushInFlight(s: State) {
    exists j :: 0 <= j < |s.clients| && !s.clients[j].Idle?
  }

  ghost predicate NoLostWakeup(s: State) {
    !s.isDone && s.queue != [] ==> SomeAwake(s) || PushInFlight(s)
  }

  /** Going to look into the queue once more before it leaves. */
  predicate WillLook(pc: Worker) {
    Awake(pc) || pc.Waiting? || pc.Blocking?
  }

  ghost predicate KeptIsServed(s: State) {
    (exists t :: t in s.kept && t in s.queue) ==> exists w :: 0 <= w < |s.workers| && WillLook(s.workers[w])
  }

  ghost predicate Inv(s: State) {
    && |s.workers| > 0
    && OneHolder(s) && InOrder(s) && RunOnce(s) && Numbered(s) && Stopping(s)
    && NoLostWakeup(s) && KeptIsServed(s)
  }
}
