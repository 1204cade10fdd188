/** Every task that is pushed is started: until stop is called, whatever the threads do and however they are
    scheduled, only so many steps pass before a worker has taken it. */
module PoolProgress {
  import opened Loop
  import opened ThreadPool
  import opened ThreadPoolProof

  /** A task that is in the queue, while nobody stops the pool. */
  ghost predicate Queued(s: State, x: nat) {
    Inv(s) && s.stop == NotYet && |s.started| <= x < s.pushed
  }

  predicate Stops(a: Action) {
    a.SetDone? || a.StopLock? || a.NotifyAll? || a.Join?
  }

  predicate Pushes(a: Action) {
    a.TaskPush? || a.ClientPush?
  }

  // ----- what is left to do before the task is taken

  function PushLeft(p: Push): nat {
    match p
    case Enqueued(_) => 6
    case Locked(_) => 5
    case Idle => 0
  }

  function WorkerLeft(pc: Worker): nat {
    match pc
    case Running(_, p) => 6 + PushLeft(p)
    case Got(_) => 7
    case Popping => 5
    case Locking => 4
    case Testing => 3
    case Empty => 2
    case Blocking => 1
    case _ => 0
  }

  function WorkersLeft(ws: seq<Worker>): nat {
    if ws == [] then 0 else WorkersLeft(ws[..|ws| - 1]) + WorkerLeft(ws[|ws| - 1])
  }

  function PushesLeft(ps: seq<Push>): nat {
    if ps == [] then 0 else PushesLeft(ps[..|ps| - 1]) + PushLeft(ps[|ps| - 1])
  }

  /** How many steps that can take, if nobody pushes and nobody wakes without a reason. */
  function Left(s: State, x: nat): int {
    5 * (x + 1 - |s.started|) + WorkersLeft(s.workers) + PushesLeft(s.clients)
  }

  lemma {:induction false} WorkersUpdate(ws: seq<Worker>, w: nat, pc: Worker)
    requires w < |ws|
    ensures WorkersLeft(ws[w := pc]) == WorkersLeft(ws) - WorkerLeft(ws[w]) + WorkerLeft(pc)
  {
    var n := |ws| - 1;
    if w == n {
      assert ws[w := pc][..n] == ws[..n];
    } else {
      assert ws[w := pc][..n] == ws[..n][w := pc];
      WorkersUpdate(ws[..n], w, pc);
    }
  }

  lemma {:induction false} PushesUpdate(ps: seq<Push>, j: nat, p: Push)
    requires j < |ps|
    ensures PushesLeft(ps[j := p]) == PushesLeft(ps) - PushLeft(ps[j]) + PushLeft(p)
  {
    var n := |ps| - 1;
    if j == n {
      assert ps[j := p][..n] == ps[..n];
    } else {
      assert ps[j := p][..n] == ps[..n][j := p];
      PushesUpdate(ps[..n], j, p);
    }
  }

  lemma WakeLeft(s: State, woken: Option<nat>)
    requires MayWake(s, woken)
    ensures WorkersLeft(Wake(s, woken).workers) <= WorkersLeft(s.workers) + 4
  {
    if woken.Some? { WorkersUpdate(s.workers, woken.value, Locking); }
  }

  /** What a push or a wake-up without a reason adds: itself, and what its thread has to do because of it. */
  function Extra(a: Action): nat {
    if Pushes(a) then 7 else if a.Spurious? then 5 else 0
  }

  lemma NotifyNears(s: State, a: Action, x: nat)
    requires Queued(s, x) && Enabled(s, a) && (a.TaskNotify? || a.ClientNotify?)
    ensures Left(Do(s, a), x) < Left(s, x)
  {
    WakeLeft(s, a.woken);
    if a.TaskNotify? {
      var v := Wake(s, a.woken);
      assert v.workers[a.w] == s.workers[a.w];
      WorkersUpdate(v.workers, a.w, Do(s, a).workers[a.w]);
    } else {
      PushesUpdate(s.clients, a.j, Idle);
    }
  }

  lemma ClientNears(s: State, a: Action, x: nat)
    requires Queued(s, x) && Enabled(s, a) && (a.ClientPush? || a.ClientLock?)
    ensures Left(Do(s, a), x) + 1 <= Left(s, x) + Extra(a)
  {
    PushesUpdate(s.clients, a.j, Do(s, a).clients[a.j]);
  }

  lemma WorkerNears(s: State, a: Action, x: nat)
    requires Queued(s, x) && Enabled(s, a) && Mover(a).Some? && !a.TaskNotify?
    ensures Left(Do(s, a), x) + 1 <= Left(s, x) + Extra(a)
  {
    assert s.queue != [] by { assert |s.started + s.queue| == s.pushed; }
    assert WorkerAgrees(s, a.w);
    WorkersUpdate(s.workers, a.w, Do(s, a).workers[a.w]);
  }

  /** Every step of any thread brings a queued task nearer to a worker, except for what new pushes and wake-ups
      without a reason add. */
  lemma StepNears(s: State, a: Action, x: nat)
    requires Queued(s, x) && Enabled(s, a) && !Stops(a)
    ensures x < |Do(s, a).started| || Queued(Do(s, a), x)
    ensures Left(Do(s, a), x) + 1 <= Left(s, x) + Extra(a)
  {
    StepInv(s, a);
    if a.TaskNotify? || a.ClientNotify? {
      NotifyNears(s, a, x);
    } else if Mover(a).Some? {
      WorkerNears(s, a, x);
    } else {
      ClientNears(s, a, x);
    }
  }

  function AllExtra(actions: seq<Action>): nat {
    if actions == [] then 0 else Extra(actions[0]) + AllExtra(actions[1..])
  }

  lemma {:induction false} StartedGrows(s: State, actions: seq<Action>, t: State)
    requires Reaches(s, actions, t)
    ensures |s.started| <= |t.started|
    decreases |actions|
  {
    if actions != [] { StartedGrows(Do(s, actions[0]), actions[1..], t); }
  }

  /** In every run without stop, of any length: the task has been started, or no more steps have passed than
      this can need. */
  lemma {:induction false} QueuedIsStarted(s: State, actions: seq<Action>, t: State, x: nat)
    requires Queued(s, x) && Reaches(s, actions, t) && forall a | a in actions :: !Stops(a)
    ensures x < |t.started| || (Queued(t, x) && |actions| + Left(t, x) <= Left(s, x) + AllExtra(actions))
    decreases |actions|
  {
    if actions != [] {
      var a := actions[0];
      assert a in actions;
      StepNears(s, a, x);
      if x < |Do(s, a).started| {
        StartedGrows(Do(s, a), actions[1..], t);
      } else {
        QueuedIsStarted(Do(s, a), actions[1..], t, x);
      }
    }
  }

  /** So it is started in time, in its turn. */
  lemma QueuedIsStartedInTime(s: State, actions: seq<Action>, t: State, x: nat)
    requires Queued(s, x) && Reaches(s, actions, t) && forall a | a in actions :: !Stops(a)
    requires |actions| >= Left(s, x) + AllExtra(actions)
    ensures x < |t.started| && t.started[x] == x
  {
    QueuedIsStarted(s, actions, t, x);
    RunInv(s, actions, t);
    StaysUnstopped(s, actions, t);
    assert x < |t.started| && (t.started + t.queue)[x] == x;
  }

  lemma {:induction false} StaysUnstopped(s: State, actions: seq<Action>, t: State)
    requires s.stop == NotYet && Reaches(s, actions, t) && forall a | a in actions :: !Stops(a)
    ensures t.stop == NotYet
    decreases |actions|
  {
    if actions != [] {
      assert actions[0] in actions;
      StaysUnstopped(Do(s, actions[0]), actions[1..], t);
    }
  }

  // ----- and there is always such a step

  lemma Woken(s: State) returns (woken: Option<nat>)
    ensures MayWake(s, woken)
  {
    if w: nat :| w < |s.workers| && s.workers[w].Waiting? {
      woken := Some(w);
    } else {
      woken := None;
    }
  }

  lemma WorkerMoves(s: State, w: nat) returns (a: Action)
    requires OneHolder(s) && s.stop == NotYet && w < |s.workers| && !s.workers[w].Waiting? && !s.workers[w].Exited?
    requires s.holder == Nobody || s.holder == ByWorker(w) || s.holder == ByTask(w)
    ensures Enabled(s, a) && !Stops(a) && Extra(a) == 0
  {
    var woken := Woken(s);
    assert WorkerAgrees(s, w);
    a := match s.workers[w]
      case Popping => Pop(w)
      case Running(_, p) => (match p case Idle => Finish(w) case Enqueued(_) => TaskLock(w) case Locked(_) => TaskNotify(w, woken))
      case Locking => Lock(w)
      case Testing => Test(w)
      case Empty => ReadDone(w)
      case Blocking => Block(w)
      case _ => Release(w);
  }

  /** While a task is queued, some thread can take a step that is neither a push nor a wake-up without reason. */
  lemma QueuedMoves(s: State, x: nat) returns (a: Action)
    requires Queued(s, x)
    ensures Enabled(s, a) && !Stops(a) && Extra(a) == 0
  {
    assert s.queue != [] by { assert |s.started + s.queue| == s.pushed; }
    if s.holder.ByClient? {
      var woken := Woken(s);
      a := ClientNotify(s.holder.j, woken);
    } else if s.holder.ByWorker? || s.holder.ByTask? {
      assert WorkerAgrees(s, s.holder.w);
      a := WorkerMoves(s, s.holder.w);
    } else if w: nat :| w < |s.workers| && Awake(s.workers[w]) {
      a := WorkerMoves(s, w);
    } else {
      var j: nat :| j < |s.clients| && !s.clients[j].Idle?;
      a := ClientLock(j);
    }
  }
}
