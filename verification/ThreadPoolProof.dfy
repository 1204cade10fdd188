/** Safety of the pool over every interleaving: no wake-up is lost, and `stop(true)` drains it. */
module ThreadPoolProof {
  import opened ThreadPool
  import opened Loop

  lemma InitInv(workers: nat, clients: nat)
    requires workers > 0
    ensures Inv(Init(workers, clients))
  {
  }

  // ----- frames: what an action leaves alone

  /** The worker an action moves, if it moves just one. */
  function Mover(a: Action): Option<nat> {
    match a
    case ClientPush(_) => None
    case ClientLock(_) => None
    case ClientNotify(_, _) => None
    case SetDone => None
    case StopLock => None
    case NotifyAll => None
    case Join => None
    case _ => Some(a.w)
  }

  /** Any other worker stays where it is, or is woken. */
  lemma OthersStay(s: State, a: Action, w: nat)
    requires Enabled(s, a) && w < |s.workers| && Mover(a) != Some(w)
    ensures |Do(s, a).workers| == |s.workers|
    ensures Do(s, a).workers[w] == s.workers[w] || (s.workers[w].Waiting? && Do(s, a).workers[w].Locking?)
  {
  }

  lemma StepOneHolder(s: State, a: Action)
    requires Inv(s) && Enabled(s, a)
    ensures OneHolder(Do(s, a))
  {
    var t := Do(s, a);
    forall w | 0 <= w < |t.workers|
      ensures WorkerAgrees(t, w)
    {
      if Mover(a) == Some(w) { MoverAgrees(s, a, w); } else { OtherAgrees(s, a, w); }
    }
    StepOutside(s, a);
  }

  lemma StepOutside(s: State, a: Action)
    requires Inv(s) && Enabled(s, a)
    ensures OutsideAgrees(Do(s, a))
  {
    if Mover(a).Some? {
      assert WorkerAgrees(s, Mover(a).value);
    }
  }

  lemma MoverAgrees(s: State, a: Action, w: nat)
    requires Inv(s) && Enabled(s, a) && w < |s.workers| && Mover(a) == Some(w)
    ensures WorkerAgrees(Do(s, a), w)
  {
    assert WorkerAgrees(s, w);
  }

  lemma OtherAgrees(s: State, a: Action, w: nat)
    requires Inv(s) && Enabled(s, a) && w < |s.workers| && Mover(a) != Some(w)
    ensures WorkerAgrees(Do(s, a), w)
  {
    assert WorkerAgrees(s, w);
    if Mover(a).Some? { assert WorkerAgrees(s, Mover(a).value); }
    OthersStay(s, a, w);
  }

  lemma StepStopping(s: State, a: Action)
    requires Inv(s) && Enabled(s, a)
    ensures Stopping(Do(s, a))
  {
    var t := Do(s, a);
    forall w | 0 <= w < |t.workers|
      ensures !t.isDone ==> !t.workers[w].Leaving? && !t.workers[w].Exited?
      ensures t.stop == Joining ==> !t.workers[w].Waiting? && !t.workers[w].Blocking?
    {
      assert WorkerAgrees(s, w);
      if Mover(a) != Some(w) { OthersStay(s, a, w); }
    }
  }

  lemma StepNumbered(s: State, a: Action)
    requires Inv(s) && Enabled(s, a)
    ensures Numbered(Do(s, a))
  {
  }

  lemma StepInOrder(s: State, a: Action)
    requires Inv(s) && Enabled(s, a)
    ensures InOrder(Do(s, a))
  {
    assert UpTo(s.pushed + 1) == UpTo(s.pushed) + [s.pushed];
  }

  /** The next task to leave the queue has not left it before. */
  lemma HeadIsFresh(s: State)
    requires Inv(s) && s.stop != Joined && s.queue != []
    ensures s.queue[0] !in s.started
  {
    var all := s.started + s.queue;
    assert all[|s.started|] == s.queue[0];
    assert forall i | 0 <= i < |s.started| :: all[i] == s.started[i];
  }

  lemma StepRunOnce(s: State, a: Action)
    requires Inv(s) && Enabled(s, a)
    ensures RunOnce(Do(s, a))
  {
    if (a.Pop? || a.Test?) && s.queue != [] {
      StepTakes(s, a);
    } else if a.Finish? {
      Finished(s, Do(s, a), a.w);
    } else {
      StepKeepsHands(s, a);
    }
  }

  lemma StepTakes(s: State, a: Action)
    requires Inv(s) && Enabled(s, a) && (a.Pop? || a.Test?) && s.queue != []
    ensures RunOnce(Do(s, a))
  {
    HeadIsFresh(s);
    Taken(s, Do(s, a), a.w, s.queue[0]);
  }

  lemma StepKeepsHands(s: State, a: Action)
    requires Inv(s) && Enabled(s, a) && !a.Finish? && ((a.Pop? || a.Test?) ==> s.queue == [])
    ensures RunOnce(Do(s, a))
  {
    var t := Do(s, a);
    forall w | 0 <= w < |t.workers|
      ensures forall x :: Holds(t.workers[w], x) <==> Holds(s.workers[w], x)
    {
      if Mover(a) != Some(w) { OthersStay(s, a, w); }
    }
    SameHolds(s, t);
  }

  lemma SameHolds(s: State, t: State)
    requires RunOnce(s) && |t.workers| == |s.workers| && t.started == s.started && t.ran == s.ran
    requires forall w, x | 0 <= w < |s.workers| :: Holds(t.workers[w], x) <==> Holds(s.workers[w], x)
    ensures RunOnce(t)
  {
    forall x | x in t.started && x !in t.ran
      ensures exists w :: 0 <= w < |t.workers| && Holds(t.workers[w], x)
    {
      var w :| 0 <= w < |s.workers| && Holds(s.workers[w], x);
      assert Holds(t.workers[w], x);
    }
  }

  lemma Taken(s: State, t: State, w: nat, x: nat)
    requires RunOnce(s) && |t.workers| == |s.workers| && w < |s.workers|
    requires x !in s.started && t.started == s.started + [x] && t.ran == s.ran
    requires forall y :: !Holds(s.workers[w], y) && (Holds(t.workers[w], y) <==> y == x)
    requires forall v, y | 0 <= v < |s.workers| && v != w :: Holds(t.workers[v], y) <==> Holds(s.workers[v], y)
    ensures RunOnce(t)
  {
    forall y | y in t.started && y !in t.ran
      ensures exists v :: 0 <= v < |t.workers| && Holds(t.workers[v], y)
    {
      if y == x {
        assert Holds(t.workers[w], y);
      } else {
        var v :| 0 <= v < |s.workers| && Holds(s.workers[v], y);
        assert Holds(t.workers[v], y);
      }
    }
  }

  lemma Finished(s: State, t: State, w: nat)
    requires RunOnce(s) && |t.workers| == |s.workers| && w < |s.workers| && s.workers[w].Running?
    requires t.started == s.started && t.ran == s.ran + [s.workers[w].task]
    requires forall y :: !Holds(t.workers[w], y)
    requires forall v, y | 0 <= v < |s.workers| && v != w :: Holds(t.workers[v], y) <==> Holds(s.workers[v], y)
    ensures RunOnce(t)
  {
    var x := s.workers[w].task;
    assert Holds(s.workers[w], x);
    forall y
      ensures y in t.started <== y in t.ran || exists v :: 0 <= v < |t.workers| && Holds(t.workers[v], y)
    {
      if v :| 0 <= v < |t.workers| && Holds(t.workers[v], y) {
        assert Holds(s.workers[v], y);
      }
    }
    assert t.ran[|s.ran|] == x;
    assert forall i | 0 <= i < |s.ran| :: t.ran[i] == s.ran[i] && s.ran[i] in s.ran;
    forall y | y in t.started && y !in t.ran
      ensures exists v :: 0 <= v < |t.workers| && Holds(t.workers[v], y)
    {
      var v :| 0 <= v < |s.workers| && Holds(s.workers[v], y);
      assert Holds(t.workers[v], y);
    }
  }

  /** Between the failed pop and the block the mutex is held, so a push that the sleeper missed has not
      notified yet; and a push that notifies finds a waiter, or nobody who sleeps. */
  lemma StepNoLostWakeup(s: State, a: Action)
    requires Inv(s) && Enabled(s, a)
    ensures NoLostWakeup(Do(s, a))
  {
    var t := Do(s, a);
    if t.isDone || t.queue == [] {
    } else if a.ClientPush? {
      assert !t.clients[a.j].Idle?;
    } else if a.ClientNotify? {
      var w := if a.woken.Some? then a.woken.value else 0;
      assert WorkerAgrees(s, w);
      assert Awake(t.workers[w]);
    } else if a.TaskPush? || a.TaskNotify? {
      assert Awake(t.workers[a.w]);
    } else if SomeAwake(s) {
      var w :| 0 <= w < |s.workers| && Awake(s.workers[w]);
      if Mover(a) != Some(w) { OthersStay(s, a, w); }
      assert Awake(t.workers[w]);
    } else {
      var j :| 0 <= j < |s.clients| && !s.clients[j].Idle?;
      assert !t.clients[j].Idle?;
    }
  }

  lemma StepKeptIsServed(s: State, a: Action)
    requires Inv(s) && Enabled(s, a)
    ensures KeptIsServed(Do(s, a))
  {
    var t := Do(s, a);
    if x :| x in t.kept && x in t.queue {
      if a.TaskPush? || a.TaskNotify? {
        assert WillLook(t.workers[a.w]);
      } else if a.ClientNotify? && !s.isDone {
        assert WorkerAgrees(s, 0);
        assert WillLook(s.workers[0]);
        OthersStay(s, a, 0);
        assert WillLook(t.workers[0]);
      } else {
        assert x in s.kept && x in s.queue;
        var w :| 0 <= w < |s.workers| && WillLook(s.workers[w]);
        if Mover(a) != Some(w) { OthersStay(s, a, w); }
        assert WillLook(t.workers[w]);
      }
    }
  }

  lemma StepInv(s: State, a: Action)
    requires Inv(s) && Enabled(s, a)
    ensures Inv(Do(s, a))
  {
    StepOneHolder(s, a);
    StepStopping(s, a);
    StepNumbered(s, a);
    StepInOrder(s, a);
    StepRunOnce(s, a);
    StepNoLostWakeup(s, a);
    StepKeptIsServed(s, a);
  }

  lemma {:induction false} RunInv(s: State, actions: seq<Action>, t: State)
    requires Inv(s) && Reaches(s, actions, t)
    ensures Inv(t)
    decreases |actions|
  {
    if actions != [] {
      StepInv(s, actions[0]);
      RunInv(Do(s, actions[0]), actions[1..], t);
    }
  }

  // ----- what a push does

  function PushCount(actions: seq<Action>): nat {
    if actions == [] then 0
    else (if actions[0].ClientPush? || actions[0].TaskPush? then 1 else 0) + PushCount(actions[1..])
  }

  /** Every push puts a task into the pool, the next one in number. */
  lemma {:induction false} PushesCount(s: State, actions: seq<Action>, t: State)
    requires Inv(s) && Reaches(s, actions, t) && t.stop != Joined
    ensures |t.started| + |t.queue| == |s.started| + |s.queue| + PushCount(actions)
    decreases |actions|
  {
    if actions != [] {
      StepInv(s, actions[0]);
      PushesCount(Do(s, actions[0]), actions[1..], t);
      assert |s.started + s.queue| == s.pushed && |Do(s, actions[0]).started + Do(s, actions[0]).queue| == Do(s, actions[0]).pushed;
    }
  }

  /** The pushes that are kept: those made inside a task, and those that return before stop. */
  lemma KeptPushes(s: State, a: Action)
    requires Inv(s) && Enabled(s, a)
    ensures s.kept <= Do(s, a).kept
    ensures a.TaskPush? ==> |s.started| + |s.queue| in Do(s, a).kept
    ensures a.ClientPush? ==> Do(s, a).clients[a.j] == Enqueued(|s.started| + |s.queue|)
    ensures a.ClientNotify? && s.stop == NotYet ==> s.clients[a.j].task in Do(s, a).kept
  {
    assert |s.started + s.queue| == s.pushed;
  }

  // ----- the main results

  /** In every reachable state before stop, a task in the queue that no push is still to announce has a
      worker awake that will pop again. */
  lemma NoLostWakeupEver(workers: nat, clients: nat, actions: seq<Action>, t: State)
    requires workers > 0 && Reaches(Init(workers, clients), actions, t)
    requires !t.isDone && t.queue != [] && forall j | 0 <= j < |t.clients| :: t.clients[j].Idle?
    ensures exists w :: 0 <= w < |t.workers| && Awake(t.workers[w])
  {
    InitInv(workers, clients);
    RunInv(Init(workers, clients), actions, t);
  }

  lemma {:induction false} CountOnce(xs: seq<nat>, x: nat)
    requires forall i, k | 0 <= i < k < |xs| :: xs[i] != xs[k]
    ensures multiset(xs)[x] == if x in xs then 1 else 0
  {
    if xs != [] {
      var n := |xs| - 1;
      CountOnce(xs[..n], x);
      assert xs == xs[..n] + [xs[n]];
    }
  }

  /** Once all workers have returned: the tasks that left the queue are the first ones pushed, each ran
      exactly once, and every kept task is one of them. */
  lemma StopDrains(workers: nat, clients: nat, actions: seq<Action>, t: State)
    requires workers > 0 && Reaches(Init(workers, clients), actions, t)
    requires t.stop == Joining && AllExited(t)
    ensures t.started + t.queue == UpTo(t.pushed)
    ensures forall x: nat :: multiset(t.ran)[x] == if x in t.started then 1 else 0
    ensures forall x | x in t.kept :: x in t.started && x !in t.queue
  {
    InitInv(workers, clients);
    RunInv(Init(workers, clients), actions, t);
    forall x: nat
      ensures multiset(t.ran)[x] == if x in t.started then 1 else 0
    {
      CountOnce(t.ran, x);
    }
    forall x | x in t.kept
      ensures x in t.started && x !in t.queue
    {
      assert (t.started + t.queue)[x] == x;
    }
  }

  /** With no client still pushing when isDone is set, stop leaves nothing in the queue. */
  lemma StopEmptiesQueue(workers: nat, clients: nat, actions: seq<Action>, t: State)
    requires workers > 0 && Reaches(Init(workers, clients), actions, t)
    requires t.stop == Joining && AllExited(t) && forall x | 0 <= x < t.pushed :: x in t.kept
    ensures t.queue == [] && forall x | 0 <= x < t.pushed :: multiset(t.ran)[x] == 1
  {
    StopDrains(workers, clients, actions, t);
    if t.pushed > 0 {
      assert t.pushed - 1 in t.kept;
      var i :| 0 <= i < |t.started| && t.started[i] == t.pushed - 1;
      assert (t.started + t.queue)[i] == i;
    }
    forall x | 0 <= x < t.pushed
      ensures multiset(t.ran)[x] == 1
    {
      assert (t.started + t.queue)[x] == x;
    }
  }

  // ----- stop(true) comes to an end

  function WorkerRank(pc: Worker): nat {
    match pc
    case Running(_, p) => 6 + PushRank(p)
    case Got(_) => 7
    case Popping => 5
    case Locking => 4
    case Testing => 3
    case Empty => 2
    case Leaving => 1
    case _ => 0
  }

  function PushRank(p: Push): nat {
    match p
    case Enqueued(_) => 2
    case Locked(_) => 1
    case Idle => 0
  }

  function WorkerSum(ws: seq<Worker>): nat {
    if ws == [] then 0 else WorkerSum(ws[..|ws| - 1]) + WorkerRank(ws[|ws| - 1])
  }

  function PushSum(ps: seq<Push>): nat {
    if ps == [] then 0 else PushSum(ps[..|ps| - 1]) + PushRank(ps[|ps| - 1])
  }

  function Measure(s: State): nat {
    10 * |s.queue| + WorkerSum(s.workers) + PushSum(s.clients)
  }

  lemma {:induction false} WorkerSumUpdate(ws: seq<Worker>, w: nat, pc: Worker)
    requires w < |ws|
    ensures WorkerSum(ws[w := pc]) == WorkerSum(ws) - WorkerRank(ws[w]) + WorkerRank(pc)
  {
    var n := |ws| - 1;
    if w == n {
      assert ws[w := pc][..n] == ws[..n];
    } else {
      assert ws[w := pc][..n] == ws[..n][w := pc];
      WorkerSumUpdate(ws[..n], w, pc);
    }
  }

  lemma {:induction false} PushSumUpdate(ps: seq<Push>, j: nat, p: Push)
    requires j < |ps|
    ensures PushSum(ps[j := p]) == PushSum(ps) - PushRank(ps[j]) + PushRank(p)
  {
    var n := |ps| - 1;
    if j == n {
      assert ps[j := p][..n] == ps[..n];
    } else {
      assert ps[j := p][..n] == ps[..n][j := p];
      PushSumUpdate(ps[..n], j, p);
    }
  }

  predicate Quiet(a: Action) {
    !a.TaskPush? && !a.ClientPush? && !a.Join?
  }

  predicate InTask(a: Action) {
    a.TaskLock? || a.TaskNotify? || a.Finish?
  }

  lemma TaskShrinks(s: State, a: Action)
    requires Inv(s) && s.stop == Joining && Enabled(s, a) && InTask(a)
    ensures Measure(Do(s, a)) < Measure(s) && Do(s, a).stop == Joining
  {
    WorkerSumUpdate(s.workers, a.w, Do(s, a).workers[a.w]);
  }

  lemma WorkerShrinks(s: State, a: Action)
    requires Inv(s) && s.stop == Joining && Enabled(s, a) && Quiet(a) && Mover(a).Some? && !InTask(a)
    ensures Measure(Do(s, a)) < Measure(s) && Do(s, a).stop == Joining
  {
    WorkerSumUpdate(s.workers, a.w, Do(s, a).workers[a.w]);
  }

  /** After notify_all every action that brings no new task brings the end closer. */
  lemma ShutdownShrinks(s: State, a: Action)
    requires Inv(s) && s.stop == Joining && Enabled(s, a) && Quiet(a)
    ensures Measure(Do(s, a)) < Measure(s) && Do(s, a).stop == Joining
  {
    if InTask(a) {
      TaskShrinks(s, a);
    } else if Mover(a).Some? {
      WorkerShrinks(s, a);
    } else {
      PushSumUpdate(s.clients, a.j, Do(s, a).clients[a.j]);
    }
  }

  /** The holder of the mutex can always go on, and with the mutex free any worker can. */
  lemma ShutdownMoves(s: State) returns (a: Action)
    requires Inv(s) && s.stop == Joining && !AllExited(s)
    ensures Enabled(s, a) && Quiet(a)
  {
    var w: nat :| w < |s.workers| && !s.workers[w].Exited?;
    if s.holder.ByClient? {
      return ClientNotify(s.holder.j, None);
    }
    if s.holder != Nobody {
      w := s.holder.w;
    }
    assert WorkerAgrees(s, w);
    a := match s.workers[w]
      case Popping => Pop(w)
      case Running(_, p) => (match p case Idle => Finish(w) case Enqueued(_) => TaskLock(w) case Locked(_) => TaskNotify(w, None))
      case Locking => Lock(w)
      case Testing => Test(w)
      case Empty => ReadDone(w)
      case _ => Release(w);
  }

  /** However the threads are scheduled, with no further pushes all workers return after a bounded
      number of steps, so the joins in stop(true) do not hang. */
  lemma {:induction false} ShutdownEnds(s: State, actions: seq<Action>, t: State)
    requires Inv(s) && s.stop == Joining && Reaches(s, actions, t) && forall a | a in actions :: Quiet(a)
    ensures |actions| <= Measure(s)
    ensures AllExited(t) || exists a :: Quiet(a) && Enabled(t, a)
    decreases |actions|
  {
    if actions == [] {
      if !AllExited(t) { var a := ShutdownMoves(t); }
    } else {
      assert actions[0] in actions;
      StepInv(s, actions[0]);
      ShutdownShrinks(s, actions[0]);
      ShutdownEnds(Do(s, actions[0]), actions[1..], t);
    }
  }
}
