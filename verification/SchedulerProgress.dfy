/** The scheduler thread gets to every task that is due: in every run, after a number of its steps that can be
    told beforehand, the task has been handed to the pool. */
module SchedulerProgress {
  import opened Scheduler
  import opened SchedulerProof

  /** A task that is due and that the thread has still to hand over, while nobody ends the scheduler. */
  ghost predicate Due(s: State, e: Entry) {
    Inv(s) && !s.done && e in Waiting(s) && e.time <= s.clock
  }

  /** A wake-up of the condition variable although the flag is not set: the thread waits again. */
  predicate Spurious(s: State, a: Action) {
    a.Wakeup? && !s.interrupted
  }

  predicate Adds(a: Action) {
    a.ClientEmplace? || a.WorkerEmplace?
  }

  predicate Hands(a: Action, s: State, x: nat)
    requires Enabled(s, a)
  {
    a.Hand? && s.tasks[s.thread.next].task == x
  }

  /** At most this many steps of the thread are still needed, if no task is added. */
  function Togo(s: State, time: int): int {
    match s.thread
    case Handing(now, due, next, again) =>
      if time <= now then due - next else 8 + |s.tasks| + 2 * |again| + 3 * (due - next)
    case Managing => 1 + |s.tasks|
    case Asleep(_, _) => 2 + |s.tasks|
    case Chosen(_) => 3 + |s.tasks|
    case Peeking => 4 + |s.tasks|
    case Looking => 5 + |s.tasks|
    case Checking => 6 + |s.tasks|
    case Readding(again) => 7 + |s.tasks| + 2 * |again|
    case Gone => 0
  }

  lemma {:induction false} EmplaceLength(es: seq<Entry>, e: Entry)
    ensures |Emplace(es, e)| == |es| + 1
  {
    if es != [] && es[0].time <= e.time { EmplaceLength(es[1..], e); }
  }

  lemma TogoIsNat(s: State, time: int)
    requires MapOk(s)
    ensures Togo(s, time) >= 0
  {
  }

  lemma NextWaits(es: seq<Entry>, n: nat, e: Entry)
    requires n < |es| && e in es[n..]
    ensures e == es[n] || e in es[n + 1..]
  {
    assert es[n..] == [es[n]] + es[n + 1..];
  }

  lemma HandTogo(s: State, a: Action, time: int)
    requires Enabled(s, a) && a.Hand?
    ensures Togo(Do(s, a), time) < Togo(s, time)
  {
    EmplaceLength(s.thread.again, Entry(a.newTime, s.tasks[s.thread.next].task));
  }

  lemma HandNears(s: State, a: Action, e: Entry)
    requires MapOk(s) && e in Waiting(s) && Enabled(s, a) && a.Hand?
    ensures Hands(a, s, e.task) || (e in Waiting(Do(s, a)) && Togo(Do(s, a), e.time) < Togo(s, e.time))
  {
    HandTogo(s, a, e.time);
    NextWaits(s.tasks, s.thread.next, e);
    assert Waiting(Do(s, a)) == s.tasks[s.thread.next + 1..];
  }

  lemma EraseNears(s: State, e: Entry)
    requires MapOk(s) && e in Waiting(s) && Enabled(s, Erase)
    ensures e in Waiting(Do(s, Erase)) && Togo(Do(s, Erase), e.time) < Togo(s, e.time)
  {
    assert s.thread.next == s.thread.due;
    var i :| 0 <= i < |Waiting(s)| && Waiting(s)[i] == e;
    assert s.tasks[s.thread.due + i] == e;
  }

  lemma AddKeeps(s: State, a: Action, e: Entry)
    requires OneHolder(s) && !s.thread.Gone? && e in Waiting(s) && Enabled(s, a) && Adds(a)
    ensures e in Waiting(Do(s, a)) && Togo(Do(s, a), e.time) == Togo(s, e.time) + 1
  {
    var f := if a.ClientEmplace? then s.holder.e else s.workers[a.w].e;
    EmplaceLength(s.tasks, f);
    EmplaceMembers(s.tasks, f);
  }

  lemma ReaddNears(s: State, e: Entry)
    requires MapOk(s) && e in Waiting(s) && Enabled(s, Readd)
    ensures e in Waiting(Do(s, Readd)) && Togo(Do(s, Readd), e.time) < Togo(s, e.time)
  {
    EmplaceLength(s.tasks, s.thread.again[0]);
    EmplaceMembers(s.tasks, s.thread.again[0]);
  }

  lemma LockNears(s: State, e: Entry)
    requires e in Waiting(s) && e.time <= s.clock && Enabled(s, LockTasks)
    ensures e in Waiting(Do(s, LockTasks)) && Togo(Do(s, LockTasks), e.time) < Togo(s, e.time)
  {
    assert s.tasks[0..] == s.tasks;
  }

  lemma ThreadGoesOn(s: State, a: Action, e: Entry)
    requires !s.done && s.tasks != [] && Enabled(s, a)
    requires a.Check? || a.Look? || a.Peek? || a.Sleep? || a.Wakeup? || a.Timeout? || a.Unlock?
    ensures Waiting(Do(s, a)) == Waiting(s)
    ensures Togo(Do(s, a), e.time) + (if Spurious(s, a) then 0 else 1) <= Togo(s, e.time)
  {
  }

  lemma OthersKeep(s: State, a: Action, e: Entry)
    requires Enabled(s, a) && !Adds(a) && !ThreadActs(a)
    ensures Waiting(Do(s, a)) == Waiting(s) && Togo(Do(s, a), e.time) == Togo(s, e.time)
  {
  }

  /** Every step of the thread brings a due task nearer to the pool or hands it over; no step of another thread
      takes it away, and each task added costs at most one step more. */
  lemma StepNears(s: State, a: Action, e: Entry)
    requires Due(s, e) && Enabled(s, a) && !a.SetDone?
    ensures Hands(a, s, e.task) ||
            (Due(Do(s, a), e) && Togo(Do(s, a), e.time) + (if ThreadActs(a) && !Spurious(s, a) then 1 else 0)
                                 <= Togo(s, e.time) + if Adds(a) then 1 else 0)
  {
    StepInv(s, a);
    if a.Hand? {
      HandNears(s, a, e);
    } else if a.Erase? {
      EraseNears(s, e);
    } else if a.Readd? {
      ReaddNears(s, e);
    } else if a.LockTasks? {
      LockNears(s, e);
    } else if Adds(a) {
      AddKeeps(s, a, e);
    } else if ThreadActs(a) {
      ThreadGoesOn(s, a, e);
    } else {
      OthersKeep(s, a, e);
    }
  }

  /** Steps of the thread in a run, without spurious wake-ups. */
  ghost function ThreadSteps(s: State, actions: seq<Action>): nat
    decreases |actions|
  {
    if actions == [] || !Enabled(s, actions[0]) then 0
    else (if ThreadActs(actions[0]) && !Spurious(s, actions[0]) then 1 else 0) + ThreadSteps(Do(s, actions[0]), actions[1..])
  }

  function Added(actions: seq<Action>): nat {
    if actions == [] then 0 else (if Adds(actions[0]) then 1 else 0) + Added(actions[1..])
  }

  lemma HandedGrows(s: State, a: Action)
    requires Enabled(s, a)
    ensures s.handed <= Do(s, a).handed
    ensures forall x: nat | Hands(a, s, x) :: Do(s, a).handed == s.handed + [x]
  {
  }

  lemma {:induction false} HandedStays(s: State, actions: seq<Action>, t: State)
    requires Reaches(s, actions, t)
    ensures s.handed <= t.handed
    decreases |actions|
  {
    if actions != [] {
      HandedGrows(s, actions[0]);
      HandedStays(Do(s, actions[0]), actions[1..], t);
    }
  }

  ghost predicate HandedSince(s: State, t: State, x: nat) {
    exists i :: |s.handed| <= i < |t.handed| && t.handed[i] == x
  }

  /** In every run: either the due task has been handed over, or the thread has not yet taken the steps that
      this can need, one more for each task added on the way. */
  lemma {:induction false} DueIsHanded(s: State, actions: seq<Action>, t: State, e: Entry)
    requires Due(s, e) && Reaches(s, actions, t) && SetDone !in actions
    ensures HandedSince(s, t, e.task) || (Due(t, e) && ThreadSteps(s, actions) + Togo(t, e.time) <= Togo(s, e.time) + Added(actions))
    decreases |actions|
  {
    if actions != [] {
      var a, rest := actions[0], actions[1..];
      var u := Do(s, a);
      StepNears(s, a, e);
      HandedGrows(s, a);
      HandedStays(u, rest, t);
      if Hands(a, s, e.task) {
        assert t.handed[|s.handed|] == e.task;
      } else {
        DueIsHanded(u, rest, t, e);
        if HandedSince(u, t, e.task) {
          var i :| |u.handed| <= i < |t.handed| && t.handed[i] == e.task;
          assert |s.handed| <= i;
        }
      }
    }
  }

  /** So after more steps of the thread than that, it has been. */
  lemma DueIsHandedInTime(s: State, actions: seq<Action>, t: State, e: Entry)
    requires Due(s, e) && Reaches(s, actions, t) && SetDone !in actions
    requires ThreadSteps(s, actions) > Togo(s, e.time) + Added(actions)
    ensures HandedSince(s, t, e.task)
  {
    DueIsHanded(s, actions, t, e);
    if !HandedSince(s, t, e.task) { TogoIsNat(t, e.time); }
  }

  /** A step that finishes what the holder of the lock has begun. */
  predicate Finishes(a: Action) {
    a.ClientEmplace? || a.ClientInterrupt? || a.WorkerEmplace? || a.WorkerInterrupt?
  }

  /** Until then the thread can take such a step, or whoever has the lock can finish. */
  lemma DueMoves(s: State, e: Entry) returns (a: Action)
    requires Due(s, e)
    ensures Enabled(s, a) && ((ThreadActs(a) && !Spurious(s, a)) || Finishes(a))
  {
    match s.thread
    case Checking => a := Check;
    case Looking => a := Look;
    case Peeking => a := Peek;
    case Chosen(_) => a := Sleep;
    case Asleep(wake, _) =>
      if s.interrupted {
        a := Wakeup;
      } else if wake.At? && wake.time <= s.clock {
        a := Timeout;
      } else {
        assert Before(e, wake);
        a := HolderFinishes(s);
      }
    case Managing => a := if s.holder == Nobody then LockTasks else HolderFinishes(s);
    case Handing(_, due, next, _) => a := if next < due then Hand(0) else Erase;
    case Readding(again) => a := if again == [] then Unlock else Readd;
    case Gone => assert false;
  }

  function HolderFinishes(s: State): Action {
    match s.holder
    case ByClient(_, emplaced) => if emplaced then ClientInterrupt else ClientEmplace
    case ByWorker(w) => if w < |s.workers| && s.workers[w].Adding? then WorkerEmplace(w) else WorkerInterrupt(w)
    case _ => Check
  }

  /** How much the holder of the lock has still to do before it lets go. */
  function ToFinish(s: State): nat {
    match s.holder
    case ByClient(_, emplaced) => if emplaced then 1 else 2
    case ByWorker(w) => if w < |s.workers| && s.workers[w].Adding? then 2 else 1
    case _ => 0
  }

  lemma HolderNears(s: State, a: Action)
    requires OneHolder(s) && Enabled(s, a) && (ThreadActs(a) || Finishes(a))
    ensures ToFinish(Do(s, a)) <= ToFinish(s) - if Finishes(a) then 1 else 0
  {
  }

  lemma StepFinishes(s: State, a: Action, e: Entry)
    requires Due(s, e) && Enabled(s, a) && ((ThreadActs(a) && !Spurious(s, a)) || Finishes(a))
    ensures Hands(a, s, e.task) ||
            (Due(Do(s, a), e) && Togo(Do(s, a), e.time) + 2 * ToFinish(Do(s, a)) < Togo(s, e.time) + 2 * ToFinish(s))
  {
    StepNears(s, a, e);
    HolderNears(s, a);
  }

  /** From any state with a due task a run that adds nothing but what the holder of the lock has begun to add
      hands it over, in a bounded number of steps. */
  lemma {:induction false} HandsOver(s: State, e: Entry) returns (actions: seq<Action>, t: State)
    requires Due(s, e)
    ensures Reaches(s, actions, t) && HandedSince(s, t, e.task)
    ensures |actions| <= 1 + Togo(s, e.time) + 2 * ToFinish(s)
    ensures forall a | a in actions :: ThreadActs(a) || Finishes(a)
    decreases Togo(s, e.time) + 2 * ToFinish(s)
  {
    var a := DueMoves(s, e);
    StepFinishes(s, a, e);
    HandedGrows(s, a);
    var u := Do(s, a);
    if Hands(a, s, e.task) {
      actions, t := [a], u;
      assert actions[1..] == [] && t.handed[|s.handed|] == e.task;
    } else {
      var rest;
      rest, t := HandsOver(u, e);
      actions := [a] + rest;
      var i :| |u.handed| <= i < |t.handed| && t.handed[i] == e.task;
      assert |s.handed| <= i;
    }
  }
}
