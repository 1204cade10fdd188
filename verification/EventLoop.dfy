/** The timer half of the event loop in handy/event_base.cc: scheduling and cancelling, also from inside
    callbacks, and the pass that runs what is due. */
module EventLoop {
  import opened Timers
  import opened TimerRuns

  lemma {:induction false} FirstOf(ids: set<TimerId>) returns (t: TimerId)
    requires ids != {}
    ensures t in ids && forall u | u in ids :: u == t || Before(t, u)
  {
    var x :| x in ids;
    if ids == {x} {
      t := x;
    } else {
      var y := FirstOf(ids - {x});
      t := if Before(x, y) then x else y;
      forall u | u in ids
        ensures u == t || Before(t, u)
      {
        assert u == x || u in ids - {x};
      }
    }
  }

  // ----- how much a pass still has to do

  /** Milliseconds overdue, plus one, summed up. */
  ghost function Overdue(ids: set<TimerId>, now: int): nat {
    if ids == {} then 0 else
      var t :| t in ids;
      Max(now - t.at + 1, 0) + Overdue(ids - {t}, now)
  }

  function Max(x: int, y: int): int {
    if x < y then y else x
  }

  lemma {:induction false} OverdueWithout(ids: set<TimerId>, now: int, t: TimerId)
    requires t in ids
    ensures Overdue(ids, now) == Max(now - t.at + 1, 0) + Overdue(ids - {t}, now)
  {
    var x :| x in ids && Overdue(ids, now) == Max(now - x.at + 1, 0) + Overdue(ids - {x}, now);
    if x != t {
      OverdueWithout(ids - {x}, now, t);
      OverdueWithout(ids - {t}, now, x);
      assert ids - {x} - {t} == ids - {t} - {x};
    }
  }

  lemma {:induction false} OverdueShrinks(less: set<TimerId>, ids: set<TimerId>, now: int)
    requires less <= ids
    ensures Overdue(less, now) <= Overdue(ids, now)
    decreases |ids|
  {
    if less == ids {
    } else {
      var t :| t in ids && t !in less;
      OverdueWithout(ids, now, t);
      OverdueShrinks(less, ids - {t}, now);
    }
  }

  /** Running a due entry brings the pass nearer to its end even if the entry is re-armed and due again. */
  lemma RanLess(b: Book, t: TimerId, now: int)
    requires Linked(b) && Numbered(b) && t in DueAt(b, now)
    ensures Overdue(DueAt(Ran(b, t), now), now) < Overdue(DueAt(b, now), now)
  {
    var due, c := DueAt(b, now), Ran(b, t);
    OverdueWithout(due, now, t);
    assert TimerLinked(b, t);
    if b.timers[t].Once? {
      OverdueShrinks(DueAt(c, now), due - {t}, now);
    } else {
      assert RepLinked(b, b.timers[t].key);
      var again := TimerId(t.at + b.reps[b.timers[t].key].interval, b.num + 1);
      assert DueAt(c, now) <= due - {t} + {again};
      OverdueShrinks(DueAt(c, now), due - {t} + {again}, now);
      assert again !in b.timers;
      OverdueWithout(due - {t} + {again}, now, again);
      assert due - {t} + {again} - {again} == due - {t};
    }
  }

  // ----- what a pass keeps

  /** Fired entries are in order, due, and before everything still in the map. */
  ghost predicate InOrder(b: Book, from: nat, now: int)
    requires from <= |b.log|
  {
    && (forall i, j | from <= i < j < |b.log| :: b.log[i].Fired? && b.log[j].Fired? ==> Before(b.log[i].tid, b.log[j].tid))
    && (forall i | from <= i < |b.log| && b.log[i].Fired? ::
          && Before(b.log[i].tid, Limit(now))
          && forall u | u in b.timers :: Before(b.log[i].tid, u))
  }

  ghost predicate Gone(log: seq<Event>, from: nat, id: TimerId, t: TimerId) {
    exists i :: from <= i < |log| && (log[i] == Fired(id, t) || log[i] == Cancelled(id))
  }

  /** Every entry of the earlier book is still there, unless it has fired or was cancelled. */
  ghost predicate Accounted(b0: Book, b: Book) {
    forall t | t in b0.timers ::
      (t in b.timers && b.timers[t] == b0.timers[t]) || Gone(b.log, |b0.log|, Owner(b0, t), t)
  }

  ghost predicate PassInv(b0: Book, b: Book, now: int) {
    && Inv(b) && b.clock == now
    && b0.log <= b.log && b0.num <= b.num && (forall t | t in b0.timers :: t.num <= b0.num)
    && InOrder(b, |b0.log|, now)
    && Accounted(b0, b)
  }

  lemma GoneStays(log: seq<Event>, more: seq<Event>, from: nat, id: TimerId, t: TimerId)
    requires Gone(log, from, id, t)
    ensures Gone(log + more, from, id, t)
  {
    var i :| from <= i < |log| && (log[i] == Fired(id, t) || log[i] == Cancelled(id));
    assert (log + more)[i] == log[i];
  }

  /** Entries that come later than the pass looks do not disturb it. */
  lemma OrderWithMore(b: Book, c: Book, from: nat, now: int)
    requires from <= |b.log| && InOrder(b, from, now) && c.log == b.log
    requires forall u | u in c.timers :: u in b.timers || u.at > now
    ensures InOrder(c, from, now) && DueAt(c, now) <= DueAt(b, now)
  {
  }

  lemma AccountedWithMore(b0: Book, b: Book, c: Book, e: seq<Event>)
    requires Accounted(b0, b) && c.log == b.log + e
    requires forall t | t in b0.timers && t in b.timers && b.timers[t] == b0.timers[t] ::
               (t in c.timers && c.timers[t] == b0.timers[t]) || Gone(c.log, |b0.log|, Owner(b0, t), t)
    ensures Accounted(b0, c)
  {
    forall t | t in b0.timers && Gone(b.log, |b0.log|, Owner(b0, t), t)
      ensures Gone(c.log, |b0.log|, Owner(b0, t), t)
    {
      GoneStays(b.log, e, |b0.log|, Owner(b0, t), t);
    }
  }

  lemma PassScheduled(b0: Book, b: Book, now: int, milli: int, cb: nat, interval: int)
    requires PassInv(b0, b, now) && milli > now && milli > 0 && interval >= 0
    ensures PassInv(b0, Scheduled(b, milli, cb, interval), now)
    ensures DueAt(Scheduled(b, milli, cb, interval), now) <= DueAt(b, now)
  {
    ScheduledKeeps(b, milli, cb, interval);
    var c := Scheduled(b, milli, cb, interval);
    OrderWithMore(b, c, |b0.log|, now);
    assert b.log + [] == b.log;
    AccountedWithMore(b0, b, c, []);
  }

  lemma WithdrawnAccounted(b0: Book, b: Book, id: TimerId)
    requires Linked(b) && Accounted(b0, b) && MayCancel(b, id) && Live(b, id) && |b0.log| <= |b.log|
    ensures Accounted(b0, Withdrawn(b, id))
  {
    var c := Withdrawn(b, id);
    forall t | t in b0.timers && t in b.timers && b.timers[t] == b0.timers[t] && t !in c.timers
      ensures Gone(c.log, |b0.log|, Owner(b0, t), t)
    {
      assert TimerLinked(b, t) && (id.at < 0 ==> RepLinked(b, id));
      assert c.log[|b.log|] == Cancelled(Owner(b0, t));
    }
    AccountedWithMore(b0, b, c, [Cancelled(id)]);
  }

  lemma WithdrawnInOrder(b: Book, from: nat, now: int, id: TimerId)
    requires from <= |b.log| && InOrder(b, from, now) && MayCancel(b, id)
    ensures InOrder(Withdrawn(b, id), from, now) && DueAt(Withdrawn(b, id), now) <= DueAt(b, now)
  {
    var c := Withdrawn(b, id);
    assert forall i | 0 <= i < |b.log| :: c.log[i] == b.log[i];
  }

  lemma PassWithdrawn(b0: Book, b: Book, now: int, id: TimerId)
    requires PassInv(b0, b, now) && MayCancel(b, id)
    ensures PassInv(b0, Withdrawn(b, id), now)
    ensures DueAt(Withdrawn(b, id), now) <= DueAt(b, now)
  {
    WithdrawnKeeps(b, id);
    if Live(b, id) {
      WithdrawnAccounted(b0, b, id);
      WithdrawnInOrder(b, |b0.log|, now, id);
    }
  }

  lemma PassStarts(b0: Book, now: int)
    requires Inv(b0) && b0.clock <= now
    ensures PassInv(b0, b0.(clock := now), now)
  {
    Unclocked(b0, b0.(clock := now));
  }

  lemma RanInOrder(b: Book, from: nat, now: int, t: TimerId)
    requires Linked(b) && from <= |b.log| && InOrder(b, from, now) && IsFirst(b, t) && Before(t, Limit(now))
    ensures InOrder(Ran(b, t), from, now)
  {
    var c := Ran(b, t);
    assert TimerLinked(b, t);
    if b.timers[t].Repeat? { assert RepLinked(b, b.timers[t].key); }
    assert forall u | u in c.timers :: Before(t, u);
    assert forall i | from <= i < |b.log| :: c.log[i] == b.log[i];
  }

  lemma RanAccounted(b0: Book, b: Book, t: TimerId)
    requires Linked(b) && Numbered(b) && Accounted(b0, b) && t in b.timers && |b0.log| <= |b.log|
    ensures Accounted(b0, Ran(b, t))
  {
    var c, e := Ran(b, t), Fired(Owner(b, t), t);
    assert TimerLinked(b, t);
    forall u | u in b0.timers && u in b.timers && b.timers[u] == b0.timers[u] && u == t
      ensures Gone(c.log, |b0.log|, Owner(b0, u), u)
    {
      assert c.log[|b.log|] == Fired(Owner(b0, u), u);
    }
    AccountedWithMore(b0, b, c, [e]);
  }

  lemma PassRan(b0: Book, b: Book, now: int, t: TimerId)
    requires PassInv(b0, b, now) && IsFirst(b, t) && Before(t, Limit(now))
    ensures PassInv(b0, Ran(b, t), now)
  {
    RanKeeps(b, t, now);
    assert Ran(b, t).(clock := now) == Ran(b, t);
    RanInOrder(b, |b0.log|, now, t);
    RanAccounted(b0, b, t);
  }

  /** Callbacks schedule at positive times after the pass's clock sample. */
  ghost predicate Later(a: Action, now: int) {
    a.RunAt? ==> a.milli > now && a.milli > 0 && a.interval >= 0
  }

  lemma {:induction false} PassCalled(b0: Book, b: Book, now: int, actions: seq<Action>)
    requires PassInv(b0, b, now) && forall a | a in actions :: Later(a, now)
    ensures PassInv(b0, Called(b, actions), now) && DueAt(Called(b, actions), now) <= DueAt(b, now)
    decreases |actions|
  {
    if actions != [] {
      PassActed(b0, b, now, actions[0]);
      PassCalled(b0, Acted(b, actions[0]), now, actions[1..]);
    }
  }

  lemma PassActed(b0: Book, b: Book, now: int, a: Action)
    requires PassInv(b0, b, now) && Later(a, now)
    ensures PassInv(b0, Acted(b, a), now) && DueAt(Acted(b, a), now) <= DueAt(b, now)
  {
    match a
    case RunAt(milli, cb, interval) => PassScheduled(b0, b, now, milli, cb, interval);
    case Cancel(id) => if MayCancel(b, id) { PassWithdrawn(b0, b, now, id); }
    case Exit =>
      Unclocked(b, b.(exited := true));
      OrderWithMore(b, b.(exited := true), |b0.log|, now);
  }

  /** One turn of a pass keeps everything and leaves less to do. */
  lemma PassTurn(b0: Book, b: Book, now: int, t: TimerId, actions: seq<Action>)
    requires PassInv(b0, b, now) && IsFirst(b, t) && Before(t, Limit(now))
    requires forall a | a in actions :: Later(a, now)
    ensures var c := Called(Ran(b, t), actions);
            PassInv(b0, c, now) && Overdue(DueAt(c, now), now) < Overdue(DueAt(b, now), now)
  {
    PassRan(b0, b, now, t);
    RanLess(b, t, now);
    PassCalled(b0, Ran(b, t), now, actions);
    OverdueShrinks(DueAt(Called(Ran(b, t), actions), now), DueAt(Ran(b, t), now), now);
  }

  lemma NothingDue(b: Book, t: TimerId, now: int)
    requires IsFirst(b, t) && !Before(t, Limit(now))
    ensures DueAt(b, now) == {}
  {
  }

  // ----- a pass is a run

  function AsSteps(actions: seq<Action>): seq<Step> {
    if actions == [] then [] else [Acts(actions[0])] + AsSteps(actions[1..])
  }

  lemma {:induction false} CallsAreSteps(b: Book, actions: seq<Action>, now: int)
    requires forall a | a in actions :: Later(a, now)
    ensures Reaches(b, AsSteps(actions), Called(b, actions))
    decreases |actions|
  {
    if actions != [] {
      assert Later(actions[0], now);
      CallsAreSteps(Acted(b, actions[0]), actions[1..], now);
    }
  }

  lemma TurnIsRun(b0: Book, steps: seq<Step>, b: Book, t: TimerId, actions: seq<Action>) returns (more: seq<Step>)
    requires Reaches(b0, steps, b) && Enabled(b, Fires(t)) && forall a | a in actions :: Later(a, b.clock)
    ensures Reaches(b0, more, Called(Ran(b, t), actions)) && steps <= more
  {
    CallsAreSteps(Ran(b, t), actions, b.clock);
    var turn := [Fires(t)] + AsSteps(actions);
    assert turn[1..] == AsSteps(actions);
    ReachesOn(b0, steps, b, turn, Called(Ran(b, t), actions));
    more := steps + turn;
  }

  // ----- the object

  class EventsImp {
    var timers: map<TimerId, Task>
    var timerReps: map<TimerId, TimerRepeatable>
    var timerSeq: int
    var exited: bool
    ghost var log: seq<Event>
    ghost var clock: int

    ghost function Now(): Book
      reads this
    {
      Book(timers, timerReps, timerSeq, log, clock, exited)
    }

    constructor ()
      ensures Now() == Book(map[], map[], 0, [], 0, false) && Inv(Now())
    {
      timers, timerReps, timerSeq, exited, log, clock := map[], map[], 0, false, [], 0;
    }

    method RunAt(milli: int, cb: nat, interval: int) returns (tid: TimerId)
      modifies this
      ensures Now() == Scheduled(old(Now()), milli, cb, interval) && tid == IdOf(old(Now()), milli, interval)
    {
      if exited {
        return TimerId(0, 0);
      }
      timerSeq := timerSeq + 1;
      if interval != 0 {
        tid := TimerId(-milli, timerSeq);
        timerSeq := timerSeq + 1;
        timerReps := timerReps[tid := TimerRepeatable(milli, interval, TimerId(milli, timerSeq), cb)];
        timers := timers[TimerId(milli, timerSeq) := Repeat(tid)];
      } else {
        tid := TimerId(milli, timerSeq);
        timers := timers[tid := Once(cb)];
      }
    }

    method Cancel(timerid: TimerId) returns (found: bool)
      requires MayCancel(Now(), timerid)
      modifies this
      ensures Now() == Withdrawn(old(Now()), timerid) && found == Live(old(Now()), timerid)
      ensures !Live(Now(), timerid)
    {
      if timerid.at < 0 {
        timers := timers - {timerReps[timerid].timerid};
        timerReps := timerReps - {timerid};
        log := log + [Cancelled(timerid)];
        return true;
      } else {
        if timerid in timers {
          timers := timers - {timerid};
          log := log + [Cancelled(timerid)];
          return true;
        }
        return false;
      }
    }

    /** A user's callback: any list of actions. */
    method Callback(actions: seq<Action>)
      modifies this
      ensures Now() == Called(old(Now()), actions)
    {
      var i := 0;
      while i < |actions|
        invariant 0 <= i <= |actions| && Called(Now(), actions[i..]) == Called(old(Now()), actions)
      {
        assert actions[i..][1..] == actions[i + 1..];
        var a := actions[i];
        match a
        {
          case RunAt(milli, cb, interval) =>
            var _ := RunAt(milli, cb, interval);
          case Cancel(id) =>
            if (if id.at < 0 then id in timerReps else id in timers ==> timers[id].Once?) {
              var _ := Cancel(id);
            }
          case Exit =>
            exited := true;
        }
        i := i + 1;
      }
    }

    /** Called with the due entry t already out of the map. */
    method RepeatableTimeout(key: TimerId, actions: seq<Action>, ghost t: TimerId)
      requires key in timerReps
      modifies this
      ensures Now() == Called(old(Rearmed(Now().(log := log + [Fired(key, t)]), key)), actions)
    {
      var tr := timerReps[key];
      var at := tr.at + tr.interval;
      timerSeq := timerSeq + 1;
      timerReps := timerReps[key := tr.(at := at, timerid := TimerId(at, timerSeq))];
      timers := timers[TimerId(at, timerSeq) := Repeat(key)];
      log := log + [Fired(key, t)];
      Callback(actions);
    }

    /** Takes an entry out of the map and runs it. */
    method Run(t: TimerId, actions: seq<Action>)
      requires t in timers && (timers[t].Repeat? ==> timers[t].key in timerReps)
      modifies this
      ensures Now() == Called(Ran(old(Now()), t), actions)
    {
      var task := timers[t];
      timers := timers - {t};
      match task
      case Once(_) =>
        log := log + [Fired(t, t)];
        Callback(actions);
      case Repeat(key) =>
        RepeatableTimeout(key, actions, t);
    }

    /** One pass. The k-th callback it runs does script(k), which schedules nothing at or before `now`.
        The pass is a run of single steps, so that everything proved of runs holds of it (a repeating timer
        stays armed, see StaysArmed); what fires is due and in order, nothing due is left, nothing is lost. */
    method HandleTimeouts(now: int, script: nat -> seq<Action>) returns (ghost steps: seq<Step>)
      requires Inv(Now()) && clock <= now
      requires forall k: nat, a | a in script(k) :: Later(a, now)
      modifies this
      ensures [Samples(now)] <= steps && Reaches(old(Now()), steps, Now())
      ensures PassInv(old(Now()), Now(), now) && DueAt(Now(), now) == {}
    {
      ghost var b0 := Now();
      clock := now;
      PassStarts(b0, now);
      steps := [Samples(now)];
      assert steps[1..] == [];
      var k := 0;
      while timers != map[]
        invariant PassInv(b0, Now(), now) && [Samples(now)] <= steps && Reaches(b0, steps, Now())
        decreases Overdue(DueAt(Now(), now), now)
      {
        ghost var f := FirstOf(timers.Keys);
        var t :| t in timers && forall u | u in timers :: u == t || Before(t, u);
        if !Before(t, Limit(now)) {
          NothingDue(Now(), t, now);
          break;
        }
        PassTurn(b0, Now(), now, t, script(k));
        assert TimerLinked(Now(), t);
        steps := TurnIsRun(b0, steps, Now(), t, script(k));
        Run(t, script(k));
        k := k + 1;
      }
    }
  }
}
