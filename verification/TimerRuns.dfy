/** Every run of the timer maps of handy/event_base.cc: outside calls, clock samples, and due entries that
    fire with whatever their callbacks do. */
module TimerRuns {
  import opened Timers

  /** `TimerId tid{now, 1L << 62}` */
  function Limit(now: int): TimerId {
    TimerId(now, 0x4000_0000_0000_0000)
  }

  ghost predicate IsFirst(b: Book, t: TimerId) {
    t in b.timers && forall u | u in b.timers :: u == t || Before(t, u)
  }

  ghost function DueAt(b: Book, now: int): set<TimerId> {
    set t | t in b.timers && Before(t, Limit(now))
  }

  // ----- the steps

  /** A call of runAt, cancel or exit, from outside or from a callback; the clock sample of a pass; or the
      first due entry leaving the map and firing. */
  datatype Step = Acts(a: Action) | Samples(now: int) | Fires(t: TimerId)

  ghost predicate Enabled(b: Book, s: Step) {
    match s
    case Acts(a) => a.RunAt? ==> a.milli > 0 && a.interval >= 0
    case Samples(now) => b.clock <= now
    case Fires(t) => IsFirst(b, t) && Before(t, Limit(b.clock)) && (b.timers[t].Repeat? ==> b.timers[t].key in b.reps)
  }

  ghost function Do(b: Book, s: Step): Book
    requires Enabled(b, s)
  {
    match s
    case Acts(a) => Acted(b, a)
    case Samples(now) => b.(clock := now)
    case Fires(t) => Ran(b, t)
  }

  ghost predicate Reaches(b: Book, steps: seq<Step>, c: Book)
    decreases |steps|
  {
    if steps == [] then b == c
    else Enabled(b, steps[0]) && Reaches(Do(b, steps[0]), steps[1..], c)
  }

  const EMPTY := Book(map[], map[], 0, [], 0, false)

  lemma {:induction false} ReachesOn(b: Book, steps: seq<Step>, c: Book, more: seq<Step>, d: Book)
    requires Reaches(b, steps, c) && Reaches(c, more, d)
    ensures Reaches(b, steps + more, d)
    decreases |steps|
  {
    if steps == [] {
      assert steps + more == more;
    } else {
      assert (steps + more)[1..] == steps[1..] + more;
      ReachesOn(Do(b, steps[0]), steps[1..], c, more, d);
    }
  }

  /** A later clock and the exit flag leave everything as it is. */
  lemma Unclocked(b: Book, c: Book)
    requires Inv(b) && b.clock <= c.clock && c == b.(clock := c.clock, exited := c.exited)
    ensures Inv(c)
  {
    forall k | k in b.reps
      ensures OnTimeAt(c, k) && RepLinked(c, k)
    {
      assert OnTimeAt(b, k) && RepLinked(b, k);
    }
    assert forall t | t in b.timers :: TimerLinked(b, t) ==> TimerLinked(c, t);
  }

  lemma StepInv(b: Book, s: Step)
    requires Inv(b) && Enabled(b, s)
    ensures Inv(Do(b, s))
  {
    match s
    case Acts(RunAt(milli, cb, interval)) => ScheduledKeeps(b, milli, cb, interval);
    case Acts(Cancel(id)) => if MayCancel(b, id) { WithdrawnKeeps(b, id); }
    case Acts(Exit) => Unclocked(b, Do(b, s));
    case Samples(now) => Unclocked(b, Do(b, s));
    case Fires(t) =>
      RanKeeps(b, t, b.clock);
      assert Ran(b, t).(clock := b.clock) == Ran(b, t);
  }

  lemma {:induction false} RunInv(b: Book, steps: seq<Step>, c: Book)
    requires Inv(b) && Reaches(b, steps, c)
    ensures Inv(c)
    decreases |steps|
  {
    if steps != [] {
      StepInv(b, steps[0]);
      RunInv(Do(b, steps[0]), steps[1..], c);
    }
  }

  // ----- the main results, for every run

  /** The maps are consistent at every moment, whatever callbacks schedule and cancel and whenever. */
  lemma AlwaysConsistent(steps: seq<Step>, b: Book)
    requires Reaches(EMPTY, steps, b)
    ensures Inv(b)
  {
    RunInv(EMPTY, steps, b);
  }

  lemma LogOn(b: Book, s: Step)
    requires Enabled(b, s)
    ensures b.log <= Do(b, s).log
  {
  }

  lemma {:induction false} LogGrows(b: Book, steps: seq<Step>, c: Book)
    requires Reaches(b, steps, c)
    ensures b.log <= c.log
    decreases |steps|
  {
    if steps != [] {
      LogOn(b, steps[0]);
      LogGrows(Do(b, steps[0]), steps[1..], c);
    }
  }

  /** A live timer that is cancelled, from outside or from a callback, is out of the maps and does not fire,
      whatever happens afterwards. */
  lemma SilentAfterCancel(b: Book, id: TimerId, steps: seq<Step>, c: Book)
    requires Inv(b) && MayCancel(b, id) && Live(b, id) && Reaches(Do(b, Acts(Cancel(id))), steps, c)
    ensures !Live(Do(b, Acts(Cancel(id))), id)
    ensures |b.log| <= |c.log| && forall i | |b.log| <= i < |c.log| && c.log[i].Fired? :: c.log[i].id != id
  {
    WithdrawnEnds(b, id);
    WithdrawnKeeps(b, id);
    LogGrows(Withdrawn(b, id), steps, c);
    RunInv(Withdrawn(b, id), steps, c);
    SilentBehind(c.log, |b.log|, id);
  }

  lemma SilentBehind(log: seq<Event>, n: nat, id: TimerId)
    requires Silenced(log) && n < |log| && log[n] == Cancelled(id)
    ensures forall i | n <= i < |log| && log[i].Fired? :: log[i].id != id
  {
  }

  lemma {:induction false} InstantIs(first: int, interval: int, n: nat)
    ensures Instant(first, interval, n) == first + n * interval
  {
    if n > 0 {
      InstantIs(first, interval, n - 1);
      assert n * interval == (n - 1) * interval + interval;
    }
  }

  lemma {:induction false} InstantsGrow(first: int, interval: int, j: nat, n: nat)
    requires interval > 0 && j <= n
    ensures Instant(first, interval, j) <= Instant(first, interval, n)
    decreases n - j
  {
    if j < n { InstantsGrow(first, interval, j, n - 1); }
  }

  lemma {:induction false} ScheduleAt(first: int, interval: int, n: nat, j: nat)
    requires j < n
    ensures Schedule(first, interval, n)[j] == first + j * interval
  {
    if j < n - 1 { ScheduleAt(first, interval, n - 1, j); } else { InstantIs(first, interval, j); }
  }

  /** No drift and no skipping: after a pass, a repeating timer has fired for exactly the instants of its
      schedule up to the pass's clock sample, each once and in order. */
  lemma NeitherDriftsNorSkips(b: Book, k: TimerId)
    requires Inv(b) && DueAt(b, b.clock) == {} && b.num < 0x4000_0000_0000_0000 && k in b.reps
    ensures var times := Times(b.log, k);
            var interval := b.reps[k].interval;
            && interval > 0
            && times == Schedule(-k.at, interval, |times|)
            && forall j: nat :: j < |times| <==> -k.at + j * interval <= b.clock
  {
    assert RepLinked(b, k) && OnTimeAt(b, k);
    var n, interval, tid := |Times(b.log, k)|, b.reps[k].interval, b.reps[k].timerid;
    assert tid !in DueAt(b, b.clock);
    forall j: nat
      ensures j < n <==> -k.at + j * interval <= b.clock
    {
      InstantIs(-k.at, interval, j);
      if j < n { InstantsGrow(-k.at, interval, j, n - 1); } else { InstantsGrow(-k.at, interval, n, j); }
    }
  }

  /** What has become of a repeating timer: it has fired for the first instants of its schedule, and it is
      still armed as it was scheduled unless it was cancelled. */
  ghost predicate Kept(b: Book, k: TimerId, first: int, interval: int, cb: nat) {
    && Times(b.log, k) == Schedule(first, interval, |Times(b.log, k)|)
    && ((k in b.reps && b.reps[k].interval == interval && b.reps[k].cb == cb) || Cancelled(k) in b.log)
  }

  /** Events of other timers do not matter. */
  lemma KeptOn(b: Book, c: Book, k: TimerId, first: int, interval: int, cb: nat, e: Event)
    requires Kept(b, k, first, interval, cb) && (c.log == b.log || (c.log == b.log + [e] && (e.Fired? ==> e.id != k)))
    requires k in b.reps ==> (k in c.reps && c.reps[k].interval == b.reps[k].interval && c.reps[k].cb == b.reps[k].cb)
                             || Cancelled(k) in c.log
    ensures Kept(c, k, first, interval, cb)
  {
    TimesGrow(b.log, e, k);
    assert Times(b.log, k) + [] == Times(b.log, k);
  }

  lemma OwnFireKeeps(b: Book, t: TimerId, k: TimerId, first: int, interval: int, cb: nat)
    requires t in b.timers && TimerLinked(b, t) && t.at <= b.clock && b.timers[t] == Repeat(k)
    requires k in b.reps && RepLinked(b, k) && OnTimeAt(b, k) && k.at == -first && Kept(b, k, first, interval, cb)
    requires Cancelled(k) !in b.log
    ensures Kept(Ran(b, t), k, first, interval, cb)
  {
    RanOnTimeAt(b, t, b.clock, k);
    assert OnTimeAt(Ran(b, t).(clock := b.clock), k);
    assert Ran(b, t).(clock := b.clock) == Ran(b, t);
  }

  lemma FireKeeps(b: Book, t: TimerId, k: TimerId, first: int, interval: int, cb: nat)
    requires Inv(b) && t in b.timers && t.at <= b.clock && k.at < 0 && k.at == -first && Kept(b, k, first, interval, cb)
    ensures Kept(Ran(b, t), k, first, interval, cb)
  {
    assert TimerLinked(b, t);
    if Owner(b, t) == k {
      assert OnTimeAt(b, k) && RepLinked(b, k);
      OwnFireKeeps(b, t, k, first, interval, cb);
    } else {
      if k in b.reps { assert RepLinked(b, k); }
      KeptOn(b, Ran(b, t), k, first, interval, cb, Fired(Owner(b, t), t));
    }
  }

  lemma CancelKeeps(b: Book, id: TimerId, k: TimerId, first: int, interval: int, cb: nat)
    requires MayCancel(b, id) && Kept(b, k, first, interval, cb)
    ensures Kept(Withdrawn(b, id), k, first, interval, cb)
  {
    var c := Withdrawn(b, id);
    if id == k && k in b.reps && id.at < 0 { assert c.log[|b.log|] == Cancelled(k); }
    KeptOn(b, c, k, first, interval, cb, Cancelled(id));
  }

  lemma StepKeeps(b: Book, s: Step, k: TimerId, first: int, interval: int, cb: nat)
    requires Inv(b) && Enabled(b, s) && k.at < 0 && k.at == -first && k.num <= b.num && Kept(b, k, first, interval, cb)
    ensures Kept(Do(b, s), k, first, interval, cb) && b.num <= Do(b, s).num
  {
    match s
    case Acts(Cancel(id)) => if MayCancel(b, id) { CancelKeeps(b, id, k, first, interval, cb); }
    case Fires(t) => FireKeeps(b, t, k, first, interval, cb);
    case _ => KeptOn(b, Do(b, s), k, first, interval, cb, Cancelled(k));
  }

  lemma {:induction false} RunKeeps(b: Book, steps: seq<Step>, c: Book, k: TimerId, first: int, interval: int, cb: nat)
    requires Inv(b) && Reaches(b, steps, c) && k.at < 0 && k.at == -first && k.num <= b.num && Kept(b, k, first, interval, cb)
    ensures Kept(c, k, first, interval, cb)
    decreases |steps|
  {
    if steps != [] {
      StepInv(b, steps[0]);
      StepKeeps(b, steps[0], k, first, interval, cb);
      RunKeeps(Do(b, steps[0]), steps[1..], c, k, first, interval, cb);
    }
  }

  lemma KeptNow(b: Book, k: TimerId, first: int, interval: int, cb: nat)
    requires k in b.reps && RepLinked(b, k) && OnTimeAt(b, k)
    requires first == -k.at && b.reps[k].interval == interval && b.reps[k].cb == cb
    ensures Kept(b, k, first, interval, cb)
  {
  }

  /** A repeating timer comes out of any run, so of any pass, armed with the interval and callback it went in
      with, unless it was cancelled. */
  lemma StaysArmed(b: Book, steps: seq<Step>, c: Book, k: TimerId, first: int, interval: int, cb: nat)
    requires Inv(b) && Reaches(b, steps, c) && k in b.reps && b.reps[k].interval == interval && b.reps[k].cb == cb
    requires first == -k.at
    ensures Kept(c, k, first, interval, cb)
  {
    assert RepLinked(b, k) && OnTimeAt(b, k);
    KeptNow(b, k, first, interval, cb);
    RunKeeps(b, steps, c, k, first, interval, cb);
  }

  lemma KeptFrom(before: seq<Step>, b: Book, milli: int, cb: nat, interval: int, after: seq<Step>, c: Book)
    requires Reaches(EMPTY, before, b) && !b.exited && milli > 0 && interval > 0
    requires Reaches(Scheduled(b, milli, cb, interval), after, c)
    ensures Inv(c) && Kept(c, IdOf(b, milli, interval), milli, interval, cb)
  {
    var k, s := IdOf(b, milli, interval), Scheduled(b, milli, cb, interval);
    AlwaysConsistent(before, b);
    ScheduledKeeps(b, milli, cb, interval);
    TimesUnknown(b.log, k);
    RunKeeps(s, after, c, k, milli, interval, cb);
    RunInv(s, after, c);
  }

  /** A repeating timer in every run: after it was scheduled with a first time and an interval it fires only
      for the instants of that schedule, in order and none left out, and unless it is cancelled it stays
      armed; whenever nothing is due it has fired for exactly the instants up to the clock sample. */
  lemma RepeatingTimer(before: seq<Step>, b: Book, milli: int, cb: nat, interval: int, after: seq<Step>, c: Book)
    requires Reaches(EMPTY, before, b) && !b.exited && milli > 0 && interval > 0
    requires Reaches(Scheduled(b, milli, cb, interval), after, c)
    ensures var k := IdOf(b, milli, interval);
            var times := Times(c.log, k);
            && (forall j | 0 <= j < |times| :: times[j] == milli + j * interval)
            && (Cancelled(k) !in c.log ==> k in c.reps && c.reps[k].interval == interval && c.reps[k].cb == cb)
            && (Cancelled(k) !in c.log && DueAt(c, c.clock) == {} && c.num < 0x4000_0000_0000_0000 ==>
                  forall j: nat :: j < |times| <==> milli + j * interval <= c.clock)
  {
    var k := IdOf(b, milli, interval);
    KeptFrom(before, b, milli, cb, interval, after, c);
    forall j | 0 <= j < |Times(c.log, k)|
      ensures Times(c.log, k)[j] == milli + j * interval
    {
      ScheduleAt(milli, interval, |Times(c.log, k)|, j);
    }
    if Cancelled(k) !in c.log && DueAt(c, c.clock) == {} && c.num < 0x4000_0000_0000_0000 {
      NeitherDriftsNorSkips(c, k);
    }
  }

  // ----- one-shot timers

  /** Waiting, cancelled before it fired, or fired once. */
  ghost predicate KeptOnce(b: Book, id: TimerId, cb: nat) {
    if id in b.timers then b.timers[id] == Once(cb) && Times(b.log, id) == []
    else Times(b.log, id) == [id.at] || (Times(b.log, id) == [] && Cancelled(id) in b.log)
  }

  lemma KeptOnceOn(b: Book, c: Book, id: TimerId, cb: nat, e: Event)
    requires KeptOnce(b, id, cb) && (c.log == b.log || (c.log == b.log + [e] && e.id != id))
    requires id in c.timers <==> id in b.timers
    requires id in b.timers ==> c.timers[id] == b.timers[id]
    ensures KeptOnce(c, id, cb)
  {
    TimesGrow(b.log, e, id);
    assert Times(b.log, id) + [] == Times(b.log, id);
    assert Cancelled(id) in b.log ==> Cancelled(id) in c.log;
  }

  lemma CancelKeepsOnce(b: Book, x: TimerId, id: TimerId, cb: nat)
    requires Linked(b) && MayCancel(b, x) && id.at > 0 && KeptOnce(b, id, cb)
    ensures KeptOnce(Withdrawn(b, x), id, cb)
  {
    var c := Withdrawn(b, x);
    if x == id && id in b.timers {
      TimesGrow(b.log, Cancelled(id), id);
      assert c.log[|b.log|] == Cancelled(id) && Times(b.log, id) + [] == Times(b.log, id);
    } else {
      if x.at < 0 { assert RepLinked(b, x); }
      if id in b.timers { assert TimerLinked(b, id); }
      KeptOnceOn(b, c, id, cb, Cancelled(x));
    }
  }

  lemma FireKeepsOnce(b: Book, t: TimerId, id: TimerId, cb: nat)
    requires Linked(b) && Numbered(b) && t in b.timers && id.at > 0 && id.num <= b.num && KeptOnce(b, id, cb)
    requires id in b.timers ==> b.timers[id].Once?
    ensures KeptOnce(Ran(b, t), id, cb)
  {
    var c := Ran(b, t);
    assert TimerLinked(b, t);
    if b.timers[t].Repeat? { assert RepLinked(b, b.timers[t].key); }
    TimesGrow(b.log, Fired(Owner(b, t), t), id);
    if t != id {
      KeptOnceOn(b, c, id, cb, Fired(Owner(b, t), t));
    }
  }

  lemma StepKeepsOnce(b: Book, s: Step, id: TimerId, cb: nat)
    requires Inv(b) && Enabled(b, s) && id.at > 0 && id.num <= b.num && KeptOnce(b, id, cb)
    ensures KeptOnce(Do(b, s), id, cb) && b.num <= Do(b, s).num
  {
    match s
    case Acts(Cancel(x)) => if MayCancel(b, x) { CancelKeepsOnce(b, x, id, cb); }
    case Fires(t) => FireKeepsOnce(b, t, id, cb);
    case _ => KeptOnceOn(b, Do(b, s), id, cb, Cancelled(TimerId(0, 0)));
  }

  lemma {:induction false} RunKeepsOnce(b: Book, steps: seq<Step>, c: Book, id: TimerId, cb: nat)
    requires Inv(b) && Reaches(b, steps, c) && id.at > 0 && id.num <= b.num && KeptOnce(b, id, cb)
    ensures KeptOnce(c, id, cb)
    decreases |steps|
  {
    if steps != [] {
      StepInv(b, steps[0]);
      StepKeepsOnce(b, steps[0], id, cb);
      RunKeepsOnce(Do(b, steps[0]), steps[1..], c, id, cb);
    }
  }

  /** A one-shot timer in every run: it fires at most once, for its time, and whenever nothing is due and
      its time has come it has fired or was cancelled. */
  lemma OneShotTimer(before: seq<Step>, b: Book, milli: int, cb: nat, after: seq<Step>, c: Book)
    requires Reaches(EMPTY, before, b) && !b.exited && milli > 0
    requires Reaches(Scheduled(b, milli, cb, 0), after, c)
    ensures var id := IdOf(b, milli, 0);
            && (Times(c.log, id) == [] || Times(c.log, id) == [milli])
            && (Times(c.log, id) == [] && Cancelled(id) !in c.log ==> id in c.timers && c.timers[id] == Once(cb))
            && (DueAt(c, c.clock) == {} && c.num < 0x4000_0000_0000_0000 && milli <= c.clock ==>
                  Times(c.log, id) == [milli] || Cancelled(id) in c.log)
  {
    var id, s := IdOf(b, milli, 0), Scheduled(b, milli, cb, 0);
    AlwaysConsistent(before, b);
    ScheduledKeeps(b, milli, cb, 0);
    TimesUnknown(b.log, id);
    RunKeepsOnce(s, after, c, id, cb);
    RunInv(s, after, c);
    if id in c.timers && DueAt(c, c.clock) == {} {
      assert id !in DueAt(c, c.clock);
    }
  }

  // ----- after exit

  ghost predicate Owns(b: Book, id: TimerId) {
    exists t :: t in b.timers && Owner(b, t) == id
  }

  lemma FiredOwns(b: Book, f: TimerId, t: TimerId)
    requires Linked(b) && f in b.timers && TimerLinked(b, f) && t in Ran(b, f).timers
    ensures Owns(b, Owner(Ran(b, f), t))
  {
    if t in b.timers && Ran(b, f).timers[t] == b.timers[t] {
      assert Owner(b, t) == Owner(Ran(b, f), t);
    } else {
      assert Owner(b, f) == Owner(Ran(b, f), t);
    }
  }

  lemma StepAfterExit(b: Book, s: Step, id: TimerId)
    requires Inv(b) && b.exited && Enabled(b, s)
    ensures Do(b, s).exited && (Owns(Do(b, s), id) ==> Owns(b, id))
  {
    if Owns(Do(b, s), id) {
      var t :| t in Do(b, s).timers && Owner(Do(b, s), t) == id;
      if s.Fires? { FiredOwns(b, s.t, t); } else { assert t in b.timers && Owner(b, t) == id; }
    }
  }

  lemma {:induction false} ExitStays(b: Book, steps: seq<Step>, c: Book, id: TimerId)
    requires Inv(b) && b.exited && Reaches(b, steps, c)
    ensures c.exited && (Owns(c, id) ==> Owns(b, id))
    decreases |steps|
  {
    if steps != [] {
      StepInv(b, steps[0]);
      StepAfterExit(b, steps[0], id);
      ExitStays(Do(b, steps[0]), steps[1..], c, id);
    }
  }

  /** Once the loop is told to exit, nobody comes to own an entry who did not own one. */
  lemma NothingNewAfterExit(b: Book, steps: seq<Step>, c: Book, id: TimerId)
    requires Inv(b) && Reaches(Do(b, Acts(Exit)), steps, c)
    ensures c.exited && (Owns(c, id) ==> Owns(b, id))
  {
    StepInv(b, Acts(Exit));
    ExitStays(Do(b, Acts(Exit)), steps, c, id);
    if Owns(Do(b, Acts(Exit)), id) {
      var t :| t in b.timers && Owner(Do(b, Acts(Exit)), t) == id;
      assert Owner(b, t) == id;
    }
  }
}
