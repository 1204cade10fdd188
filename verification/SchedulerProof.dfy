/** Safety of the scheduler over every interleaving. */
module SchedulerProof {
  import opened Scheduler

  lemma InitInv(workers: nat, now: int)
    ensures Inv(Init(workers, now))
  {
    forall x: nat
      ensures HandedThere(Init(workers, now), x)
    {
      NoCalls(Init(workers, now).workers, x);
    }
  }

  lemma {:induction false} NoCalls(ws: seq<Worker>, x: nat)
    requires forall w | 0 <= w < |ws| :: !ws[w].Running?
    ensures Calls(ws, x) == 0
  {
    if ws != [] { NoCalls(ws[..|ws| - 1], x); }
  }

  // ----- the multimap

  lemma {:induction false} CountSum(a: seq<Entry>, b: seq<Entry>, x: nat)
    ensures Count(a + b, x) == Count(a, x) + Count(b, x)
  {
    if b == [] {
      assert a + b == a;
    } else {
      assert (a + b)[..|a + b| - 1] == a + b[..|b| - 1];
      CountSum(a, b[..|b| - 1], x);
    }
  }

  lemma {:induction false} CountIdsSum(a: seq<nat>, b: seq<nat>, x: nat)
    ensures CountIds(a + b, x) == CountIds(a, x) + CountIds(b, x)
  {
    if b == [] {
      assert a + b == a;
    } else {
      assert (a + b)[..|a + b| - 1] == a + b[..|b| - 1];
      CountIdsSum(a, b[..|b| - 1], x);
    }
  }

  lemma CountFirst(es: seq<Entry>, x: nat)
    requires es != []
    ensures Count(es, x) == Count(es[1..], x) + if es[0].task == x then 1 else 0
  {
    assert es == [es[0]] + es[1..];
    CountSum([es[0]], es[1..], x);
    assert Count([es[0]], x) == Count([], x) + if es[0].task == x then 1 else 0;
  }

  lemma {:induction false} CountEmplace(es: seq<Entry>, e: Entry, x: nat)
    ensures Count(Emplace(es, e), x) == Count(es, x) + if e.task == x then 1 else 0
  {
    CountFirst(Emplace(es, e), x);
    if es == [] || e.time < es[0].time {
      assert Emplace(es, e)[1..] == es;
    } else {
      assert Emplace(es, e)[1..] == Emplace(es[1..], e);
      CountFirst(es, x);
      CountEmplace(es[1..], e, x);
    }
  }

  lemma CountIdsFirst(xs: seq<nat>, x: nat)
    requires xs != []
    ensures CountIds(xs, x) == CountIds(xs[1..], x) + if xs[0] == x then 1 else 0
  {
    assert xs == [xs[0]] + xs[1..];
    CountIdsSum([xs[0]], xs[1..], x);
    assert CountIds([xs[0]], x) == CountIds([], x) + if xs[0] == x then 1 else 0;
  }

  lemma CountIdsLast(xs: seq<nat>, y: nat, x: nat)
    ensures CountIds(xs + [y], x) == CountIds(xs, x) + if y == x then 1 else 0
  {
    assert (xs + [y])[..|xs|] == xs;
  }

  lemma {:induction false} CountNone(es: seq<Entry>, x: nat)
    requires forall e | e in es :: e.task != x
    ensures Count(es, x) == 0
  {
    if es != [] { CountNone(es[..|es| - 1], x); }
  }

  lemma {:induction false} CountIdsNone(xs: seq<nat>, x: nat)
    requires x !in xs
    ensures CountIds(xs, x) == 0
  {
    if xs != [] { CountIdsNone(xs[..|xs| - 1], x); }
  }

  lemma {:induction false} EmplaceMembers(es: seq<Entry>, e: Entry)
    ensures forall x :: x in Emplace(es, e) <==> x in es || x == e
  {
    if es != [] && es[0].time <= e.time {
      assert es == [es[0]] + es[1..];
      EmplaceMembers(es[1..], e);
    }
  }

  lemma {:induction false} EmplaceSorted(es: seq<Entry>, e: Entry)
    requires Sorted(es)
    ensures Sorted(Emplace(es, e))
  {
    if es != [] && es[0].time <= e.time {
      EmplaceSorted(es[1..], e);
      EmplaceMembers(es[1..], e);
      var r := Emplace(es[1..], e);
      assert forall j | 0 <= j < |r| :: r[j] in r;
    }
  }

  lemma {:induction false} HandsUpdate(ws: seq<Worker>, w: nat, pc: Worker, x: nat)
    requires w < |ws|
    ensures Hands(ws[w := pc], x) == Hands(ws, x) - InHand(ws[w], x) + InHand(pc, x)
  {
    var n := |ws| - 1;
    if w == n {
      assert ws[w := pc][..n] == ws[..n];
    } else {
      assert ws[w := pc][..n] == ws[..n][w := pc];
      HandsUpdate(ws[..n], w, pc, x);
    }
  }

  lemma {:induction false} NoHands(ws: seq<Worker>, x: nat)
    requires forall w | 0 <= w < |ws| :: InHand(ws[w], x) == 0
    ensures Hands(ws, x) == 0
  {
    if ws != [] { NoHands(ws[..|ws| - 1], x); }
  }

  lemma {:induction false} CallsUpdate(ws: seq<Worker>, w: nat, pc: Worker, x: nat)
    requires w < |ws|
    ensures Calls(ws[w := pc], x) == Calls(ws, x) - (if ws[w] == Running(x) then 1 else 0) + if pc == Running(x) then 1 else 0
  {
    var n := |ws| - 1;
    if w == n {
      assert ws[w := pc][..n] == ws[..n];
    } else {
      assert ws[w := pc][..n] == ws[..n][w := pc];
      CallsUpdate(ws[..n], w, pc, x);
    }
  }

  // ----- each part of the invariant

  lemma StepOneHolder(s: State, a: Action)
    requires OneHolder(s) && Enabled(s, a)
    ensures OneHolder(Do(s, a))
  {
  }

  lemma StepMapOk(s: State, a: Action)
    requires OneHolder(s) && MapOk(s) && Enabled(s, a)
    ensures MapOk(Do(s, a))
  {
    if a.ClientEmplace? {
      EmplaceKeepsMap(s, s.holder.e, Do(s, a));
    } else if a.WorkerEmplace? {
      EmplaceKeepsMap(s, s.workers[a.w].e, Do(s, a));
    } else if a.Readd? {
      EmplaceKeepsMap(s, s.thread.again[0], Do(s, a));
    } else if a.Hand? {
      HandKeepsPass(s, a.newTime);
    } else if a.LockTasks? {
      LockStartsPass(s);
    }
  }

  lemma LockStartsPass(s: State)
    requires OneHolder(s) && MapOk(s) && Enabled(s, LockTasks)
    ensures MapOk(Do(s, LockTasks))
  {
    assert Tasks(s.tasks[..0]) == [];
  }

  lemma EmplaceKeepsMap(s: State, e: Entry, t: State)
    requires MapOk(s) && t.tasks == Emplace(s.tasks, e) && !t.thread.Handing?
    ensures MapOk(t)
  {
    EmplaceSorted(s.tasks, e);
  }

  lemma HandKeepsPass(s: State, newTime: int)
    requires MapOk(s) && Enabled(s, Hand(newTime))
    ensures MapOk(Do(s, Hand(newTime)))
  {
    var t := Do(s, Hand(newTime));
    var n := s.thread.next;
    TasksTake(s.tasks, n);
    TailGrows(s.handed, n, s.tasks[n].task);
  }

  lemma TasksTake(es: seq<Entry>, n: nat)
    requires n < |es|
    ensures Tasks(es[..n + 1]) == Tasks(es[..n]) + [es[n].task]
  {
  }

  lemma TailGrows(s: seq<nat>, n: nat, x: nat)
    requires n <= |s|
    ensures (s + [x])[|s| + 1 - (n + 1)..] == s[|s| - n..] + [x]
  {
  }

  lemma StepPunctual(s: State, a: Action)
    requires OneHolder(s) && MapOk(s) && Punctual(s) && Enabled(s, a)
    ensures Punctual(Do(s, a))
  {
  }

  lemma StepAimed(s: State, a: Action)
    requires Sorted(s.tasks) && Aimed(s) && Enabled(s, a)
    ensures Aimed(Do(s, a))
  {
    if a.ClientEmplace? {
      EmplaceMembers(s.tasks, s.holder.e);
    } else if a.WorkerEmplace? {
      EmplaceMembers(s.tasks, s.workers[a.w].e);
    } else if a.Peek? {
      assert s.tasks[0] in s.tasks;
    }
  }

  lemma StepHandedThere(s: State, a: Action)
    requires OneHolder(s) && AllHandedThere(s) && Enabled(s, a)
    ensures AllHandedThere(Do(s, a))
  {
    forall x: nat
      ensures HandedThere(Do(s, a), x)
    {
      assert HandedThere(s, x);
      if a.Hand? {
        CountIdsLast(s.queue, s.tasks[s.thread.next].task, x);
        CountIdsLast(s.handed, s.tasks[s.thread.next].task, x);
      } else if a.Take? {
        CountIdsFirst(s.queue, x);
        CallsUpdate(s.workers, a.w, Do(s, a).workers[a.w], x);
      } else if a.Return? || a.WorkerLock? || a.WorkerEmplace? || a.WorkerInterrupt? {
        if a.Return? { CountIdsLast(s.ran, s.workers[a.w].task, x); }
        CallsUpdate(s.workers, a.w, Do(s, a).workers[a.w], x);
      }
    }
  }

  predicate ThreadWaits(a: Action) {
    a.Check? || a.Look? || a.Peek? || a.Sleep? || a.Wakeup? || a.Timeout? || a.LockTasks?
  }

  lemma ThreadWaitsEnding(s: State, a: Action)
    requires Ending(s) && Enabled(s, a) && ThreadWaits(a)
    ensures Ending(Do(s, a))
  {
  }

  lemma OthersEnding(s: State, a: Action)
    requires Ending(s) && Enabled(s, a) && !ThreadWaits(a)
    ensures Ending(Do(s, a))
  {
  }

  lemma StepEnding(s: State, a: Action)
    requires Ending(s) && Enabled(s, a)
    ensures Ending(Do(s, a))
  {
    if ThreadWaits(a) { ThreadWaitsEnding(s, a); } else { OthersEnding(s, a); }
  }

  lemma StepKnown(s: State, a: Action)
    requires OneHolder(s) && Known(s) && Enabled(s, a)
    ensures Known(Do(s, a))
  {
    if a.ClientEmplace? || a.WorkerEmplace? || a.Readd? || a.Hand? {
      EmplaceKnown(s, a);
    } else if a.Take? {
      TakeKnown(s, a);
    } else if a.Return? || a.WorkerLock? || a.WorkerInterrupt? {
      WorkersKnown(s, a);
    }
  }

  lemma EmplaceKnown(s: State, a: Action)
    requires Known(s) && Enabled(s, a) && (a.ClientEmplace? || a.WorkerEmplace? || a.Readd? || a.Hand?)
    ensures Known(Do(s, a))
  {
    var es, e := s.tasks, Entry(0, 0);
    if a.ClientEmplace? {
      e := s.holder.e;
    } else if a.WorkerEmplace? {
      assert HandKnown(s.workers[a.w], s.kinds);
      e := s.workers[a.w].e;
    } else if a.Readd? {
      e := s.thread.again[0];
    } else {
      es, e := s.thread.again, Entry(a.newTime, s.tasks[s.thread.next].task);
    }
    EmplaceMembers(es, e);
  }

  lemma TakeKnown(s: State, a: Action)
    requires Known(s) && Enabled(s, a) && a.Take?
    ensures Known(Do(s, a))
  {
    assert HandKnown(s.workers[a.w], s.kinds);
    assert s.queue[0] in s.queue && forall x | x in s.queue[1..] :: x in s.queue;
  }

  lemma WorkersKnown(s: State, a: Action)
    requires Known(s) && Enabled(s, a) && (a.Return? || a.WorkerLock? || a.WorkerInterrupt?)
    ensures Known(Do(s, a))
  {
    assert HandKnown(s.workers[a.w], s.kinds);
  }

  lemma StepAccounted(s: State, a: Action)
    requires Inv(s) && Enabled(s, a)
    ensures AllAccounted(Do(s, a))
  {
    forall x: nat
      ensures Accounted(Do(s, a), x)
    {
      assert Accounted(s, x);
      if a.ClientLock? {
        ClientAccounted(s, a, x);
      } else if a.ClientEmplace? || a.WorkerEmplace? || a.Readd? {
        EmplaceAccounted(s, a, x);
      } else if a.Take? || a.Return? || a.WorkerLock? || a.WorkerInterrupt? {
        if a.Take? { TakeAccounted(s, a, x); } else { WorkersAccounted(s, a, x); }
      } else if a.Hand? {
        HandAccounted(s, a, x);
      } else {
        RestAccounted(s, a, x);
      }
    }
  }

  lemma ClientAccounted(s: State, a: Action, x: nat)
    requires Known(s) && Enabled(s, a) && a.ClientLock? && Accounted(s, x)
    ensures Accounted(Do(s, a), x)
  {
    if x == |s.kinds| {
      CountNone(Waiting(s), x);
      CountNone(Again(s), x);
      CountIdsNone(s.queue, x);
      CountIdsNone(s.handed, x);
      forall w | 0 <= w < |s.workers|
        ensures InHand(s.workers[w], x) == 0
      {
        assert HandKnown(s.workers[w], s.kinds);
      }
      NoHands(s.workers, x);
    }
  }

  lemma EmplaceAccounted(s: State, a: Action, x: nat)
    requires OneHolder(s) && Known(s) && Enabled(s, a) && (a.ClientEmplace? || a.WorkerEmplace? || a.Readd?) && Accounted(s, x)
    ensures Accounted(Do(s, a), x)
  {
    var t := Do(s, a);
    assert !s.thread.Handing? && !t.thread.Handing?;
    if a.ClientEmplace? {
      CountEmplace(s.tasks, s.holder.e, x);
      assert InMap(t, x) == InMap(s, x);
    } else if a.WorkerEmplace? {
      CountEmplace(s.tasks, s.workers[a.w].e, x);
      HandsUpdate(s.workers, a.w, Added, x);
      assert HandKnown(s.workers[a.w], s.kinds);
      assert InMap(t, x) + Hands(t.workers, x) == InMap(s, x) + Hands(s.workers, x);
    } else {
      CountEmplace(s.tasks, s.thread.again[0], x);
      CountFirst(s.thread.again, x);
      assert s.thread.again[0] in Again(s);
      assert InMap(t, x) + Count(Again(t), x) == InMap(s, x) + Count(Again(s), x);
    }
  }

  lemma TakeAccounted(s: State, a: Action, x: nat)
    requires OneHolder(s) && Enabled(s, a) && a.Take? && Accounted(s, x)
    ensures Accounted(Do(s, a), x)
  {
    HandsUpdate(s.workers, a.w, Do(s, a).workers[a.w], x);
    CountIdsFirst(s.queue, x);
  }

  lemma WorkersAccounted(s: State, a: Action, x: nat)
    requires OneHolder(s) && Enabled(s, a) && (a.Return? || a.WorkerLock? || a.WorkerInterrupt?) && Accounted(s, x)
    ensures Accounted(Do(s, a), x)
  {
    HandsUpdate(s.workers, a.w, Do(s, a).workers[a.w], x);
  }

  lemma HandAccounted(s: State, a: Action, x: nat)
    requires MapOk(s) && Enabled(s, a) && a.Hand? && Accounted(s, x)
    ensures Accounted(Do(s, a), x)
  {
    HandPlaces(s, Do(s, a), Entry(a.newTime, s.tasks[s.thread.next].task), x);
  }

  lemma HandPlaces(s: State, t: State, e: Entry, x: nat)
    requires s.thread.Handing? && s.thread.next < |s.tasks| && e.task == s.tasks[s.thread.next].task < |s.kinds|
    requires Waiting(t) == s.tasks[s.thread.next + 1..] && Entering(t) == Entering(s)
    requires Again(t) == if s.kinds[e.task] == Recurring then Emplace(s.thread.again, e) else s.thread.again
    requires t.queue == s.queue + [e.task] && t.handed == s.handed + [e.task]
    requires t.kinds == s.kinds && t.workers == s.workers && Accounted(s, x)
    ensures Accounted(t, x)
  {
    HandCounts(s, e, x);
  }

  lemma HandCounts(s: State, e: Entry, x: nat)
    requires s.thread.Handing? && s.thread.next < |s.tasks| && e.task == s.tasks[s.thread.next].task
    ensures Count(Waiting(s), x) == Count(s.tasks[s.thread.next + 1..], x) + if e.task == x then 1 else 0
    ensures Count(Emplace(s.thread.again, e), x) == Count(s.thread.again, x) + if e.task == x then 1 else 0
    ensures CountIds(s.queue + [e.task], x) == CountIds(s.queue, x) + if e.task == x then 1 else 0
    ensures CountIds(s.handed + [e.task], x) == CountIds(s.handed, x) + if e.task == x then 1 else 0
  {
    var n := s.thread.next;
    CountFirst(s.tasks[n..], x);
    assert s.tasks[n..][1..] == s.tasks[n + 1..];
    CountEmplace(s.thread.again, e, x);
    CountIdsLast(s.queue, e.task, x);
    CountIdsLast(s.handed, e.task, x);
  }

  lemma RestAccounted(s: State, a: Action, x: nat)
    requires OneHolder(s) && MapOk(s) && Enabled(s, a) && Accounted(s, x)
    requires a.Check? || a.Look? || a.Peek? || a.Sleep? || a.Wakeup? || a.Timeout? || a.LockTasks? || a.Erase? || a.Unlock?
             || a.ClientInterrupt? || a.SetDone? || a.Interrupt? || a.Tick?
    ensures Accounted(Do(s, a), x)
  {
    SamePlaces(s, Do(s, a), x);
  }

  lemma SamePlaces(s: State, t: State, x: nat)
    requires Waiting(t) == Waiting(s) && Again(t) == Again(s) && Entering(t) == Entering(s)
    requires t.kinds == s.kinds && t.queue == s.queue && t.handed == s.handed && t.workers == s.workers
    requires Accounted(s, x)
    ensures Accounted(t, x)
  {
  }

  lemma StepInv(s: State, a: Action)
    requires Inv(s) && Enabled(s, a)
    ensures Inv(Do(s, a))
  {
    StepOneHolder(s, a);
    StepKnown(s, a);
    StepAccounted(s, a);
    StepMapOk(s, a);
    StepPunctual(s, a);
    StepAimed(s, a);
    StepHandedThere(s, a);
    StepEnding(s, a);
  }

  lemma {:induction false} RunInv(s: State, actions: seq<Action>, t: State)
    requires Inv(s) && Reaches(s, actions, t)
    ensures Inv(t)
    decreases |actions|
  {
    if actions != [] {
      StepInv(s, actions[0]);
      RunInv(Do(s, actions[0]), actions[1..], t);
    }
  }

  // ----- the main results, for every run

  /** The thread never sleeps past a deadline: with a task due before the wake time it has chosen, the
      flag is set or whoever added the task is about to set it; and a set flag has notified the sleeper. */
  lemma NeverOversleeps(workers: nat, now: int, actions: seq<Action>, t: State, e: Entry)
    requires Reaches(Init(workers, now), actions, t)
    requires (t.thread.Chosen? || t.thread.Asleep?) && e in t.tasks && Before(e, t.thread.wake)
    ensures t.interrupted || AboutToInterrupt(t)
    ensures t.interrupted && t.thread.Asleep? ==> t.thread.notified
  {
    InitInv(workers, now);
    RunInv(Init(workers, now), actions, t);
  }

  /** With nobody about to interrupt and the flag not set, the thread sleeps until exactly the earliest task, and
      without an end if there is none. */
  lemma SleepsUntilEarliest(workers: nat, now: int, actions: seq<Action>, t: State)
    requires Reaches(Init(workers, now), actions, t) && (t.thread.Chosen? || t.thread.Asleep?)
    requires !t.interrupted && !AboutToInterrupt(t)
    ensures t.thread.wake == if t.tasks == [] then Never else At(t.tasks[0].time)
  {
    InitInv(workers, now);
    RunInv(Init(workers, now), actions, t);
    assert t.tasks != [] ==> !Before(t.tasks[0], t.thread.wake);
  }

  /** Everything handed to the pool is in its queue, is running, or has run, as often as it was handed. */
  lemma HandedRuns(workers: nat, now: int, actions: seq<Action>, t: State, x: nat)
    requires Reaches(Init(workers, now), actions, t)
    ensures CountIds(t.handed, x) == CountIds(t.queue, x) + Calls(t.workers, x) + CountIds(t.ran, x)
  {
    InitInv(workers, now);
    RunInv(Init(workers, now), actions, t);
    assert HandedThere(t, x);
  }

  /** After the destructor's interrupt the thread begins at most one more round and cannot stay asleep. */
  lemma DestructorEndsThread(workers: nat, now: int, actions: seq<Action>, t: State)
    requires Reaches(Init(workers, now), actions, t) && t.destructor == Interrupted
    ensures t.rounds <= 1
    ensures t.thread.Chosen? || t.thread.Asleep? ==> t.interrupted && t.rounds == 0
    ensures t.thread.Asleep? ==> t.thread.notified
  {
    InitInv(workers, now);
    RunInv(Init(workers, now), actions, t);
  }

  /** An interval task is never twice in the pool, and with the lock free it is in exactly one of the
      map, the pool's queue and a worker's hands. */
  lemma IntervalInOnePlace(workers: nat, now: int, actions: seq<Action>, t: State, x: nat)
    requires Reaches(Init(workers, now), actions, t) && x < |t.kinds| && t.kinds[x] == Interval
    ensures CountIds(t.queue, x) + Hands(t.workers, x) <= 1
    ensures t.holder == Nobody ==> Count(t.tasks, x) + CountIds(t.queue, x) + Hands(t.workers, x) == 1
  {
    InitInv(workers, now);
    RunInv(Init(workers, now), actions, t);
    assert Accounted(t, x);
  }

  /** With the lock free an `every` or `cron` task is in the map exactly once. */
  lemma RecurringInMap(workers: nat, now: int, actions: seq<Action>, t: State, x: nat)
    requires Reaches(Init(workers, now), actions, t) && x < |t.kinds| && t.kinds[x] == Recurring
    ensures t.holder == Nobody ==> Count(t.tasks, x) == 1
  {
    InitInv(workers, now);
    RunInv(Init(workers, now), actions, t);
    assert Accounted(t, x);
  }

  /** An `in` task is handed to the pool at most once, and until then it is in the map. */
  lemma OnceHandedOnce(workers: nat, now: int, actions: seq<Action>, t: State, x: nat)
    requires Reaches(Init(workers, now), actions, t) && x < |t.kinds| && t.kinds[x] == Once
    ensures CountIds(t.handed, x) <= 1
    ensures t.holder == Nobody ==> Count(t.tasks, x) == 1 - CountIds(t.handed, x)
  {
    InitInv(workers, now);
    RunInv(Init(workers, now), actions, t);
    assert Accounted(t, x);
  }

  /** A round hands over exactly the tasks due at its clock sample, earliest first, and erases no other. */
  lemma RoundHandsDue(workers: nat, now: int, actions: seq<Action>, t: State)
    requires Reaches(Init(workers, now), actions, t) && Enabled(t, Erase)
    ensures var u := Do(t, Erase);
            && (forall e | e in u.tasks :: t.thread.now < e.time)
            && t.thread.due <= |t.handed|
            && t.tasks == t.tasks[..t.thread.due] + u.tasks
            && (forall e | e in t.tasks[..t.thread.due] :: e.time <= t.thread.now)
            && t.handed[|t.handed| - t.thread.due..] == Tasks(t.tasks[..t.thread.due]) && Sorted(t.tasks)
  {
    InitInv(workers, now);
    RunInv(Init(workers, now), actions, t);
  }

  // ----- when tasks come, and come back

  lemma Three(s: State, a: Action, b: Action, c: Action)
    requires Enabled(s, a) && Enabled(Do(s, a), b) && Enabled(Do(Do(s, a), b), c)
    ensures Reaches(s, [a, b, c], Do(Do(Do(s, a), b), c))
  {
    assert [a, b, c][1..] == [b, c] && [b, c][1..] == [c] && [c][1..] == [];
    assert Reaches(Do(Do(s, a), b), [c], Do(Do(Do(s, a), b), c));
    assert Reaches(Do(s, a), [b, c], Do(Do(Do(s, a), b), c));
  }

  /** With the lock free, a task can be added for a time: then it is in the map with all that was there, and the
      thread is told. */
  lemma AddsTask(s: State, time: int, kind: Kind) returns (t: State)
    requires Inv(s) && s.holder == Nobody
    ensures Reaches(s, [ClientLock(time, kind), ClientEmplace, ClientInterrupt], t)
    ensures Entry(time, |s.kinds|) in t.tasks && t.kinds == s.kinds + [kind]
    ensures (forall e | e in s.tasks :: e in t.tasks) && t.interrupted && t.holder == Nobody
  {
    EmplaceMembers(s.tasks, Entry(time, |s.kinds|));
    t := Do(Do(Do(s, ClientLock(time, kind)), ClientEmplace), ClientInterrupt);
    Three(s, ClientLock(time, kind), ClientEmplace, ClientInterrupt);
  }

  /** With the lock free, an interval task whose function has returned can be added back for its new time. */
  lemma IntervalComesBack(s: State, w: nat, newTime: int) returns (t: State)
    requires Inv(s) && Enabled(s, Return(w, newTime)) && s.kinds[s.workers[w].task] == Interval && s.holder == Nobody
    ensures Reaches(Do(s, Return(w, newTime)), [WorkerLock(w), WorkerEmplace(w), WorkerInterrupt(w)], t)
    ensures Entry(newTime, s.workers[w].task) in t.tasks && (forall e | e in s.tasks :: e in t.tasks)
    ensures t.interrupted && t.holder == Nobody && |t.workers| == |s.workers| && t.workers[w] == Free
  {
    EmplaceMembers(s.tasks, Entry(newTime, s.workers[w].task));
    assert !s.thread.Handing? && !s.thread.Readding?;
    var u := Do(s, Return(w, newTime));
    assert u.workers[w] == Returning(Entry(newTime, s.workers[w].task)) && u.tasks == s.tasks && u.holder == Nobody;
    t := Do(Do(Do(u, WorkerLock(w)), WorkerEmplace(w)), WorkerInterrupt(w));
    Three(u, WorkerLock(w), WorkerEmplace(w), WorkerInterrupt(w));
  }

  /** On its way back into the map, within a round. */
  ghost predicate ComingBack(s: State, e: Entry) {
    e in Again(s) || (s.thread.Readding? && e in s.tasks)
  }

  lemma StepComesBack(s: State, a: Action, e: Entry)
    requires OneHolder(s) && ComingBack(s, e) && Enabled(s, a) && !a.Unlock?
    ensures ComingBack(Do(s, a), e)
  {
    if a.Hand? {
      EmplaceMembers(s.thread.again, Entry(a.newTime, s.tasks[s.thread.next].task));
    } else if a.Readd? {
      EmplaceMembers(s.tasks, s.thread.again[0]);
      assert s.thread.again == [s.thread.again[0]] + s.thread.again[1..];
    }
  }

  lemma {:induction false} ComesBack(s: State, actions: seq<Action>, t: State, e: Entry)
    requires OneHolder(s) && ComingBack(s, e) && Reaches(s, actions, t) && Unlock !in actions
    ensures ComingBack(t, e)
    decreases |actions|
  {
    if actions != [] {
      StepOneHolder(s, actions[0]);
      StepComesBack(s, actions[0], e);
      ComesBack(Do(s, actions[0]), actions[1..], t, e);
    }
  }

  /** A recurring task that a round hands over is back in the map for its new time when the round ends. */
  lemma RecursAt(s: State, newTime: int, actions: seq<Action>, t: State)
    requires Inv(s) && Enabled(s, Hand(newTime)) && s.kinds[s.tasks[s.thread.next].task] == Recurring
    requires Reaches(Do(s, Hand(newTime)), actions, t) && Unlock !in actions && Enabled(t, Unlock)
    ensures Entry(newTime, s.tasks[s.thread.next].task) in Do(t, Unlock).tasks
  {
    var e := Entry(newTime, s.tasks[s.thread.next].task);
    EmplaceMembers(s.thread.again, e);
    StepOneHolder(s, Hand(newTime));
    ComesBack(Do(s, Hand(newTime)), actions, t, e);
  }

  // ----- the destructor's interrupt ends the thread

  predicate ThreadActs(a: Action) {
    a.Check? || a.Look? || a.Peek? || a.Sleep? || a.Wakeup? || a.Timeout? || a.LockTasks?
    || a.Hand? || a.Erase? || a.Readd? || a.Unlock?
  }

  /** How far the thread still is from its end. */
  function Phase(t: Thread): nat {
    match t
    case Gone => 0
    case Checking => 1
    case Readding(_) => 2
    case Handing(_, _, _, _) => 3
    case Managing => 4
    case Asleep(_, _) => 5
    case Chosen(_) => 6
    case Peeking => 7
    case Looking => 8
  }

  function Work(t: Thread): int {
    match t
    case Readding(again) => |again|
    case Handing(_, due, next, _) => due - next
    case _ => 0
  }

  predicate Nearer(t: Thread, u: Thread) {
    Phase(t) < Phase(u) || (Phase(t) == Phase(u) && 0 <= Work(t) < Work(u))
  }

  /** Every step of the thread brings its end nearer, and no step of any other thread takes it away. */
  lemma ThreadNears(s: State, a: Action)
    requires Inv(s) && s.destructor == Interrupted && Enabled(s, a)
    ensures if ThreadActs(a) then Nearer(Do(s, a).thread, s.thread)
            else Phase(Do(s, a).thread) == Phase(s.thread) && Work(Do(s, a).thread) == Work(s.thread)
    ensures Do(s, a).destructor == Interrupted
  {
  }

  /** Until it is gone it can take a step, or whoever has the lock can. */
  lemma ThreadMoves(s: State) returns (a: Action)
    requires Inv(s) && s.destructor == Interrupted && !s.thread.Gone?
    ensures Enabled(s, a) && (ThreadActs(a) || a.ClientEmplace? || a.ClientInterrupt? || a.WorkerEmplace? || a.WorkerInterrupt?)
  {
    match s.thread
    case Checking => a := Check;
    case Looking => a := Look;
    case Peeking => a := Peek;
    case Chosen(_) => a := Sleep;
    case Asleep(_, _) => a := Wakeup;
    case Managing =>
      a := match s.holder
        case Nobody => LockTasks
        case ByClient(_, emplaced) => if emplaced then ClientInterrupt else ClientEmplace
        case ByWorker(w) => if s.workers[w].Adding? then WorkerEmplace(w) else WorkerInterrupt(w)
        case ByThread => Check;
    case Handing(_, due, next, _) => a := if next < due then Hand(0) else Erase;
    case Readding(again) => a := if again == [] then Unlock else Readd;
  }
}
