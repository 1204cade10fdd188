/** The timer maps of handy/event_base.cc: what scheduling, cancelling and firing do to them, and what
    each of these keeps. */
module Timers {
  /** Ordered by time, then by sequence number. An id handed out for a repeating timer has a negative time. */
  datatype TimerId = TimerId(at: int, num: int)

  predicate Before(a: TimerId, b: TimerId) {
    a.at < b.at || (a.at == b.at && a.num < b.num)
  }

  /** A user's callback, or the closure that re-arms a repeating timer. */
  datatype Task = Once(cb: nat) | Repeat(key: TimerId)

  datatype TimerRepeatable = TimerRepeatable(at: int, interval: int, timerid: TimerId, cb: nat)

  /** What happened to the timer with the id its owner holds; `tid` is the entry that was due. */
  datatype Event = Fired(id: TimerId, tid: TimerId) | Cancelled(id: TimerId)

  /** The maps, the last sequence number, what has happened, the clock sample of the latest pass, and whether
      the loop was told to exit. */
  datatype Book = Book(
    timers: map<TimerId, Task>,
    reps: map<TimerId, TimerRepeatable>,
    num: int,
    log: seq<Event>,
    clock: int,
    exited: bool)

  // ----- operations

  function IdOf(b: Book, milli: int, interval: int): TimerId {
    if b.exited then TimerId(0, 0)
    else if interval != 0 then TimerId(-milli, b.num + 1) else TimerId(milli, b.num + 1)
  }

  function Scheduled(b: Book, milli: int, cb: nat, interval: int): Book {
    var id := IdOf(b, milli, interval);
    if b.exited then b
    else if interval != 0 then
      var tid := TimerId(milli, b.num + 2);
      b.(reps := b.reps[id := TimerRepeatable(milli, interval, tid, cb)], timers := b.timers[tid := Repeat(id)],
         num := b.num + 2)
    else
      b.(timers := b.timers[id := Once(cb)], num := b.num + 1)
  }

  /** A caller may cancel any one-shot id, and a repeating id it has not cancelled before; ids that
      re-arming makes are never handed out. */
  predicate MayCancel(b: Book, id: TimerId) {
    if id.at < 0 then id in b.reps else id in b.timers ==> b.timers[id].Once?
  }

  predicate Live(b: Book, id: TimerId) {
    if id.at < 0 then id in b.reps else id in b.timers
  }

  function Withdrawn(b: Book, id: TimerId): Book
    requires MayCancel(b, id)
  {
    if !Live(b, id) then b
    else if id.at < 0 then
      b.(timers := b.timers - {b.reps[id].timerid}, reps := b.reps - {id}, log := b.log + [Cancelled(id)])
    else
      b.(timers := b.timers - {id}, log := b.log + [Cancelled(id)])
  }

  /** The id that the owner of an entry holds. */
  function Owner(b: Book, t: TimerId): TimerId
    requires t in b.timers
  {
    match b.timers[t]
    case Once(_) => t
    case Repeat(key) => key
  }

  function Rearmed(b: Book, key: TimerId): Book
    requires key in b.reps
  {
    var tr := b.reps[key];
    var tid := TimerId(tr.at + tr.interval, b.num + 1);
    b.(reps := b.reps[key := tr.(at := tid.at, timerid := tid)], timers := b.timers[tid := Repeat(key)],
       num := b.num + 1)
  }

  /** Entry t leaves the map, is re-armed if it repeats, and its callback is about to run. */
  function Ran(b: Book, t: TimerId): Book
    requires t in b.timers && (b.timers[t].Repeat? ==> b.timers[t].key in b.reps)
  {
    var out := b.(timers := b.timers - {t}, log := b.log + [Fired(Owner(b, t), t)]);
    if b.timers[t].Once? then out else Rearmed(out, b.timers[t].key)
  }

  /** What a callback may do with timers. */
  datatype Action = RunAt(milli: int, cb: nat, interval: int) | Cancel(id: TimerId) | Exit

  /** One action; a cancel that is not the callback's to make is left out. */
  function Acted(b: Book, a: Action): Book {
    match a
    case RunAt(milli, cb, interval) => Scheduled(b, milli, cb, interval)
    case Cancel(id) => if MayCancel(b, id) then Withdrawn(b, id) else b
    case Exit => b.(exited := true)
  }

  function Called(b: Book, actions: seq<Action>): Book
    decreases |actions|
  {
    if actions == [] then b else Called(Acted(b, actions[0]), actions[1..])
  }

  // ----- invariants

  ghost predicate RepLinked(b: Book, k: TimerId)
    requires k in b.reps
  {
    var tr := b.reps[k];
    && k.at < 0 && tr.interval > 0 && tr.timerid.at == tr.at
    && tr.timerid in b.timers && b.timers[tr.timerid] == Repeat(k)
  }

  ghost predicate TimerLinked(b: Book, t: TimerId)
    requires t in b.timers
  {
    && t.at > 0
    && match b.timers[t]
       case Once(_) => true
       case Repeat(key) => key in b.reps && b.reps[key].timerid == t
  }

  /** The two maps point at each other. */
  ghost predicate Linked(b: Book) {
    && (forall k | k in b.reps :: RepLinked(b, k))
    && (forall t | t in b.timers :: TimerLinked(b, t))
  }

  /** No two timers share a sequence number, and new numbers are larger than any in use or logged. */
  ghost predicate Numbered(b: Book) {
    && (forall t | t in b.timers :: t.num <= b.num)
    && (forall t, u | t in b.timers && u in b.timers :: t.num == u.num ==> t == u)
    && (forall k | k in b.reps :: k.num <= b.num)
    && (forall i | 0 <= i < |b.log| :: b.log[i].id.num <= b.num)
  }

  /** After a timer is cancelled, or has fired as a one-shot, it does not fire again. */
  ghost predicate Silenced(log: seq<Event>) {
    forall i, j | 0 <= i < j < |log| ::
      log[i].id == log[j].id && (log[i].Cancelled? || log[i].id.at > 0) ==> !log[j].Fired?
  }

  /** No timer that is to be silent is in the maps. */
  ghost predicate Quiet(b: Book) {
    && Silenced(b.log)
    && forall i | 0 <= i < |b.log| ::
         if b.log[i].id.at > 0 then b.log[i].id !in b.timers else b.log[i].Cancelled? ==> b.log[i].id !in b.reps
  }

  /** The instants for which a timer has fired. */
  function Times(log: seq<Event>, id: TimerId): seq<int> {
    if log == [] then [] else
      var last := log[|log| - 1];
      Times(log[..|log| - 1], id) + if last.Fired? && last.id == id then [last.tid.at] else []
  }

  /** first + n * interval */
  function Instant(first: int, interval: int, n: nat): int {
    if n == 0 then first else Instant(first, interval, n - 1) + interval
  }

  /** first, first + interval, ..., n of them */
  function Schedule(first: int, interval: int, n: nat): (s: seq<int>)
    ensures |s| == n
  {
    if n == 0 then [] else Schedule(first, interval, n - 1) + [Instant(first, interval, n - 1)]
  }

  /** A timer has fired for the first instants of its schedule, and is armed for the next. */
  ghost predicate OnSchedule(times: seq<int>, first: int, interval: int, at: int, clock: int) {
    && times == Schedule(first, interval, |times|)
    && at == Instant(first, interval, |times|)
    && (times != [] ==> at - interval <= clock)
  }

  ghost predicate OnTimeAt(b: Book, k: TimerId)
    requires k in b.reps
  {
    OnSchedule(Times(b.log, k), -k.at, b.reps[k].interval, b.reps[k].at, b.clock)
  }

  ghost predicate OnTime(b: Book) {
    forall k | k in b.reps :: OnTimeAt(b, k)
  }

  ghost predicate Inv(b: Book) {
    Linked(b) && Numbered(b) && Quiet(b) && OnTime(b)
  }

  // ----- every operation keeps them

  lemma {:induction false} TimesUnknown(log: seq<Event>, id: TimerId)
    requires forall i | 0 <= i < |log| :: log[i].id != id
    ensures Times(log, id) == []
  {
    if log != [] { TimesUnknown(log[..|log| - 1], id); }
  }

  lemma TimesGrow(log: seq<Event>, e: Event, id: TimerId)
    ensures Times(log + [e], id) == Times(log, id) + if e.Fired? && e.id == id then [e.tid.at] else []
  {
    assert (log + [e])[..|log|] == log;
  }

  lemma ScheduledLinks(b: Book, milli: int, cb: nat, interval: int)
    requires Linked(b) && Numbered(b) && milli > 0 && interval >= 0
    ensures Linked(Scheduled(b, milli, cb, interval))
  {
    var c := Scheduled(b, milli, cb, interval);
    forall k | k in c.reps
      ensures RepLinked(c, k)
    {
      if k in b.reps { assert RepLinked(b, k); }
    }
    forall t | t in c.timers
      ensures TimerLinked(c, t)
    {
      if t in b.timers { assert TimerLinked(b, t); }
    }
  }

  lemma ScheduledNumbers(b: Book, milli: int, cb: nat, interval: int)
    requires Numbered(b)
    ensures Numbered(Scheduled(b, milli, cb, interval))
  {
  }

  lemma ScheduledOnTime(b: Book, milli: int, cb: nat, interval: int)
    requires OnTime(b) && Numbered(b)
    ensures OnTime(Scheduled(b, milli, cb, interval))
  {
    if !b.exited && interval != 0 {
      TimesUnknown(b.log, IdOf(b, milli, interval));
    }
  }

  lemma ScheduledKeeps(b: Book, milli: int, cb: nat, interval: int)
    requires Inv(b) && milli > 0 && interval >= 0
    ensures Inv(Scheduled(b, milli, cb, interval))
  {
    ScheduledLinks(b, milli, cb, interval);
    ScheduledNumbers(b, milli, cb, interval);
    ScheduledOnTime(b, milli, cb, interval);
  }

  lemma WithdrawnLinks(b: Book, id: TimerId)
    requires Linked(b) && MayCancel(b, id)
    ensures Linked(Withdrawn(b, id))
  {
  }

  lemma WithdrawnQuiet(b: Book, id: TimerId)
    requires Linked(b) && Quiet(b) && MayCancel(b, id)
    ensures Quiet(Withdrawn(b, id))
  {
  }

  lemma WithdrawnOnTime(b: Book, id: TimerId)
    requires OnTime(b) && MayCancel(b, id)
    ensures OnTime(Withdrawn(b, id))
  {
    var c := Withdrawn(b, id);
    if Live(b, id) {
      forall k | k in c.reps
        ensures Times(c.log, k) == Times(b.log, k)
      {
        TimesGrow(b.log, Cancelled(id), k);
      }
    }
  }

  lemma WithdrawnKeeps(b: Book, id: TimerId)
    requires Inv(b) && MayCancel(b, id)
    ensures Inv(Withdrawn(b, id))
  {
    WithdrawnLinks(b, id);
    WithdrawnQuiet(b, id);
    WithdrawnOnTime(b, id);
    assert Numbered(Withdrawn(b, id));
  }

  /** Cancelling a live timer takes away what it owns, its entry in one map or in both, and nothing else. */
  lemma WithdrawnEnds(b: Book, id: TimerId)
    requires Linked(b) && MayCancel(b, id) && Live(b, id)
    ensures var c := Withdrawn(b, id);
            && !Live(c, id)
            && (forall t :: t in c.timers <==> t in b.timers && Owner(b, t) != id)
            && (forall k :: k in c.reps <==> k in b.reps && k != id)
            && (forall t | t in c.timers :: c.timers[t] == b.timers[t])
            && (forall k | k in c.reps :: c.reps[k] == b.reps[k])
            && c.log == b.log + [Cancelled(id)] && c.num == b.num && c.clock == b.clock && c.exited == b.exited
  {
    if id.at < 0 { assert RepLinked(b, id); }
    forall t | t in b.timers
      ensures t in Withdrawn(b, id).timers <==> Owner(b, t) != id
    {
      assert TimerLinked(b, t);
      if b.timers[t].Repeat? { assert RepLinked(b, b.timers[t].key); }
    }
  }

  /** What is new in the map has a new number; what is new in the log an old one. */
  lemma NumbersOn(b: Book, c: Book, log: seq<Event>)
    requires Numbered(b) && b.num <= c.num && c.log == b.log + log
    requires forall t | t in c.timers && t !in b.timers :: t.num == c.num > b.num
    requires forall t, u | t in c.timers && u in c.timers && t !in b.timers && u !in b.timers :: t == u
    requires forall k | k in c.reps :: k in b.reps
    requires forall i | 0 <= i < |log| :: log[i].id.num <= b.num
    ensures Numbered(c)
  {
  }

  lemma RanNumbers(b: Book, t: TimerId)
    requires Linked(b) && Numbered(b) && t in b.timers
    ensures Numbered(Ran(b, t))
  {
    assert TimerLinked(b, t);
    NumbersOn(b, Ran(b, t), [Fired(Owner(b, t), t)]);
  }

  lemma RanLinks(b: Book, t: TimerId)
    requires Linked(b) && Numbered(b) && t in b.timers
    ensures Linked(Ran(b, t))
  {
    var c, e := Ran(b, t), Owner(b, t);
    assert TimerLinked(b, t);
    if b.timers[t].Repeat? { assert RepLinked(b, e); }
    forall k | k in c.reps
      ensures RepLinked(c, k)
    {
      assert RepLinked(b, k);
    }
    forall u | u in c.timers
      ensures TimerLinked(c, u)
    {
      if u in b.timers { assert TimerLinked(b, u); }
    }
  }

  lemma RanQuiet(b: Book, t: TimerId)
    requires Linked(b) && Numbered(b) && Quiet(b) && t in b.timers
    ensures Quiet(Ran(b, t))
  {
  }

  lemma NextOnSchedule(times: seq<int>, first: int, interval: int, at: int, clock: int, now: int)
    requires OnSchedule(times, first, interval, at, clock) && at <= now
    ensures OnSchedule(times + [at], first, interval, at + interval, now)
  {
    assert |times + [at]| == |times| + 1;
  }

  lemma RanOnTimeAt(b: Book, t: TimerId, now: int, k: TimerId)
    requires t in b.timers && TimerLinked(b, t) && t.at <= now && b.clock <= now
    requires k in b.reps && RepLinked(b, k) && OnTimeAt(b, k)
    ensures OnTimeAt(Ran(b, t).(clock := now), k)
  {
    var e := Fired(Owner(b, t), t);
    TimesGrow(b.log, e, k);
    if e.id == k {
      assert t.at == b.reps[k].at;
      NextOnSchedule(Times(b.log, k), -k.at, b.reps[k].interval, t.at, b.clock, now);
    } else {
      assert Times(b.log, k) + [] == Times(b.log, k);
    }
  }

  lemma RanOnTime(b: Book, t: TimerId, now: int)
    requires Linked(b) && OnTime(b) && t in b.timers && t.at <= now && b.clock <= now
    ensures OnTime(Ran(b, t).(clock := now))
  {
    assert TimerLinked(b, t);
    forall k | k in b.reps
      ensures OnTimeAt(Ran(b, t).(clock := now), k)
    {
      assert OnTimeAt(b, k) && RepLinked(b, k);
      RanOnTimeAt(b, t, now, k);
    }
    assert Ran(b, t).reps.Keys == b.reps.Keys;
  }

  lemma RanKeeps(b: Book, t: TimerId, now: int)
    requires Inv(b) && t in b.timers && t.at <= now && b.clock <= now
    ensures Inv(Ran(b, t).(clock := now))
  {
    RanNumbers(b, t);
    RanLinks(b, t);
    RanQuiet(b, t);
    RanOnTime(b, t, now);
  }
}
