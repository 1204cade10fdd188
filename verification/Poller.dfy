/** The epoll poller of handy/poller.cc: a batch of events whose handlers may add and remove channels,
    those still waiting in the batch included. */
module Poller {
  const MAX_EVENTS: nat := 2000

  /** A channel's address; a removed channel's may be used again for a new one. */
  type Channel = nat

  datatype Ready = Ready(read: bool, error: bool, write: bool)

  /** What epoll_wait stores; -1 stands for the null pointer. */
  datatype Event = Event(ptr: int, ready: Ready)

  /** What a handler does to the poller. */
  datatype Action = Add(ch: Channel) | Remove(ch: Channel)

  datatype Callback = Reads | Writes

  /** A call from the loop, and the channels that were live when it was made. */
  datatype Call = Call(ch: int, cb: Callback, live: set<Channel>)

  // ----- what a batch is meant to do

  /** A live channel is not added, and only a live one is removed. */
  function Live(live: set<Channel>, actions: seq<Action>): set<Channel>
    decreases |actions|
  {
    if actions == [] then live
    else match actions[0]
         case Add(ch) => Live(live + {ch}, actions[1..])
         case Remove(ch) => Live(live - {ch}, actions[1..])
  }

  function Taken(live: set<Channel>, actions: seq<Action>): set<Channel>
    decreases |actions|
  {
    if actions == [] then {}
    else match actions[0]
         case Add(ch) => Taken(live + {ch}, actions[1..])
         case Remove(ch) => (if ch in live then {ch} else {}) + Taken(live - {ch}, actions[1..])
  }

  function CallbackFor(r: Ready): Callback {
    if r.read || r.error then Reads else Writes
  }

  /** From the last reported channel down: those not removed since the report are called, and what their
      handlers do happens before the next. `gone` are the channels removed since the report. */
  function Batch(report: seq<Event>, i: nat, live: set<Channel>, gone: set<Channel>, script: nat -> seq<Action>, k: nat): seq<Call>
    requires i <= |report|
    decreases i
  {
    if i == 0 then []
    else
      var e := report[i - 1];
      if e.ptr >= 0 && e.ptr as Channel in gone then Batch(report, i - 1, live, gone, script, k)
      else
        [Call(e.ptr, CallbackFor(e.ready), live)]
        + Batch(report, i - 1, Live(live, script(k)), gone + Taken(live, script(k)), script, k + 1)
  }

  function LiveAfter(report: seq<Event>, i: nat, live: set<Channel>, gone: set<Channel>, script: nat -> seq<Action>, k: nat): set<Channel>
    requires i <= |report|
    decreases i
  {
    if i == 0 then live
    else
      var e := report[i - 1];
      if e.ptr >= 0 && e.ptr as Channel in gone then LiveAfter(report, i - 1, live, gone, script, k)
      else LiveAfter(report, i - 1, Live(live, script(k)), gone + Taken(live, script(k)), script, k + 1)
  }

  function GoneAfter(report: seq<Event>, i: nat, live: set<Channel>, gone: set<Channel>, script: nat -> seq<Action>, k: nat): set<Channel>
    requires i <= |report|
    decreases i
  {
    if i == 0 then gone
    else
      var e := report[i - 1];
      if e.ptr >= 0 && e.ptr as Channel in gone then GoneAfter(report, i - 1, live, gone, script, k)
      else GoneAfter(report, i - 1, Live(live, script(k)), gone + Taken(live, script(k)), script, k + 1)
  }

  /** epoll reports registered channels, each once, and never without a reason. */
  ghost predicate Reported(report: seq<Event>, live: set<Channel>) {
    && |report| <= MAX_EVENTS
    && (forall i | 0 <= i < |report| :: report[i].ptr >= 0 && report[i].ptr as Channel in live)
    && (forall i, j | 0 <= i < j < |report| :: report[i].ptr != report[j].ptr)
    && Reasoned(report)
  }

  ghost predicate Reasoned(report: seq<Event>) {
    forall i | 0 <= i < |report| :: report[i].ptr >= 0 && (report[i].ready.read || report[i].ready.error || report[i].ready.write)
  }

  // ----- what that amounts to

  lemma {:induction false} TakenOrLive(live: set<Channel>, actions: seq<Action>, ch: Channel)
    requires ch in live && ch !in Taken(live, actions)
    ensures ch in Live(live, actions)
    decreases |actions|
  {
    if actions != [] {
      match actions[0]
      case Add(x) => TakenOrLive(live + {x}, actions[1..], ch);
      case Remove(x) => TakenOrLive(live - {x}, actions[1..], ch);
    }
  }

  /** Only channels that a handler removes are gone. */
  lemma {:induction false} TakenAreRemoved(live: set<Channel>, actions: seq<Action>, ch: Channel)
    requires ch in Taken(live, actions)
    ensures Remove(ch) in actions && (ch in live || Add(ch) in actions)
    decreases |actions|
  {
    match actions[0]
    case Add(x) =>
      if ch in Taken(live + {x}, actions[1..]) { TakenAreRemoved(live + {x}, actions[1..], ch); }
    case Remove(x) =>
      if ch in Taken(live - {x}, actions[1..]) { TakenAreRemoved(live - {x}, actions[1..], ch); }
  }

  /** Reported channels are live until they are gone. */
  ghost predicate LiveOrGone(report: seq<Event>, i: nat, live: set<Channel>, gone: set<Channel>) {
    forall j | 0 <= j < i && j < |report| && report[j].ptr >= 0 && report[j].ptr as Channel !in gone :: report[j].ptr as Channel in live
  }

  lemma StillLiveOrGone(report: seq<Event>, i: nat, live: set<Channel>, gone: set<Channel>, actions: seq<Action>)
    requires LiveOrGone(report, i, live, gone)
    ensures LiveOrGone(report, i, Live(live, actions), gone + Taken(live, actions))
  {
    forall j | 0 <= j < i && j < |report| && report[j].ptr >= 0 && report[j].ptr as Channel !in gone + Taken(live, actions)
      ensures report[j].ptr as Channel in Live(live, actions)
    {
      TakenOrLive(live, actions, report[j].ptr as Channel);
    }
  }

  /** Only live channels are called, whatever the handlers do. */
  lemma {:induction false} OnlyLiveCalled(
    report: seq<Event>, i: nat, live: set<Channel>, gone: set<Channel>, script: nat -> seq<Action>, k: nat)
    requires i <= |report| && LiveOrGone(report, i, live, gone) && forall j | 0 <= j < |report| :: report[j].ptr >= 0
    ensures forall c | c in Batch(report, i, live, gone, script, k) :: c.ch >= 0 && c.ch as Channel in c.live
    decreases i
  {
    if i > 0 {
      if report[i - 1].ptr as Channel in gone {
        OnlyLiveCalled(report, i - 1, live, gone, script, k);
      } else {
        StillLiveOrGone(report, i, live, gone, script(k));
        OnlyLiveCalled(report, i - 1, Live(live, script(k)), gone + Taken(live, script(k)), script, k + 1);
      }
    }
  }

  lemma BatchIsSafe(report: seq<Event>, live: set<Channel>, script: nat -> seq<Action>)
    requires Reported(report, live)
    ensures forall c | c in Batch(report, |report|, live, {}, script, 0) :: c.ch >= 0 && c.ch as Channel in c.live
  {
    OnlyLiveCalled(report, |report|, live, {}, script, 0);
  }

  /** Data to read, or an error, is for the read handler; only if there is neither, and room to write, is it the
      write handler's turn. */
  predicate Suits(cb: Callback, r: Ready) {
    && (r.read || r.error ==> cb == Reads)
    && (r.write && !r.read && !r.error ==> cb == Writes)
  }

  ghost predicate ReportedIn(report: seq<Event>, i: nat, c: Call) {
    exists j :: 0 <= j < i && j < |report| && c.ch == report[j].ptr && Suits(c.cb, report[j].ready)
  }

  /** Calls come from the report, with the callback its event asks for. */
  lemma {:induction false} CallsAreReported(
    report: seq<Event>, i: nat, live: set<Channel>, gone: set<Channel>, script: nat -> seq<Action>, k: nat)
    requires i <= |report|
    ensures forall c | c in Batch(report, i, live, gone, script, k) :: ReportedIn(report, i, c)
    decreases i
  {
    if i > 0 {
      var e := report[i - 1];
      var live', gone', k' := live, gone, k;
      if !(e.ptr >= 0 && e.ptr as Channel in gone) {
        live', gone', k' := Live(live, script(k)), gone + Taken(live, script(k)), k + 1;
      }
      CallsAreReported(report, i - 1, live', gone', script, k');
      forall c | c in Batch(report, i, live, gone, script, k)
        ensures ReportedIn(report, i, c)
      {
        if c in Batch(report, i - 1, live', gone', script, k') {
          var j :| 0 <= j < i - 1 && c.ch == report[j].ptr && Suits(c.cb, report[j].ready);
        } else {
          assert c.ch == report[i - 1].ptr && Suits(c.cb, report[i - 1].ready);
        }
      }
    }
  }

  ghost predicate NoRepeats(calls: seq<Call>) {
    forall a, b | 0 <= a < b < |calls| :: calls[a].ch != calls[b].ch
  }

  /** No channel is called twice in a batch. */
  lemma {:induction false} CalledOnce(
    report: seq<Event>, i: nat, live: set<Channel>, gone: set<Channel>, script: nat -> seq<Action>, k: nat)
    requires i <= |report| && forall a, b | 0 <= a < b < |report| :: report[a].ptr != report[b].ptr
    ensures NoRepeats(Batch(report, i, live, gone, script, k))
    decreases i
  {
    if i > 0 {
      var e, calls := report[i - 1], Batch(report, i, live, gone, script, k);
      if e.ptr >= 0 && e.ptr as Channel in gone {
        CalledOnce(report, i - 1, live, gone, script, k);
        assert calls == Batch(report, i - 1, live, gone, script, k);
      } else {
        var live', gone' := Live(live, script(k)), gone + Taken(live, script(k));
        var rest := Batch(report, i - 1, live', gone', script, k + 1);
        CalledOnce(report, i - 1, live', gone', script, k + 1);
        CallsAreReported(report, i - 1, live', gone', script, k + 1);
        var c := Call(e.ptr, CallbackFor(e.ready), live);
        assert calls == [c] + rest;
        forall b | 0 <= b < |rest|
          ensures rest[b].ch != c.ch
        {
          assert rest[b] in rest;
        }
        Distinct(c, rest);
      }
    }
  }

  lemma Distinct(c: Call, rest: seq<Call>)
    requires forall b | 0 <= b < |rest| :: rest[b].ch != c.ch
    requires NoRepeats(rest)
    ensures NoRepeats([c] + rest)
  {
  }

  lemma {:induction false} GoneGrows(
    report: seq<Event>, i: nat, live: set<Channel>, gone: set<Channel>, script: nat -> seq<Action>, k: nat)
    requires i <= |report|
    ensures gone <= GoneAfter(report, i, live, gone, script, k)
    decreases i
  {
    if i > 0 {
      var e := report[i - 1];
      if e.ptr >= 0 && e.ptr as Channel in gone {
        GoneGrows(report, i - 1, live, gone, script, k);
      } else {
        GoneGrows(report, i - 1, Live(live, script(k)), gone + Taken(live, script(k)), script, k + 1);
      }
    }
  }

  ghost predicate Called(calls: seq<Call>, e: Event) {
    exists c :: c in calls && c.ch == e.ptr && Suits(c.cb, e.ready)
  }

  /** Every reported channel is called, or was removed by a handler of the batch. */
  lemma {:induction false} CalledOrGone(
    report: seq<Event>, i: nat, live: set<Channel>, gone: set<Channel>, script: nat -> seq<Action>, k: nat, j: nat)
    requires j < i <= |report| && report[j].ptr >= 0
    ensures Called(Batch(report, i, live, gone, script, k), report[j])
            || report[j].ptr as Channel in GoneAfter(report, i, live, gone, script, k)
    decreases i
  {
    var e := report[i - 1];
    if e.ptr >= 0 && e.ptr as Channel in gone {
      if j < i - 1 {
        CalledOrGone(report, i - 1, live, gone, script, k, j);
      } else {
        GoneGrows(report, i, live, gone, script, k);
      }
    } else {
      var c := Call(e.ptr, CallbackFor(e.ready), live);
      var calls := Batch(report, i, live, gone, script, k);
      assert calls[0] == c;
      if j < i - 1 {
        CalledOrGone(report, i - 1, Live(live, script(k)), gone + Taken(live, script(k)), script, k + 1, j);
        if Called(calls[1..], report[j]) {
          var d :| d in calls[1..] && d.ch == report[j].ptr && Suits(d.cb, report[j].ready);
          assert d in calls;
        }
      }
    }
  }

  // ----- the object

  class PollerEpoll {
    var liveChannels: set<Channel>
    const activeEvs: array<Event>
    var lastActive: int
    ghost var calls: seq<Call>
    ghost var gone: set<Channel>   // removed since epoll_wait returned

    ghost predicate Valid()
      reads this
    {
      activeEvs.Length == MAX_EVENTS && lastActive < MAX_EVENTS
    }

    /** The events not yet looked at: reported, or crossed out if their channel is gone. */
    ghost predicate Waiting(report: seq<Event>, n: int)
      reads this, activeEvs
    {
      && n <= |report| <= activeEvs.Length
      && forall j | 0 <= j < n :: activeEvs[j].ready == report[j].ready
           && activeEvs[j].ptr == if report[j].ptr >= 0 && report[j].ptr as Channel in gone then -1 else report[j].ptr
    }

    constructor ()
      ensures Valid() && liveChannels == {} && lastActive == -1 && fresh(activeEvs)
    {
      liveChannels, lastActive, calls, gone := {}, -1, [], {};
      activeEvs := new Event[MAX_EVENTS](_ => Event(-1, Ready(false, false, false)));
    }

    method AddChannel(ch: Channel)
      modifies this`liveChannels
      ensures liveChannels == old(liveChannels) + {ch}
    {
      liveChannels := liveChannels + {ch};
    }

    method RemoveChannel(ch: Channel, ghost report: seq<Event>)
      requires Valid() && Waiting(report, lastActive + 1)
      requires forall i, j | 0 <= i < j < |report| :: report[i].ptr != report[j].ptr
      modifies this`liveChannels, this`gone, activeEvs
      ensures Valid() && Waiting(report, lastActive + 1)
      ensures liveChannels == old(liveChannels) - {ch} && gone == old(gone) + {ch}
    {
      liveChannels := liveChannels - {ch};
      ghost var was := gone;
      gone := gone + {ch};
      var i := lastActive;
      while i >= 0
        invariant -1 <= i <= lastActive || i == lastActive
        invariant forall j | 0 <= j <= lastActive :: activeEvs[j] == old(activeEvs[j])
        invariant forall j | i < j <= lastActive && 0 <= j :: activeEvs[j].ptr != ch
      {
        if ch == activeEvs[i].ptr {
          activeEvs[i] := activeEvs[i].(ptr := -1);
          break;
        }
        i := i - 1;
      }
    }

    /** A handler: any list of actions. */
    method Handle(actions: seq<Action>, ghost report: seq<Event>)
      requires Valid() && Waiting(report, lastActive + 1)
      requires forall i, j | 0 <= i < j < |report| :: report[i].ptr != report[j].ptr
      modifies this`liveChannels, this`gone, activeEvs
      ensures Valid() && Waiting(report, lastActive + 1)
      ensures liveChannels == Live(old(liveChannels), actions)
      ensures gone == old(gone) + Taken(old(liveChannels), actions)
      decreases |actions|
    {
      if actions != [] {
        ghost var live := liveChannels;
        match actions[0]
        {
          case Add(ch) =>
            AddChannel(ch);
          case Remove(ch) =>
            if ch in liveChannels {
              RemoveChannel(ch, report);
            } else {
              assert liveChannels - {ch} == liveChannels;
            }
        }
        Handle(actions[1..], report);
      }
    }

    /** The body of the dispatch loop. */
    method DispatchLast(actions: seq<Action>, ghost report: seq<Event>) returns (called: bool)
      requires Valid() && 0 <= lastActive && Waiting(report, lastActive + 1) && Reasoned(report)
      requires forall i, j | 0 <= i < j < |report| :: report[i].ptr != report[j].ptr
      modifies this`liveChannels, this`gone, this`calls, activeEvs
      ensures Valid() && Waiting(report, lastActive + 1)
      ensures var e := report[lastActive];
              && called == (e.ptr >= 0 && e.ptr as Channel !in old(gone))
              && calls == old(calls) + (if called then [Call(e.ptr, CallbackFor(e.ready), old(liveChannels))] else [])
              && liveChannels == (if called then Live(old(liveChannels), actions) else old(liveChannels))
              && gone == (if called then old(gone + Taken(liveChannels, actions)) else old(gone))
              && (called ==> |calls| > 0 && Suits(calls[|calls| - 1].cb, e.ready))
    {
      var i := lastActive;
      var ch, events := activeEvs[i].ptr, activeEvs[i].ready;
      called := ch >= 0;
      if ch >= 0 {
        if events.read || events.error {
          calls := calls + [Call(ch, Reads, liveChannels)];
        } else if events.write {
          calls := calls + [Call(ch, Writes, liveChannels)];
        } else {
          assert false;  // fatal("unexpected poller events")
        }
        Handle(actions, report);
      }
    }

    method Turn(ghost report: seq<Event>, script: nat -> seq<Action>, k: nat, ghost all: seq<Call>, ghost end: set<Channel>)
      returns (k': nat)
      requires Valid() && 0 <= lastActive && Waiting(report, lastActive + 1) && Reasoned(report)
      requires forall i, j | 0 <= i < j < |report| :: report[i].ptr != report[j].ptr
      requires calls + Batch(report, lastActive + 1, liveChannels, gone, script, k) == all
      requires LiveAfter(report, lastActive + 1, liveChannels, gone, script, k) == end
      modifies this, activeEvs
      ensures Valid() && lastActive == old(lastActive) - 1 && Waiting(report, lastActive + 1)
      ensures calls + Batch(report, lastActive + 1, liveChannels, gone, script, k') == all
      ensures LiveAfter(report, lastActive + 1, liveChannels, gone, script, k') == end
    {
      BatchTurn(report, lastActive + 1, calls, liveChannels, gone, script, k);
      var called := DispatchLast(script(k), report);
      k' := if called then k + 1 else k;
      lastActive := lastActive - 1;
    }

    /** One wait and its batch. `answer` is what epoll_wait returned, -1 if it was interrupted, and the
        k-th callback does script(k). */
    method LoopOnce(answer: int, report: seq<Event>, script: nat -> seq<Action>)
      requires Valid() && Reported(report, liveChannels) && answer == (if report == [] && answer < 0 then -1 else |report|)
      modifies this, activeEvs
      ensures Valid() && lastActive < 0
      ensures calls == old(calls) + Batch(report, |report|, old(liveChannels), {}, script, 0)
      ensures liveChannels == LiveAfter(report, |report|, old(liveChannels), {}, script, 0)
    {
      lastActive := answer;
      forall i | 0 <= i < |report| {
        activeEvs[i] := report[i];
      }
      gone := {};
      ghost var all := calls + Batch(report, |report|, liveChannels, {}, script, 0);
      ghost var end := LiveAfter(report, |report|, liveChannels, {}, script, 0);
      ghost var n := |report|;
      var k := 0;
      lastActive := lastActive - 1;
      while lastActive >= 0
        invariant Valid() && n <= |report| && n == (if lastActive < 0 then 0 else lastActive + 1)
        invariant Waiting(report, lastActive + 1)
        invariant calls + Batch(report, n, liveChannels, gone, script, k) == all
        invariant LiveAfter(report, n, liveChannels, gone, script, k) == end
        decreases lastActive
      {
        k := Turn(report, script, k, all, end);
        n := n - 1;
      }
    }
  }

  lemma BatchTurn(
    report: seq<Event>, n: nat, calls: seq<Call>, live: set<Channel>, gone: set<Channel>, script: nat -> seq<Action>, k: nat)
    requires 0 < n <= |report|
    ensures var e := report[n - 1];
            if e.ptr >= 0 && e.ptr as Channel in gone then
              && Batch(report, n, live, gone, script, k) == Batch(report, n - 1, live, gone, script, k)
              && LiveAfter(report, n, live, gone, script, k) == LiveAfter(report, n - 1, live, gone, script, k)
            else
              var live', gone' := Live(live, script(k)), gone + Taken(live, script(k));
              && calls + Batch(report, n, live, gone, script, k) ==
                 calls + [Call(e.ptr, CallbackFor(e.ready), live)] + Batch(report, n - 1, live', gone', script, k + 1)
              && LiveAfter(report, n, live, gone, script, k) == LiveAfter(report, n - 1, live', gone', script, k + 1)
  {
  }
}
