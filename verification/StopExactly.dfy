/** When `stop(true)` of scheduler/ctpl_stl.h leaves nothing in the queue: exactly while no push can come too
    late for every worker. */
module StopExactly {
  import opened Loop
  import opened ThreadPool
  import opened ThreadPoolProof

  /** The queue is empty, or some worker will look into it before it leaves. */
  ghost predicate Served(s: State) {
    s.queue == [] || exists w :: 0 <= w < |s.workers| && WillLook(s.workers[w])
  }

  ghost predicate NoClientPush(actions: seq<Action>) {
    forall a | a in actions :: !a.ClientPush?
  }

  /** All workers have returned, and stop is about to delete what is queued. */
  ghost predicate Returned(s: State) {
    s.stop == Joining && AllExited(s)
  }

  // ----- what is going to be looked at is looked at

  lemma WorkerStaysServed(s: State, a: Action)
    requires Inv(s) && s.stop == Joining && Served(s) && Enabled(s, a) && Mover(a).Some?
    ensures Served(Do(s, a)) && Do(s, a).stop == Joining
  {
    var t := Do(s, a);
    if s.queue != [] {
      var w :| 0 <= w < |s.workers| && WillLook(s.workers[w]);
      if w == a.w {
        assert t.queue == [] || WillLook(t.workers[w]);
      } else {
        assert t.workers[w] == s.workers[w];
      }
    } else if a.TaskPush? {
      assert WillLook(t.workers[a.w]);
    }
  }

  lemma StaysServed(s: State, a: Action)
    requires Inv(s) && s.stop == Joining && Served(s) && Enabled(s, a) && !a.ClientPush? && !a.Join?
    ensures Served(Do(s, a)) && Do(s, a).stop == Joining
  {
    if Mover(a).Some? {
      WorkerStaysServed(s, a);
    } else {
      assert Do(s, a).workers == s.workers && Do(s, a).queue == s.queue;
    }
  }

  lemma {:induction false} ServedEmpties(s: State, actions: seq<Action>, t: State)
    requires Inv(s) && s.stop == Joining && Served(s) && NoClientPush(actions) && Reaches(s, actions, t) && Returned(t)
    ensures t.queue == []
    decreases |actions|
  {
    if actions != [] {
      var a := actions[0];
      assert a in actions;
      if a.Join? {
        StaysJoined(Do(s, a), actions[1..], t);
      } else {
        StaysServed(s, a);
        StepInv(s, a);
        ServedEmpties(Do(s, a), actions[1..], t);
      }
    }
  }

  lemma StaysJoined(s: State, actions: seq<Action>, t: State)
    requires s.stop == Joined && Reaches(s, actions, t)
    ensures t.stop == Joined
  {
  }

  // ----- what nobody is going to look at stays

  /** Until all workers have returned and all pushes under way are finished, something can go on without a
      new push. */
  lemma RestMoves(s: State) returns (a: Action)
    requires Inv(s) && s.stop == Joining && !(AllExited(s) && !PushInFlight(s))
    ensures Enabled(s, a) && Quiet(a)
  {
    if !AllExited(s) {
      a := ShutdownMoves(s);
    } else if s.holder.ByClient? {
      a := ClientNotify(s.holder.j, None);
    } else {
      var j: nat :| j < |s.clients| && !s.clients[j].Idle?;
      forall w: nat | w < |s.workers|
        ensures s.holder != ByWorker(w) && s.holder != ByTask(w)
      {
        assert WorkerAgrees(s, w);
      }
      a := ClientLock(j);
    }
  }

  lemma {:induction false} RunsToRest(s: State) returns (actions: seq<Action>, t: State)
    requires Inv(s) && s.stop == Joining
    ensures Reaches(s, actions, t) && NoClientPush(actions) && Inv(t) && Returned(t) && !PushInFlight(t)
    ensures |t.clients| == |s.clients|
    ensures !Served(s) ==> t.queue == s.queue
    decreases Measure(s)
  {
    if AllExited(s) && !PushInFlight(s) {
      actions, t := [], s;
    } else {
      var a := RestMoves(s);
      StepInv(s, a);
      ShutdownShrinks(s, a);
      if !Served(s) { Unlooked(s, a); }
      var rest;
      rest, t := RunsToRest(Do(s, a));
      actions := [a] + rest;
    }
  }

  lemma Unlooked(s: State, a: Action)
    requires Inv(s) && s.stop == Joining && !Served(s) && Enabled(s, a) && Quiet(a)
    ensures !Served(Do(s, a)) && Do(s, a).queue == s.queue
  {
    var t := Do(s, a);
    if Mover(a).Some? {
      assert !WillLook(s.workers[a.w]);
      forall w | 0 <= w < |t.workers|
        ensures !WillLook(t.workers[w])
      {
        assert !WillLook(s.workers[w]);
      }
    } else {
      assert t.workers == s.workers;
    }
  }

  // ----- exactly

  ghost predicate EmptiesWithoutPushes(s: State) {
    forall actions, t | Reaches(s, actions, t) && NoClientPush(actions) && Returned(t) :: t.queue == []
  }

  /** From the moment stop has notified, if no client starts another push: every run leaves the queue empty
      if and only if it is empty or some worker will look into it before it leaves. */
  lemma EmptiesExactlyIfServed(s: State)
    requires Inv(s) && s.stop == Joining
    ensures Served(s) <==> EmptiesWithoutPushes(s)
  {
    if Served(s) {
      forall actions, t | Reaches(s, actions, t) && NoClientPush(actions) && Returned(t)
        ensures t.queue == []
      {
        ServedEmpties(s, actions, t);
      }
    } else {
      var actions, t := RunsToRest(s);
      assert Reaches(s, actions, t) && NoClientPush(actions) && Returned(t);
    }
  }

  lemma {:induction false} ReachesOn(s: State, actions: seq<Action>, t: State, a: Action)
    requires Reaches(s, actions, t) && Enabled(t, a)
    ensures Reaches(s, actions + [a], Do(t, a))
    decreases |actions|
  {
    if actions == [] {
      assert [] + [a] == [a] && [a][1..] == [];
    } else {
      assert (actions + [a])[1..] == actions[1..] + [a];
      ReachesOn(Do(s, actions[0]), actions[1..], t, a);
    }
  }

  /** A push that comes when all workers have returned is deleted unrun. */
  lemma LatePushIsLost(s: State) returns (actions: seq<Action>, t: State)
    requires Inv(s) && s.stop == Joining && s.clients != []
    ensures Reaches(s, actions, t) && Returned(t) && t.queue != [] && t.queue[|t.queue| - 1] !in t.ran
    ensures Enabled(t, Join) && Do(t, Join).queue == [] && Do(t, Join).ran == t.ran
  {
    var before, u := RunsToRest(s);
    assert u.clients[0].Idle?;
    var a := ClientPush(0);
    ReachesOn(s, before, u, a);
    actions, t := before + [a], Do(u, a);
    forall i | 0 <= i < |u.started|
      ensures u.started[i] == i < u.pushed
    {
      assert (u.started + u.queue)[i] == i;
    }
  }

  ghost predicate AlwaysEmpties(s: State) {
    forall actions, t | Reaches(s, actions, t) && Returned(t) :: t.queue == []
  }

  lemma {:induction false} NoClients(s: State, actions: seq<Action>, t: State)
    requires s.clients == [] && Reaches(s, actions, t)
    ensures NoClientPush(actions)
    decreases |actions|
  {
    if actions != [] { NoClients(Do(s, actions[0]), actions[1..], t); }
  }

  /** From the moment stop has notified: every run leaves the queue empty if and only if there is no client
      that could still push, and what is queued will be looked at. */
  lemma AlwaysEmptiesExactly(s: State)
    requires Inv(s) && s.stop == Joining
    ensures s.clients == [] && Served(s) <==> AlwaysEmpties(s)
  {
    if s.clients != [] {
      var actions, t := LatePushIsLost(s);
      assert Reaches(s, actions, t) && Returned(t);
    } else {
      EmptiesExactlyIfServed(s);
      forall actions, t | Reaches(s, actions, t) && Returned(t)
        ensures NoClientPush(actions)
      {
        NoClients(s, actions, t);
      }
    }
  }
}
