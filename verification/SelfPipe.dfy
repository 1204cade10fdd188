/** Handing tasks to the event loop: the queue of handy/threads.h and the self-pipe of
    handy/event_base.cc, as interleaved steps of the callers and the loop thread. */
module SelfPipe {
  import L = Loop

  // ----- the queue

  predicate Accepts(items: nat, capacity: nat) {
    capacity == 0 || items < capacity
  }

  /** Its methods hold its mutex, so each is one step. */
  class SafeQueue<T> {
    const capacity: nat
    var items: seq<T>
    var exit: bool

    constructor (capacity: nat)
      ensures this.capacity == capacity && items == [] && !exit
    {
      this.capacity, items, exit := capacity, [], false;
    }

    method Push(v: T) returns (pushed: bool)
      modifies this`items
      ensures pushed <==> !exit && (capacity == 0 || |old(items)| < capacity)
      ensures items == if pushed then old(items) + [v] else old(items)
    {
      if exit || (capacity > 0 && |items| >= capacity) {
        return false;
      }
      items := items + [v];
      return true;
    }

    /** `pop_wait(&v, 0)`, which does not wait. */
    method PopWait() returns (v: L.Option<T>)
      modifies this`items
      ensures old(items) == [] ==> v.None? && items == []
      ensures old(items) != [] ==> v == L.Some(old(items)[0]) && items == old(items)[1..]
    {
      if items == [] {
        return L.None;
      }
      v := L.Some(items[0]);
      items := items[1..];
    }

    method Exit()
      modifies this`exit
      ensures exit
    {
      exit := true;
    }
  }

  // ----- the threads

  /** A call of safeCall: its task is in the queue (or was refused) and its byte is not yet in the pipe. */
  datatype Caller = Idle | Pushed

  datatype Loop =
    | Polling                  // waiting for the pipe, or about to
    | Draining                 // in the handler, about to pop
    | Running(inner: Caller)   // inside a task, which may itself call safeCall

  datatype State = State(
    queue: seq<nat>, pipe: nat, callers: seq<Caller>, loop: Loop, capacity: nat,
    called: nat, accepted: seq<nat>, ran: seq<nat>)  // history: tasks are numbered as safeCall is called

  datatype Action = Push(c: nat) | Write(c: nat) | Read | Pop | Leave | TaskPush | TaskWrite | Return

  function Init(callers: nat, capacity: nat): State {
    State([], 0, seq(callers, _ => Idle), Polling, capacity, 0, [], [])
  }

  function Queued(s: State): State {
    if Accepts(|s.queue|, s.capacity) then
      s.(queue := s.queue + [s.called], accepted := s.accepted + [s.called], called := s.called + 1)
    else s.(called := s.called + 1)
  }

  predicate Enabled(s: State, a: Action) {
    match a
    case Push(c) => c < |s.callers| && s.callers[c] == Idle
    case Write(c) => c < |s.callers| && s.callers[c] == Pushed
    case Read => s.loop == Polling && s.pipe > 0
    case Pop => s.loop == Draining && s.queue != []
    case Leave => s.loop == Draining && s.queue == []
    case TaskPush => s.loop == Running(Idle)
    case TaskWrite => s.loop == Running(Pushed)
    case Return => s.loop == Running(Idle)
  }

  function Do(s: State, a: Action): State
    requires Enabled(s, a)
  {
    match a
    case Push(c) => Queued(s).(callers := s.callers[c := Pushed])
    case Write(c) => s.(callers := s.callers[c := Idle], pipe := s.pipe + 1)
    case Read => s.(loop := Draining, pipe := if s.pipe <= 1024 then 0 else s.pipe - 1024)
    case Pop => s.(loop := Running(Idle), queue := s.queue[1..], ran := s.ran + [s.queue[0]])
    case Leave => s.(loop := Polling)
    case TaskPush => Queued(s).(loop := Running(Pushed))
    case TaskWrite => s.(loop := Running(Idle), pipe := s.pipe + 1)
    case Return => s.(loop := Draining)
  }

  ghost predicate Reaches(s: State, actions: seq<Action>, t: State)
    decreases |actions|
  {
    if actions == [] then s == t
    else Enabled(s, actions[0]) && Reaches(Do(s, actions[0]), actions[1..], t)
  }

  // ----- what every step keeps

  /** Somebody will look at the queue. */
  ghost predicate Attended(s: State) {
    || s.pipe > 0
    || s.loop != Polling
    || exists c :: 0 <= c < |s.callers| && s.callers[c] == Pushed
  }

  ghost predicate Inv(s: State) {
    && (s.queue != [] ==> Attended(s))
    && s.accepted == s.ran + s.queue
    && (forall i | 0 <= i < |s.accepted| :: s.accepted[i] < s.called)
    && (forall i, j | 0 <= i < j < |s.accepted| :: s.accepted[i] < s.accepted[j])
    && (s.capacity == 0 ==> |s.accepted| == s.called)
  }

  lemma StepAttended(s: State, a: Action)
    requires (s.queue != [] ==> Attended(s)) && Enabled(s, a)
    ensures Do(s, a).queue != [] ==> Attended(Do(s, a))
  {
    var t := Do(s, a);
    if a.Push? {
      assert t.callers[a.c] == Pushed;
    } else if a.TaskPush? || a.TaskWrite? || a.Pop? || a.Return? || a.Read? || a.Leave? || a.Write? {
      assert a.Write? || t.callers == s.callers;
    }
  }

  lemma StepInv(s: State, a: Action)
    requires Inv(s) && Enabled(s, a)
    ensures Inv(Do(s, a))
  {
    StepAttended(s, a);
    if a.Push? || a.TaskPush? {
      assert s.ran + s.queue + [s.called] == s.ran + (s.queue + [s.called]);
    } else if a.Pop? {
      assert s.ran + s.queue == s.ran + [s.queue[0]] + s.queue[1..];
    }
  }

  lemma {:induction false} RunInv(s: State, actions: seq<Action>, t: State)
    requires Inv(s) && Reaches(s, actions, t)
    ensures Inv(t)
    decreases |actions|
  {
    if actions != [] {
      StepInv(s, actions[0]);
      RunInv(Do(s, actions[0]), actions[1..], t);
    }
  }

  // ----- the main results, for every run

  /** A task in the queue is never stranded: a byte is in the pipe, a caller is about to write one, or the
      handler is still draining. */
  lemma NeverStranded(callers: nat, capacity: nat, actions: seq<Action>, t: State)
    requires Reaches(Init(callers, capacity), actions, t) && t.queue != []
    ensures Attended(t)
  {
    RunInv(Init(callers, capacity), actions, t);
  }

  /** Tasks run in the order of the calls, each at most once, and only those that were accepted; without a
      capacity limit every call is. */
  lemma RunInOrder(callers: nat, capacity: nat, actions: seq<Action>, t: State)
    requires Reaches(Init(callers, capacity), actions, t)
    ensures t.ran <= t.accepted
    ensures forall i, j | 0 <= i < j < |t.ran| :: t.ran[i] < t.ran[j] < t.called
    ensures capacity == 0 ==> forall i | 0 <= i < |t.ran| :: t.ran[i] == i
  {
    RunInv(Init(callers, capacity), actions, t);
    CapacityStays(Init(callers, capacity), actions, t);
    assert forall i | 0 <= i < |t.ran| :: t.ran[i] == t.accepted[i];
    if capacity == 0 {
      forall i | 0 <= i < |t.ran|
        ensures t.ran[i] == i
      {
        FullCount(t.accepted, i);
      }
    }
  }

  function Calls(actions: seq<Action>): nat {
    if actions == [] then 0 else (if actions[0].Push? || actions[0].TaskPush? then 1 else 0) + Calls(actions[1..])
  }

  lemma {:induction false} CalledIs(s: State, actions: seq<Action>, t: State)
    requires Reaches(s, actions, t)
    ensures t.called == s.called + Calls(actions)
    decreases |actions|
  {
    if actions != [] { CalledIs(Do(s, actions[0]), actions[1..], t); }
  }

  /** Without a limit on the queue, every call so far has been accepted, and has run or is queued. */
  lemma AllAccepted(callers: nat, actions: seq<Action>, t: State)
    requires Reaches(Init(callers, 0), actions, t)
    ensures |t.ran| + |t.queue| == Calls(actions)
  {
    RunInv(Init(callers, 0), actions, t);
    CapacityStays(Init(callers, 0), actions, t);
    CalledIs(Init(callers, 0), actions, t);
    assert |t.ran + t.queue| == |t.accepted|;
  }

  /** A bounded queue never holds more than its capacity, and while it holds less every call is accepted. */
  lemma BoundedQueue(callers: nat, capacity: nat, actions: seq<Action>, t: State, a: Action)
    requires Reaches(Init(callers, capacity), actions, t) && Enabled(t, a) && (a.Push? || a.TaskPush?)
    ensures capacity > 0 ==> |t.queue| <= capacity
    ensures Do(t, a).accepted == if capacity == 0 || |t.queue| < capacity then t.accepted + [t.called] else t.accepted
  {
    CapacityStays(Init(callers, capacity), actions, t);
    StaysBounded(Init(callers, capacity), actions, t);
  }

  lemma {:induction false} StaysBounded(s: State, actions: seq<Action>, t: State)
    requires Reaches(s, actions, t) && (s.capacity > 0 ==> |s.queue| <= s.capacity)
    ensures t.capacity > 0 ==> |t.queue| <= t.capacity
    decreases |actions|
  {
    if actions != [] { StaysBounded(Do(s, actions[0]), actions[1..], t); }
  }

  lemma {:induction false} CapacityStays(s: State, actions: seq<Action>, t: State)
    requires Reaches(s, actions, t)
    ensures t.capacity == s.capacity
    decreases |actions|
  {
    if actions != [] { CapacityStays(Do(s, actions[0]), actions[1..], t); }
  }

  /** Increasing numbers below their count are 0, 1, 2, ... */
  lemma {:induction false} FullCount(s: seq<nat>, i: nat)
    requires i < |s| && (forall k | 0 <= k < |s| :: s[k] < |s|) && forall j, k | 0 <= j < k < |s| :: s[j] < s[k]
    ensures s[i] == i
  {
    AtLeast(s, i);
    AtMost(s, i);
  }

  lemma {:induction false} AtLeast(s: seq<nat>, i: nat)
    requires i < |s| && forall j, k | 0 <= j < k < |s| :: s[j] < s[k]
    ensures s[i] >= i
  {
    if i > 0 { AtLeast(s, i - 1); }
  }

  lemma {:induction false} AtMost(s: seq<nat>, i: nat)
    requires i < |s| && (forall k | 0 <= k < |s| :: s[k] < |s|) && forall j, k | 0 <= j < k < |s| :: s[j] < s[k]
    ensures s[i] <= i
    decreases |s| - i
  {
    if i + 1 < |s| { AtMost(s, i + 1); }
  }

  // ----- the loop thread on its own gets everything done

  ghost predicate Quiet(s: State) {
    forall c | 0 <= c < |s.callers| :: s.callers[c] == Idle
  }

  /** The loop thread's next step when tasks call nothing more. */
  function Next(s: State): Action {
    match s.loop
    case Polling => Read
    case Draining => if s.queue == [] then Leave else Pop
    case Running(inner) => if inner == Idle then Return else TaskWrite
  }

  /** What is left to do: bytes to read, tasks to run, and the place in the loop. */
  function ToDo(s: State): nat {
    2 * s.pipe + 3 * |s.queue|
    + match s.loop
      case Polling => 0
      case Draining => 1
      case Running(inner) => if inner == Idle then 2 else 5
  }

  /** Left to itself, the loop thread comes to rest with the queue empty and every accepted task run. */
  lemma {:induction false} Settles(s: State) returns (actions: seq<Action>, t: State)
    requires Inv(s) && Quiet(s)
    ensures Reaches(s, actions, t) && |actions| <= ToDo(s)
    ensures t.loop == Polling && t.pipe == 0 && t.queue == [] && t.ran == s.accepted
    decreases ToDo(s)
  {
    if s.loop == Polling && s.pipe == 0 {
      actions, t := [], s;
      assert s.ran + [] == s.ran;
    } else {
      var a := Next(s);
      StepInv(s, a);
      var rest;
      rest, t := Settles(Do(s, a));
      actions := [a] + rest;
    }
  }
}
