/** The amortised cost of the buffers of handy/net.h: over any run the bytes moved are at most twice
    the bytes appended. */
module BufferCost {
  import opened Buffers

  /** What the next move of a buffer has been paid already. */
  function Potential(s: Shape): nat {
    if 2 * s.e <= s.cap then 0 else 2 * s.e - s.cap
  }

  lemma AppendIsPaid(s: Shape, len: nat)
    requires s.Valid()
    ensures var r := WithRoom(s, len);
            && r.e + len <= r.cap
            && MoveCost(s, len) + Potential(r.(e := r.e + len)) <= Potential(s) + 2 * len
  {
  }

  /** Reading makes room before it knows how much will come; growing then costs less than `exp` more. */
  lemma ReadRoomIsPaid(s: Shape)
    requires s.Valid() && s.cap - s.e < s.exp
    ensures s.Size() + Potential(Expanded(s, 0)) < Potential(s) + s.exp
  {
  }

  // ----- runs over any number of buffers

  datatype Op =
    | Append(i: nat, len: nat)      // append and allocRoom
    | Consume(i: nat, len: nat)
    | Clear(i: nat)
    | Suggest(i: nat, exp: nat)
    | Absorb(i: nat, j: nat)

  datatype Run = Run(shapes: seq<Shape>, appended: nat, copied: nat)

  predicate Enabled(r: Run, op: Op) {
    op.i < |r.shapes|
    && (op.Consume? ==> op.len <= r.shapes[op.i].Size())
    && (op.Absorb? ==> op.j < |r.shapes|)
  }

  predicate AllValid(r: Run) {
    forall i | 0 <= i < |r.shapes| :: r.shapes[i].Valid()
  }

  function Do(r: Run, op: Op): Run
    requires AllValid(r) && Enabled(r, op)
  {
    var s := r.shapes[op.i];
    match op
    case Append(i, len) =>
      var t := WithRoom(s, len);
      Run(r.shapes[i := t.(e := t.e + len)], r.appended + len, r.copied + MoveCost(s, len))
    case Consume(i, len) => r.(shapes := r.shapes[i := Consumed(s, len)])
    case Clear(i) => r.(shapes := r.shapes[i := Cleared(s)])
    case Suggest(i, exp) => r.(shapes := r.shapes[i := s.(exp := exp)])
    case Absorb(i, j) =>
      if i == j then r
      else
        var o := r.shapes[j];
        var (s', o') := AbsorbedShapes(s, o);
        Run(r.shapes[i := s'][j := o'], r.appended + if s.Size() == 0 then 0 else o.Size(), r.copied + AbsorbCost(s, o))
  }

  function Total(ss: seq<Shape>): nat {
    if ss == [] then 0 else Total(ss[..|ss| - 1]) + Potential(ss[|ss| - 1])
  }

  lemma {:induction false} TotalUpdate(ss: seq<Shape>, i: nat, s: Shape)
    requires i < |ss|
    ensures Total(ss[i := s]) == Total(ss) - Potential(ss[i]) + Potential(s)
  {
    var n := |ss| - 1;
    if i == n {
      assert ss[i := s][..n] == ss[..n];
    } else {
      assert ss[i := s][..n] == ss[..n][i := s];
      TotalUpdate(ss[..n], i, s);
    }
  }

  /** The copies made so far, and those already paid for, stay within twice the bytes appended. */
  ghost predicate Paid(r: Run) {
    AllValid(r) && r.copied + Total(r.shapes) <= 2 * r.appended
  }

  lemma AbsorbIsPaid(s: Shape, o: Shape)
    requires s.Valid() && o.Valid()
    ensures var (s', o') := AbsorbedShapes(s, o);
            && s'.Valid() && o'.Valid()
            && AbsorbCost(s, o) + Potential(s') + Potential(o')
               <= Potential(s) + Potential(o) + if s.Size() == 0 then 0 else 2 * o.Size()
  {
    AppendIsPaid(s, o.Size());
  }

  lemma AbsorbStepPaid(r: Run, op: Op)
    requires Paid(r) && Enabled(r, op) && op.Absorb? && op.i != op.j
    ensures Paid(Do(r, op))
  {
    var (s', o') := AbsorbedShapes(r.shapes[op.i], r.shapes[op.j]);
    AbsorbIsPaid(r.shapes[op.i], r.shapes[op.j]);
    TotalUpdate(r.shapes, op.i, s');
    TotalUpdate(r.shapes[op.i := s'], op.j, o');
  }

  lemma StepPaid(r: Run, op: Op)
    requires Paid(r) && Enabled(r, op)
    ensures Paid(Do(r, op))
  {
    if op.Absorb? {
      if op.i != op.j { AbsorbStepPaid(r, op); }
    } else {
      TotalUpdate(r.shapes, op.i, Do(r, op).shapes[op.i]);
      if op.Append? { AppendIsPaid(r.shapes[op.i], op.len); }
    }
  }

  ghost predicate Reaches(r: Run, ops: seq<Op>, t: Run)
    decreases |ops|
  {
    if ops == [] then r == t
    else AllValid(r) && Enabled(r, ops[0]) && Reaches(Do(r, ops[0]), ops[1..], t)
  }

  lemma {:induction false} RunPaid(r: Run, ops: seq<Op>, t: Run)
    requires Paid(r) && Reaches(r, ops, t)
    ensures Paid(t)
    decreases |ops|
  {
    if ops != [] {
      StepPaid(r, ops[0]);
      RunPaid(Do(r, ops[0]), ops[1..], t);
    }
  }

  /** So many empty buffers. */
  function Empties(n: nat): (ss: seq<Shape>)
    ensures |ss| == n && forall i | 0 <= i < n :: ss[i] == Shape(0, 0, 0, 512)
  {
    if n == 0 then [] else Empties(n - 1) + [Shape(0, 0, 0, 512)]
  }

  lemma {:induction false} EmptyTotal(n: nat)
    ensures Total(Empties(n)) == 0
  {
    if n > 0 { EmptyTotal(n - 1); }
  }

  /** From empty buffers, whatever the run. */
  lemma CopiesAtMostTwice(n: nat, ops: seq<Op>, t: Run)
    requires Reaches(Run(Empties(n), 0, 0), ops, t)
    ensures t.copied <= 2 * t.appended
  {
    EmptyTotal(n);
    RunPaid(Run(Empties(n), 0, 0), ops, t);
  }
}
