/** How much memory a buffer of handy/net.h may hold: as much as has come since it was last empty calls for, which
    has nothing to do with how much it contains. */
module BufferMemory {
  import opened Buffers

  datatype Op = Append(len: nat) | Read(len: nat) | Consume(len: nat) | Clear

  /** A buffer and the bytes that came since it was last empty. */
  datatype Filled = Filled(shape: Shape, since: nat)

  predicate Enabled(f: Filled, op: Op) {
    && f.shape.Valid()
    && match op
       case Read(len) => len <= WithReadRoom(f.shape).cap - WithReadRoom(f.shape).e
       case Consume(len) => len <= f.shape.Size()
       case _ => true
  }

  function Do(f: Filled, op: Op): Filled
    requires Enabled(f, op)
  {
    match op
    case Append(len) => var s := WithRoom(f.shape, len); Filled(s.(e := s.e + len), f.since + len)
    case Read(len) => var s := WithReadRoom(f.shape); Filled(s.(e := s.e + len), f.since + len)
    case Consume(len) => var s := Consumed(f.shape, len); Filled(s, if s.Size() == 0 then 0 else f.since)
    case Clear => Filled(Cleared(f.shape), 0)
  }

  ghost predicate Reaches(f: Filled, ops: seq<Op>, g: Filled)
    decreases |ops|
  {
    if ops == [] then f == g
    else Enabled(f, ops[0]) && Reaches(Do(f, ops[0]), ops[1..], g)
  }

  // ----- never more than this

  ghost predicate Bounded(f: Filled) {
    f.shape.Valid() && f.shape.e <= f.since && f.shape.cap <= 2 * (f.shape.exp + f.since)
  }

  lemma StepBounded(f: Filled, op: Op)
    requires Bounded(f) && Enabled(f, op)
    ensures Bounded(Do(f, op)) && Do(f, op).shape.exp == f.shape.exp
  {
  }

  lemma {:induction false} RunBounded(f: Filled, ops: seq<Op>, g: Filled)
    requires Bounded(f) && Reaches(f, ops, g)
    ensures Bounded(g) && g.shape.exp == f.shape.exp
    decreases |ops|
  {
    if ops != [] {
      StepBounded(f, ops[0]);
      RunBounded(Do(f, ops[0]), ops[1..], g);
    }
  }

  /** Whatever is done with an empty buffer: its memory is at most twice the suggested size and what has come since
      it was last empty. */
  lemma MemoryForWhatCame(exp: nat, ops: seq<Op>, g: Filled)
    requires Reaches(Filled(Shape(0, 0, 0, exp), 0), ops, g)
    ensures g.shape.cap <= 2 * (exp + g.since)
  {
    RunBounded(Filled(Shape(0, 0, 0, exp), 0), ops, g);
  }

  /** Appending takes more memory only if what the buffer then contains fills at least half of what it has; making
      room to read does so whatever it contains. */
  lemma WhenItGrows(s: Shape, len: nat)
    requires s.Valid()
    ensures WithRoom(s, len).cap != s.cap ==> s.Size() + len >= s.cap / 2
    ensures WithRoom(s, len).cap == s.cap || WithRoom(s, len).cap >= 2 * s.cap
    ensures WithReadRoom(s).cap != s.cap <==> s.cap - s.e < s.exp
  {
  }

  // ----- although it contains next to nothing

  ghost predicate NeverLarge(f: Filled, ops: seq<Op>, most: nat)
    decreases |ops|
  {
    && f.shape.Size() <= most
    && (ops != [] && Enabled(f, ops[0]) ==> NeverLarge(Do(f, ops[0]), ops[1..], most))
  }

  /** Read as much as is suggested, and use up all but one byte. */
  function Round(f: Filled): Filled
    requires f.shape.Valid() && f.shape.Size() == 1 && f.shape.cap >= f.shape.exp
    ensures Enabled(f, Read(f.shape.exp)) && Enabled(Do(f, Read(f.shape.exp)), Consume(f.shape.exp))
  {
    RoomToRead(f.shape);
    Do(Do(f, Read(f.shape.exp)), Consume(f.shape.exp))
  }

  lemma RoundGrows(f: Filled)
    requires f.shape.Valid() && f.shape.Size() == 1 && f.shape.cap >= f.shape.exp > 0
    ensures var g := Round(f);
            && g.shape.Valid() && g.shape.Size() == 1 && g.shape.exp == f.shape.exp
            && ((g.shape.cap == f.shape.cap && g.shape.e > f.shape.e) || g.shape.cap == 2 * f.shape.cap)
  {
  }

  lemma NeverLargeOn(f: Filled, ops: seq<Op>, more: seq<Op>)
    requires f.shape.Valid() && f.shape.Size() == 1 && f.shape.cap >= f.shape.exp
    requires ops == [Read(f.shape.exp), Consume(f.shape.exp)] + more
    requires NeverLarge(Round(f), more, 1 + f.shape.exp)
    ensures NeverLarge(f, ops, 1 + f.shape.exp)
  {
    RoomToRead(f.shape);
    assert ops[1..] == [Consume(f.shape.exp)] + more && ops[1..][1..] == more;
    assert NeverLarge(Do(f, Read(f.shape.exp)), ops[1..], 1 + f.shape.exp);
  }

  lemma ReachesOn(f: Filled, ops: seq<Op>, more: seq<Op>, g: Filled)
    requires f.shape.Valid() && f.shape.Size() == 1 && f.shape.cap >= f.shape.exp
    requires ops == [Read(f.shape.exp), Consume(f.shape.exp)] + more && Reaches(Round(f), more, g)
    ensures Reaches(f, ops, g)
  {
    RoomToRead(f.shape);
    assert ops[1..] == [Consume(f.shape.exp)] + more && ops[1..][1..] == more;
    assert Reaches(Do(f, Read(f.shape.exp)), ops[1..], g);
  }

  /** From a buffer with a single byte, reads of the suggested size that are all but used up at once: the buffer never
      contains more than one such read and a byte, and its memory grows beyond any number. */
  lemma {:induction false} MemoryGrows(f: Filled, n: nat) returns (ops: seq<Op>, g: Filled)
    requires f.shape.Valid() && f.shape.Size() == 1 && f.shape.cap >= f.shape.exp > 0
    ensures Reaches(f, ops, g) && NeverLarge(f, ops, 1 + f.shape.exp) && g.shape.Size() == 1 && g.shape.cap >= n
    decreases if n <= f.shape.cap then 0 else n - f.shape.cap, f.shape.cap - f.shape.e
  {
    if f.shape.cap >= n {
      ops, g := [], f;
    } else {
      RoundGrows(f);
      var more;
      more, g := MemoryGrows(Round(f), n);
      ops := [Read(f.shape.exp), Consume(f.shape.exp)] + more;
      ReachesOn(f, ops, more, g);
      NeverLargeOn(f, ops, more);
    }
  }
}
