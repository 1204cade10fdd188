/** The growable window buffer of handy/net.h and handy/net.cc, and what moving its bytes costs. */
module Buffers {
  type byte = x: int | 0 <= x < 256

  /** The indices of a buffer: its bytes lie in [b, e) of an allocation of `cap`. */
  datatype Shape = Shape(b: nat, e: nat, cap: nat, exp: nat) {
    predicate Valid() { b <= e <= cap }

    function Size(): int { e - b }
  }

  function Min(x: nat, y: nat): nat {
    if x < y then x else y
  }

  function Max(x: nat, y: nat): nat {
    if x < y then y else x
  }

  function Cleared(s: Shape): Shape {
    Shape(0, 0, 0, s.exp)
  }

  function Moved(s: Shape): Shape
    requires s.Valid()
  {
    s.(b := 0, e := s.e - s.b)
  }

  function Expanded(s: Shape, len: nat): Shape
    requires s.Valid()
  {
    Shape(0, s.e - s.b, Max(s.exp, Max(2 * s.cap, s.e - s.b + len)), s.exp)
  }

  function WithRoom(s: Shape, len: nat): Shape
    requires s.Valid()
  {
    if s.e + len <= s.cap then s
    else if s.Size() + len < s.cap / 2 then Moved(s)
    else Expanded(s, len)
  }

  /** Before a read: at least the suggested size of space, or a larger allocation. */
  function WithReadRoom(s: Shape): Shape
    requires s.Valid()
  {
    if s.cap - s.e < s.exp then Expanded(s, 0) else s
  }

  /** The larger allocation need not have that much space behind what is kept, if the suggested size was raised
      after the last allocation; but there is always some. */
  lemma RoomToRead(s: Shape)
    requires s.Valid()
    ensures var r := WithReadRoom(s);
            && r.Valid() && r.Size() == s.Size() && (s.exp > 0 ==> r.cap - r.e > 0)
            && (r.cap - r.e >= s.exp <==> s.cap - s.e >= s.exp || s.Size() == 0 || 2 * s.cap - s.Size() >= s.exp)
            && (s.cap == 0 || s.cap >= s.exp ==> r.cap - r.e >= s.exp)
  {
  }

  /** A full buffer of 100 bytes, grown while the suggested size was smaller: 412 bytes of space, not 512. */
  lemma RoomMayBeShort()
    ensures var r := WithReadRoom(Shape(0, 100, 100, 512)); r.cap - r.e == 412 < r.exp
  {
  }

  function Consumed(s: Shape, len: nat): Shape
    requires s.Valid() && len <= s.Size()
  {
    if s.b + len == s.e then Cleared(s) else s.(b := s.b + len)
  }

  class Buffer {
    var buf: array<byte>
    var b: nat
    var e: nat
    var exp: nat
    ghost var contents: seq<byte>  // the bytes the buffer stands for
    ghost var copied: nat          // bytes moved by moveHead and expand

    ghost predicate Valid()
      reads this, buf
    {
      b <= e <= buf.Length && contents == buf[b..e]
    }

    ghost function GetShape(): Shape
      reads this
    {
      Shape(b, e, buf.Length, exp)
    }

    function Size(): nat
      requires b <= e
      reads this
    {
      e - b
    }

    constructor ()
      ensures Valid() && fresh(buf) && contents == [] && GetShape() == Shape(0, 0, 0, 512) && copied == 0
    {
      buf := new byte[0];
      b, e, exp, copied := 0, 0, 512, 0;
      contents := [];
    }

    method Clear()
      requires Valid()
      modifies this
      ensures Valid() && fresh(buf) && contents == []
      ensures GetShape() == Cleared(old(GetShape())) && copied == old(copied)
    {
      buf := new byte[0];
      b, e := 0, 0;
      contents := [];
    }

    /** `std::copy` onto the front of the same memory. */
    method MoveHead()
      requires Valid()
      modifies this, buf
      ensures Valid() && buf == old(buf) && contents == old(contents)
      ensures GetShape() == Moved(old(GetShape())) && copied == old(copied + Size())
    {
      var n := e - b;
      var i := 0;
      while i < n
        invariant 0 <= i <= n == e - b && e <= buf.Length && buf == old(buf)
        invariant contents == old(contents) && |contents| == n
        invariant b == old(b) && e == old(e) && exp == old(exp) && copied == old(copied)
        invariant forall k | 0 <= k < i :: buf[k] == contents[k]
        invariant forall k | b + i <= k < e :: buf[k] == contents[k - b]
      {
        buf[i] := buf[b + i];
        i := i + 1;
      }
      copied := copied + n;
      e := n;
      b := 0;
    }

    method Expand(len: nat)
      requires Valid()
      modifies this
      ensures Valid() && fresh(buf) && contents == old(contents)
      ensures GetShape() == Expanded(old(GetShape()), len) && copied == old(copied + Size())
    {
      var ncap := Max(exp, Max(2 * buf.Length, Size() + len));
      var p := new byte[ncap];
      forall i | 0 <= i < e - b {
        p[i] := buf[b + i];
      }
      copied := copied + (e - b);
      e := e - b;
      b := 0;
      buf := p;
    }

    method MakeRoom(len: nat)
      requires Valid()
      modifies this, buf
      ensures Valid() && (buf == old(buf) || fresh(buf)) && contents == old(contents)
      ensures GetShape() == WithRoom(old(GetShape()), len) && e + len <= buf.Length
      ensures copied == old(copied) + MoveCost(old(GetShape()), len)
    {
      if e + len <= buf.Length {
      } else if Size() + len < buf.Length / 2 {
        MoveHead();
      } else {
        Expand(len);
      }
    }

    /** The form without an argument, called before every read. */
    method MakeReadRoom()
      requires Valid()
      modifies this
      ensures Valid() && (buf == old(buf) || fresh(buf)) && contents == old(contents)
      ensures GetShape() == WithReadRoom(old(GetShape()))
      ensures copied == old(copied) + if old(buf.Length - e < exp) then old(Size()) else 0
    {
      if buf.Length - e < exp {
        Expand(0);
      }
    }

    /** The new bytes are whatever the memory holds. */
    method AllocRoom(len: nat) returns (p: nat)
      requires Valid()
      modifies this, buf
      ensures Valid() && (buf == old(buf) || fresh(buf))
      ensures b <= p && p + len == e && contents[..p - b] == old(contents)
      ensures GetShape() == WithRoom(old(GetShape()), len).(e := WithRoom(old(GetShape()), len).e + len)
      ensures copied == old(copied) + MoveCost(old(GetShape()), len)
    {
      MakeRoom(len);
      p := e;
      e := e + len;
      contents := buf[b..e];
    }

    /** A read into `end()` followed by `addSize`. */
    method AddRead(data: seq<byte>)
      requires Valid() && e + |data| <= buf.Length
      modifies this, buf
      ensures Valid() && buf == old(buf) && contents == old(contents) + data
      ensures GetShape() == old(GetShape()).(e := old(e) + |data|) && copied == old(copied)
    {
      forall i | 0 <= i < |data| {
        buf[e + i] := data[i];
      }
      e := e + |data|;
      contents := contents + data;
    }

    /** `memcpy(p, data, |data|)` onto the last bytes of the buffer. */
    method CopyLast(p: nat, data: seq<byte>)
      requires Valid() && b <= p && p + |data| == e
      modifies buf, `contents
      ensures Valid() && contents == old(contents)[..p - b] + data
    {
      ghost var front := contents[..p - b];
      var i := 0;
      while i < |data|
        invariant 0 <= i <= |data| && p + |data| == e <= buf.Length
        invariant forall k | 0 <= k < |front| :: buf[b + k] == front[k]
        invariant forall k | 0 <= k < i :: buf[p + k] == data[k]
      {
        buf[p + i] := data[i];
        i := i + 1;
      }
      contents := front + data;
      forall k | 0 <= k < |contents|
        ensures contents[k] == buf[b + k]
      {
        if k >= |front| { assert buf[p + (k - |front|)] == data[k - |front|]; }
      }
    }

    method Append(data: seq<byte>)
      requires Valid()
      modifies this, buf
      ensures Valid() && (buf == old(buf) || fresh(buf)) && contents == old(contents) + data
      ensures GetShape() == WithRoom(old(GetShape()), |data|).(e := WithRoom(old(GetShape()), |data|).e + |data|)
      ensures copied == old(copied) + MoveCost(old(GetShape()), |data|)
    {
      var p := AllocRoom(|data|);
      CopyLast(p, data);
    }

    method Consume(len: nat)
      requires Valid() && len <= Size()
      modifies this
      ensures Valid() && (buf == old(buf) || fresh(buf)) && contents == old(contents)[len..]
      ensures contents == [] ==> buf.Length == 0
      ensures GetShape() == Consumed(old(GetShape()), len) && copied == old(copied)
    {
      b := b + len;
      contents := contents[len..];
      if b == e {
        Clear();
      }
    }

    /** Takes over the bytes of another buffer; a buffer does not absorb itself. */
    method Absorb(o: Buffer)
      requires Valid() && o.Valid() && (this != o ==> buf != o.buf)
      modifies this, buf, o
      ensures Valid() && o.Valid() && (this != o ==> buf != o.buf)
      ensures buf == old(buf) || buf == old(o.buf) || fresh(buf)
      ensures o.buf == old(o.buf) || o.buf == old(buf) || fresh(o.buf)
      ensures this == o ==> contents == old(contents) && GetShape() == old(GetShape())
      ensures this != o ==> contents == old(contents + o.contents) && o.contents == []
      ensures this != o ==>
                (GetShape(), o.GetShape()) == AbsorbedShapes(old(GetShape()), old(o.GetShape()))
      ensures copied + (if this == o then 0 else o.copied) ==
              old(copied + if this == o then 0 else o.copied) + if this == o then 0 else AbsorbCost(old(GetShape()), old(o.GetShape()))
    {
      if o != this {
        if Size() == 0 {
          buf, o.buf := o.buf, buf;
          b, o.b := o.b, b;
          e, o.e := o.e, e;
          contents, o.contents := o.contents, contents;
        } else {
          Append(o.buf[o.b..o.e]);
          o.Clear();
        }
      }
    }
  }

  // ----- what the moves cost

  /** Bytes copied by `makeRoom(len)`. */
  function MoveCost(s: Shape, len: nat): nat
    requires s.Valid()
  {
    if s.e + len <= s.cap then 0 else s.Size()
  }

  function AbsorbedShapes(s: Shape, o: Shape): (Shape, Shape)
    requires s.Valid() && o.Valid()
  {
    if s.Size() == 0 then (o.(exp := s.exp), s.(exp := o.exp))
    else
      var r := WithRoom(s, o.Size());
      (r.(e := r.e + o.Size()), Cleared(o))
  }

  function AbsorbCost(s: Shape, o: Shape): nat
    requires s.Valid() && o.Valid()
  {
    if s.Size() == 0 then 0 else MoveCost(s, o.Size())
  }
}
