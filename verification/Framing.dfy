/** The framing codecs of handy/codec.cc and the loops of handy/conn.cc that cut a stream into messages. */
module Framing {
  import opened Buffers

  const NEWLINE: byte := 10
  const RETURN: byte := 13
  const END_OF_TRANSMISSION: byte := 4
  const MAX_MESSAGE: int := 1024 * 1024

  // ----- the byte order of a machine word

  /** The memory of an n-byte word on a little-endian machine. */
  function Store(v: nat, n: nat): (pv: seq<byte>)
    ensures |pv| == n
  {
    if n == 0 then [] else [v % 256] + Store(v / 256, n - 1)
  }

  function Load(pv: seq<byte>): nat {
    if pv == [] then 0 else pv[0] + 256 * Load(pv[1..])
  }

  /** `pv[0] << 8 * (n - 1) | ... | pv[n - 1]` */
  function ShiftedIn(pv: seq<byte>): nat {
    if pv == [] then 0 else 256 * ShiftedIn(pv[..|pv| - 1]) + pv[|pv| - 1]
  }

  /** The overload of `htobe` for words of n bytes. */
  function HtoBe(v: nat, n: nat): nat {
    ShiftedIn(Store(v, n))
  }

  /** Conversion to a 32-bit `int`. */
  function ToInt32(x: int): int {
    var u := x % 0x1_0000_0000;
    if u < 0x8000_0000 then u else u - 0x1_0000_0000
  }

  // ----- the codecs

  datatype Codec = Line | Length

  /** What the decode callback is handed: bytes, or the slice whose end lies `n` before its beginning. */
  datatype Msg = Bytes(data: seq<byte>) | Backwards(n: nat)

  /** Index of the first newline, or the length if there is none. */
  function Newline(data: seq<byte>): (i: nat)
    ensures i <= |data| && NEWLINE !in data[..i]
    ensures i < |data| ==> data[i] == NEWLINE
  {
    if data == [] || data[0] == NEWLINE then 0
    else
      assert data[..1 + Newline(data[1..])] == [data[0]] + data[1..][..Newline(data[1..])];
      1 + Newline(data[1..])
  }

  /** A line without its `\r\n` or `\n`. */
  function Stripped(data: seq<byte>, i: nat): seq<byte>
    requires i <= |data|
  {
    if i > 0 && data[i - 1] == RETURN then data[..i - 1] else data[..i]
  }

  const MAGIC: seq<byte> := [109, 66, 100, 84]  // "mBdT"

  /** The length field of a frame header. */
  function LengthField(data: seq<byte>): int
    requires |data| >= 8
  {
    ToInt32(HtoBe(Load(data[4..8]), 4))
  }

  function Body(data: seq<byte>, len: int): Msg
    requires len + 8 <= |data| && 8 <= |data|
  {
    if len >= 0 then Bytes(data[8..8 + len]) else Backwards(-len)
  }

  /** The frame at the front of the data, with no machine integers in the way: 0 if it is not all
      there, negative if there cannot be one, otherwise its length and the message. */
  function Frame(c: Codec, data: seq<byte>): (r: (int, Msg))
    ensures r.0 <= |data|
  {
    match c
    case Line =>
      var i := Newline(data);
      if i < |data| then (i + 1, Bytes(Stripped(data, i))) else (0, Bytes([]))
    case Length =>
      if |data| < 8 then (0, Bytes([]))
      else
        var len := LengthField(data);
        if len > MAX_MESSAGE || data[..4] != MAGIC then (-1, Bytes([]))
        else if |data| >= len + 8 then (len + 8, Body(data, len))
        else (0, Bytes([]))
  }

  /** What `tryDecode` answers: like the frame, but sizes pass through `int`, and one byte 4 on its own
      is a message of the line codec. */
  function Decode(c: Codec, data: seq<byte>): (r: (int, Msg))
    ensures r.0 <= |data|
  {
    match c
    case Line =>
      if data == [END_OF_TRANSMISSION] then (1, Bytes(data))
      else
        var i := Newline(data);
        if i < |data| then (ToInt32(i + 1), Bytes(Stripped(data, i))) else (0, Bytes([]))
    case Length =>
      if |data| < 8 then (0, Bytes([]))
      else
        var len := LengthField(data);
        if len > MAX_MESSAGE || data[..4] != MAGIC then (-1, Bytes([]))
        else if ToInt32(|data|) >= len + 8 then (len + 8, Body(data, len))
        else (0, Bytes([]))
  }

  function Encode(c: Codec, m: seq<byte>): seq<byte> {
    match c
    case Line => m + [RETURN, NEWLINE]
    case Length => MAGIC + Store(HtoBe(|m| % 0x1_0000_0000, 4), 4) + m
  }

  method LineTryDecode(data: seq<byte>) returns (r: int, msg: Msg)
    ensures (r, msg) == Decode(Line, data)
  {
    msg := Bytes([]);
    if |data| == 1 && data[0] == END_OF_TRANSMISSION {
      return 1, Bytes(data);
    }
    var i := 0;
    while i < |data|
      invariant 0 <= i <= |data| && Newline(data) == i + Newline(data[i..])
    {
      if data[i] == NEWLINE {
        if i > 0 && data[i - 1] == RETURN {
          return ToInt32(i + 1), Bytes(data[..i - 1]);
        } else {
          return ToInt32(i + 1), Bytes(data[..i]);
        }
      }
      assert data[i..][1..] == data[i + 1..];
      i := i + 1;
    }
    return 0, msg;
  }

  method LengthTryDecode(data: seq<byte>) returns (r: int, msg: Msg)
    ensures (r, msg) == Decode(Length, data)
  {
    msg := Bytes([]);
    if |data| < 8 {
      return 0, msg;
    }
    var len := ToInt32(HtoBe(Load(data[4..8]), 4));
    if len > 1024 * 1024 || data[..4] != MAGIC {
      return -1, msg;
    }
    if ToInt32(|data|) >= len + 8 {
      if len >= 0 {
        msg := Bytes(data[8..8 + len]);
      } else {
        msg := Backwards(-len);
      }
      return len + 8, msg;
    }
    return 0, msg;
  }

  method Put(data: seq<byte>, buf: Buffer)
    requires buf.Valid()
    modifies buf, buf.buf
    ensures buf.Valid() && (buf.buf == old(buf.buf) || fresh(buf.buf))
    ensures buf.contents == old(buf.contents) + data
  {
    buf.Append(data);
  }

  method LineEncode(m: seq<byte>, buf: Buffer)
    requires buf.Valid()
    modifies buf, buf.buf
    ensures buf.Valid() && (buf.buf == old(buf.buf) || fresh(buf.buf))
    ensures buf.contents == old(buf.contents) + Encode(Line, m)
  {
    ghost var was := buf.contents;
    Put(m, buf);
    Put([RETURN, NEWLINE], buf);
    assert was + m + [RETURN, NEWLINE] == was + (m + [RETURN, NEWLINE]);
  }

  method LengthEncode(m: seq<byte>, buf: Buffer)
    requires buf.Valid()
    modifies buf, buf.buf
    ensures buf.Valid() && (buf.buf == old(buf.buf) || fresh(buf.buf))
    ensures buf.contents == old(buf.contents) + Encode(Length, m)
  {
    ghost var was := buf.contents;
    var len := Store(HtoBe(|m| % 0x1_0000_0000, 4), 4);
    Put(MAGIC, buf);
    Put(len, buf);
    Put(m, buf);
    assert buf.contents == was + Encode(Length, m) by {
      assert was + MAGIC + len + m == was + (MAGIC + len + m);
    }
  }

  // ----- cutting a stream

  /** Messages handed over, bytes kept, and whether the codec still accepts the stream. */
  datatype Session = Session(delivered: seq<Msg>, rest: seq<byte>, open: bool) {
    /** The same session with earlier messages in front. */
    function Behind(earlier: seq<Msg>): Session {
      this.(delivered := earlier + delivered)
    }

    /** Agreement on everything but the bytes of a stream that is refused. */
    predicate Like(s: Session) {
      delivered == s.delivered && open == s.open && (open ==> rest == s.rest)
    }
  }

  /** The decode loop on what is buffered. */
  function DecodeAll(c: Codec, data: seq<byte>): Session
    decreases |data|
  {
    var (r, msg) := Decode(c, data);
    if r < 0 then Session([], data, false)
    else if r == 0 then Session([], data, true)
    else DecodeAll(c, data[r..]).Behind([msg])
  }

  /** The frames of a whole stream. */
  function Parse(c: Codec, data: seq<byte>): Session
    decreases |data|
  {
    var (r, msg) := Frame(c, data);
    if r < 0 then Session([], data, false)
    else if r == 0 then Session([], data, true)
    else Parse(c, data[r..]).Behind([msg])
  }

  /** The decode loop on a session. */
  function Looped(c: Codec, s: Session): Session {
    var d := DecodeAll(c, s.rest);
    Session(s.delivered + d.delivered, d.rest, s.open && d.open)
  }

  /** One turn of the decode loop. */
  lemma LoopTurn(c: Codec, s: Session)
    ensures var (r, msg) := Decode(c, s.rest);
            if r < 0 then Looped(c, s) == s.(open := false) && !DecodeAll(c, s.rest).open
            else if r == 0 then Looped(c, s) == s && DecodeAll(c, s.rest).open
            else
              && Looped(c, s) == Looped(c, Session(s.delivered + [msg], s.rest[r..], s.open))
              && DecodeAll(c, s.rest).open == DecodeAll(c, s.rest[r..]).open
  {
    var (r, msg) := Decode(c, s.rest);
    if r > 0 {
      var d := DecodeAll(c, s.rest[r..]);
      assert s.delivered + ([msg] + d.delivered) == s.delivered + [msg] + d.delivered;
    } else {
      assert s.delivered + [] == s.delivered;
    }
  }

  /** One more chunk read, then the decode loop. */
  function Feed(c: Codec, s: Session, chunk: seq<byte>): Session {
    if s.open then Looped(c, s.(rest := s.rest + chunk)) else s
  }

  function FeedAll(c: Codec, s: Session, chunks: seq<seq<byte>>): Session
    decreases |chunks|
  {
    if chunks == [] then s else FeedAll(c, Feed(c, s, chunks[0]), chunks[1..])
  }

  function Join<T>(chunks: seq<seq<T>>): seq<T> {
    if chunks == [] then [] else chunks[0] + Join(chunks[1..])
  }

  const START := Session([], [], true)

  // ----- the receiving side of a connection

  lemma Assoc<T>(a: seq<T>, b: seq<T>, c: seq<T>)
    ensures a + b + c == a + (b + c)
  {
  }

  /** How the kernel answers a read: bytes (none mean the end of the stream), an interruption,
      nothing for now, or the end of the stream. */
  datatype Answer = Got(n: nat) | Eintr | Eagain | Eof

  // ----- how much is read

  /** What one read takes that the kernel has n bytes for. */
  function Taken(n: nat, arrived: nat, s: Shape): (rd: nat)
    requires s.Valid()
    ensures rd <= arrived && rd <= WithReadRoom(s).cap - WithReadRoom(s).e
  {
    Min(n, Min(WithReadRoom(s).cap - WithReadRoom(s).e, arrived))
  }

  function AfterRead(s: Shape, rd: nat): Shape
    requires s.Valid()
  {
    WithReadRoom(s).(e := WithReadRoom(s).e + rd)
  }

  /** How many of the bytes that have arrived one run of the read handler takes, starting with a buffer of this
      shape, and whether it comes to the end of the stream. */
  function Reading(kernel: seq<Answer>, arrived: nat, s: Shape): (r: (nat, bool))
    requires s.Valid()
    ensures r.0 <= arrived
  {
    if kernel == [] then (0, false)
    else match kernel[0]
         case Eintr => Reading(kernel[1..], arrived, AfterRead(s, 0))
         case Eagain => (0, false)
         case Eof => (0, true)
         case Got(n) =>
           var rd := Taken(n, arrived, s);
           if rd == 0 then (0, true)
           else
             var more := Reading(kernel[1..], arrived - rd, AfterRead(s, rd));
             (rd + more.0, more.1)
  }

  /** What the kernel offers before it says that there is no more, counting at most so much for each answer. */
  function Offered(kernel: seq<Answer>, most: nat): nat {
    if kernel == [] then 0
    else match kernel[0]
         case Got(n) => if n == 0 then 0 else Min(n, most) + Offered(kernel[1..], most)
         case Eintr => Offered(kernel[1..], most)
         case _ => 0
  }

  /** What the kernel says before anything else but bytes: that the stream has ended, not that there is nothing
      for now. */
  predicate SaysEnd(kernel: seq<Answer>) {
    && kernel != []
    && match kernel[0]
       case Got(n) => n == 0 || SaysEnd(kernel[1..])
       case Eintr => SaysEnd(kernel[1..])
       case Eagain => false
       case Eof => true
  }

  lemma {:induction false} OfferedNothing(kernel: seq<Answer>)
    ensures Offered(kernel, 0) == 0
  {
    if kernel != [] { OfferedNothing(kernel[1..]); }
  }

  /** A buffer whose suggested size is no larger than its memory has room for that much. */
  ghost predicate Roomy(s: Shape) {
    s.Valid() && (s.cap == 0 || s.cap >= s.exp)
  }

  lemma OneRead(n: nat, arrived: nat, s: Shape, rest: nat, more: nat)
    requires Roomy(s) && Min(arrived - Taken(n, arrived, s), rest) <= more
    ensures Min(arrived, Min(n, s.exp) + rest) <= Taken(n, arrived, s) + more
  {
    RoomToRead(s);
  }

  lemma RoomyOn(n: nat, arrived: nat, s: Shape)
    requires Roomy(s)
    ensures Roomy(AfterRead(s, Taken(n, arrived, s))) && AfterRead(s, Taken(n, arrived, s)).exp == s.exp
    ensures Taken(n, arrived, s) == 0 ==> n == 0 || arrived == 0 || s.exp == 0
  {
    RoomToRead(s);
  }

  /** As much is read as the kernel offers, up to the suggested size for each answer, or all there is. */
  lemma {:induction false} ReadsWhatIsOffered(kernel: seq<Answer>, arrived: nat, s: Shape)
    requires Roomy(s)
    ensures Min(arrived, Offered(kernel, s.exp)) <= Reading(kernel, arrived, s).0
    decreases |kernel|
  {
    if s.exp == 0 {
      OfferedNothing(kernel);
    } else if kernel != [] && kernel[0].Eintr? {
      RoomyOn(0, arrived, s);
      ReadsWhatIsOffered(kernel[1..], arrived, AfterRead(s, 0));
    } else if kernel != [] && kernel[0].Got? {
      var rd := Taken(kernel[0].n, arrived, s);
      RoomyOn(kernel[0].n, arrived, s);
      var next := AfterRead(s, rd);
      ReadsWhatIsOffered(kernel[1..], arrived - rd, next);
      OneRead(kernel[0].n, arrived, s, Offered(kernel[1..], s.exp), Reading(kernel[1..], arrived - rd, next).0);
    }
  }

  /** And never more than it offers. */
  lemma {:induction false} ReadsNoMore(kernel: seq<Answer>, arrived: nat, s: Shape, most: nat)
    requires s.Valid() && arrived <= most
    ensures Reading(kernel, arrived, s).0 <= Offered(kernel, most)
    decreases |kernel|
  {
    if kernel != [] && (kernel[0].Eintr? || kernel[0].Got?) {
      var rd := if kernel[0].Got? then Taken(kernel[0].n, arrived, s) else 0;
      ReadsNoMore(kernel[1..], arrived - rd, AfterRead(s, rd), most);
    }
  }

  /** If the kernel offers no more than has arrived, the end of the stream is taken for reached exactly if the
      kernel says so. */
  lemma {:induction false} EndsWhenTold(kernel: seq<Answer>, arrived: nat, s: Shape, most: nat)
    requires s.Valid() && s.exp > 0 && Offered(kernel, most) <= arrived < most
    ensures Reading(kernel, arrived, s).1 <==> SaysEnd(kernel)
    decreases |kernel|
  {
    if kernel != [] && (kernel[0].Eintr? || kernel[0].Got?) {
      RoomToRead(s);
      var rd := if kernel[0].Got? then Taken(kernel[0].n, arrived, s) else 0;
      if kernel[0].Eintr? || rd > 0 { EndsWhenTold(kernel[1..], arrived - rd, AfterRead(s, rd), most); }
    }
  }

  /** If what has arrived is what the kernel offers, in answers of at most the suggested size, all is read, and
      the connection is left open or closed as the kernel says. */
  lemma AllIsRead(kernel: seq<Answer>, arrived: nat, s: Shape)
    requires Roomy(s) && s.exp > 0 && Offered(kernel, s.exp) == arrived == Offered(kernel, arrived + 1)
    ensures Reading(kernel, arrived, s) == (arrived, SaysEnd(kernel))
  {
    ReadsWhatIsOffered(kernel, arrived, s);
    EndsWhenTold(kernel, arrived, s, arrived + 1);
  }

  ghost predicate ReadSoFar(reading: (nat, bool), n: nat, kernel: seq<Answer>, i: nat, arrived: nat, s: Shape) {
    && i <= |kernel| && s.Valid()
    && reading == (n + Reading(kernel[i..], arrived, s).0, Reading(kernel[i..], arrived, s).1)
  }

  /** One turn of the read loop, after which `n` bytes have been read in all; a list of answers that runs out means
      no more for now. */
  lemma ReadingTurn(kernel: seq<Answer>, i: nat, arrived: nat, s: Shape, answer: Answer, rd: nat, n: nat, reading: (nat, bool))
    requires i <= |kernel| && s.Valid() && rd <= arrived && rd <= n && answer == (if i < |kernel| then kernel[i] else Eagain)
    requires rd == Taken(if answer.Got? then answer.n else 0, arrived, s)
    requires ReadSoFar(reading, n - rd, kernel, i, arrived, s)
    ensures if answer == Eagain then reading == (n, false)
            else if answer != Eintr && rd == 0 then reading == (n, true)
            else ReadSoFar(reading, n, kernel, Next(kernel, i), arrived - rd, AfterRead(s, rd))
  {
    if i < |kernel| { assert kernel[i..][1..] == kernel[i + 1..] && kernel[i..][0] == kernel[i]; }
  }

  function Next(kernel: seq<Answer>, i: nat): (j: nat)
    requires i <= |kernel|
    ensures i <= j <= |kernel|
  {
    if i < |kernel| then i + 1 else i
  }

  lemma NothingToDo(c: Codec, s: Session)
    ensures s.rest == [] ==> Looped(c, s) == s && DecodeAll(c, s.rest).open
  {
    LoopTurn(c, s);
  }

  // ----- the object

  class Receiver {
    const codec: Codec
    const input: Buffer
    var connected: bool          // state_ == Connected
    var fdOpen: bool
    var delivered: seq<Msg>      // what the message callback was called with
    ghost var accepted: bool     // no tryDecode so far answered with an error

    ghost predicate Valid()
      reads this, input, input.buf
    {
      input.Valid()
    }

    ghost function Now(): Session
      reads this, input
    {
      Session(delivered, input.contents, accepted)
    }

    constructor (c: Codec)
      ensures Valid() && codec == c && connected && fdOpen && Now() == START && fresh(input) && fresh(input.buf)
    {
      codec := c;
      input := new Buffer();
      connected, fdOpen, delivered, accepted := true, true, [], true;
    }

    method TryDecode() returns (r: int, msg: Msg)
      requires Valid()
      ensures (r, msg) == Decode(codec, input.contents)
    {
      var data := input.buf[input.b..input.e];
      match codec
      case Line => r, msg := LineTryDecode(data);
      case Length => r, msg := LengthTryDecode(data);
    }

    /** The read callback that onMsg installs. A refused stream closes the channel, which calls back into
        this loop once more (see Close) and must deliver nothing twice. */
    method OnMsg()
      requires Valid()
      modifies this`connected, this`fdOpen, this`delivered, this`accepted, input
      ensures Valid() && (input.buf == old(input.buf) || fresh(input.buf))
      ensures Now() == Looped(codec, old(Now()))
      ensures fdOpen == (old(fdOpen) && DecodeAll(codec, old(input.contents)).open)
      ensures connected == (old(connected) && (fdOpen || !old(fdOpen)))
      decreases fdOpen, 1
    {
      ghost var end, open := Looped(codec, Now()), DecodeAll(codec, input.contents).open;
      var r := 1;
      while r != 0
        invariant Valid() && (input.buf == old(input.buf) || fresh(input.buf))
        invariant fdOpen == old(fdOpen) && connected == old(connected) && accepted == old(accepted)
        invariant 0 <= r
        invariant Looped(codec, Now()) == end && DecodeAll(codec, input.contents).open == open
        invariant r == 0 ==> Now() == end && open
        decreases r != 0, |input.contents|
      {
        var msg;
        r, msg := TryDecode();
        LoopTurn(codec, Now());
        if r < 0 {
          accepted := false;
          Close();
          break;
        } else if r > 0 {
          delivered := delivered + [msg];
          input.Consume(r);
        }
      }
    }

    /** `channel_->close()` on a refused stream: the connection's read handler runs once more, finds the
        descriptor gone and cleans up, which hands the unread input to the callback again. */
    method Close()
      requires Valid() && !accepted && Decode(codec, input.contents).0 < 0
      modifies this`connected, this`fdOpen, this`delivered, this`accepted, input
      ensures Valid() && (input.buf == old(input.buf) || fresh(input.buf))
      ensures Now() == old(Now()) && !fdOpen && connected == (old(connected) && !old(fdOpen))
      decreases fdOpen, 0
    {
      LoopTurn(codec, Now());
      assert Looped(codec, Now()) == Now();
      if fdOpen {
        fdOpen := false;
        if connected {
          input.MakeReadRoom();
          Cleanup();
        }
      }
    }

    /** `if (readcb_ && input_.size()) readcb_(con)` */
    method ReadCallback()
      requires Valid()
      modifies this`connected, this`fdOpen, this`delivered, this`accepted, input
      ensures Valid() && (input.buf == old(input.buf) || fresh(input.buf))
      ensures Now() == Looped(codec, old(Now()))
      ensures fdOpen == (old(fdOpen) && DecodeAll(codec, old(input.contents)).open)
      ensures connected == (old(connected) && (fdOpen || !old(fdOpen)))
      decreases fdOpen, 2
    {
      NothingToDo(codec, Now());
      if input.Size() > 0 {
        OnMsg();
      }
    }

    method Cleanup()
      requires Valid()
      modifies this`connected, this`fdOpen, this`delivered, this`accepted, input
      ensures Valid() && (input.buf == old(input.buf) || fresh(input.buf))
      ensures Now() == Looped(codec, old(Now())) && !connected
      ensures old(!fdOpen) ==> !fdOpen
      decreases fdOpen, 3
    {
      ReadCallback();
      connected := false;
    }

    /** What follows the reads: the read callback, or at the end of the stream the cleanup. */
    method HandOver(end: bool)
      requires Valid() && connected && fdOpen && accepted
      modifies this`connected, this`fdOpen, this`delivered, this`accepted, input
      ensures Valid() && (input.buf == old(input.buf) || fresh(input.buf))
      ensures Now() == Looped(codec, old(Now()))
      ensures connected <==> !end && accepted
      ensures connected ==> fdOpen
    {
      if end {
        Cleanup();
      } else {
        ReadCallback();
      }
    }

    /** `input_.makeRoom()` and one read, which takes up to n bytes of what has arrived. */
    method ReadSome(n: nat, arrived: seq<byte>) returns (read: seq<byte>, left: seq<byte>)
      requires Valid()
      modifies input, input.buf
      ensures Valid() && (input.buf == old(input.buf) || fresh(input.buf))
      ensures |read| == Taken(n, |arrived|, old(input.GetShape()))
      ensures input.GetShape() == AfterRead(old(input.GetShape()), |read|)
      ensures arrived == read + left && input.contents == old(input.contents) + read
    {
      input.MakeReadRoom();
      var rd := Min(n, Min(input.buf.Length - input.e, |arrived|));
      read, left := arrived[..rd], arrived[rd..];
      input.AddRead(read);
    }

    /** The read loop up to its exits: the kernel has no more for now, or the end of the stream is reached. */
    method ReadAll(kernel: seq<Answer>, incoming: seq<byte>) returns (left: seq<byte>, ghost chunk: seq<byte>, end: bool)
      requires Valid()
      modifies input, input.buf
      ensures Valid() && (input.buf == old(input.buf) || fresh(input.buf))
      ensures incoming == chunk + left && input.contents == old(input.contents) + chunk
      ensures (|chunk|, end) == Reading(kernel, |incoming|, old(input.GetShape()))
    {
      left, chunk, end := incoming, [], false;
      ghost var start, reading := input.contents, Reading(kernel, |incoming|, input.GetShape());
      assert start + [] == start && kernel[0..] == kernel;
      var i := 0;
      while true
        invariant Valid() && (input.buf == old(input.buf) || fresh(input.buf))
        invariant incoming == chunk + left && input.contents == start + chunk
        invariant i <= |kernel| && ReadSoFar(reading, |chunk|, kernel, i, |left|, input.GetShape())
        decreases |kernel| - i
      {
        ghost var was, arrived, s := i, |left|, input.GetShape();
        var answer := if i < |kernel| then kernel[i] else Eagain;
        i := Next(kernel, i);
        var read;
        read, left := ReadSome(if answer.Got? then answer.n else 0, left);
        Assoc(start, chunk, read);
        Assoc(chunk, read, left);
        chunk := chunk + read;
        ReadingTurn(kernel, was, arrived, s, answer, |read|, |chunk|, reading);
        if answer == Eintr {
          continue;
        } else if answer == Eagain {
          return;
        } else if read == [] {
          end := true;
          return;
        }
      }
    }

    /** Called when the socket is readable: reads until the kernel has no more for now, or the stream ends,
        and hands what is buffered to the decode loop. It stays connected exactly if the end was not reached
        and the codec accepts what has come. */
    method HandleRead(kernel: seq<Answer>, incoming: seq<byte>) returns (left: seq<byte>, ghost chunk: seq<byte>)
      requires Valid() && connected && fdOpen && accepted
      modifies this`connected, this`fdOpen, this`delivered, this`accepted, input, input.buf
      ensures Valid() && (input.buf == old(input.buf) || fresh(input.buf))
      ensures incoming == chunk + left
      ensures |chunk| == Reading(kernel, |incoming|, old(input.GetShape())).0
      ensures Now() == Feed(codec, old(Now()), chunk)
      ensures connected <==> !Reading(kernel, |incoming|, old(input.GetShape())).1 && accepted
      ensures connected ==> fdOpen
    {
      var end;
      left, chunk, end := ReadAll(kernel, incoming);
      HandOver(end);
    }
  }
}
