/** The send path of handy/conn.cc on a connected TcpConn: whatever the kernel takes of each write, the
    bytes on the wire and the bytes waiting are together everything sent, in order. */
module Conn {
  import opened Buffers

  /** How the kernel answers a write: some bytes taken (at least one, at most all), or an interruption,
      or a full socket. */
  datatype Answer = Took(n: nat) | Eintr | Eagain

  /** What a callback may send: bytes, a buffer of its own, or a message through the codec. */
  datatype Sending = Bytes(data: seq<byte>) | OwnBuffer(data: seq<byte>) | Message(encoded: seq<byte>)

  function Data(s: Sending): seq<byte> {
    match s
    case Bytes(d) => d
    case OwnBuffer(d) => d
    case Message(d) => d
  }

  function AllData(sendings: seq<Sending>): seq<byte> {
    if sendings == [] then [] else Data(sendings[0]) + AllData(sendings[1..])
  }

  /** Writing new bytes directly keeps the order when nothing waits before them. */
  lemma NoneOvertaken(w: seq<byte>, waiting: seq<byte>, data: seq<byte>, w': seq<byte>, data': seq<byte>)
    requires waiting == [] || data == []
    requires w + data == w' + data' && |data'| <= |data|
    ensures w' + (waiting + data') == w + (waiting + data)
  {
    if data == [] {
      assert w + [] == w && w' + [] == w';
    } else {
      assert waiting + data == data && waiting + data' == data';
    }
  }

  // ----- what the kernel takes

  /** All that the kernel takes before it says that the socket is full. */
  function Room(answers: seq<Answer>): nat {
    if answers == [] then 0
    else match answers[0]
         case Took(n) => (if n == 0 then 1 else n) + Room(answers[1..])
         case Eintr => Room(answers[1..])
         case Eagain => 0
  }

  /** The answers that are left when `len` bytes were to be written. */
  function Unasked(answers: seq<Answer>, len: nat): seq<Answer> {
    if len == 0 || answers == [] then answers
    else match answers[0]
         case Took(n) => Unasked(answers[1..], len - Min(if n == 0 then 1 else n, len))
         case Eintr => Unasked(answers[1..], len)
         case Eagain => answers[1..]
  }

  /** The bytes of a block that go to the wire. */
  function Front(data: seq<byte>, answers: seq<Answer>): seq<byte> {
    data[..Min(|data|, Room(answers))]
  }

  lemma FrontOrAll(data: seq<byte>, answers: seq<Answer>)
    ensures Front(data, answers) + data[Min(|data|, Room(answers))..] == data
    ensures data[Min(|data|, Room(answers))..] == [] <==> |data| <= Room(answers)
  {
  }

  /** Only what the kernel was not asked for is left, and if not everything went, it is full. */
  lemma {:induction false} FullOrAll(answers: seq<Answer>, len: nat) returns (asked: seq<Answer>)
    ensures answers == asked + Unasked(answers, len)
    ensures Room(answers) < len ==> asked == answers || (asked != [] && asked[|asked| - 1] == Eagain)
    ensures forall i | 0 <= i < |asked| - 1 :: !asked[i].Eagain?
    decreases |answers|
  {
    if len == 0 || answers == [] {
      asked := [];
    } else if answers[0] == Eagain {
      asked := [Eagain];
    } else {
      var n := if answers[0].Took? then Min(if answers[0].n == 0 then 1 else answers[0].n, len) else 0;
      var rest := FullOrAll(answers[1..], len - n);
      asked := [answers[0]] + rest;
    }
  }

  class TcpConn {
    const output: Buffer
    var hasChannel: bool
    var writing: bool           // the channel's write interest
    var kernel: seq<Answer>     // the answers still to come; a socket that says no more is full
    ghost var wire: seq<byte>   // everything the kernel has taken
    ghost var sent: seq<byte>   // everything passed to send and sendMsg while there was a channel

    /** Nothing lost, nothing reordered, and bytes that wait will be written. */
    ghost predicate Valid()
      reads this, output, output.buf
    {
      && output.Valid()
      && wire + output.contents == sent
      && (output.contents != [] ==> writing)
    }

    constructor (kernel: seq<Answer>)
      ensures Valid() && hasChannel && !writing && wire == [] && sent == [] && fresh(output) && fresh(output.buf)
    {
      output := new Buffer();
      hasChannel, writing, this.kernel := true, false, kernel;
      wire, sent := [], [];
    }

    /** Writes as much as the kernel takes; turns write interest on if it does not take all. */
    method ISend(data: seq<byte>) returns (sended: nat)
      modifies this`kernel, this`writing, this`wire
      ensures sended == Min(|data|, Room(old(kernel))) && kernel == Unasked(old(kernel), |data|)
      ensures wire == old(wire) + Front(data, old(kernel))
      ensures writing == (old(writing) || sended < |data|)
    {
      sended := 0;
      ghost var taken := Min(|data|, Room(kernel));
      while |data| > sended
        invariant sended <= taken <= |data| && wire == old(wire) + data[..sended] && writing == old(writing)
        invariant taken - sended == Min(|data| - sended, Room(kernel))
        invariant Unasked(kernel, |data| - sended) == Unasked(old(kernel), |data|)
        decreases |kernel|, |data| - sended
      {
        var answer := if kernel == [] then Eagain else kernel[0];
        kernel := if kernel == [] then [] else kernel[1..];
        match answer
        case Took(n) =>
          var wd := Min(if n == 0 then 1 else n, |data| - sended);
          wire := wire + data[sended..sended + wd];
          assert data[..sended + wd] == data[..sended] + data[sended..sended + wd];
          sended := sended + wd;
          continue;
        case Eintr =>
          continue;
        case Eagain =>
          if !writing {
            writing := true;
          }
          break;
      }
    }

    /** Writes what the kernel takes of a buffer, which may be `output`. */
    method WriteOut(buf: Buffer)
      requires buf.Valid()
      modifies this`kernel, this`writing, this`wire, buf
      ensures buf.Valid() && (buf.buf == old(buf.buf) || fresh(buf.buf))
      ensures kernel == Unasked(old(kernel), |old(buf.contents)|)
      ensures wire == old(wire) + Front(old(buf.contents), old(kernel))
      ensures wire + buf.contents == old(wire + buf.contents) && |buf.contents| <= |old(buf.contents)|
      ensures buf.contents == [] <==> |old(buf.contents)| <= Room(old(kernel))
      ensures writing == (old(writing) || buf.contents != [])
    {
      ghost var all, was := buf.contents, wire;
      FrontOrAll(all, kernel);
      var sended := ISend(buf.buf[buf.b..buf.e]);
      assert was + (all[..sended] + all[sended..]) == was + all[..sended] + all[sended..];
      buf.Consume(sended);
    }

    /** `output_.absorb(buf)`. */
    method Queue(buf: Buffer)
      requires output.Valid() && buf.Valid() && buf != output && buf.buf != output.buf
      modifies output, output.buf, buf
      ensures output.Valid() && buf.Valid() && buf.buf != output.buf
      ensures output.buf == old(output.buf) || output.buf == old(buf.buf) || fresh(output.buf)
      ensures buf.buf == old(buf.buf) || buf.buf == old(output.buf) || fresh(buf.buf)
      ensures output.contents == old(output.contents + buf.contents) && buf.contents == []
    {
      output.Absorb(buf);
    }

    /** First half of `send(Buffer &)` after the full-socket case: writes what the kernel takes. */
    method WriteSome(buf: Buffer)
      requires buf.Valid()
      modifies this`kernel, this`writing, this`wire, buf
      ensures wire == old(wire) + Front(old(buf.contents), old(kernel))
      ensures kernel == Unasked(old(kernel), |old(buf.contents)|)
      ensures buf.Valid() && (buf.buf == old(buf.buf) || fresh(buf.buf))
      ensures wire + buf.contents == old(wire + buf.contents)
      ensures |buf.contents| <= |old(buf.contents)|
      ensures writing == (old(writing) || buf.contents != [])
    {
      if buf.Size() > 0 {
        WriteOut(buf);
      }
    }

    /** Second half: what the kernel did not take waits in `output`. */
    method QueueRest(buf: Buffer)
      requires output.Valid() && buf.Valid() && buf != output && buf.buf != output.buf
      modifies this`writing, output, output.buf, buf
      ensures output.Valid() && buf.Valid() && buf.contents == []
      ensures output.buf == old(output.buf) || output.buf == old(buf.buf) || fresh(output.buf)
      ensures output.contents == old(output.contents + buf.contents)
      ensures writing == (old(writing) || old(buf.contents) != [])
    {
      if buf.Size() > 0 {
        Queue(buf);
        if !writing {
          writing := true;
        }
      } else {
        assert output.contents + buf.contents == output.contents;
      }
    }

    /** `send(Buffer &)` with a buffer of the caller's. */
    method Send(buf: Buffer)
      requires Valid() && buf.Valid() && buf != output && buf.buf != output.buf
      modifies this`kernel, this`writing, this`wire, this`sent, output, output.buf, buf, buf.buf
      ensures wire == old(wire) + if hasChannel && !old(writing) then Front(old(buf.contents), old(kernel)) else []
      ensures Valid() && buf.Valid()
      ensures output.buf == old(output.buf) || output.buf == old(buf.buf) || fresh(output.buf)
      ensures sent == old(sent) + if hasChannel then old(buf.contents) else []
      ensures buf.contents == if hasChannel then [] else old(buf.contents)
    {
      if hasChannel {
        sent := sent + buf.contents;
        assert wire + (output.contents + buf.contents) == sent;
        if writing {
          Queue(buf);
          assert output.contents + buf.contents == output.contents;
        }
        ghost var was, data := wire, buf.contents;
        WriteSome(buf);
        NoneOvertaken(was, output.contents, data, wire, buf.contents);
        QueueRest(buf);
      }
    }

    /** `send(output_)`, as sendOutput calls it: a buffer that absorbs itself stays as it is. */
    method SendOutput()
      requires output.Valid() && wire + output.contents == sent
      modifies this`kernel, this`writing, this`wire, output
      ensures wire == old(wire) + if hasChannel then Front(old(output.contents), old(kernel)) else []
      ensures output.Valid() && (output.buf == old(output.buf) || fresh(output.buf))
      ensures wire + output.contents == sent
      ensures hasChannel && output.contents != [] ==> writing
      ensures !hasChannel ==> output.contents == old(output.contents)
    {
      if hasChannel {
        WriteSome(output);
        if output.Size() > 0 {
          writing := true;
        }
      }
    }

    /** `send(const char *, size_t)`. */
    method SendBytes(data: seq<byte>)
      requires Valid()
      modifies this`kernel, this`writing, this`wire, this`sent, output, output.buf
      ensures wire == old(wire) + if hasChannel && old(output.contents) == [] then Front(data, old(kernel)) else []
      ensures Valid() && hasChannel == old(hasChannel) && (output.buf == old(output.buf) || fresh(output.buf))
      ensures sent == old(sent) + if hasChannel then data else []
    {
      if hasChannel {
        var rest := data;
        ghost var waiting := output.contents;
        if output.Size() == 0 {
          var sended := ISend(data);
          rest := data[sended..];
          assert data == data[..sended] + rest;
        }
        sent := sent + data;
        assert wire + (waiting + rest) == sent;
        if |rest| > 0 {
          output.Append(rest);
        } else {
          assert waiting + rest == waiting;
        }
      }
    }

    /** `sendMsg`: the codec appends the encoded message to `output`, and `output` is sent. */
    method SendMsg(encoded: seq<byte>)
      requires Valid() && hasChannel
      modifies this`kernel, this`writing, this`wire, this`sent, output, output.buf
      ensures wire == old(wire) + Front(old(output.contents) + encoded, old(kernel))
      ensures Valid() && hasChannel == old(hasChannel) && (output.buf == old(output.buf) || fresh(output.buf))
      ensures sent == old(sent) + encoded
    {
      ghost var waiting := output.contents;
      output.Append(encoded);
      sent := sent + encoded;
      assert wire + output.contents == sent by {
        assert wire + (waiting + encoded) == wire + waiting + encoded;
      }
      SendOutput();
    }

    method SendOwn(data: seq<byte>)
      requires Valid()
      modifies this`kernel, this`writing, this`wire, this`sent, output, output.buf
      ensures wire == old(wire) + if hasChannel && !old(writing) then Front(data, old(kernel)) else []
      ensures Valid() && (output.buf == old(output.buf) || fresh(output.buf))
      ensures sent == old(sent) + if hasChannel then data else []
    {
      var own := new Buffer();
      own.Append(data);
      assert own.contents == data;
      Send(own);
    }

    method SendAny(s: Sending)
      requires Valid() && hasChannel
      modifies this`kernel, this`writing, this`wire, this`sent, output, output.buf
      ensures old(wire) <= wire
      ensures Valid() && hasChannel && (output.buf == old(output.buf) || fresh(output.buf))
      ensures sent == old(sent) + Data(s)
    {
      match s
      case Bytes(data) => SendBytes(data);
      case Message(encoded) => SendMsg(encoded);
      case OwnBuffer(data) => SendOwn(data);
    }

    /** What the writable callback does: any list of sends. */
    method Callback(sendings: seq<Sending>)
      requires Valid() && hasChannel
      modifies this`kernel, this`writing, this`wire, this`sent, output, output.buf
      ensures old(wire) <= wire
      ensures Valid() && hasChannel && (output.buf == old(output.buf) || fresh(output.buf))
      ensures sent == old(sent) + AllData(sendings)
      decreases |sendings|
    {
      if sendings != [] {
        ghost var was := sent;
        SendAny(sendings[0]);
        assert was + Data(sendings[0]) + AllData(sendings[1..]) == was + AllData(sendings);
        Callback(sendings[1..]);
      }
    }

    /** Calls the writable callback if it is set and nothing waits. */
    method CallWritable(writablecb: seq<Sending>) returns (ghost called: bool)
      requires Valid() && hasChannel
      modifies this`kernel, this`writing, this`wire, this`sent, output, output.buf
      ensures Valid() && hasChannel && (output.buf == old(output.buf) || fresh(output.buf))
      ensures called <==> writablecb != [] && old(output.contents) == []
      ensures sent == old(sent) + if called then AllData(writablecb) else []
      ensures old(wire) <= wire
      ensures !called ==> wire == old(wire) && output.contents == old(output.contents)
    {
      called := output.Size() == 0 && writablecb != [];
      if output.Size() == 0 && writablecb != [] {
        Callback(writablecb);
      }
    }

    /** Writes what the kernel takes of what waits. */
    method Drain()
      requires Valid()
      modifies this`kernel, this`writing, this`wire, output
      ensures output.Valid() && (output.buf == old(output.buf) || fresh(output.buf))
      ensures wire == old(wire) + Front(old(output.contents), old(kernel)) && wire + output.contents == sent
      ensures output.contents == [] <==> |old(output.contents)| <= Room(old(kernel))
      ensures output.contents == [] ==> wire == sent
      ensures output.contents != [] ==> writing
    {
      WriteOut(output);
      assert wire + [] == wire;
    }

    /** Called when the socket is writable again. Afterwards write interest is on exactly if bytes wait.
        The callback runs exactly if the kernel takes everything that waited. */
    method HandleWrite(writablecb: seq<Sending>) returns (ghost called: bool)
      requires Valid() && hasChannel
      modifies this`kernel, this`writing, this`wire, this`sent, output, output.buf
      ensures Valid() && hasChannel && (output.buf == old(output.buf) || fresh(output.buf))
      ensures writing <==> output.contents != []
      ensures sent == old(sent) + if called then AllData(writablecb) else []
      ensures called <==> writablecb != [] && |old(output.contents)| <= Room(old(kernel))
      ensures old(wire) + Front(old(output.contents), old(kernel)) <= wire
      ensures called ==> old(sent) <= wire
      ensures !called ==> wire == old(wire) + Front(old(output.contents), old(kernel))
    {
      Drain();
      called := CallWritable(writablecb);
      if output.Size() == 0 && writing {
        writing := false;
      }
    }
  }
}
