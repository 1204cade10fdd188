/** The server's side of an HTTP connection in handy/http.cc: one request is decoded for each read callback,
    and there is one read callback for each time the socket has been read empty. */
module HttpServe {
  import opened Slices
  import opened Http
  import opened HttpMessages
  import opened HttpIncremental
  import opened HttpRoundTrip

  datatype Server = Server(handled: seq<Request>, req: Request, input: string, open: bool)

  const IDLE := Server([], NEW_REQUEST, "", true)

  /** The read callback, with a callback of the user's that answers at once, which clears the data of the
      request. A request that is refused, or an exception, is the end. */
  function Called(s: Server): Server {
    var d := DecodeRequest(s.req, s.input, true);
    if d.0 == Error || d.0 == Throws then s.(req := d.1, open := false)
    else if d.0 == Complete && d.1.parts.scanned <= |s.input| then
      Server(s.handled + [d.1], NEW_REQUEST, s.input[d.1.parts.scanned..], true)
    else s.(req := d.1)
  }

  /** The socket is read empty, or its end is reached; then the callback is called if there is any input. */
  function Read(s: Server, chunk: string): Server {
    var t := s.(input := s.input + chunk);
    if !s.open then s else if t.input == "" then t else Called(t)
  }

  function Reads(chunks: seq<string>): Server {
    if chunks == [] then IDLE else Read(Reads(chunks[..|chunks| - 1]), chunks[|chunks| - 1])
  }

  class HttpConn {
    const req: HttpRequest
    const resp: HttpResponse
    const isClient: bool
    var input: string
    var open: bool
    ghost var handled: seq<Request>

    ghost function Now(): Server
      reads this, req, req.msg
    {
      Server(handled, req.Now(), input, open)
    }

    constructor (isClient: bool)
      ensures Now() == IDLE && this.isClient == isClient && resp.Now() == NEW_RESPONSE
      ensures fresh(req) && fresh(req.msg) && fresh(resp) && fresh(resp.msg)
    {
      req := new HttpRequest();
      resp := new HttpResponse();
      input, open, handled, this.isClient := "", true, [], isClient;
    }

    /** `clearData`: the bytes of the message leave the input, and it is ready for the next. */
    method ClearData()
      requires if isClient then resp.msg.scanned <= |input| else req.msg.scanned <= |input|
      modifies `input, req, req.msg, resp, resp.msg
      ensures isClient ==> input == old(input[resp.msg.scanned..]) && resp.Now() == NEW_RESPONSE
      ensures !isClient ==> input == old(input[req.msg.scanned..]) && req.Now() == NEW_REQUEST
    {
      if isClient {
        input := input[resp.msg.scanned..];
        resp.Clear();
      } else {
        input := input[req.msg.scanned..];
        req.Clear();
      }
    }

    /** `handleRead` on a server. */
    method HandleRead()
      requires !isClient && open
      modifies this, req, req.msg, resp, resp.msg
      ensures Now() == Called(old(Now()))
    {
      var r := req.TryDecode(input, true);
      if r == Error || r == Throws {
        open := false;
        return;
      }
      if r == Complete && req.msg.scanned <= |input| {
        handled := handled + [req.Now()];
        ClearData();
      }
    }
  }

  // ----- requests that are refused

  lemma LastRead(chunks: seq<string>, chunk: string)
    ensures Reads(chunks + [chunk]) == Read(Reads(chunks), chunk)
  {
    assert (chunks + [chunk])[..|chunks|] == chunks;
  }

  lemma {:induction false} ClosedStays(chunks: seq<string>, more: seq<string>, s: Server)
    requires Reads(chunks) == s && !s.open
    ensures Reads(chunks + more) == s
    decreases |more|
  {
    if more == [] {
      assert chunks + more == chunks;
    } else {
      LastRead(chunks, more[0]);
      ClosedStays(chunks + [more[0]], more[1..], s);
      assert chunks + more == chunks + [more[0]] + more[1..];
    }
  }

  /** A request that is refused is not handled, nor is anything that comes after it. */
  lemma NothingAfterRefusal(chunks: seq<string>, chunk: string, more: seq<string>)
    requires var s := Reads(chunks);
             s.open && s.input + chunk != "" && DecodeRequest(s.req, s.input + chunk, true).0 == Error
    ensures !Reads(chunks + [chunk] + more).open && Reads(chunks + [chunk] + more).handled == Reads(chunks).handled
  {
    LastRead(chunks, chunk);
    ClosedStays(chunks + [chunk], more, Reads(chunks + [chunk]));
  }

  // ----- requests that arrive in pieces

  lemma DecodeWithin(p: string)
    requires Decode(CLEAR, p, true).0 == Complete
    ensures Decode(CLEAR, p, true).1.scanned <= |p|
  {
  }

  lemma CompleteWithin(p: string)
    requires DecodeRequest(NEW_REQUEST, p, true).0 == Complete
    ensures DecodeRequest(NEW_REQUEST, p, true).1.parts.scanned <= |p|
  {
    var d := Decode(CLEAR, p, true);
    AnsweredAs(NEW_REQUEST, p, true, d.0, d.1, d.2);
    DecodeWithin(p);
  }

  /** A request that has not come completely is waited for. */
  lemma Waits(s: Sent, p: string)
    requires GoodRequest(s.request, s.fields) && p <= TextOf(s) && p != TextOf(s)
    ensures DecodeRequest(NEW_REQUEST, p, true).0 == NotComplete
  {
    var text := TextOf(s);
    RequestRoundTrip(s.request, s.fields, "", true);
    assert text + "" == text;
    ResumeRequest(p, text, true);
    assert ResumesAt(RequestDecoder(true), NEW_REQUEST, p, text);
    if DecodeRequest(NEW_REQUEST, p, true).0 == Complete { CompleteWithin(p); }
  }

  /** The parser has seen some of the input and found no answer in it. */
  ghost predicate Seen(req: Request, p: string) {
    DecodeRequest(NEW_REQUEST, p, true) == (NotComplete, req)
  }

  /** Resuming is decoding the input from its beginning. */
  lemma AsFromNew(req: Request, p: string, input: string)
    requires Seen(req, p) && p <= input
    ensures var x, y := DecodeRequest(req, input, true), DecodeRequest(NEW_REQUEST, input, true);
            x.0 == y.0 && (x.0 != Error ==> x.1 == y.1)
  {
    ResumeRequest(p, input, true);
    assert ResumesAt(RequestDecoder(true), NEW_REQUEST, p, input);
  }

  lemma NothingSeen()
    ensures Seen(NEW_REQUEST, "")
  {
  }

  /** A callback that finds a whole request handles it and keeps what is behind it. */
  lemma CalledOnWhole(s: Server, p: string, sent: Sent, rest: string) returns (d: Request)
    requires s.open && Seen(s.req, p) && p <= s.input == TextOf(sent) + rest && GoodRequest(sent.request, sent.fields)
    ensures Called(s) == Server(s.handled + [d], NEW_REQUEST, rest, true) && Same(d, sent)
  {
    RequestRoundTrip(sent.request, sent.fields, rest, true);
    AsFromNew(s.req, p, s.input);
    d := DecodeRequest(NEW_REQUEST, s.input, true).1;
  }

  /** A callback that finds less keeps it. */
  lemma CalledOnPart(s: Server, p: string, sent: Sent) returns (req: Request)
    requires s.open && Seen(s.req, p) && p <= s.input <= TextOf(sent) && s.input != TextOf(sent)
    requires GoodRequest(sent.request, sent.fields)
    ensures Called(s) == s.(req := req) && Seen(req, s.input)
  {
    Waits(sent, s.input);
    AsFromNew(s.req, p, s.input);
    req := DecodeRequest(NEW_REQUEST, s.input, true).1;
  }
}
