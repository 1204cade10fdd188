/** Requests sent one after the other over one HTTP connection: which of them the server of handy/http.cc
    handles, and what it keeps. */
module Pipelined {
  import opened Http
  import opened HttpMessages
  import opened HttpRoundTrip
  import opened HttpServe
  import opened Callbacks

  // ----- what is sent

  function Texts(sent: seq<Sent>): (ts: seq<string>)
    ensures |ts| == |sent| && forall i | 0 <= i < |ts| :: ts[i] == TextOf(sent[i])
  {
    if sent == [] then [] else [TextOf(sent[0])] + Texts(sent[1..])
  }

  // ----- what a server has done after some callbacks

  ghost predicate AllGoodSent(sent: seq<Sent>) {
    forall i | 0 <= i < |sent| :: GoodRequest(sent[i].request, sent[i].fields)
  }

  /** The first n requests are handled, each as it was sent, and exactly what came behind them is kept. */
  ghost predicate Served(sent: seq<Sent>, ts: seq<string>, n: nat, s: Server, arrived: string) {
    && s.open && |s.handled| == n <= |sent| == |ts| && (forall i | 0 <= i < n :: Same(s.handled[i], sent[i]))
    && Join(ts[..n]) + s.input == arrived
  }

  ghost predicate Partly(s: Server) {
    exists p :: Seen(s.req, p) && p <= s.input
  }

  lemma ServesWhole(sent: seq<Sent>, s: Server, p: string, n: nat, input: string) returns (d: Request)
    requires n < |sent| && GoodRequest(sent[n].request, sent[n].fields) && TextOf(sent[n]) <= input && input == s.input
    requires s.open && Seen(s.req, p) && p <= s.input
    ensures Called(s) == Server(s.handled + [d], NEW_REQUEST, input[|TextOf(sent[n])|..], true) && Same(d, sent[n])
    ensures input != ""
  {
    var text := TextOf(sent[n]);
    assert input == text + input[|text|..];
    d := CalledOnWhole(s, p, sent[n], input[|text|..]);
    RequestText(sent[n].request, sent[n].fields);
  }

  lemma ServedOn(sent: seq<Sent>, ts: seq<string>, n: nat, s: Server, arrived: string, chunk: string)
    requires Served(sent, ts, n, s, arrived)
    ensures Served(sent, ts, n, s.(input := s.input + chunk), arrived + chunk)
  {
    assert Join(ts[..n]) + s.input + chunk == Join(ts[..n]) + (s.input + chunk);
  }

  lemma ServedOne(sent: seq<Sent>, ts: seq<string>, n: nat, t: Server, arrived: string, d: Request, u: Server)
    requires Served(sent, ts, n, t, arrived) && n < |sent| && ts[n] <= t.input && Same(d, sent[n])
    requires u == Server(t.handled + [d], NEW_REQUEST, t.input[|ts[n]|..], true)
    ensures Served(sent, ts, n + 1, u, arrived) && Partly(u)
  {
    JoinNext(ts, n);
    NothingSeen();
    assert "" <= u.input;
    assert Join(ts[..n + 1]) + t.input[|ts[n]|..] == Join(ts[..n]) + t.input;
  }

  lemma ServesMore(sent: seq<Sent>, ts: seq<string>, n: nat, t: Server, p: string, arrived: string)
    requires AllGoodSent(sent) && ts == Texts(sent) && Served(sent, ts, n, t, arrived) && arrived <= Join(ts)
    requires Seen(t.req, p) && p <= t.input && n < |sent| && t.input != ""
    ensures if n < Whole(ts, |arrived|) then Served(sent, ts, n + 1, Called(t), arrived) && Partly(Called(t))
            else Served(sent, ts, n, Called(t), arrived) && Partly(Called(t))
  {
    NextText(ts, n, arrived, t.input);
    if n < Whole(ts, |arrived|) {
      var d := ServesWhole(sent, t, p, n, t.input);
      ServedOne(sent, ts, n, t, arrived, d, Called(t));
    } else {
      var req := CalledOnPart(t, p, sent[n]);
    }
  }

  lemma TextsNotEmpty(sent: seq<Sent>, n: nat)
    requires n < |sent| && GoodRequest(sent[n].request, sent[n].fields)
    ensures TextOf(sent[n]) != ""
  {
    RequestText(sent[n].request, sent[n].fields);
  }

  lemma ServesNext(sent: seq<Sent>, ts: seq<string>, n: nat, s: Server, arrived: string, chunk: string)
    requires AllGoodSent(sent) && ts == Texts(sent) && Served(sent, ts, n, s, arrived) && Partly(s)
    requires arrived + chunk <= Join(ts)
    ensures var m := if n < Whole(ts, |arrived + chunk|) then n + 1 else n;
            Served(sent, ts, m, Read(s, chunk), arrived + chunk) && Partly(Read(s, chunk))
  {
    var t := s.(input := s.input + chunk);
    ServedOn(sent, ts, n, s, arrived, chunk);
    var p :| Seen(s.req, p) && p <= s.input;
    assert p <= t.input;
    if n == |ts| {
      NothingLeft(ts, arrived + chunk, t.input);
    } else {
      NextText(ts, n, arrived + chunk, t.input);
      TextsNotEmpty(sent, n);
      if t.input != "" {
        ServesMore(sent, ts, n, t, p, arrived + chunk);
      }
    }
  }

  /** After the callbacks for these chunks, the server has handled the first requests, as many as Count
      says, each as it was sent, and keeps exactly what came behind them. */
  lemma {:induction false} ServesCount(sent: seq<Sent>, chunks: seq<string>)
    requires AllGoodSent(sent) && Join(chunks) <= Join(Texts(sent))
    ensures Served(sent, Texts(sent), Count(Texts(sent), chunks), Reads(chunks), Join(chunks)) && Partly(Reads(chunks))
    decreases |chunks|
  {
    var ts := Texts(sent);
    if chunks == [] {
      assert ts[..0] == [];
      NothingSeen();
      assert "" <= IDLE.input;
    } else {
      var before, chunk := chunks[..|chunks| - 1], chunks[|chunks| - 1];
      ServesCount(sent, before);
      ServesNext(sent, ts, Count(ts, before), Reads(before), Join(before), chunk);
    }
  }

  // ----- when all requests are handled

  lemma NoneWhole(sent: seq<Sent>)
    requires AllGoodSent(sent)
    ensures Whole(Texts(sent), 0) == 0
  {
    var ts := Texts(sent);
    if sent != [] {
      TextsNotEmpty(sent, 0);
      JoinNext(ts, 0);
      assert ts[..0] == [];
      WholeIs(ts, 1, 0);
    }
  }

  /** All requests that were sent are handled, each as it was sent, if and only if at every moment there are
      still as many read callbacks to come as there are requests not yet whole. */
  lemma AllHandledExactly(sent: seq<Sent>, chunks: seq<string>)
    requires AllGoodSent(sent) && Join(chunks) == Join(Texts(sent))
    ensures |Reads(chunks).handled| == |sent| <==> EnoughCallbacks(Texts(sent), chunks, |sent|)
    ensures |Reads(chunks).handled| <= |sent|
    ensures forall i | 0 <= i < |Reads(chunks).handled| :: Same(Reads(chunks).handled[i], sent[i])
  {
    ServesCount(sent, chunks);
    NoneWhole(sent);
    CountReaches(Texts(sent), chunks, |sent|);
  }

  /** Requests that all arrive in one burst are handled one for each callback: the first of them at once,
      and every other only if the socket becomes readable again, or is closed, once more. */
  lemma BurstHandlesOneEach(sent: seq<Sent>, more: nat)
    requires AllGoodSent(sent) && sent != []
    ensures var s := Reads(Burst(Join(Texts(sent)), more));
            |s.handled| == if more < |sent| then more + 1 else |sent|
  {
    BurstCount(Texts(sent), more);
    assert Join(Texts(sent)) <= Join(Texts(sent));
    ServesCount(sent, Burst(Join(Texts(sent)), more));
  }

  /** `GET / HTTP/1.1` with no headers of its own. */
  const PLAIN_GET := Sent(NEW_REQUEST.(top := NEW_TOP.(queryUri := "/")), [])

  lemma PlainGetIsGood()
    ensures GoodRequest(PLAIN_GET.request, PLAIN_GET.fields)
  {
    var t := PLAIN_GET.request.top;
    assert GoodWord(t.verb) && GoodWord(t.queryUri) && GoodWord(t.version);
    assert BodyOf(PLAIN_GET.request.parts) == "" && Decimal(0) == [Digit(0)];
    assert |Rest([], "")| <= 100;
  }

  lemma BurstOfTwo(text: string)
    ensures Burst(text, 1) == [text, ""]
  {
    assert Burst(text, 0) == [text];
  }

  /** Three requests in one burst, after which the other side closes: one is handled at once, one when the
      connection is cleaned up, and the third never. */
  lemma ThirdIsLost()
    ensures var sent := [PLAIN_GET, PLAIN_GET, PLAIN_GET];
            AllGoodSent(sent) && |Reads([Join(Texts(sent)), ""]).handled| == 2
  {
    PlainGetIsGood();
    var sent := [PLAIN_GET, PLAIN_GET, PLAIN_GET];
    BurstHandlesOneEach(sent, 1);
    BurstOfTwo(Join(Texts(sent)));
  }
}
