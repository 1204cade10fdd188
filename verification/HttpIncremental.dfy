/** Decoding a message as it arrives is decoding it at once. */
module HttpIncremental {
  import opened Slices
  import opened Http
  import opened HttpMessages

  const EXPECT: string := "Expect"

  lemma {:induction false} NoExpect(req: string, headers: map<string, string>)
    requires EXPECT !in headers
    ensures EXPECT !in Lines(req, headers).1
    decreases |req|
  {
    if req != "" {
      match HeaderLine(req)
      case Stop(_) =>
      case Field(rest, key, value) =>
        assert EXPECT[0] == 'E' && Lower(key) != EXPECT;
        NoExpect(rest, headers[Lower(key) := value]);
    }
  }

  /** The answer for a header with an Expect field is never given, whatever the state of the parser:
      decoded names are in lower case, and the name that is looked up is not. */
  lemma NeverContinues(m: Parts, buf: string, copyBody: bool)
    requires EXPECT !in m.headers
    ensures !Decode(m, buf, copyBody).0.Continue100? && EXPECT !in Decode(m, buf, copyBody).1.headers
  {
    var at := Scan(buf, m.scanned);
    if |buf| >= at + 4 {
      NoExpect(AfterLine(buf[..at]), m.headers);
    }
  }

  lemma NoLength(headers: map<string, string>)
    requires "content-length" !in headers
    ensures ContentLen(headers) == 0
  {
    RunIs("", InSpace, 0);
  }

  ghost predicate Counts(headers: map<string, string>, n: nat) {
    n == if "content-length" in headers then Atoi(headers["content-length"]) else 0
  }

  lemma LengthCounted(headers: map<string, string>, n: nat)
    requires Counts(headers, n)
    ensures ContentLen(headers) == n
  {
    if "content-length" !in headers { NoLength(headers); }
  }

  lemma HeaderRead(m: Parts, buf: string, at: nat, headers: map<string, string>)
    requires m.scanned == at && at + 4 <= |buf| && Lines(AfterLine(buf[..at]), m.headers) == (true, headers)
    ensures Header(m, buf) == (true, m.(headers := headers, scanned := at + 4, contentLen := ContentLen(headers)), Line(buf[..at]))
  {
  }

  lemma HeaderCounted(buf: string, at: nat, headers: map<string, string>, n: nat)
    requires at + 4 <= |buf| && Lines(AfterLine(buf[..at]), map[]) == (true, headers) && Counts(headers, n)
    ensures Header(CLEAR.(scanned := at), buf) ==
            (true, CLEAR.(headers := headers, scanned := at + 4, contentLen := n), Line(buf[..at]))
  {
    LengthCounted(headers, n);
    HeaderRead(CLEAR.(scanned := at), buf, at, headers);
  }

  lemma FinishCounted(p: Parts, buf: string, copyBody: bool)
    requires p.contentLen + p.scanned < SIZES
    ensures var (r, q) := Finish(p, buf, copyBody);
            var end := p.scanned + p.contentLen;
            && r == (if |buf| < end then NotComplete else Complete) && q.headers == p.headers
            && (r == Complete ==> (if copyBody then q.body else q.body2) == buf[p.scanned..end] && q.scanned == end)
  {
  }

  lemma DecodeFinishes(buf: string, copyBody: bool, at: nat, p: Parts, ln: string)
    requires at == Scan(buf, 0) && 0 < at && at + 4 <= |buf|
    requires Header(CLEAR.(scanned := at), buf) == (true, p, ln)
    ensures Decode(CLEAR, buf, copyBody) == (Finish(p, buf, copyBody).0, Finish(p, buf, copyBody).1, ln)
  {
    NeverContinues(CLEAR, buf, copyBody);
  }

  /** What a header says of its body: with a length it is that many bytes, and the message is complete when they
      are there; without one the message is complete at the end of the header. */
  lemma BodyAsCounted(buf: string, copyBody: bool, at: nat, headers: map<string, string>, n: nat)
    requires at == Scan(buf, 0) && 0 < at && at + 4 <= |buf| && Lines(AfterLine(buf[..at]), map[]) == (true, headers)
    requires Counts(headers, n) && at + 4 + n < SIZES
    ensures var d := Decode(CLEAR, buf, copyBody);
            var (r, p) := (d.0, d.1);
            && r == (if |buf| < at + 4 + n then NotComplete else Complete) && p.headers == headers
            && (r == Complete ==> (if copyBody then p.body else p.body2) == buf[at + 4..at + 4 + n] && p.scanned == at + 4 + n)
  {
    HeaderCounted(buf, at, headers, n);
    var p := CLEAR.(headers := headers, scanned := at + 4, contentLen := n);
    DecodeFinishes(buf, copyBody, at, p, Line(buf[..at]));
    FinishCounted(p, buf, copyBody);
    assert (Decode(CLEAR, buf, copyBody).0, Decode(CLEAR, buf, copyBody).1) == Finish(p, buf, copyBody);
  }

  /** No header end lies before the place where the scan stopped. */
  lemma {:induction false} ScanResumes(a: string, b: string, from: nat)
    requires a <= b
    ensures var at := Scan(a, from);
            Scan(b, from) == if |a| >= at + 4 then at else Scan(b, at)
    decreases |a| - from
  {
    if |a| >= from + 4 {
      assert a[from..from + 4] == b[from..from + 4];
      if a[from..from + 4] != TERMINATOR { ScanResumes(a, b, from + 1); }
    }
  }

  /** Until the header is there, only the place to scan from changes. */
  lemma Unfound(a: string, b: string, copyBody: bool)
    requires a <= b && (|a| < Scan(a, 0) + 4 || Scan(a, 0) == 0)
    ensures var s := CLEAR.(scanned := Scan(a, 0));
            Decode(CLEAR, a, copyBody) == (NotComplete, s, "") && Decode(s, b, copyBody) == Decode(CLEAR, b, copyBody)
  {
    ScanResumes(a, b, 0);
  }

  /** Once it is there, it is read the same whatever follows. */
  lemma Found(a: string, b: string, copyBody: bool) returns (ok: bool, p: Parts, line1: string)
    requires a <= b && |a| >= Scan(a, 0) + 4 && Scan(a, 0) > 0
    ensures !p.complete && (ok ==> p.scanned <= |a|)
    ensures line1 == Line(a[..Scan(a, 0)]) && ok == Lines(AfterLine(a[..Scan(a, 0)]), map[]).0
    ensures !ok ==> Decode(CLEAR, a, copyBody) == Decode(CLEAR, b, copyBody) == (Error, p, line1)
    ensures ok ==> Decode(CLEAR, a, copyBody) == (Finish(p, a, copyBody).0, Finish(p, a, copyBody).1, line1)
    ensures ok ==> Decode(CLEAR, b, copyBody) == (Finish(p, b, copyBody).0, Finish(p, b, copyBody).1, line1)
    ensures ok && Finish(p, a, copyBody).0 == NotComplete ==>
              Decode(p, b, copyBody) == (Finish(p, b, copyBody).0, Finish(p, b, copyBody).1, "")
  {
    ScanResumes(a, b, 0);
    var at := Scan(a, 0);
    assert a[..at] == b[..at];
    var s := CLEAR.(scanned := at);
    var h := Header(s, a);
    ok, p, line1 := h.0, h.1, h.2;
    NoExpect(AfterLine(a[..at]), map[]);
  }

  lemma FinishStable(p: Parts, a: string, b: string, copyBody: bool)
    requires a <= b && Finish(p, a, copyBody).0 != NotComplete
    ensures Finish(p, b, copyBody) == Finish(p, a, copyBody)
  {
    var end := Sum(p.contentLen, p.scanned);
    if p.scanned <= end { assert b[p.scanned..end] == a[p.scanned..end]; }
  }

  // ----- a decoder called again and again

  /** `view` is what an error leaves the same. */
  datatype Decoder<!Q, !F> = Decoder(decode: (Q, string) -> (Result, Q), view: Q -> F)

  /** The same answer and the same fields; for an error, those of them that `view` shows. */
  predicate Agree<Q(==), F(==)>(d: Decoder<Q, F>, x: (Result, Q), y: (Result, Q)) {
    x.0 == y.0 && if x.0 == Error then d.view(x.1) == d.view(y.1) else x.1 == y.1
  }

  /** Decoding more of the same stream later is decoding all of it now. */
  ghost predicate ResumesAt<Q, F>(d: Decoder<Q, F>, start: Q, a: string, b: string) {
    var x := d.decode(start, a);
    if x.0 == NotComplete then Agree(d, d.decode(x.1, b), d.decode(start, b)) else Agree(d, x, d.decode(start, b))
  }

  /** One call for each longer prefix, until an answer is reached. */
  function Repeated<Q, F>(d: Decoder<Q, F>, q: Q, bufs: seq<string>): (Result, Q)
    requires bufs != []
    decreases |bufs|
  {
    var x := d.decode(q, bufs[0]);
    if |bufs| == 1 || x.0 != NotComplete then x else Repeated(d, x.1, bufs[1..])
  }

  ghost predicate Growing(bufs: seq<string>) {
    forall i | 0 < i < |bufs| :: bufs[i - 1] <= bufs[i]
  }

  lemma {:induction false} RepeatedFrom<Q, F>(d: Decoder<Q, F>, start: Q, a: string, q: Q, bufs: seq<string>, last: string)
    requires bufs != [] && a <= bufs[0] && Growing(bufs) && bufs[|bufs| - 1] == last
    requires forall x, y | x <= y <= last :: ResumesAt(d, start, x, y)
    requires d.decode(start, a) == (NotComplete, q)
    ensures Agree(d, Repeated(d, q, bufs), d.decode(start, last))
    decreases |bufs|
  {
    var b := bufs[0];
    Prefixes(bufs);
    assert ResumesAt(d, start, a, b);
    if |bufs| > 1 {
      var x := d.decode(q, b);
      if x.0 == NotComplete {
        RepeatedFrom(d, start, b, x.1, bufs[1..], last);
      } else {
        assert ResumesAt(d, start, b, last);
      }
    }
  }

  lemma {:induction false} Prefixes(bufs: seq<string>)
    requires bufs != [] && Growing(bufs)
    ensures bufs[0] <= bufs[|bufs| - 1]
  {
    if |bufs| > 1 { Prefixes(bufs[..|bufs| - 1]); }
  }

  // ----- requests

  /** An error may be found before the body has come, so it leaves the body and the scan as they are. */
  function RequestDecoder(copyBody: bool): Decoder<Request, (Top, map<string, string>)> {
    Decoder((q: Request, buf: string) => DecodeRequest(q, buf, copyBody), (q: Request) => (q.top, q.parts.headers))
  }

  /** What a first line makes of the answer and the fields of the message. */
  function Answered(r: Result, top: Top, p: Parts, ln: string): (Result, Request) {
    if r == Throws then (r, Request(top, p))
    else (if ln != "" && !GoodUri(RequestLine(top, ln)) then Error else r, Request(WithLine(top, ln), p))
  }

  lemma ResumeUnfound(a: string, b: string, copyBody: bool)
    requires a <= b && (|a| < Scan(a, 0) + 4 || Scan(a, 0) == 0)
    ensures ResumesAt(RequestDecoder(copyBody), NEW_REQUEST, a, b)
  {
    Unfound(a, b, copyBody);
    var q := Request(NEW_TOP, CLEAR.(scanned := Scan(a, 0)));
    assert DecodeRequest(NEW_REQUEST, a, copyBody) == (NotComplete, q);
    assert DecodeRequest(q, b, copyBody) == DecodeRequest(NEW_REQUEST, b, copyBody);
  }

  lemma AnsweredAs(q: Request, buf: string, copyBody: bool, r: Result, p: Parts, ln: string)
    requires Decode(q.parts, buf, copyBody) == (r, p, ln)
    ensures DecodeRequest(q, buf, copyBody) == Answered(r, q.top, p, ln)
  {
  }

  /** A body that is not all there does not become a wrapped sum. */
  lemma NeverThrowsLater(p: Parts, a: string, b: string, copyBody: bool)
    requires p.scanned <= |a| && Finish(p, a, copyBody).0 == NotComplete
    ensures Finish(p, b, copyBody).0 in {Complete, NotComplete} && Finish(p, b, copyBody).1.headers == p.headers
    ensures Finish(p, a, copyBody).1 == p
  {
  }

  lemma ResumeFound(a: string, b: string, copyBody: bool)
    requires a <= b && |a| >= Scan(a, 0) + 4 && Scan(a, 0) > 0
    ensures ResumesAt(RequestDecoder(copyBody), NEW_REQUEST, a, b)
  {
    var ok, p, line1 := Found(a, b, copyBody);
    if !ok {
      AnsweredAs(NEW_REQUEST, a, copyBody, Error, p, line1);
      AnsweredAs(NEW_REQUEST, b, copyBody, Error, p, line1);
    } else {
      var fa, fb := Finish(p, a, copyBody), Finish(p, b, copyBody);
      AnsweredAs(NEW_REQUEST, a, copyBody, fa.0, fa.1, line1);
      AnsweredAs(NEW_REQUEST, b, copyBody, fb.0, fb.1, line1);
      if fa.0 != NotComplete {
        FinishStable(p, a, b, copyBody);
      } else {
        NeverThrowsLater(p, a, b, copyBody);
        ResumeBody(p, b, copyBody, line1, fb);
      }
    }
  }

  lemma ResumeBody(p: Parts, b: string, copyBody: bool, line1: string, fb: (Result, Parts))
    requires Decode(p, b, copyBody) == (fb.0, fb.1, "") && fb.0 in {Complete, NotComplete} && fb.1.headers == p.headers
    ensures var x, y := Answered(NotComplete, NEW_TOP, p, line1), Answered(fb.0, NEW_TOP, fb.1, line1);
            if x.0 == NotComplete then Agree(RequestDecoder(copyBody), DecodeRequest(x.1, b, copyBody), y)
            else Agree(RequestDecoder(copyBody), x, y)
  {
    var x, y := Answered(NotComplete, NEW_TOP, p, line1), Answered(fb.0, NEW_TOP, fb.1, line1);
    var top := WithLine(NEW_TOP, line1);
    assert x.1 == Request(top, p) && y.1 == Request(top, fb.1);
    if x.0 == NotComplete {
      assert y.0 == fb.0 && DecodeRequest(x.1, b, copyBody) == (fb.0, Request(top, fb.1));
    } else {
      assert x.0 == Error == y.0;
    }
  }

  lemma ResumeRequest(a: string, b: string, copyBody: bool)
    requires a <= b
    ensures ResumesAt(RequestDecoder(copyBody), NEW_REQUEST, a, b)
  {
    if |a| < Scan(a, 0) + 4 || Scan(a, 0) == 0 { ResumeUnfound(a, b, copyBody); } else { ResumeFound(a, b, copyBody); }
  }

  /** However a request arrives, repeated decoding answers as one call on all of it does. */
  lemma RequestIncremental(bufs: seq<string>, copyBody: bool)
    requires bufs != [] && Growing(bufs)
    ensures Agree(RequestDecoder(copyBody), Repeated(RequestDecoder(copyBody), NEW_REQUEST, bufs),
                  DecodeRequest(NEW_REQUEST, bufs[|bufs| - 1], copyBody))
  {
    forall a: string, b: string | a <= b
      ensures ResumesAt(RequestDecoder(copyBody), NEW_REQUEST, a, b)
    {
      ResumeRequest(a, b, copyBody);
    }
    RepeatedFrom(RequestDecoder(copyBody), NEW_REQUEST, "", NEW_REQUEST, bufs, bufs[|bufs| - 1]);
  }

  // ----- responses

  /** A response whose header is no header shows everything but its status, see below. */
  function ResponseDecoder(copyBody: bool): Decoder<Response, (string, string, Parts)> {
    Decoder((q: Response, buf: string) => DecodeResponse(q, buf, copyBody),
            (q: Response) => (q.line.version, q.line.word, q.parts))
  }

  /** What stands behind the first word of a header. */
  function BehindWord(head: string): string {
    AfterWord(Line(head)) + AfterLine(head)
  }

  /** The header has something behind its first word from which a status can be read. */
  predicate HasStatus(head: string) {
    Line(head) == "" || Left(BehindWord(head), InSpace) != ""
  }

  lemma {:induction false} SpelledWithin(s: string, c: char, x: string, value: nat)
    requires !IsDigit(c)
    ensures Spelled(s + [c] + x, value) == Spelled(s + [c], value)
    decreases |s|
  {
    if s != "" {
      var t, u := s + [c] + x, s + [c];
      assert t[0] == u[0] == s[0] && t[1..] == s[1..] + [c] + x && u[1..] == s[1..] + [c];
      if IsDigit(s[0]) { SpelledWithin(s[1..], c, x, 10 * value + (s[0] as int - 48)); }
    }
  }

  lemma NumberWithin(t: string, c: char, x: string)
    requires !IsDigit(c) && t != ""
    ensures Number(t + [c] + x) == Number(t + [c])
  {
    SpelledWithin(t, c, x, 0);
    SpelledWithin(t[1..], c, x, 0);
    assert (t + [c] + x)[1..] == t[1..] + [c] + x && (t + [c])[1..] == t[1..] + [c];
  }

  lemma LeftOf(s: string, y: string)
    ensures Left(s + y, InSpace) == if Left(s, InSpace) != "" then Left(s, InSpace) + y else Left(y, InSpace)
  {
    var n := Run(s, InSpace);
    if n < |s| {
      assert (s + y)[n] == s[n] && forall i | 0 <= i < n :: (s + y)[i] == s[i];
      RunIs(s + y, InSpace, n);
      assert (s + y)[n..] == s[n..] + y;
    } else {
      SpacedRun(s, y);
    }
  }

  lemma {:induction false} SpacedRun(s: string, y: string)
    requires Run(s, InSpace) == |s|
    ensures Left(s + y, InSpace) == Left(y, InSpace)
  {
    if s == "" {
      assert s + y == y;
    } else {
      SpacedRun(s[1..], y);
      assert (s + y)[1..] == s[1..] + y;
    }
  }

  lemma NumberBehind(t: string, x: string)
    requires t != ""
    ensures Number(t + (TERMINATOR + x)) == Number(t + "\r")
  {
    NumberWithin(t, '\r', TERMINATOR[1..] + x);
    assert t + (TERMINATOR + x) == t + ['\r'] + (TERMINATOR[1..] + x);
  }

  /** Behind something to read a number from, nothing else matters; behind white space, everything does. */
  lemma AtoiWithin(s: string, x: string)
    ensures Left(s, InSpace) != "" ==> Atoi(s + TERMINATOR + x) == Number(Left(s, InSpace) + "\r")
    ensures Left(s, InSpace) == "" ==> Atoi(s + TERMINATOR + x) == Atoi(x)
  {
    var t := Left(s, InSpace);
    assert s + TERMINATOR + x == s + (TERMINATOR + x);
    LeftOf(s, TERMINATOR + x);
    if t != "" {
      NumberBehind(t, x);
    } else {
      RunIs(TERMINATOR, InSpace, 4);
      LeftOf(TERMINATOR, x);
    }
  }

  lemma BehindIs(a: string, at: nat)
    requires at + 4 <= |a| && a[at..at + 4] == TERMINATOR
    ensures var head := a[..at];
            AfterWord(Line(head)) + a[|Line(head)|..] == BehindWord(head) + TERMINATOR + a[at + 4..]
  {
    var head := a[..at];
    assert a[|Line(head)|..] == AfterLine(head) + TERMINATOR + a[at + 4..];
  }

  /** The status is that of the header if the header has one, and that of the body otherwise. */
  lemma StatusRead(a: string, at: nat)
    requires at + 4 <= |a| && a[at..at + 4] == TERMINATOR
    ensures var head := a[..at];
            var code := StatusLine(Line(head), a[|Line(head)|..]).code;
            && (Left(BehindWord(head), InSpace) != "" ==> code == Number(Left(BehindWord(head), InSpace) + "\r"))
            && (Left(BehindWord(head), InSpace) == "" ==> code == Atoi(a[at + 4..]))
  {
    BehindIs(a, at);
    AtoiWithin(BehindWord(a[..at]), a[at + 4..]);
  }

  function Replied(r: Result, p: Parts, ln: string, behind: string): (Result, Response) {
    (r, Response(if ln == "" || r == Throws then NEW_RESPONSE.line else StatusLine(ln, behind), p))
  }

  lemma RepliedAs(buf: string, copyBody: bool, r: Result, p: Parts, ln: string, behind: string)
    requires Decode(CLEAR, buf, copyBody) == (r, p, ln) && |ln| <= |buf| && buf[|ln|..] == behind
    ensures DecodeResponse(NEW_RESPONSE, buf, copyBody) == Replied(r, p, ln, behind)
  {
  }

  lemma ReplyUnfound(a: string, b: string, copyBody: bool)
    requires a <= b && (|a| < Scan(a, 0) + 4 || Scan(a, 0) == 0)
    ensures ResumesAt(ResponseDecoder(copyBody), NEW_RESPONSE, a, b)
  {
    Unfound(a, b, copyBody);
    var q := Response(NEW_RESPONSE.line, CLEAR.(scanned := Scan(a, 0)));
    assert DecodeResponse(NEW_RESPONSE, a, copyBody) == (NotComplete, q);
    assert DecodeResponse(q, b, copyBody) == DecodeResponse(NEW_RESPONSE, b, copyBody);
  }

  lemma ReplyBody(line: Status, p: Parts, b: string, copyBody: bool, fb: (Result, Parts))
    requires Decode(p, b, copyBody) == (fb.0, fb.1, "")
    ensures DecodeResponse(Response(line, p), b, copyBody) == (fb.0, Response(line, fb.1))
  {
  }

  lemma SameStatus(a: string, b: string, at: nat, ln: string, ba: string, bb: string)
    requires a <= b && at + 4 <= |a| && a[at..at + 4] == TERMINATOR && HasStatus(a[..at])
    requires ln == Line(a[..at]) && ln != "" && ba == a[|ln|..] && bb == b[|ln|..]
    ensures StatusLine(ln, ba) == StatusLine(ln, bb)
  {
    assert a[..at] == b[..at] && a[at..at + 4] == b[at..at + 4];
    StatusRead(a, at);
    StatusRead(b, at);
  }

  lemma ReplyBad(a: string, b: string, copyBody: bool, p: Parts, ln: string)
    requires a <= b && ln <= a
    requires Decode(CLEAR, a, copyBody) == Decode(CLEAR, b, copyBody) == (Error, p, ln)
    ensures ResumesAt(ResponseDecoder(copyBody), NEW_RESPONSE, a, b)
  {
    RepliedAs(a, copyBody, Error, p, ln, a[|ln|..]);
    RepliedAs(b, copyBody, Error, p, ln, b[|ln|..]);
  }

  /** The header is found by a call on a as by one on b, and after it the body is read. */
  ghost predicate FoundInBoth(a: string, b: string, copyBody: bool, p: Parts, ln: string, fa: (Result, Parts), fb: (Result, Parts)) {
    && a <= b && ln <= a && p.scanned <= |a|
    && fa == Finish(p, a, copyBody) && fb == Finish(p, b, copyBody)
    && Decode(CLEAR, a, copyBody) == (fa.0, fa.1, ln) && Decode(CLEAR, b, copyBody) == (fb.0, fb.1, ln)
    && (fa.0 == NotComplete ==> Decode(p, b, copyBody) == (fb.0, fb.1, ""))
  }

  lemma ReplyGood(
    a: string, b: string, copyBody: bool, p: Parts, ln: string, fa: (Result, Parts), fb: (Result, Parts), ba: string, bb: string)
    requires FoundInBoth(a, b, copyBody, p, ln, fa, fb) && ba == a[|ln|..] && bb == b[|ln|..]
    requires ln == "" || StatusLine(ln, ba) == StatusLine(ln, bb)
    ensures ResumesAt(ResponseDecoder(copyBody), NEW_RESPONSE, a, b)
  {
    RepliedAs(a, copyBody, fa.0, fa.1, ln, ba);
    RepliedAs(b, copyBody, fb.0, fb.1, ln, bb);
    if fa.0 != NotComplete {
      FinishStable(p, a, b, copyBody);
    } else {
      NeverThrowsLater(p, a, b, copyBody);
      ReplyBody(Replied(fa.0, p, ln, ba).1.line, p, b, copyBody, fb);
    }
  }

  lemma ReplyNoHeader(a: string, b: string, copyBody: bool)
    requires a <= b && |a| >= Scan(a, 0) + 4 && Scan(a, 0) > 0 && !Lines(AfterLine(a[..Scan(a, 0)]), map[]).0
    ensures ResumesAt(ResponseDecoder(copyBody), NEW_RESPONSE, a, b)
  {
    var ok, p, ln := Found(a, b, copyBody);
    ReplyBad(a, b, copyBody, p, ln);
  }

  lemma ReplyHeader(a: string, b: string, copyBody: bool)
    requires a <= b && |a| >= Scan(a, 0) + 4 && Scan(a, 0) > 0 && Lines(AfterLine(a[..Scan(a, 0)]), map[]).0
    requires HasStatus(a[..Scan(a, 0)])
    ensures ResumesAt(ResponseDecoder(copyBody), NEW_RESPONSE, a, b)
  {
    var ok, p, ln := Found(a, b, copyBody);
    var ba, bb := a[|ln|..], b[|ln|..];
    if ln != "" { SameStatus(a, b, Scan(a, 0), ln, ba, bb); }
    ReplyGood(a, b, copyBody, p, ln, Finish(p, a, copyBody), Finish(p, b, copyBody), ba, bb);
  }

  lemma ResumeResponse(a: string, b: string, last: string, copyBody: bool)
    requires a <= b <= last && StatusDecided(last)
    ensures ResumesAt(ResponseDecoder(copyBody), NEW_RESPONSE, a, b)
  {
    if |a| < Scan(a, 0) + 4 || Scan(a, 0) == 0 {
      ReplyUnfound(a, b, copyBody);
    } else {
      ScanResumes(a, last, 0);
      assert a[..Scan(a, 0)] == last[..Scan(a, 0)];
      if Lines(AfterLine(a[..Scan(a, 0)]), map[]).0 { ReplyHeader(a, b, copyBody); } else { ReplyNoHeader(a, b, copyBody); }
    }
  }

  /** The header is none, or it has a status. */
  predicate HeadDecided(head: string) {
    head == "" || HasStatus(head) || !Lines(AfterLine(head), map[]).0
  }

  /** Not all of the header is there, or what follows it has no part in the status. */
  predicate StatusDecided(buf: string) {
    var at := Scan(buf, 0);
    |buf| < at + 4 || HeadDecided(buf[..at])
  }

  /** However a response with a status in its header arrives, repeated decoding answers as one call does. */
  lemma ResponseIncremental(bufs: seq<string>, copyBody: bool)
    requires bufs != [] && Growing(bufs) && StatusDecided(bufs[|bufs| - 1])
    ensures Agree(ResponseDecoder(copyBody), Repeated(ResponseDecoder(copyBody), NEW_RESPONSE, bufs),
                  DecodeResponse(NEW_RESPONSE, bufs[|bufs| - 1], copyBody))
  {
    var last := bufs[|bufs| - 1];
    forall a: string, b: string | a <= b <= last
      ensures ResumesAt(ResponseDecoder(copyBody), NEW_RESPONSE, a, b)
    {
      ResumeResponse(a, b, last, copyBody);
    }
    RepeatedFrom(ResponseDecoder(copyBody), NEW_RESPONSE, "", NEW_RESPONSE, bufs, last);
  }

  predicate Blank(s: string) {
    Left(s, InSpace) == ""
  }

  lemma BlankAll(s: string)
    ensures Blank(s) <==> forall i | 0 <= i < |s| :: IsSpace(s[i])
  {
    if forall i | 0 <= i < |s| :: IsSpace(s[i]) { RunIs(s, InSpace, |s|); }
  }

  /** White space holds no header field. */
  lemma BlankLines(req: string, headers: map<string, string>)
    requires Blank(req)
    ensures Lines(req, headers).1 == headers
  {
    if |req| > 1 {
      BlankAll(req);
      BlankAll(Line(req[2..]));
      RunIs("", InWord, 0);
    }
  }

  lemma BlankTail(s: string, t: string)
    requires Blank(s + t)
    ensures Blank(t)
  {
    BlankAll(s + t);
    BlankAll(t);
    assert forall i | 0 <= i < |t| :: t[i] == (s + t)[|s| + i];
  }

  lemma BlankDecode(h: string, copyBody: bool, at: nat)
    requires at == Scan(h, 0) && at + 4 <= |h| && at > 0 && at + 4 < SIZES
    requires Lines(AfterLine(h[..at]), map[]) == (true, map[])
    ensures Decode(CLEAR, h, copyBody).0 == Complete && Decode(CLEAR, h, copyBody).2 == Line(h[..at])
  {
    NoLength(map[]);
    HeaderCounted(h, at, map[], 0);
    var p := CLEAR.(scanned := at + 4);
    DecodeFinishes(h, copyBody, at, p, Line(h[..at]));
    FinishCounted(p, h, copyBody);
  }

  /** A header with nothing behind its first word is complete at once, and what follows it is its status. */
  lemma BlankReply(h: string, copyBody: bool, at: nat)
    requires at == Scan(h, 0) && at + 4 <= |h| && at > 0 && at + 4 < SIZES
    requires Lines(AfterLine(h[..at]), map[]) == (true, map[])
    requires Line(h[..at]) != "" && Blank(BehindWord(h[..at]))
    ensures var x := DecodeResponse(NEW_RESPONSE, h, copyBody); x.0 == Complete && x.1.line.code == Atoi(h[at + 4..])
  {
    BlankDecode(h, copyBody, at);
    StatusRead(h, at);
    var ln := Line(h[..at]);
    RepliedAs(h, copyBody, Complete, Decode(CLEAR, h, copyBody).1, ln, h[|ln|..]);
  }

  lemma CodeBehind(h: string, more: string, copyBody: bool)
    requires !StatusDecided(h) && h[Scan(h, 0) + 4..] == "" && |h| < SIZES
    ensures var x := DecodeResponse(NEW_RESPONSE, h + more, copyBody);
            x.0 == Complete && x.1.line.code == Atoi(more)
  {
    var at, b := Scan(h, 0), h + more;
    BlankHeader(h[..at]);
    ScanResumes(h, b, 0);
    assert h[..at] == b[..at] && b[at + 4..] == more;
    BlankReply(b, copyBody, at);
  }

  lemma BlankHeader(head: string)
    requires Blank(BehindWord(head)) && Lines(AfterLine(head), map[]).0
    ensures Lines(AfterLine(head), map[]) == (true, map[])
  {
    BlankTail(AfterWord(Line(head)), AfterLine(head));
    BlankLines(AfterLine(head), map[]);
  }

  lemma Differs<Q, F>(d: Decoder<Q, F>, q: Q, h: string, b: string)
    requires d.decode(q, h).0 == Complete == d.decode(q, b).0 && d.decode(q, h).1 != d.decode(q, b).1
    ensures !ResumesAt(d, q, h, b)
  {
  }

  lemma StatusChanges(h: string, copyBody: bool)
    requires !StatusDecided(h) && h[Scan(h, 0) + 4..] == "" && |h| < SIZES
    ensures !ResumesAt(ResponseDecoder(copyBody), NEW_RESPONSE, h, h + "5")
  {
    assert h + "" == h;
    CodeBehind(h, "", copyBody);
    CodeBehind(h, "5", copyBody);
    AtoiFive();
    Differs(ResponseDecoder(copyBody), NEW_RESPONSE, h, h + "5");
  }

  lemma StatusStays(h: string, more: string, copyBody: bool)
    requires |h| == Scan(h, 0) + 4 && StatusDecided(h)
    ensures ResumesAt(ResponseDecoder(copyBody), NEW_RESPONSE, h, h + more)
  {
    DecidedStays(h, more);
    ResumeResponse(h, h + more, h + more, copyBody);
  }

  ghost predicate ResumesAlways(h: string, copyBody: bool) {
    forall more :: ResumesAt(ResponseDecoder(copyBody), NEW_RESPONSE, h, h + more)
  }

  /** Of a header that has just come, decoding now and decoding more later agree whatever follows, if and
      only if the header has a status (or is no header, which is an error either way). */
  lemma ResumesExactlyWithStatus(h: string, copyBody: bool)
    requires |h| == Scan(h, 0) + 4 < SIZES
    ensures StatusDecided(h) <==> ResumesAlways(h, copyBody)
  {
    if StatusDecided(h) {
      forall more: string
        ensures ResumesAt(ResponseDecoder(copyBody), NEW_RESPONSE, h, h + more)
      {
        StatusStays(h, more, copyBody);
      }
    } else {
      assert h[Scan(h, 0) + 4..] == "";
      StatusChanges(h, copyBody);
    }
  }

  lemma HeadStays(h: string, more: string)
    requires |h| >= Scan(h, 0) + 4
    ensures Scan(h + more, 0) == Scan(h, 0) && (h + more)[..Scan(h, 0)] == h[..Scan(h, 0)]
  {
    ScanResumes(h, h + more, 0);
  }

  lemma DecidedStays(h: string, more: string)
    requires |h| >= Scan(h, 0) + 4 && StatusDecided(h)
    ensures StatusDecided(h + more)
  {
    HeadStays(h, more);
    SameHead(h, h + more, Scan(h, 0));
  }

  lemma SameHead(a: string, b: string, at: nat)
    requires at == Scan(a, 0) == Scan(b, 0) && at + 4 <= |a| && at <= |b| && a[..at] == b[..at]
    ensures StatusDecided(a) ==> StatusDecided(b)
  {
  }

  lemma AtoiFive()
    ensures Atoi("5") == 5 && Atoi("") == 0
  {
    RunIs("5", InSpace, 0);
    RunIs("", InSpace, 0);
    assert "5"[1..] == "";
    assert Spelled("5", 0) == Spelled("", 5);
  }
}
