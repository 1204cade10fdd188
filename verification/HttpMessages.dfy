/** Requests and responses of handy/http.cc: their first lines, query arguments, and encoding. */
module HttpMessages {
  import opened Slices
  import opened Http

  // ----- query arguments

  /** The next of two characters, or the length if there is none. */
  function Find(s: string, c: nat, a: char, b: char): (i: nat)
    requires c <= |s|
    ensures c <= i <= |s| && (forall k | c <= k < i :: s[k] != a && s[k] != b) && (i < |s| ==> s[i] == a || s[i] == b)
    decreases |s| - c
  {
    if c == |s| || s[c] == a || s[c] == b then c else Find(s, c + 1, a, b)
  }

  lemma {:induction false} FindIs(s: string, c: nat, a: char, b: char, i: nat)
    requires c <= i <= |s| && (forall k | c <= k < i :: s[k] != a && s[k] != b) && (i < |s| ==> s[i] == a || s[i] == b)
    ensures Find(s, c, a, b) == i
    decreases i - c
  {
    if c < i { FindIs(s, c + 1, a, b, i); }
  }

  /** Where the argument after the one at an index starts. */
  function NextArg(qs: string, c: nat): (n: nat)
    requires c < |qs|
    ensures c < n <= |qs|
  {
    var amp := Find(qs, c, '&', '&'); if amp < |qs| then amp + 1 else amp
  }

  /** An argument without a key is skipped. */
  function WithArg(qs: string, c: nat, args: map<string, string>): map<string, string>
    requires c < |qs|
  {
    var ke, amp := Find(qs, c, '=', '&'), Find(qs, c, '&', '&');
    if ke == c then args
    else args[qs[c..ke] := if ke < amp then qs[ke + 1..amp] else ""]
  }

  /** The arguments from an index on; the last of equal keys wins. */
  function Args(qs: string, c: nat, args: map<string, string>): map<string, string>
    requires c <= |qs|
    decreases |qs| - c
  {
    if c == |qs| then args else Args(qs, NextArg(qs, c), WithArg(qs, c, args))
  }

  // ----- first lines

  /** What the first line of a request says. */
  datatype Top = Top(verb: string, queryUri: string, uri: string, version: string, args: map<string, string>)

  datatype Request = Request(top: Top, parts: Parts)

  const NEW_TOP := Top("GET", "", "", "HTTP/1.1", map[])
  const NEW_REQUEST := Request(NEW_TOP, CLEAR)

  function WithUri(t: Top): Top {
    var i := Find(t.queryUri, 0, '?', '?');
    if i < |t.queryUri| then t.(uri := t.queryUri[..i], args := Args(t.queryUri[i + 1..], 0, t.args))
    else t.(uri := t.queryUri)
  }

  function RequestLine(t: Top, ln: string): Top {
    t.(verb := Word(ln), queryUri := Word(AfterWord(ln)), version := Word(AfterWord(AfterWord(ln))))
  }

  predicate GoodUri(t: Top) {
    t.queryUri != "" && t.queryUri[0] == '/'
  }

  /** An empty line means that the header was not found by this call. */
  function WithLine(t: Top, ln: string): Top {
    if ln == "" then t
    else if GoodUri(RequestLine(t, ln)) then WithUri(RequestLine(t, ln))
    else RequestLine(t, ln)
  }

  function DecodeRequest(q: Request, buf: string, copyBody: bool): (Result, Request) {
    var (r, p, ln) := Decode(q.parts, buf, copyBody);
    if r == Throws then (r, Request(q.top, p))
    else (if ln != "" && !GoodUri(RequestLine(q.top, ln)) then Error else r, Request(WithLine(q.top, ln), p))
  }

  /** What the first line of a response says. */
  datatype Status = Status(version: string, code: int, word: string)

  datatype Response = Response(line: Status, parts: Parts)

  const NEW_RESPONSE := Response(Status("HTTP/1.1", 200, "OK"), CLEAR)

  /** The number is read from the second word on without regard to where the line ends, so from what is
      `behind` the line if there is no second word. */
  function StatusLine(ln: string, behind: string): Status {
    Status(Word(ln), Atoi(AfterWord(ln) + behind), Trimmed(AfterWord(AfterWord(ln))))
  }

  function DecodeResponse(q: Response, buf: string, copyBody: bool): (Result, Response) {
    var (r, p, ln) := Decode(q.parts, buf, copyBody);
    (r, Response(if ln == "" || r == Throws then q.line else StatusLine(ln, buf[|ln|..]), p))
  }

  // ----- encoding

  function FieldLine(k: string, v: string): string {
    k + ": " + v + "\r\n"
  }

  function FieldLines(fields: seq<(string, string)>): string {
    if fields == [] then "" else FieldLine(fields[0].0, fields[0].1) + FieldLines(fields[1..])
  }

  /** An order in which a map can be gone through. */
  ghost predicate Lists(fields: seq<(string, string)>, m: map<string, string>) {
    && (forall i | 0 <= i < |fields| :: fields[i].0 in m && m[fields[i].0] == fields[i].1)
    && (forall i, j | 0 <= i < j < |fields| :: fields[i].0 != fields[j].0)
    && (forall k | k in m :: exists i :: 0 <= i < |fields| && fields[i].0 == k)
  }

  /** The order of keys in a `std::map`. */
  predicate Less(a: string, b: string) {
    if a == "" then b != "" else b != "" && (a[0] < b[0] || (a[0] == b[0] && Less(a[1..], b[1..])))
  }

  lemma {:induction false} LessTotal(a: string, b: string)
    ensures a == b || Less(a, b) || Less(b, a)
  {
    if a != "" && b != "" && a[0] == b[0] {
      LessTotal(a[1..], b[1..]);
      if a[1..] == b[1..] { assert a == [a[0]] + a[1..] && b == [b[0]] + b[1..]; }
    }
  }

  lemma {:induction false} LessTransitive(a: string, b: string, c: string)
    requires Less(a, b) && Less(b, c)
    ensures Less(a, c)
  {
    if a != "" && a[0] == b[0] == c[0] { LessTransitive(a[1..], b[1..], c[1..]); }
  }

  lemma {:induction false} LeastKey(keys: set<string>) returns (k: string)
    requires keys != {}
    ensures k in keys && forall j | j in keys :: j == k || Less(k, j)
  {
    var x :| x in keys;
    if keys == {x} {
      k := x;
    } else {
      var y := LeastKey(keys - {x});
      LessTotal(x, y);
      k := if Less(x, y) then x else y;
      forall j | j in keys
        ensures j == k || Less(k, j)
      {
        if j in keys - {x} && j != y && k == x { LessTransitive(x, y, j); }
      }
    }
  }

  ghost predicate Ordered(fields: seq<(string, string)>) {
    forall i, j | 0 <= i < j < |fields| :: Less(fields[i].0, fields[j].0)
  }

  function BodyOf(p: Parts): string {
    if p.body2 != "" then p.body2 else p.body
  }

  /** Everything after the first line. */
  function Rest(fields: seq<(string, string)>, body: string): string {
    FieldLines(fields) + FieldLine("Connection", "Keep-Alive") + FieldLine("Content-Length", Decimal(|body|)) + "\r\n" + body
  }

  function EncodeRequest(q: Request, fields: seq<(string, string)>): string {
    Truncated(CStr(q.top.verb) + " " + CStr(q.top.queryUri) + " " + CStr(q.top.version) + "\n\n", 4095) + Rest(fields, BodyOf(q.parts))
  }

  function EncodeResponse(q: Response, fields: seq<(string, string)>): string {
    Truncated(CStr(q.line.version) + " " + Signed(q.line.code) + " " + CStr(q.line.word) + "\r\n", 1023)
    + Rest(fields, BodyOf(q.parts))
  }

  /** The headers and what follows them. */
  method EncodeRest(headers: map<string, string>, body: string) returns (out: string)
    ensures exists fields :: Lists(fields, headers) && Ordered(fields) && out == Rest(fields, body)
  {
    out := "";
    ghost var fields: seq<(string, string)> := [];
    var keys := headers.Keys;
    while keys != {}
      invariant keys <= headers.Keys && out == FieldLines(fields)
      invariant Lists(fields, headers - keys) && Ordered(fields)
      invariant forall i, k | 0 <= i < |fields| && k in keys :: Less(fields[i].0, k)
      decreases keys
    {
      ghost var least := LeastKey(keys);
      var k :| k in keys && forall j | j in keys :: j == k || Less(k, j);
      assert headers - (keys - {k}) == (headers - keys)[k := headers[k]];
      ListsMore(fields, headers - keys, k, headers[k]);
      keys := keys - {k};
      FieldLinesEnd(fields, (k, headers[k]));
      out := out + FieldLine(k, headers[k]);
      fields := fields + [(k, headers[k])];
    }
    assert headers - keys == headers;
    out := out + FieldLine("Connection", "Keep-Alive");
    out := out + FieldLine("Content-Length", Decimal(|body|));
    out := out + "\r\n" + body;
    assert Lists(fields, headers) && Ordered(fields) && out == Rest(fields, body);
  }

  lemma {:induction false} FieldLinesEnd(fields: seq<(string, string)>, f: (string, string))
    ensures FieldLines(fields + [f]) == FieldLines(fields) + FieldLine(f.0, f.1)
  {
    if fields != [] {
      FieldLinesEnd(fields[1..], f);
      assert (fields + [f])[1..] == fields[1..] + [f];
    }
  }

  lemma ListsMore(fields: seq<(string, string)>, m: map<string, string>, k: string, v: string)
    requires Lists(fields, m) && k !in m
    ensures Lists(fields + [(k, v)], m[k := v])
  {
    var more := fields + [(k, v)];
    var all := m[k := v];
    forall j | j in all
      ensures exists i :: 0 <= i < |more| && more[i].0 == j
    {
      if j == k {
        assert more[|fields|].0 == k;
      } else {
        var i :| 0 <= i < |fields| && fields[i].0 == j;
        assert more[i].0 == j;
      }
    }
  }

  lemma Assoc(a: string, b: string, c: string)
    ensures a + b + c == a + (b + c)
  {
  }

  class HttpRequest {
    const msg: HttpMsg
    var verb: string
    var queryUri: string
    var uri: string
    var args: map<string, string>

    ghost function Line1(): Top
      reads this, msg
    {
      Top(verb, queryUri, uri, msg.version, args)
    }

    ghost function Now(): Request
      reads this, msg
    {
      Request(Line1(), msg.Now())
    }

    constructor ()
      ensures Now() == NEW_REQUEST && fresh(msg)
    {
      msg := new HttpMsg();
      verb, queryUri, uri, args := "GET", "", "", map[];
    }

    method Clear()
      modifies this, msg
      ensures Now() == NEW_REQUEST
    {
      msg.Clear();
      verb, queryUri, uri, args := "GET", "", "", map[];
    }

    method ReadArg(qs: string, kb: nat) returns (c: nat)
      requires kb < |qs|
      modifies this`args
      ensures c == NextArg(qs, kb) && args == WithArg(qs, kb, old(args))
    {
      var ke := Seek(qs, kb, '=', '&');
      var vb := if ke < |qs| && qs[ke] == '=' then ke + 1 else ke;
      var ve := Seek(qs, vb, '&', '&');
      FindIs(qs, kb, '&', '&', ve);
      if kb != ke {
        assert ke == ve ==> qs[vb..ve] == "";
        args := args[qs[kb..ke] := qs[vb..ve]];
      }
      c := if ve < |qs| then ve + 1 else ve;
    }

    /** The index loops over the text behind the question mark. */
    method ReadArgs(qs: string)
      modifies this`args
      ensures args == Args(qs, 0, old(args))
    {
      var c := 0;
      while c < |qs|
        invariant 0 <= c <= |qs| && Args(qs, c, args) == Args(qs, 0, old(args))
      {
        c := ReadArg(qs, c);
      }
    }

    method TryDecode(buf: string, copyBody: bool) returns (r: Result)
      modifies this, msg
      ensures r == DecodeRequest(old(Now()), buf, copyBody).0
      ensures Now() == DecodeRequest(old(Now()), buf, copyBody).1
    {
      var line1;
      r, line1 := msg.TryDecode(buf, copyBody);
      if r == Throws {
        return;
      }
      if |line1| > 0 {
        ReadRequestLine(line1);
        assert Line1() == RequestLine(old(Line1()), line1);
        if |queryUri| == 0 || queryUri[0] != '/' {
          return Error;
        }
        ReadUri();
      }
    }

    method ReadUri()
      modifies this`uri, this`args
      ensures Line1() == WithUri(old(Line1()))
    {
      var i := Seek(queryUri, 0, '?', '?');
      if i < |queryUri| {
        uri := queryUri[..i];
        ReadArgs(queryUri[i + 1..]);
      } else {
        uri := queryUri;
      }
    }

    method ReadRequestLine(line1: string)
      modifies this`verb, this`queryUri, msg`version
      ensures verb == Word(line1) && queryUri == Word(AfterWord(line1))
      ensures msg.version == Word(AfterWord(AfterWord(line1)))
    {
      var first, second, third := ThreeWords(line1);
      verb, queryUri := first, second;
      msg.version := third;
    }

    method Encode(buf: string) returns (out: string)
      ensures exists fields :: Lists(fields, msg.headers) && Ordered(fields) && out == buf + EncodeRequest(Now(), fields)
    {
      var reqln := Truncated(CStr(verb) + " " + CStr(queryUri) + " " + CStr(msg.version) + "\n\n", 4095);
      var rest := EncodeRest(msg.headers, msg.Body());
      Assoc(buf, reqln, rest);
      out := buf + reqln + rest;
    }
  }

  method ThreeWords(line1: string) returns (a: string, b: string, c: string)
    ensures a == Word(line1) && b == Word(AfterWord(line1)) && c == Word(AfterWord(AfterWord(line1)))
  {
    var ln := new Slice(line1, 0, |line1|);
    assert ln.View() == line1;
    a := NextWord(ln);
    ghost var s := AfterWord(line1);
    assert ln.View() == s;
    b := NextWord(ln);
    assert ln.View() == AfterWord(s);
    c := NextWord(ln);
  }

  /** The first word, the line from there on, and the line from the second word on without white space. */
  method WordsAndRest(line1: string) returns (a: string, b: string, c: string)
    ensures a == Word(line1) && b == AfterWord(line1) && c == Trimmed(AfterWord(AfterWord(line1)))
  {
    var ln := new Slice(line1, 0, |line1|);
    assert ln.View() == line1;
    a := NextWord(ln);
    ghost var s := AfterWord(line1);
    b := ln.ToString();
    assert ln.View() == s;
    var _ := NextWord(ln);
    assert ln.View() == AfterWord(s);
    ln.TrimSpace();
    c := ln.ToString();
  }

  /** `string w = ln.eatWord();` */
  method NextWord(ln: Slice) returns (w: string)
    requires ln.Valid()
    modifies ln
    ensures ln.Valid() && w == Word(old(ln.View())) && ln.View() == AfterWord(old(ln.View()))
  {
    var word := ln.EatWord();
    w := word.ToString();
  }

  /** Moves an index on to one of two characters. */
  method Seek(s: string, from: nat, a: char, b: char) returns (c: nat)
    requires from <= |s|
    ensures c == Find(s, from, a, b)
  {
    c := from;
    while c < |s| && s[c] != a && s[c] != b
      invariant from <= c <= |s| && Find(s, c, a, b) == Find(s, from, a, b)
    {
      c := c + 1;
    }
  }

  class HttpResponse {
    const msg: HttpMsg
    var status: int
    var statusWord: string

    ghost function Now(): Response
      reads this, msg
    {
      Response(Status(msg.version, status, statusWord), msg.Now())
    }

    constructor ()
      ensures Now() == NEW_RESPONSE && fresh(msg)
    {
      msg := new HttpMsg();
      status, statusWord := 200, "OK";
    }

    method Clear()
      modifies this, msg
      ensures Now() == NEW_RESPONSE
    {
      msg.Clear();
      status, statusWord := 200, "OK";
    }

    method TryDecode(buf: string, copyBody: bool) returns (r: Result)
      modifies this, msg
      ensures r == DecodeResponse(old(Now()), buf, copyBody).0
      ensures Now() == DecodeResponse(old(Now()), buf, copyBody).1
    {
      var line1;
      r, line1 := msg.TryDecode(buf, copyBody);
      if r == Throws {
        return;
      }
      if |line1| > 0 {
        ReadStatusLine(line1, buf[|line1|..]);
      }
    }

    method ReadStatusLine(line1: string, behind: string)
      modifies this`status, this`statusWord, msg`version
      ensures Status(msg.version, status, statusWord) == StatusLine(line1, behind)
    {
      var first, second, rest := WordsAndRest(line1);
      msg.version := first;
      status := Atoi(second + behind);
      statusWord := rest;
    }

    method Encode(buf: string) returns (out: string)
      ensures exists fields :: Lists(fields, msg.headers) && Ordered(fields) && out == buf + EncodeResponse(Now(), fields)
    {
      var statusln := Truncated(CStr(msg.version) + " " + Signed(status) + " " + CStr(statusWord) + "\r\n", 1023);
      var rest := EncodeRest(msg.headers, msg.Body());
      Assoc(buf, statusln, rest);
      out := buf + statusln + rest;
    }
  }
}
