/** The incremental HTTP codec of handy/http.cc. Text is a string whose characters stand for bytes. */
module Http {
  import opened Slices

  /** The last is an exception: a body longer than any string. */
  datatype Result = Error | Complete | NotComplete | Continue100 | Throws

  const TERMINATOR: string := "\r\n\r\n"

  // ----- numbers and characters of the C library

  function Digit(d: nat): char
    requires d < 10
  {
    (48 + d) as char
  }

  predicate IsDigit(c: char) {
    48 <= c as int <= 57
  }

  /** "%lu" */
  function Decimal(n: nat): string {
    if n < 10 then [Digit(n)] else Decimal(n / 10) + [Digit(n % 10)]
  }

  /** "%d" */
  function Signed(n: int): string {
    if n < 0 then "-" + Decimal(-n) else Decimal(n)
  }

  /** The number that the leading digits spell. */
  function Spelled(s: string, value: nat): nat
    decreases |s|
  {
    if s == "" || !IsDigit(s[0]) then value else Spelled(s[1..], 10 * value + (s[0] as int - 48))
  }

  /** A sign and digits. */
  function Number(t: string): int {
    if t == "" then 0
    else if t[0] == '-' then -(Spelled(t[1..], 0) as int)
    else if t[0] == '+' then Spelled(t[1..], 0)
    else Spelled(t, 0)
  }

  function Atoi(s: string): int {
    Number(Left(s, InSpace))
  }

  function ToLower(c: char): char {
    if 'A' <= c <= 'Z' then (c as int + 32) as char else c
  }

  function Lower(s: string): (r: string)
    ensures |r| == |s| && forall i | 0 <= i < |s| :: r[i] == ToLower(s[i])
  {
    if s == "" then "" else [ToLower(s[0])] + Lower(s[1..])
  }

  /** Up to the first NUL. */
  function CStr(s: string): string {
    if s == "" || s[0] as int == 0 then "" else [s[0]] + CStr(s[1..])
  }

  function Truncated(s: string, n: nat): string {
    if |s| <= n then s else s[..n]
  }

  // ----- decoding

  /** The fields of HttpMsg that decoding uses. `overrun` is how far `body2` ends before it begins, which only
      a negative content-length can bring about. */
  datatype Parts = Parts(
    headers: map<string, string>,
    body: string,
    body2: string,
    overrun: nat,
    complete: bool,
    contentLen: nat,
    scanned: nat)

  const CLEAR := Parts(map[], "", "", 0, false, 0, 0)

  const SIZES: nat := 0x1_0000_0000_0000_0000

  /** A sum of two `size_t`. */
  function Sum(x: nat, y: nat): nat {
    if x + y < SIZES then x + y else x + y - SIZES
  }

  function Get(m: map<string, string>, n: string): string {
    if n in m then m[n] else ""
  }

  /** Where the scan for the end of the header stops. */
  function Scan(buf: string, from: nat): (at: nat)
    ensures from <= at && (|buf| < at + 4 || buf[at..at + 4] == TERMINATOR)
    decreases |buf| - from
  {
    if |buf| < from + 4 || buf[from..from + 4] == TERMINATOR then from else Scan(buf, from + 1)
  }

  /** One header line, behind the two characters that end the line before it. */
  datatype Turn = Field(rest: string, key: string, value: string) | Stop(ok: bool)

  function HeaderLine(req: string): Turn
    requires req != ""
    ensures var t := HeaderLine(req); t.Field? ==> |t.rest| < |req|
  {
    if |req| == 1 then Stop(false)
    else
      var ln, rest := Line(req[2..]), AfterLine(req[2..]);
      var k, v := Word(ln), Trimmed(AfterWord(ln));
      if k != "" && v != "" && k[|k| - 1] == ':' then Field(rest, k[..|k| - 1], v)
      else Stop(k == "" && v == "" && rest == "")
  }

  /** The header lines up to the end of the header. */
  function Lines(req: string, headers: map<string, string>): (bool, map<string, string>)
    decreases |req|
  {
    if req == "" then (true, headers)
    else match HeaderLine(req)
         case Field(rest, key, value) => Lines(rest, headers[Lower(key) := value])
         case Stop(ok) => (ok, headers)
  }

  /** `contentLen_ = atoi(...)`, a conversion to `size_t`. */
  function ContentLen(headers: map<string, string>): nat {
    var n := Atoi(Get(headers, "content-length"));
    if n >= 0 then n else if SIZES + n > 0 then SIZES + n else 0
  }

  /** A sum that wraps around lets a negative content-length pass the test for a complete body. */
  function Finish(m: Parts, buf: string, copyBody: bool): (Result, Parts) {
    var end := Sum(m.contentLen, m.scanned);
    if |buf| < end then (NotComplete, m)
    else if m.scanned <= end then
      var text := buf[m.scanned..end];
      (Complete, m.(body := if copyBody then text else m.body, body2 := if copyBody then m.body2 else text,
                    overrun := if copyBody then m.overrun else 0, complete := true, scanned := end))
    else if copyBody then (Throws, m)
    else (Complete, m.(body2 := "", overrun := m.scanned - end, complete := true, scanned := end))
  }

  /** The header that ends where the scan stopped: whether it is one, new fields, and the first line. */
  function Header(m: Parts, buf: string): (bool, Parts, string)
    requires m.scanned + 4 <= |buf|
  {
    var req := buf[..m.scanned];
    var (ok, headers) := Lines(AfterLine(req), m.headers);
    var p := m.(headers := headers);
    (ok, if ok then p.(scanned := m.scanned + 4, contentLen := ContentLen(headers)) else p, Line(req))
  }

  /** Result, new fields, and the first line if the header was found by this call. */
  function Decode(m: Parts, buf: string, copyBody: bool): (d: (Result, Parts, string))
    ensures d.2 <= buf
  {
    if m.complete then (Complete, m, "")
    else if m.contentLen != 0 then
      var (r, p) := Finish(m, buf, copyBody); (r, p, "")
    else
      var s := m.(scanned := Scan(buf, m.scanned));
      if |buf| < s.scanned + 4 || s.scanned == 0 then (NotComplete, s, "")
      else
        var (ok, p, line1) := Header(s, buf);
        if !ok then (Error, p, line1)
        else if |buf| < Sum(p.contentLen, p.scanned) && Get(p.headers, "Expect") != "" then (Continue100, p, line1)
        else
          var (r, q) := Finish(p, buf, copyBody); (r, q, line1)
  }

  class HttpMsg {
    var headers: map<string, string>
    var version: string
    var body: string
    var body2: string
    ghost var overrun: nat
    var complete: bool
    var contentLen: nat
    var scanned: nat

    ghost function Now(): Parts
      reads this
    {
      Parts(headers, body, body2, overrun, complete, contentLen, scanned)
    }

    constructor ()
      ensures Now() == CLEAR && version == "HTTP/1.1"
    {
      headers, version, body, body2, complete, contentLen, scanned := map[], "HTTP/1.1", "", "", false, 0, 0;
      overrun := 0;
    }

    method Clear()
      modifies this
      ensures Now() == CLEAR && version == "HTTP/1.1"
    {
      headers, version, body, body2, complete, contentLen, scanned := map[], "HTTP/1.1", "", "", false, 0, 0;
      overrun := 0;
    }

    /** `getBody()` */
    function Body(): string
      reads this
    {
      if body2 != "" then body2 else body
    }

    static method WordAndRest(ln: Slice) returns (k: string, v: string)
      requires ln.Valid()
      modifies ln
      ensures k == Word(old(ln.View())) && v == Trimmed(AfterWord(old(ln.View())))
    {
      var word := ln.EatWord();
      ln.TrimSpace();
      k, v := word.ToString(), ln.ToString();
    }

    static method FirstLine(buf: string, n: nat) returns (line1: string, req: Slice)
      requires n <= |buf|
      ensures fresh(req) && req.Valid() && line1 == Line(buf[..n]) && req.View() == AfterLine(buf[..n])
    {
      req := new Slice(buf, 0, n);
      assert req.View() == buf[..n];
      var ln := req.EatLine();
      line1 := ln.ToString();
    }

    /** Whether the line is a field; if not, whether it ends the header well. */
    static method ReadLine(req: Slice) returns (field: bool, ok: bool, key: string, value: string)
      requires req.Valid() && req.Size() > 0
      modifies req
      ensures var t := HeaderLine(old(req.View()));
              && req.Valid() && field == t.Field?
              && (t.Field? ==> key == t.key && value == t.value && req.View() == t.rest)
              && (t.Stop? ==> ok == t.ok)
    {
      field, ok, key, value := false, false, "", "";
      if req.Size() < 2 {
        return;  // eating two moves past the end, and what is there is no blank last line
      }
      req.Eat(2);
      var ln := req.EatLine();
      key, value := WordAndRest(ln);
      if |key| > 0 && |value| > 0 && key[|key| - 1] == ':' {
        field, key := true, key[..|key| - 1];
      } else {
        ok := |key| == 0 && |value| == 0 && req.Size() == 0;
      }
    }

    method HeaderLines(req: Slice) returns (ok: bool)
      requires req.Valid()
      modifies this`headers, req
      ensures ok == Lines(old(req.View()), old(headers)).0
      ensures headers == Lines(old(req.View()), old(headers)).1
    {
      ghost var end := Lines(req.View(), headers);
      while req.Size() > 0
        invariant req.Valid() && Lines(req.View(), headers) == end
        decreases req.Size()
      {
        var field, good, key, value := ReadLine(req);
        if !field {
          return good;
        }
        headers := headers[Lower(key) := value];
      }
      return true;
    }

    method FindHeader(buf: string) returns (found: bool)
      modifies this`scanned
      ensures scanned == Scan(buf, old(scanned)) && found == (|buf| >= scanned + 4)
    {
      while |buf| >= scanned + 4
        invariant Scan(buf, scanned) == Scan(buf, old(scanned))
        decreases |buf| - scanned
      {
        if buf[scanned] == '\r' && buf[scanned..scanned + 4] == "\r\n\r\n" {
          return true;
        }
        scanned := scanned + 1;
      }
      return false;
    }

    method ReadBody(buf: string, copyBody: bool) returns (r: Result)
      requires !complete
      modifies this`body, this`body2, this`overrun, this`complete, this`scanned
      ensures r == Finish(old(Now()), buf, copyBody).0 && Now() == Finish(old(Now()), buf, copyBody).1
    {
      var end := Sum(contentLen, scanned);
      if |buf| >= end {
        if copyBody {
          if end < scanned {
            return Throws;  // body.assign of more characters than a string can have
          }
          body := buf[scanned..end];
        } else {
          body2 := if scanned <= end then buf[scanned..end] else "";
          overrun := if scanned <= end then 0 else scanned - end;
        }
        complete := true;
        scanned := end;
      }
      r := if complete then Complete else NotComplete;
    }

    method ReadHeader(buf: string) returns (ok: bool, line1: string)
      requires scanned + 4 <= |buf|
      modifies this`headers, this`scanned, this`contentLen
      ensures ok == Header(old(Now()), buf).0
      ensures Now() == Header(old(Now()), buf).1
      ensures line1 == Header(old(Now()), buf).2
    {
      var req;
      line1, req := FirstLine(buf, scanned);
      ok := HeaderLines(req);
      if ok {
        scanned := scanned + 4;
        contentLen := ContentLen(headers);
      }
    }

    method TryDecode(buf: string, copyBody: bool) returns (r: Result, line1: string)
      modifies this`headers, this`body, this`body2, this`overrun, this`complete, this`contentLen, this`scanned
      ensures r == Decode(old(Now()), buf, copyBody).0
      ensures Now() == Decode(old(Now()), buf, copyBody).1
      ensures line1 == Decode(old(Now()), buf, copyBody).2
    {
      line1 := "";
      if complete {
        return Complete, line1;
      }
      if contentLen == 0 {
        var found := FindHeader(buf);
        if !found || scanned == 0 {
          return NotComplete, line1;
        }
        var ok;
        ok, line1 := ReadHeader(buf);
        if !ok {
          return Error, line1;
        }
        if |buf| < Sum(contentLen, scanned) && Get(headers, "Expect") != "" {
          return Continue100, line1;
        }
      }
      r := ReadBody(buf, copyBody);
    }
  }
}
