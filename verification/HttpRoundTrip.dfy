/** Decoding an encoded message gives the message back and leaves what comes behind it. */
module HttpRoundTrip {
  import opened Slices
  import opened Http
  import opened HttpMessages

  // ----- numbers

  lemma {:induction false} SpelledEnd(s: string, c: char, value: nat)
    requires IsDigit(c) && forall i | 0 <= i < |s| :: IsDigit(s[i])
    ensures Spelled(s + [c], value) == 10 * Spelled(s, value) + (c as int - 48)
    decreases |s|
  {
    if s != "" {
      assert (s + [c])[1..] == s[1..] + [c];
      SpelledEnd(s[1..], c, 10 * value + (s[0] as int - 48));
    } else {
      assert (s + [c])[1..] == "";
    }
  }

  lemma {:induction false} DecimalSpelled(n: nat)
    ensures Decimal(n) != "" && (forall i | 0 <= i < |Decimal(n)| :: IsDigit(Decimal(n)[i]))
    ensures Spelled(Decimal(n), 0) == n
  {
    if n >= 10 {
      DecimalSpelled(n / 10);
      SpelledEnd(Decimal(n / 10), Digit(n % 10), 0);
    } else {
      assert Decimal(n)[1..] == "";
    }
  }

  lemma {:induction false} SpelledStops(s: string, rest: string, value: nat)
    requires (forall i | 0 <= i < |s| :: IsDigit(s[i])) && (rest != "" ==> !IsDigit(rest[0]))
    ensures Spelled(s + rest, value) == Spelled(s, value)
    decreases |s|
  {
    if s != "" {
      assert (s + rest)[1..] == s[1..] + rest;
      SpelledStops(s[1..], rest, 10 * value + (s[0] as int - 48));
    } else {
      assert s + rest == rest;
    }
  }

  lemma SignedNumber(n: int, rest: string)
    requires rest != "" ==> !IsDigit(rest[0])
    ensures Signed(n) != "" && NoSpace(Signed(n)) && Number(Signed(n) + rest) == n
  {
    var s, d := Signed(n) + rest, Decimal(if n < 0 then -n else n);
    DecimalSpelled(if n < 0 then -n else n);
    SpelledStops(d, rest, 0);
    assert n < 0 ==> s[1..] == d + rest;
  }

  /** The number read is the number printed, whatever else comes behind it. */
  lemma SignedSpelled(n: int, rest: string)
    requires rest != "" ==> !IsDigit(rest[0])
    ensures Signed(n) != "" && NoSpace(Signed(n)) && Atoi(Signed(n) + rest) == n
  {
    SignedNumber(n, rest);
    RunIs(Signed(n) + rest, InSpace, 0);
  }

  lemma SpacedNumber(n: int, third: string, behind: string)
    requires third + behind != "" ==> !IsDigit((third + behind)[0])
    ensures Atoi(" " + Signed(n) + third + behind) == n
  {
    var rest := third + behind;
    SignedNumber(n, rest);
    assert " " + Signed(n) + third + behind == " " + (Signed(n) + rest);
    RunIs(" " + (Signed(n) + rest), InSpace, 1);
  }

  // ----- text without separators

  ghost predicate NoSpace(s: string) {
    forall i | 0 <= i < |s| :: !IsSpace(s[i])
  }

  ghost predicate NoLineEnd(s: string) {
    forall i | 0 <= i < |s| :: !IsLineEnd(s[i])
  }

  /** No white space at either end, and no line end anywhere. */
  ghost predicate Tidy(s: string) {
    NoLineEnd(s) && (s != "" ==> !IsSpace(s[0]) && !IsSpace(s[|s| - 1]))
  }

  ghost predicate GoodField(f: (string, string)) {
    NoSpace(f.0) && f.1 != "" && Tidy(f.1)
  }

  ghost predicate AllGood(fs: seq<(string, string)>) {
    forall i | 0 <= i < |fs| :: GoodField(fs[i])
  }

  lemma WordOf(w: string, rest: string)
    requires w != "" && NoSpace(w) && (rest != "" ==> IsSpace(rest[0]))
    ensures Word(w + rest) == w && AfterWord(w + rest) == rest
  {
    RunIs(w + rest, InSpace, 0);
    RunIs(w + rest, InWord, |w|);
  }

  lemma Unspaced(s: string)
    requires s != "" ==> !IsSpace(s[0])
    ensures Left(" " + s, InSpace) == s
  {
    RunIs(" " + s, InSpace, 1);
  }

  lemma WordAfterSpace(w: string, rest: string)
    requires w != "" && NoSpace(w) && (rest != "" ==> IsSpace(rest[0]))
    ensures Word(" " + w + rest) == w && AfterWord(" " + w + rest) == rest
  {
    Unspaced(w + rest);
    assert " " + w + rest == " " + (w + rest);
    RunIs(w + rest, InWord, |w|);
  }

  lemma TrimmedOf(v: string)
    requires Tidy(v)
    ensures Trimmed(" " + v) == v
  {
    Unspaced(v);
  }

  lemma LineOf(s: string, rest: string)
    requires NoLineEnd(s) && (rest != "" ==> IsLineEnd(rest[0]))
    ensures Line(s + rest) == s && AfterLine(s + rest) == rest
  {
    RunIs(s + rest, InLine, |s|);
  }

  // ----- header lines

  function Text(f: (string, string)): string {
    f.0 + ": " + f.1
  }

  /** Header lines, each behind the end of the line before it. */
  function Block(fs: seq<(string, string)>): string {
    if fs == [] then "" else "\r\n" + Text(fs[0]) + Block(fs[1..])
  }

  function Fold(fs: seq<(string, string)>, headers: map<string, string>): map<string, string> {
    if fs == [] then headers else Fold(fs[1..], headers[Lower(fs[0].0) := fs[0].1])
  }

  lemma TextIsLine(f: (string, string))
    requires GoodField(f)
    ensures NoLineEnd(Text(f)) && Text(f) != ""
  {
  }

  lemma TextReads(f: (string, string))
    requires GoodField(f)
    ensures Word(Text(f)) == f.0 + ":" && Trimmed(AfterWord(Text(f))) == f.1
  {
    var k, v := f.0 + ":", " " + f.1;
    assert Text(f) == k + v;
    WordOf(k, v);
    TrimmedOf(f.1);
  }

  lemma FieldRead(req: string, f: (string, string), rest: string)
    requires |req| > 2 && req[2..] == Text(f) + rest && GoodField(f) && (rest != "" ==> IsLineEnd(rest[0]))
    ensures HeaderLine(req) == Field(rest, f.0, f.1)
  {
    TextIsLine(f);
    TextReads(f);
    LineOf(Text(f), rest);
    assert (f.0 + ":")[..|f.0|] == f.0;
  }

  lemma {:induction false} BlockRead(sep: string, fs: seq<(string, string)>, headers: map<string, string>)
    requires |sep| == 2 && fs != [] && AllGood(fs)
    ensures Lines(sep + Text(fs[0]) + Block(fs[1..]), headers) == (true, Fold(fs, headers))
    decreases |fs|
  {
    var f, rest := fs[0], Block(fs[1..]);
    var req := sep + Text(f) + rest;
    assert req[2..] == Text(f) + rest;
    FieldRead(req, f, rest);
    if |fs| > 1 {
      BlockRead("\r\n", fs[1..], headers[Lower(f.0) := f.1]);
      assert fs[1..][0] == fs[1] && fs[1..][1..] == fs[2..];
    }
  }

  // ----- where the header ends

  /** A carriage return is followed by something, and then by no carriage return. */
  ghost predicate Sparse(s: string) {
    forall i | 0 <= i < |s| :: s[i] == '\r' ==> i + 2 < |s| && s[i + 2] != '\r'
  }

  lemma SparseJoined(s: string, t: string)
    requires Sparse(s) && Sparse(t)
    ensures Sparse(s + t)
  {
    var all := s + t;
    forall i | 0 <= i < |all| && all[i] == '\r'
      ensures i + 2 < |all| && all[i + 2] != '\r'
    {
      if i >= |s| { assert t[i - |s|] == '\r'; }
    }
  }

  lemma {:induction false} BlockSparse(fs: seq<(string, string)>)
    requires AllGood(fs)
    ensures Sparse(Block(fs))
  {
    if fs != [] {
      TextIsLine(fs[0]);
      BlockSparse(fs[1..]);
      assert Sparse("\r\n" + Text(fs[0])) by {
        assert !IsLineEnd(Text(fs[0])[0]);
      }
      SparseJoined("\r\n" + Text(fs[0]), Block(fs[1..]));
    }
  }

  lemma {:induction false} ScanPasses(s: string, rest: string, from: nat)
    requires Sparse(s) && from <= |s|
    ensures Scan(s + TERMINATOR + rest, from) == |s|
    decreases |s| - from
  {
    var all := s + TERMINATOR + rest;
    assert all[|s|..|s| + 4] == TERMINATOR;
    if from < |s| {
      assert all[from..from + 4][0] == s[from];
      assert s[from] == '\r' ==> all[from..from + 4][2] == s[from + 2];
      ScanPasses(s, rest, from + 1);
    }
  }

  lemma BlockStep(fs: seq<(string, string)>)
    requires |fs| > 1
    ensures Block(fs[1..]) == "\r\n" + Text(fs[1]) + Block(fs[1..][1..])
  {
  }

  lemma {:induction false} FieldLinesBlock(fs: seq<(string, string)>)
    requires fs != []
    ensures FieldLines(fs) + "\r\n" == Text(fs[0]) + Block(fs[1..]) + TERMINATOR
  {
    var t := Text(fs[0]);
    if |fs| == 1 {
      assert FieldLines(fs[1..]) == "";
      assert FieldLines(fs) + "\r\n" == t + "\r\n" + "\r\n";
    } else {
      var rest, block := FieldLines(fs[1..]), Block(fs[1..][1..]);
      FieldLinesBlock(fs[1..]);
      BlockStep(fs);
      JoinLines(t, rest, Text(fs[1]), block);
    }
  }

  lemma JoinLines(t: string, rest: string, u: string, block: string)
    requires rest + "\r\n" == u + block + TERMINATOR
    ensures t + "\r\n" + rest + "\r\n" == t + ("\r\n" + u + block) + TERMINATOR
  {
    assert t + "\r\n" + rest + "\r\n" == t + "\r\n" + (rest + "\r\n");
  }

  // ----- what the headers become

  const CONNECTION: string := "connection"
  const CONTENT_LENGTH: string := "content-length"

  /** The headers that the encoders write: the message's own, then two of theirs. */
  function Written(fields: seq<(string, string)>, n: nat): seq<(string, string)> {
    fields + [("Connection", "Keep-Alive")] + [("Content-Length", Decimal(n))]
  }

  /** No two names are the same in lower case. */
  ghost predicate Distinct(fields: seq<(string, string)>) {
    forall i, j | 0 <= i < j < |fields| :: Lower(fields[i].0) != Lower(fields[j].0)
  }

  /** Every header of the message under its lower-case name, and the two the encoder adds, which win. */
  ghost predicate Received(fields: seq<(string, string)>, n: nat, headers: map<string, string>) {
    && CONNECTION in headers && headers[CONNECTION] == "Keep-Alive"
    && CONTENT_LENGTH in headers && headers[CONTENT_LENGTH] == Decimal(n)
    && (forall i | 0 <= i < |fields| && Lower(fields[i].0) != CONNECTION && Lower(fields[i].0) != CONTENT_LENGTH ::
          Lower(fields[i].0) in headers && headers[Lower(fields[i].0)] == fields[i].1)
    && (forall k | k in headers :: k == CONNECTION || k == CONTENT_LENGTH || IsName(fields, k))
  }

  ghost predicate IsName(fields: seq<(string, string)>, k: string) {
    exists i :: 0 <= i < |fields| && Lower(fields[i].0) == k
  }

  lemma {:induction false} FoldEnd(fs: seq<(string, string)>, f: (string, string), headers: map<string, string>)
    ensures Fold(fs + [f], headers) == Fold(fs, headers)[Lower(f.0) := f.1]
  {
    if fs != [] {
      assert (fs + [f])[1..] == fs[1..] + [f];
      FoldEnd(fs[1..], f, headers[Lower(fs[0].0) := fs[0].1]);
    } else {
      assert (fs + [f])[1..] == [];
    }
  }

  lemma {:induction false} FoldNames(fs: seq<(string, string)>, k: string)
    requires k in Fold(fs, map[])
    ensures IsName(fs, k)
  {
    if fs != [] {
      var front, f := fs[..|fs| - 1], fs[|fs| - 1];
      assert front + [f] == fs;
      FoldEnd(front, f, map[]);
      if k != Lower(f.0) {
        FoldNames(front, k);
        var i :| 0 <= i < |front| && Lower(front[i].0) == k;
        assert Lower(fs[i].0) == k;
      }
    }
  }

  lemma {:induction false} FoldFinds(fs: seq<(string, string)>, i: nat)
    requires i < |fs| && Distinct(fs)
    ensures Lower(fs[i].0) in Fold(fs, map[]) && Fold(fs, map[])[Lower(fs[i].0)] == fs[i].1
    decreases |fs|
  {
    var front, f := fs[..|fs| - 1], fs[|fs| - 1];
    assert front + [f] == fs;
    FoldEnd(front, f, map[]);
    if i < |front| { FoldFinds(front, i); }
  }

  lemma LowerIs(s: string, r: string)
    requires |s| == |r| && forall i | 0 <= i < |s| :: ToLower(s[i]) == r[i]
    ensures Lower(s) == r
  {
  }

  lemma LowerConnection()
    ensures Lower("Connection") == CONNECTION
  {
    LowerIs("Connection", CONNECTION);
  }

  lemma LowerContentLength()
    ensures Lower("Content-Length") == CONTENT_LENGTH
  {
    LowerIs("Content-Length", CONTENT_LENGTH);
  }

  lemma WrittenFold(fields: seq<(string, string)>, n: nat)
    ensures Fold(Written(fields, n), map[]) ==
            Fold(fields, map[])[CONNECTION := "Keep-Alive"][CONTENT_LENGTH := Decimal(n)]
  {
    LowerConnection();
    LowerContentLength();
    var c, l := ("Connection", "Keep-Alive"), ("Content-Length", Decimal(n));
    FoldEnd(fields, c, map[]);
    FoldEnd(fields + [c], l, map[]);
  }

  lemma WrittenReceived(fields: seq<(string, string)>, n: nat)
    requires Distinct(fields)
    ensures Received(fields, n, Fold(Written(fields, n), map[]))
  {
    WrittenFold(fields, n);
    var own := Fold(fields, map[]);
    forall i | 0 <= i < |fields|
      ensures Lower(fields[i].0) in own && own[Lower(fields[i].0)] == fields[i].1
    {
      FoldFinds(fields, i);
    }
    forall k | k in own
      ensures IsName(fields, k)
    {
      FoldNames(fields, k);
    }
    TwoMore(fields, n, own);
  }

  lemma TwoMore(fields: seq<(string, string)>, n: nat, own: map<string, string>)
    requires forall i | 0 <= i < |fields| :: Lower(fields[i].0) in own && own[Lower(fields[i].0)] == fields[i].1
    requires forall k | k in own :: IsName(fields, k)
    ensures Received(fields, n, own[CONNECTION := "Keep-Alive"][CONTENT_LENGTH := Decimal(n)])
  {
    NamesDiffer();
  }

  lemma NamesDiffer()
    ensures CONNECTION != CONTENT_LENGTH
  {
    assert |CONNECTION| != |CONTENT_LENGTH|;
  }

  lemma WrittenLength(fields: seq<(string, string)>, n: nat)
    ensures ContentLen(Fold(Written(fields, n), map[])) == n
  {
    WrittenFold(fields, n);
    SignedSpelled(n, "");
    assert Signed(n) + "" == Decimal(n);
  }

  lemma RestIs(fields: seq<(string, string)>, body: string)
    ensures var all := Written(fields, |body|);
            Rest(fields, body) == Text(all[0]) + Block(all[1..]) + TERMINATOR + body
  {
    var c, l := ("Connection", "Keep-Alive"), ("Content-Length", Decimal(|body|));
    FieldLinesEnd(fields, c);
    FieldLinesEnd(fields + [c], l);
    FieldLinesBlock(Written(fields, |body|));
  }

  lemma WrittenGood(fields: seq<(string, string)>, n: nat)
    requires AllGood(fields)
    ensures AllGood(Written(fields, n))
  {
    DecimalSpelled(n);
    assert GoodField(("Connection", "Keep-Alive"));
    assert GoodField(("Content-Length", Decimal(n)));
  }

  // ----- the whole message

  /** The header of an encoded message: its first line, and its lines behind the two characters that end it. */
  function Head(first: string, sep: string, all: seq<(string, string)>): string
    requires all != []
  {
    first + (sep + Text(all[0]) + Block(all[1..]))
  }

  lemma HeadSparse(first: string, sep: string, all: seq<(string, string)>)
    requires NoLineEnd(first) && (sep == "\n\n" || sep == "\r\n") && all != [] && AllGood(all)
    ensures Sparse(Head(first, sep, all))
  {
    TextIsLine(all[0]);
    assert Sparse(first) && Sparse(sep + Text(all[0]));
    BlockSparse(all[1..]);
    SparseJoined(sep + Text(all[0]), Block(all[1..]));
    SparseJoined(first, sep + Text(all[0]) + Block(all[1..]));
  }

  lemma HeadRead(first: string, sep: string, all: seq<(string, string)>, rest: string)
    requires NoLineEnd(first) && |sep| == 2 && IsLineEnd(sep[0]) && all != [] && AllGood(all)
    ensures var head := Head(first, sep, all);
            var h := Header(CLEAR.(scanned := |head|), head + TERMINATOR + rest);
            && h.0 && h.2 == first
            && h.1 == CLEAR.(scanned := |head| + 4, headers := Fold(all, map[]), contentLen := ContentLen(Fold(all, map[])))
  {
    var head := Head(first, sep, all);
    assert (head + TERMINATOR + rest)[..|head|] == head;
    LineOf(first, sep + Text(all[0]) + Block(all[1..]));
    BlockRead(sep, all, map[]);
  }

  lemma Regroup(first: string, sep: string, t: string, block: string, body: string, more: string)
    ensures first + sep + (t + block + TERMINATOR + body) + more == first + (sep + t + block) + TERMINATOR + (body + more)
  {
  }

  lemma BodyAt(head: string, body: string, more: string)
    ensures (head + TERMINATOR + (body + more))[|head| + 4..|head| + 4 + |body|] == body
  {
  }

  lemma HeaderFound(text: string, at: nat, p: Parts, first: string, copyBody: bool)
    requires 0 < at == Scan(text, 0) && at + 4 <= |text|
    requires var h := Header(CLEAR.(scanned := at), text); h.0 && h.1 == p && h.2 == first
    requires p.contentLen + p.scanned <= |text| && p.contentLen + p.scanned < SIZES
    ensures var d := Decode(CLEAR, text, copyBody);
            d.0 == Complete && d.1 == Finish(p, text, copyBody).1 && d.2 == first
  {
  }

  /** Once the header is read, the body follows. */
  lemma BodyRead(head: string, body: string, more: string, p: Parts, first: string, copyBody: bool)
    requires var text := head + TERMINATOR + (body + more);
             && head != "" && Scan(text, 0) == |head|
             && var h := Header(CLEAR.(scanned := |head|), text);
             h.0 && h.1 == p && h.2 == first
    requires p.scanned == |head| + 4 && p.contentLen == |body| && p.body == "" && p.body2 == ""
    requires |head| + 4 + |body| < SIZES
    ensures var text := head + TERMINATOR + (body + more);
            var d := Decode(CLEAR, text, copyBody);
            && d.0 == Complete && d.2 == first && d.1.headers == p.headers && BodyOf(d.1) == body
            && d.1.scanned == |text| - |more|
  {
    var text := head + TERMINATOR + (body + more);
    HeaderFound(text, |head|, p, first, copyBody);
    BodyAt(head, body, more);
    var f := Finish(p, text, copyBody);
    assert f.1.headers == p.headers && BodyOf(f.1) == body;
  }

  /** What decoding finds in a first line, two characters that end it, and the rest. */
  lemma Core(first: string, sep: string, fields: seq<(string, string)>, body: string, more: string, copyBody: bool)
    requires first != "" && NoLineEnd(first) && (sep == "\n\n" || sep == "\r\n")
    requires AllGood(fields) && Distinct(fields) && |first| + |sep| + |Rest(fields, body)| < SIZES
    ensures var text := first + sep + Rest(fields, body) + more;
            var d := Decode(CLEAR, text, copyBody);
            && d.0 == Complete && d.2 == first && Received(fields, |body|, d.1.headers) && BodyOf(d.1) == body
            && d.1.scanned == |text| - |more|
  {
    var all := Written(fields, |body|);
    RestIs(fields, body);
    Regroup(first, sep, Text(all[0]), Block(all[1..]), body, more);
    WrittenGood(fields, |body|);
    WrittenReceived(fields, |body|);
    WrittenLength(fields, |body|);
    CoreOf(first, sep, all, body, more, copyBody);
  }

  lemma CoreOf(first: string, sep: string, all: seq<(string, string)>, body: string, more: string, copyBody: bool)
    requires first != "" && NoLineEnd(first) && (sep == "\n\n" || sep == "\r\n")
    requires all != [] && AllGood(all) && ContentLen(Fold(all, map[])) == |body|
    requires |Head(first, sep, all)| + 4 + |body| < SIZES
    ensures var text := Head(first, sep, all) + TERMINATOR + (body + more);
            var d := Decode(CLEAR, text, copyBody);
            && d.0 == Complete && d.2 == first && d.1.headers == Fold(all, map[]) && BodyOf(d.1) == body
            && d.1.scanned == |text| - |more|
  {
    var head := Head(first, sep, all);
    HeadSparse(first, sep, all);
    ScanPasses(head, body + more, 0);
    HeadRead(first, sep, all, body + more);
    var p := CLEAR.(scanned := |head| + 4, headers := Fold(all, map[]), contentLen := |body|);
    BodyRead(head, body, more, p, first, copyBody);
  }

  // ----- requests

  /** `encode` and `getByte` count in `int`. */
  const MAX_INT: nat := 0x7fff_ffff

  ghost predicate GoodWord(w: string) {
    w != "" && NoSpace(w) && forall i | 0 <= i < |w| :: w[i] as int != 0
  }

  function FirstLine(t: Top): string {
    t.verb + " " + t.queryUri + " " + t.version
  }

  /** What the encoder can write so that it is read back: its first line in the fixed buffer, and
      headers, in some order, that are different names with a value. */
  ghost predicate GoodRequest(q: Request, fields: seq<(string, string)>) {
    && GoodWord(q.top.verb) && GoodWord(q.top.queryUri) && q.top.queryUri[0] == '/' && GoodWord(q.top.version)
    && |FirstLine(q.top)| + 2 <= 4095 && |EncodeRequest(q, fields)| <= MAX_INT
    && AllGood(fields) && Distinct(fields)
  }

  lemma {:induction false} CStrWhole(s: string)
    requires forall i | 0 <= i < |s| :: s[i] as int != 0
    ensures CStr(s) == s
  {
    if s != "" { CStrWhole(s[1..]); }
  }

  lemma LastWord(w: string)
    requires w != "" && NoSpace(w)
    ensures Word(" " + w) == w
  {
    assert " " + w + "" == " " + w;
    WordAfterSpace(w, "");
  }

  lemma Spaced(a: string, b: string, c: string)
    requires NoLineEnd(a) && NoLineEnd(b) && NoLineEnd(c)
    ensures a + " " + b + " " + c == a + (" " + b + (" " + c)) && NoLineEnd(a + " " + b + " " + c)
  {
  }

  lemma ThreeWordsRead(a: string, b: string, c: string)
    requires GoodWord(a) && GoodWord(b) && GoodWord(c)
    ensures var ln := a + " " + b + " " + c;
            && NoLineEnd(ln) && Word(ln) == a && Word(AfterWord(ln)) == b && Word(AfterWord(AfterWord(ln))) == c
  {
    var third := " " + c;
    Spaced(a, b, c);
    WordOf(a, " " + b + third);
    WordAfterSpace(b, third);
    LastWord(c);
  }

  lemma RequestText(q: Request, fields: seq<(string, string)>)
    requires GoodRequest(q, fields)
    ensures EncodeRequest(q, fields) == FirstLine(q.top) + "\n\n" + Rest(fields, BodyOf(q.parts))
  {
    CStrWhole(q.top.verb);
    CStrWhole(q.top.queryUri);
    CStrWhole(q.top.version);
  }

  /** Decoding the encoding of a request with anything behind it gives the request back, and the byte
      count that leaves exactly what is behind. */
  lemma RequestRoundTrip(q: Request, fields: seq<(string, string)>, more: string, copyBody: bool)
    requires GoodRequest(q, fields)
    ensures var text := EncodeRequest(q, fields) + more;
            var d := DecodeRequest(NEW_REQUEST, text, copyBody);
            && d.0 == Complete
            && d.1.top == WithUri(NEW_TOP.(verb := q.top.verb, queryUri := q.top.queryUri, version := q.top.version))
            && Received(fields, |BodyOf(q.parts)|, d.1.parts.headers) && BodyOf(d.1.parts) == BodyOf(q.parts)
            && 0 < d.1.parts.scanned == |EncodeRequest(q, fields)| && text[d.1.parts.scanned..] == more
  {
    RequestText(q, fields);
    ThreeWordsRead(q.top.verb, q.top.queryUri, q.top.version);
    Core(FirstLine(q.top), "\n\n", fields, BodyOf(q.parts), more, copyBody);
  }

  // ----- uris and their arguments

  /** `key=value`, or only a key. */
  datatype Arg = Pair(key: string, value: string) | Bare(key: string)

  function ArgText(a: Arg): string {
    match a
    case Pair(key, value) => key + "=" + value
    case Bare(key) => key
  }

  /** `k0=v0&k1&k2=v2&...` */
  function ArgTexts(args: seq<Arg>): string {
    if args == [] then "" else ArgText(args[0]) + (if |args| == 1 then "" else "&") + ArgTexts(args[1..])
  }

  /** An argument with no key is left out, and one with only a key has the empty value. */
  function Entered(a: Arg, m: map<string, string>): map<string, string> {
    if a.key == "" then m else m[a.key := if a.Pair? then a.value else ""]
  }

  /** The last of equal keys wins. */
  function ArgMap(args: seq<Arg>, m: map<string, string>): map<string, string> {
    if args == [] then m else ArgMap(args[1..], Entered(args[0], m))
  }

  ghost predicate Without(s: string, c: char) {
    forall i | 0 <= i < |s| :: s[i] != c
  }

  ghost predicate GoodArg(a: Arg) {
    Without(a.key, '=') && Without(a.key, '&') && (a.Pair? ==> Without(a.value, '&'))
  }

  lemma ArgEnds(qs: string, c: nat, a: Arg, rest: string)
    requires c < |qs| && qs[c..] == ArgText(a) + rest && GoodArg(a) && (rest != "" ==> rest[0] == '&')
    ensures Find(qs, c, '=', '&') == c + |a.key| && Find(qs, c, '&', '&') == c + |ArgText(a)|
    ensures NextArg(qs, c) == |qs| - |rest| + if rest == "" then 0 else 1
  {
    var text, k, e := qs[c..], c + |a.key|, c + |ArgText(a)|;
    assert forall i | c <= i < |qs| :: qs[i] == text[i - c];
    assert forall i | 0 <= i < |a.key| :: text[i] == a.key[i];
    FindIs(qs, c, '=', '&', k);
    FindIs(qs, c, '&', '&', e);
  }

  lemma ArgParts(qs: string, c: nat, a: Arg, rest: string)
    requires c <= |qs| && qs[c..] == ArgText(a) + rest
    ensures c + |ArgText(a)| <= |qs| && qs[c..c + |a.key|] == a.key
    ensures a.Pair? ==> qs[c + |a.key| + 1..c + |ArgText(a)|] == a.value
  {
    var text, n := qs[c..], |a.key|;
    assert qs[c..c + n] == text[..n] == a.key;
    if a.Pair? { assert qs[c + n + 1..c + |ArgText(a)|] == text[n + 1..|ArgText(a)|] == a.value; }
  }

  lemma FirstArg(qs: string, c: nat, a: Arg, rest: string, m: map<string, string>)
    requires c < |qs| && qs[c..] == ArgText(a) + rest && GoodArg(a) && (rest != "" ==> rest[0] == '&')
    ensures WithArg(qs, c, m) == Entered(a, m)
  {
    ArgEnds(qs, c, a, rest);
    ArgParts(qs, c, a, rest);
    ArgFound(qs, c, a, c + |a.key|, c + |ArgText(a)|, m);
  }

  lemma ArgFound(qs: string, c: nat, a: Arg, k: nat, e: nat, m: map<string, string>)
    requires c <= k <= e <= |qs| && c < |qs| && k == Find(qs, c, '=', '&') && e == Find(qs, c, '&', '&')
    requires qs[c..k] == a.key && (a.Pair? <==> k < e) && (a.Pair? ==> qs[k + 1..e] == a.value)
    ensures WithArg(qs, c, m) == Entered(a, m)
  {
  }

  /** Any query is read as the arguments it is made of. */
  lemma {:induction false} ArgsRead(qs: string, c: nat, args: seq<Arg>, m: map<string, string>)
    requires c <= |qs| && qs[c..] == ArgTexts(args) && forall i | 0 <= i < |args| :: GoodArg(args[i])
    ensures Args(qs, c, m) == ArgMap(args, m)
    decreases |args|
  {
    if args != [] && c < |qs| {
      var a := args[0];
      var rest := (if |args| == 1 then "" else "&") + ArgTexts(args[1..]);
      assert qs[c..] == ArgText(a) + rest;
      ArgEnds(qs, c, a, rest);
      FirstArg(qs, c, a, rest, m);
      var n := NextArg(qs, c);
      assert qs[n..] == qs[c..][n - c..] == ArgTexts(args[1..]);
      ArgsRead(qs, n, args[1..], WithArg(qs, c, m));
    } else if args != [] {
      NoArgs(args, m);
    }
  }

  lemma NoArgs(args: seq<Arg>, m: map<string, string>)
    requires args != [] && ArgTexts(args) == ""
    ensures ArgMap(args, m) == m
  {
    assert |args| == 1 && args[0] == Bare("");
  }

  /** And every query is made of some. */
  lemma {:induction false} AnyQuery(qs: string) returns (args: seq<Arg>)
    ensures args != [] && qs == ArgTexts(args) && forall i | 0 <= i < |args| :: GoodArg(args[i])
    decreases |qs|
  {
    var amp := Find(qs, 0, '&', '&');
    var a := AnyArg(qs[..amp]);
    if amp == |qs| {
      args := [a];
      assert qs[..amp] == qs && qs + "" + "" == qs;
    } else {
      var rest := AnyQuery(qs[amp + 1..]);
      args := [a] + rest;
      assert args[1..] == rest;
      assert qs == qs[..amp] + "&" + qs[amp + 1..];
    }
  }

  lemma AnyArg(text: string) returns (a: Arg)
    requires Without(text, '&')
    ensures ArgText(a) == text && GoodArg(a)
  {
    var k := Find(text, 0, '=', '=');
    if k == |text| {
      a := Bare(text);
    } else {
      a := Pair(text[..k], text[k + 1..]);
      assert text == text[..k] + "=" + text[k + 1..];
    }
  }

  lemma QueryFound(uri: string, path: string, qs: string)
    requires Without(path, '?') && uri == path + "?" + qs
    ensures Find(uri, 0, '?', '?') == |path| < |uri| && uri[..|path|] == path && uri[|path| + 1..] == qs
  {
    FindIs(uri, 0, '?', '?', |path|);
  }

  /** The uri is the part before the question mark, and what follows it are the arguments. */
  lemma UriRead(t: Top, path: string, args: seq<Arg>)
    requires Without(path, '?') && forall i | 0 <= i < |args| :: GoodArg(args[i])
    ensures t.queryUri == path + "?" + ArgTexts(args) ==> WithUri(t) == t.(uri := path, args := ArgMap(args, t.args))
    ensures t.queryUri == path ==> WithUri(t) == t.(uri := path)
  {
    if t.queryUri == path + "?" + ArgTexts(args) {
      QueryFound(t.queryUri, path, ArgTexts(args));
      var qs := t.queryUri[|path| + 1..];
      assert qs[0..] == qs;
      ArgsRead(qs, 0, args, t.args);
    } else if t.queryUri == path {
      FindIs(t.queryUri, 0, '?', '?', |path|);
    }
  }

  // ----- responses

  ghost predicate GoodResponse(q: Response, fields: seq<(string, string)>) {
    && GoodWord(q.line.version) && Tidy(q.line.word) && (forall i | 0 <= i < |q.line.word| :: q.line.word[i] as int != 0)
    && |ResponseLine(q.line)| + 2 <= 1023 && |EncodeResponse(q, fields)| <= MAX_INT
    && AllGood(fields) && Distinct(fields)
  }

  function ResponseLine(s: Status): string {
    s.version + " " + Signed(s.code) + " " + s.word
  }

  lemma StatusWords(s: Status)
    requires GoodWord(s.version) && Tidy(s.word)
    ensures var ln := ResponseLine(s);
            && NoLineEnd(ln) && Word(ln) == s.version && AfterWord(ln) == " " + Signed(s.code) + (" " + s.word)
            && Trimmed(AfterWord(AfterWord(ln))) == s.word
  {
    var code, third := Signed(s.code), " " + s.word;
    SignedSpelled(s.code, "");
    Spaced(s.version, code, s.word);
    WordOf(s.version, " " + code + third);
    WordAfterSpace(code, third);
    TrimmedOf(s.word);
  }

  lemma StatusRead(s: Status, behind: string)
    requires GoodWord(s.version) && Tidy(s.word) && (behind != "" ==> !IsDigit(behind[0]))
    ensures StatusLine(ResponseLine(s), behind) == s
  {
    StatusWords(s);
    SpacedNumber(s.code, " " + s.word, behind);
  }

  lemma ResponseText(q: Response, fields: seq<(string, string)>)
    requires GoodResponse(q, fields)
    ensures EncodeResponse(q, fields) == ResponseLine(q.line) + "\r\n" + Rest(fields, BodyOf(q.parts))
  {
    CStrWhole(q.line.version);
    CStrWhole(q.line.word);
  }

  lemma BehindLine(s: Status, rest: string, more: string)
    ensures var text := ResponseLine(s) + "\r\n" + rest + more;
            text[|ResponseLine(s)|..] == "\r\n" + rest + more
  {
  }

  lemma ResponseRoundTrip(q: Response, fields: seq<(string, string)>, more: string, copyBody: bool)
    requires GoodResponse(q, fields)
    ensures var text := EncodeResponse(q, fields) + more;
            var d := DecodeResponse(NEW_RESPONSE, text, copyBody);
            && d.0 == Complete && d.1.line == q.line
            && Received(fields, |BodyOf(q.parts)|, d.1.parts.headers) && BodyOf(d.1.parts) == BodyOf(q.parts)
            && d.1.parts.scanned == |EncodeResponse(q, fields)| && text[d.1.parts.scanned..] == more
  {
    ResponseText(q, fields);
    StatusWords(q.line);
    Core(ResponseLine(q.line), "\r\n", fields, BodyOf(q.parts), more, copyBody);
    ResponseLineRead(q, fields, more, copyBody);
  }

  lemma ResponseLineRead(q: Response, fields: seq<(string, string)>, more: string, copyBody: bool)
    requires GoodResponse(q, fields)
    requires EncodeResponse(q, fields) == ResponseLine(q.line) + "\r\n" + Rest(fields, BodyOf(q.parts))
    requires var d := Decode(CLEAR, EncodeResponse(q, fields) + more, copyBody); d.0 == Complete && d.2 == ResponseLine(q.line)
    ensures DecodeResponse(NEW_RESPONSE, EncodeResponse(q, fields) + more, copyBody).1.line == q.line
  {
    var rest := Rest(fields, BodyOf(q.parts));
    BehindLine(q.line, rest, more);
    StatusRead(q.line, "\r\n" + rest + more);
  }

  // ----- several requests

  datatype Sent = Sent(request: Request, fields: seq<(string, string)>)

  function TextOf(s: Sent): string {
    EncodeRequest(s.request, s.fields)
  }

  /** A decoded request is the one that was sent. */
  ghost predicate Same(d: Request, s: Sent) {
    && d.top == WithUri(NEW_TOP.(verb := s.request.top.verb, queryUri := s.request.top.queryUri, version := s.request.top.version))
    && BodyOf(d.parts) == BodyOf(s.request.parts) && Received(s.fields, |BodyOf(s.request.parts)|, d.parts.headers)
  }
}
