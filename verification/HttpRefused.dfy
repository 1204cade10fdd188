/** Which messages the parser of handy/http.cc refuses: those with a header line that is no field, and requests
    whose uri does not begin with a slash. */
module HttpRefused {
  import opened Slices
  import opened Http
  import opened HttpMessages
  import opened HttpIncremental
  import opened HttpRoundTrip

  // ----- one line

  /** White space, a name without any and a colon, white space, a value, white space. */
  ghost predicate Parted(ln: string, a: string, name: string, b: string, value: string, c: string) {
    && ln == a + (name + ":" + (b + (value + c)))
    && AllSpace(a) && NoSpace(name) && AllSpace(b) && b != "" && AllSpace(c)
    && value != "" && !IsSpace(value[0]) && !IsSpace(value[|value| - 1])
  }

  ghost predicate IsField(ln: string) {
    exists a, name, b, value, c :: Parted(ln, a, name, b, value, c)
  }

  lemma RunOfSpace(s: string)
    ensures AllSpace(s) <==> Run(s, InSpace) == |s|
  {
    if AllSpace(s) { RunIs(s, InSpace, |s|); }
  }

  lemma {:induction false} StrippedOf(v: string, c: string)
    requires AllSpace(c) && (v != "" ==> !IsSpace(v[|v| - 1]))
    ensures StrippedEnd(v + c) == v
  {
    if c == "" {
      assert v + c == v;
    } else {
      assert (v + c)[..|v + c| - 1] == v + c[..|c| - 1];
      StrippedOf(v, c[..|c| - 1]);
    }
  }

  lemma PartedReads(ln: string, a: string, name: string, b: string, value: string, c: string)
    requires Parted(ln, a, name, b, value, c)
    ensures Word(ln) == name + ":" && Trimmed(AfterWord(ln)) == value
  {
    var w, rest := name + ":", b + (value + c);
    RunOfSpace(a);
    SpacedRun(a, w + rest);
    assert !IsSpace(w[0]) && NoSpace(w);
    WordOf(w, rest);
    RunIs(w + rest, InSpace, 0);
    RunOfSpace(b);
    SpacedRun(b, value + c);
    RunIs(value + c, InSpace, 0);
    StrippedOf(value, c);
  }

  lemma ValueIn(rest: string) returns (b: string, c: string)
    requires Trimmed(rest) != "" && IsSpace(rest[0])
    ensures rest == b + (Trimmed(rest) + c) && AllSpace(b) && b != "" && AllSpace(c)
    ensures !IsSpace(Trimmed(rest)[0]) && !IsSpace(Trimmed(rest)[|Trimmed(rest)| - 1])
  {
    b, c := TrimmedIs(rest);
    assert rest == b + (Trimmed(rest) + c);
    assert (Trimmed(rest) + c)[0] == Trimmed(rest)[0];
  }

  lemma WordIn(ln: string)
    requires AfterWord(ln) != ""
    ensures ln == Taken(ln, InSpace) + (Word(ln) + AfterWord(ln)) && IsSpace(AfterWord(ln)[0])
    ensures AllSpace(Taken(ln, InSpace)) && NoSpace(Word(ln))
  {
    assert ln == Taken(ln, InSpace) + Left(ln, InSpace);
    assert Left(ln, InSpace) == Word(ln) + AfterWord(ln);
  }

  lemma ReadsParted(ln: string, k: string, rest: string)
    requires k == Word(ln) != "" && k[|k| - 1] == ':' && rest == AfterWord(ln) && Trimmed(rest) != "" && rest != ""
    ensures IsField(ln)
  {
    WordIn(ln);
    var b, c := ValueIn(rest);
    JoinParts(ln, Taken(ln, InSpace), k, b, Trimmed(rest), c);
  }

  lemma TrimmedNothing()
    ensures Trimmed("") == ""
  {
    RunIs("", InSpace, 0);
  }

  lemma JoinParts(ln: string, a: string, k: string, b: string, value: string, c: string)
    requires ln == a + (k + (b + (value + c))) && k != "" && k[|k| - 1] == ':'
    requires AllSpace(a) && NoSpace(k) && AllSpace(b) && b != "" && AllSpace(c)
    requires value != "" && !IsSpace(value[0]) && !IsSpace(value[|value| - 1])
    ensures IsField(ln)
  {
    var name := k[..|k| - 1];
    assert k == name + ":";
    assert Parted(ln, a, name, b, value, c);
  }

  /** A line is taken for a field exactly if it is one. */
  lemma FieldsAreRead(ln: string)
    ensures IsField(ln) <==>
            Word(ln) != "" && Trimmed(AfterWord(ln)) != "" && Word(ln)[|Word(ln)| - 1] == ':'
  {
    if IsField(ln) {
      var a, name, b, value, c :| Parted(ln, a, name, b, value, c);
      PartedReads(ln, a, name, b, value, c);
    } else if Word(ln) != "" && Trimmed(AfterWord(ln)) != "" && Word(ln)[|Word(ln)| - 1] == ':' {
      TrimmedNothing();
      ReadsParted(ln, Word(ln), AfterWord(ln));
    }
  }

  lemma BlankIsSpace(ln: string)
    ensures Word(ln) == "" && Trimmed(AfterWord(ln)) == "" <==> AllSpace(ln)
  {
    RunOfSpace(ln);
  }

  // ----- all lines

  /** Lines, each behind the end of the line before it. */
  function Lined(lines: seq<string>): string {
    if lines == [] then "" else "\r\n" + lines[0] + Lined(lines[1..])
  }

  /** Every line is a field, except that the last may be blank. */
  ghost predicate Fields(lines: seq<string>) {
    forall i | 0 <= i < |lines| :: IsField(lines[i]) || (i == |lines| - 1 && AllSpace(lines[i]))
  }

  lemma LineTurn(ln: string, rest: string)
    requires NoLineEnd(ln) && (rest != "" ==> IsLineEnd(rest[0]))
    ensures var t := HeaderLine("\r\n" + ln + rest);
            && (t.Field? <==> IsField(ln)) && (t.Field? ==> t.rest == rest)
            && (t.Stop? ==> (t.ok <==> AllSpace(ln) && rest == ""))
  {
    assert ("\r\n" + ln + rest)[2..] == ln + rest;
    LineOf(ln, rest);
    FieldsAreRead(ln);
    BlankIsSpace(ln);
  }

  lemma FieldsFirst(lines: seq<string>)
    requires lines != []
    ensures IsField(lines[0]) ==> (Fields(lines) <==> Fields(lines[1..]))
    ensures !IsField(lines[0]) ==> (Fields(lines) <==> |lines| == 1 && AllSpace(lines[0]))
  {
    var rest := lines[1..];
    assert forall i | 0 <= i < |rest| :: rest[i] == lines[i + 1];
    if IsField(lines[0]) && Fields(rest) {
      forall i | 0 <= i < |lines|
        ensures IsField(lines[i]) || (i == |lines| - 1 && AllSpace(lines[i]))
      {
        if i > 0 { assert lines[i] == rest[i - 1]; }
      }
    }
    if !IsField(lines[0]) && Fields(lines) { assert lines[0] in lines; }
  }

  /** The lines of a header are accepted exactly if they are fields. */
  lemma {:induction false} AcceptedExactly(lines: seq<string>, headers: map<string, string>)
    requires forall i | 0 <= i < |lines| :: NoLineEnd(lines[i])
    ensures Lines(Lined(lines), headers).0 <==> Fields(lines)
    decreases |lines|
  {
    if lines != [] {
      var ln, rest := lines[0], Lined(lines[1..]);
      LineTurn(ln, rest);
      FieldsFirst(lines);
      match HeaderLine(Lined(lines))
      case Field(more, key, value) => AcceptedExactly(lines[1..], headers[Lower(key) := value]);
      case Stop(_) =>
    }
  }

  // ----- messages

  lemma HeadLines(first: string, lines: seq<string>)
    requires NoLineEnd(first)
    ensures Line(first + Lined(lines)) == first && AfterLine(first + Lined(lines)) == Lined(lines)
  {
    LineOf(first, Lined(lines));
  }

  /** A request whose header has come is refused exactly if some line of it is no field, or its uri does not begin
      with a slash. (A negative length may also end in an exception.) */
  lemma RequestRefusedExactly(first: string, lines: seq<string>, text: string, copyBody: bool)
    requires first != "" && NoLineEnd(first) && forall i | 0 <= i < |lines| :: NoLineEnd(lines[i])
    requires var head := first + Lined(lines);
             Scan(text, 0) == |head| && head + TERMINATOR <= text
    ensures var r := DecodeRequest(NEW_REQUEST, text, copyBody).0;
            var uri := Word(AfterWord(first));
            r != Throws ==> (r == Error <==> !Fields(lines) || uri == "" || uri[0] != '/')
  {
    var head := first + Lined(lines);
    assert text[..|head|] == head;
    HeadLines(first, lines);
    AcceptedExactly(lines, map[]);
    DecodedOrRefused(text, copyBody, |head|);
  }

  lemma ResponseRefusedExactly(first: string, lines: seq<string>, text: string, copyBody: bool)
    requires first != "" && NoLineEnd(first) && forall i | 0 <= i < |lines| :: NoLineEnd(lines[i])
    requires var head := first + Lined(lines);
             Scan(text, 0) == |head| && head + TERMINATOR <= text
    ensures DecodeResponse(NEW_RESPONSE, text, copyBody).0 == Error <==> !Fields(lines)
  {
    var head := first + Lined(lines);
    assert text[..|head|] == head;
    HeadLines(first, lines);
    AcceptedExactly(lines, map[]);
    DecodedOrRefused(text, copyBody, |head|);
  }

  lemma DecodedOrRefused(buf: string, copyBody: bool, at: nat)
    requires at == Scan(buf, 0) > 0 && at + 4 <= |buf|
    ensures Decode(CLEAR, buf, copyBody).2 == Line(buf[..at])
    ensures Decode(CLEAR, buf, copyBody).0 == Error <==> !Lines(AfterLine(buf[..at]), map[]).0
  {
  }
}
