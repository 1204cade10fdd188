/** The moving windows of handy/slice.h, as the HTTP parser uses them. */
module Slices {
  predicate IsSpace(c: char) {
    c == ' ' || 9 <= c as int <= 13
  }

  predicate IsLineEnd(c: char) {
    c == '\n' || c == '\r'
  }

  datatype Kind = InSpace | InWord | InLine

  predicate Is(k: Kind, c: char) {
    match k
    case InSpace => IsSpace(c)
    case InWord => !IsSpace(c)
    case InLine => !IsLineEnd(c)
  }

  /** How many leading characters are of the kind. */
  function Run(s: string, k: Kind): (n: nat)
    ensures n <= |s| && (forall i | 0 <= i < n :: Is(k, s[i])) && (n < |s| ==> !Is(k, s[n]))
  {
    if s == [] || !Is(k, s[0]) then 0 else 1 + Run(s[1..], k)
  }

  lemma {:induction false} RunIs(s: string, k: Kind, n: nat)
    requires n <= |s| && (forall i | 0 <= i < n :: Is(k, s[i])) && (n < |s| ==> !Is(k, s[n]))
    ensures Run(s, k) == n
  {
    if n > 0 { RunIs(s[1..], k, n - 1); }
  }

  function Taken(s: string, k: Kind): string {
    s[..Run(s, k)]
  }

  function Left(s: string, k: Kind): string {
    s[Run(s, k)..]
  }

  function Line(s: string): string {
    Taken(s, InLine)
  }

  function AfterLine(s: string): string {
    Left(s, InLine)
  }

  function Word(s: string): string {
    Taken(Left(s, InSpace), InWord)
  }

  function AfterWord(s: string): string {
    Left(Left(s, InSpace), InWord)
  }

  /** Without the white space behind. */
  function StrippedEnd(s: string): string {
    if s == [] || !IsSpace(s[|s| - 1]) then s else StrippedEnd(s[..|s| - 1])
  }

  function Trimmed(s: string): string {
    StrippedEnd(Left(s, InSpace))
  }

  ghost predicate AllSpace(s: string) {
    forall i | 0 <= i < |s| :: IsSpace(s[i])
  }

  lemma {:induction false} StrippedEndIs(s: string) returns (behind: string)
    ensures s == StrippedEnd(s) + behind && AllSpace(behind)
    ensures StrippedEnd(s) != "" ==> !IsSpace(StrippedEnd(s)[|StrippedEnd(s)| - 1])
  {
    behind := "";
    if s != [] && IsSpace(s[|s| - 1]) {
      var rest := StrippedEndIs(s[..|s| - 1]);
      behind := rest + [s[|s| - 1]];
    }
  }

  /** What is left lies between white space, and neither begins nor ends in it. */
  lemma TrimmedIs(s: string) returns (before: string, behind: string)
    ensures s == before + Trimmed(s) + behind && AllSpace(before) && AllSpace(behind)
    ensures Trimmed(s) != "" ==> !IsSpace(Trimmed(s)[0]) && !IsSpace(Trimmed(s)[|Trimmed(s)| - 1])
  {
    before := Taken(s, InSpace);
    behind := StrippedEndIs(Left(s, InSpace));
    assert s == before + Left(s, InSpace);
    if Trimmed(s) != "" { assert Trimmed(s)[0] == Left(s, InSpace)[0]; }
  }

  lemma Split(mem: string, p: nat, q: nat, r: nat)
    requires p <= q <= r <= |mem|
    ensures mem[p..r][..q - p] == mem[p..q] && mem[p..r][q - p..] == mem[q..r]
  {
  }

  class Slice {
    const mem: string
    var pb: nat
    var pe: nat

    ghost predicate Valid()
      reads this
    {
      pb <= pe <= |mem|
    }

    ghost function View(): string
      requires Valid()
      reads this
    {
      mem[pb..pe]
    }

    constructor (mem: string, pb: nat, pe: nat)
      requires pb <= pe <= |mem|
      ensures Valid() && View() == mem[pb..pe]
    {
      this.mem, this.pb, this.pe := mem, pb, pe;
    }

    function Size(): nat
      requires Valid()
      reads this
    {
      pe - pb
    }

    function ToString(): string
      requires Valid()
      reads this
    {
      mem[pb..pe]
    }

    method Eat(n: nat)
      requires Valid() && n <= Size()
      modifies this
      ensures Valid() && View() == old(View())[n..]
    {
      pb := pb + n;
    }

    /** The loops of eatLine, eatWord and trimSpace that move forward over characters of one kind. */
    method Skip(from: nat, k: Kind) returns (to: nat)
      requires from <= pe <= |mem|
      ensures from <= to <= pe
      ensures mem[from..to] == Taken(mem[from..pe], k) && mem[to..pe] == Left(mem[from..pe], k)
    {
      to := from;
      while to < pe && Is(k, mem[to])
        invariant from <= to <= pe && forall i | from <= i < to :: Is(k, mem[i])
      {
        to := to + 1;
      }
      RunIs(mem[from..pe], k, to - from);
      Split(mem, from, to, pe);
    }

    method EatLine() returns (ln: Slice)
      requires Valid()
      modifies this
      ensures Valid() && ln.Valid() && fresh(ln)
      ensures ln.View() == Line(old(View())) && View() == AfterLine(old(View()))
    {
      var p := pb;
      pb := Skip(pb, InLine);
      ln := new Slice(mem, p, pb);
    }

    method EatWord() returns (word: Slice)
      requires Valid()
      modifies this
      ensures Valid() && word.Valid() && fresh(word)
      ensures word.View() == Word(old(View())) && View() == AfterWord(old(View()))
    {
      var b := Skip(pb, InSpace);
      var e := Skip(b, InWord);
      word := new Slice(mem, b, e);
      pb := e;
    }

    method TrimSpace()
      requires Valid()
      modifies this
      ensures Valid() && View() == Trimmed(old(View()))
    {
      pb := Skip(pb, InSpace);
      TrimEnd();
    }

    method TrimEnd()
      requires Valid()
      modifies this`pe
      ensures Valid() && View() == StrippedEnd(old(View()))
    {
      while pb < pe && IsSpace(mem[pe - 1])
        invariant pb <= pe <= |mem| && StrippedEnd(mem[pb..pe]) == StrippedEnd(old(View()))
      {
        Split(mem, pb, pe - 1, pe);
        pe := pe - 1;
      }
    }
  }
}
