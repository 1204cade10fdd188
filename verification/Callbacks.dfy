/** How many texts a reader handles that takes one for each callback, when they arrive one after the other but
    cut into chunks of any kind. */
module Callbacks {
  function Join(chunks: seq<string>): string {
    if chunks == [] then "" else Join(chunks[..|chunks| - 1]) + chunks[|chunks| - 1]
  }

  /** How many of the texts are whole in a prefix of all of them. */
  function Whole(ts: seq<string>, length: nat): (n: nat)
    ensures n <= |ts|
  {
    if ts == [] then 0
    else if length < |Join(ts)| then Whole(ts[..|ts| - 1], length)
    else |ts|
  }

  /** Each callback handles one text, if there is a whole one it has not handled. */
  function Count(ts: seq<string>, chunks: seq<string>): (n: nat)
    ensures n <= |ts|
  {
    if chunks == [] then 0
    else
      var n := Count(ts, chunks[..|chunks| - 1]);
      if n < Whole(ts, |Join(chunks)|) then n + 1 else n
  }

  lemma {:induction false} JoinPrefix(ts: seq<string>, n: nat)
    requires n <= |ts|
    ensures Join(ts[..n]) <= Join(ts)
    decreases |ts|
  {
    if n < |ts| {
      JoinPrefix(ts[..|ts| - 1], n);
      assert ts[..|ts| - 1][..n] == ts[..n];
    } else {
      assert ts[..n] == ts;
    }
  }

  lemma {:induction false} WholeIs(ts: seq<string>, n: nat, length: nat)
    requires 0 < n <= |ts|
    ensures n <= Whole(ts, length) <==> |Join(ts[..n])| <= length
    decreases |ts|
  {
    JoinPrefix(ts, n);
    var front := ts[..|ts| - 1];
    if length < |Join(ts)| {
      if n < |ts| {
        WholeIs(front, n, length);
        assert front[..n] == ts[..n];
      } else {
        assert ts[..n] == ts;
      }
    }
  }

  lemma JoinNext(ts: seq<string>, n: nat)
    requires n < |ts|
    ensures Join(ts[..n + 1]) == Join(ts[..n]) + ts[n]
  {
    assert ts[..n + 1][..n] == ts[..n];
  }

  lemma BehindHead(head: string, text: string, input: string, all: string)
    requires head + text <= all && head + input <= all
    ensures if |text| <= |input| then text <= input else input <= text && input != text
  {
    assert forall i | 0 <= i < |text| :: text[i] == (head + text)[|head| + i] == all[|head| + i];
    assert forall i | 0 <= i < |input| :: input[i] == (head + input)[|head| + i] == all[|head| + i];
  }

  /** What is behind the first n texts in a prefix of all of them starts the next text, or is started by it. */
  lemma NextText(ts: seq<string>, n: nat, arrived: string, input: string)
    requires n < |ts| && arrived <= Join(ts) && Join(ts[..n]) + input == arrived
    ensures if n < Whole(ts, |arrived|) then ts[n] <= input else input <= ts[n] && input != ts[n]
  {
    JoinNext(ts, n);
    JoinPrefix(ts, n + 1);
    WholeIs(ts, n + 1, |arrived|);
    BehindHead(Join(ts[..n]), ts[n], input, Join(ts));
  }

  lemma NothingLeft(ts: seq<string>, arrived: string, input: string)
    requires arrived <= Join(ts) && Join(ts[..|ts|]) + input == arrived
    ensures input == ""
  {
    assert ts[..|ts|] == ts;
  }

  // ----- when all texts have been handled

  /** At every moment there are still as many callbacks to come as there are texts not yet whole. */
  ghost predicate EnoughCallbacks(ts: seq<string>, chunks: seq<string>, n: nat) {
    forall j | 0 <= j <= |chunks| :: n <= Whole(ts, |Join(chunks[..j])|) + (|chunks| - j)
  }

  lemma {:induction false} WholeGrows(ts: seq<string>, a: nat, b: nat)
    requires a <= b
    ensures Whole(ts, a) <= Whole(ts, b)
  {
    if ts != [] { WholeGrows(ts[..|ts| - 1], a, b); }
  }

  lemma {:induction false} CountBelow(ts: seq<string>, chunks: seq<string>)
    ensures Count(ts, chunks) <= Whole(ts, |Join(chunks)|)
    decreases |chunks|
  {
    if chunks != [] {
      var before := chunks[..|chunks| - 1];
      CountBelow(ts, before);
      WholeGrows(ts, |Join(before)|, |Join(chunks)|);
    }
  }

  lemma EnoughAt(ts: seq<string>, chunks: seq<string>, n: nat, j: nat)
    requires chunks != [] && n > 0 && j < |chunks|
    ensures var before := chunks[..|chunks| - 1];
            n <= Whole(ts, |Join(chunks[..j])|) + (|chunks| - j) <==>
            n - 1 <= Whole(ts, |Join(before[..j])|) + (|before| - j)
  {
    assert chunks[..|chunks| - 1][..j] == chunks[..j];
  }

  lemma EnoughNext(ts: seq<string>, chunks: seq<string>, n: nat)
    requires chunks != [] && n > 0
    ensures EnoughCallbacks(ts, chunks, n) <==>
            EnoughCallbacks(ts, chunks[..|chunks| - 1], n - 1) && n <= Whole(ts, |Join(chunks)|)
  {
    var before := chunks[..|chunks| - 1];
    assert chunks[..|chunks|] == chunks;
    forall j | 0 <= j < |chunks|
      ensures n <= Whole(ts, |Join(chunks[..j])|) + (|chunks| - j) <==>
              n - 1 <= Whole(ts, |Join(before[..j])|) + (|before| - j)
    {
      EnoughAt(ts, chunks, n, j);
    }
  }

  lemma {:induction false} CountReaches(ts: seq<string>, chunks: seq<string>, n: nat)
    requires Whole(ts, 0) == 0
    ensures n <= Count(ts, chunks) <==> EnoughCallbacks(ts, chunks, n)
    decreases |chunks|
  {
    if n > 0 {
      if chunks != [] {
        var before := chunks[..|chunks| - 1];
        EnoughNext(ts, chunks, n);
        CountReaches(ts, before, n - 1);
        CountBelow(ts, before);
        WholeGrows(ts, |Join(before)|, |Join(chunks)|);
      } else {
        assert chunks[..0] == chunks;
        assert Whole(ts, |Join(chunks[..0])|) == 0;
      }
    }
  }

  /** One burst, and then some more callbacks that bring nothing new. */
  function Burst(text: string, more: nat): seq<string> {
    if more == 0 then [text] else Burst(text, more - 1) + [""]
  }

  lemma {:induction false} BurstCount(ts: seq<string>, more: nat)
    requires ts != []
    ensures Join(Burst(Join(ts), more)) == Join(ts)
    ensures Count(ts, Burst(Join(ts), more)) == if more < |ts| then more + 1 else |ts|
  {
    var b := Burst(Join(ts), more);
    assert Whole(ts, |Join(ts)|) == |ts|;
    if more == 0 {
      assert b[..0] == [] && Join(b[..0]) + b[0] == Join(ts);
    } else {
      var c := Burst(Join(ts), more - 1);
      BurstCount(ts, more - 1);
      assert b[..|b| - 1] == c && Join(c) + "" == Join(c);
    }
  }
}
