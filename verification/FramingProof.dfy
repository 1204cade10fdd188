/** However a stream is cut into reads, the receiver delivers the same messages; and encoding, cutting
    and decoding gives back exactly the messages sent. */
module FramingProof {
  import opened Buffers
  import opened Framing

  // ----- byte order

  function Power(n: nat): nat {
    if n == 0 then 1 else 256 * Power(n - 1)
  }

  function Reversed<T>(s: seq<T>): (r: seq<T>)
    ensures |r| == |s|
  {
    if s == [] then [] else Reversed(s[1..]) + [s[0]]
  }

  lemma {:induction false} LoadStore(v: nat, n: nat)
    requires v < Power(n)
    ensures Load(Store(v, n)) == v
  {
    if n > 0 {
      LoadStore(v / 256, n - 1);
      assert Store(v, n)[1..] == Store(v / 256, n - 1);
    }
  }

  lemma {:induction false} ShiftedInBound(pv: seq<byte>)
    ensures ShiftedIn(pv) < Power(|pv|)
  {
    if pv != [] { ShiftedInBound(pv[..|pv| - 1]); }
  }

  lemma {:induction false} ReversedEnd<T>(s: seq<T>, x: T)
    ensures Reversed(s + [x]) == [x] + Reversed(s)
  {
    if s != [] {
      ReversedEnd(s[1..], x);
      assert (s + [x])[1..] == s[1..] + [x];
    } else {
      assert (s + [x])[1..] == [];
    }
  }

  lemma {:induction false} StoreShifted(pv: seq<byte>)
    ensures Store(ShiftedIn(pv), |pv|) == Reversed(pv)
  {
    if pv != [] {
      var front, last := pv[..|pv| - 1], pv[|pv| - 1];
      StoreShifted(front);
      ReversedEnd(front, last);
      assert front + [last] == pv;
      var v := ShiftedIn(front);
      assert (256 * v + last) % 256 == last && (256 * v + last) / 256 == v;
    }
  }

  lemma {:induction false} ShiftedReversed(pv: seq<byte>)
    ensures ShiftedIn(Reversed(pv)) == Load(pv)
  {
    if pv != [] {
      ShiftedReversed(pv[1..]);
      var r := Reversed(pv);
      assert r[..|r| - 1] == Reversed(pv[1..]);
    }
  }

  /** On the wire the most significant byte comes first, and swapping twice changes nothing: for the
      overloads of every width. */
  lemma HtoBeTwice(v: nat, n: nat)
    requires v < Power(n)
    ensures HtoBe(v, n) < Power(n) && HtoBe(HtoBe(v, n), n) == v
    ensures Store(HtoBe(v, n), n) == Reversed(Store(v, n))
  {
    ShiftedInBound(Store(v, n));
    StoreShifted(Store(v, n));
    ShiftedReversed(Store(v, n));
    LoadStore(v, n);
  }

  // ----- how lines end

  /** A line ends in `\n` or `\r\n`, neither of which belongs to the message. */
  lemma LineEndsEither(m: seq<byte>, more: seq<byte>)
    requires NEWLINE !in m && |m| < 0x7FFF_FFFE
    ensures Decode(Line, m + [RETURN, NEWLINE] + more) == (|m| + 2, Bytes(m))
    ensures m == [] || m[|m| - 1] != RETURN ==> Decode(Line, m + [NEWLINE] + more) == (|m| + 1, Bytes(m))
  {
    var long, short := m + [RETURN, NEWLINE] + more, m + [NEWLINE] + more;
    assert long[..|m| + 1] == m + [RETURN] && short[..|m|] == m && long[..|m|] == m;
    NewlineIs(long, |m| + 1);
    NewlineIs(short, |m|);
    ToInt32Small(|m| + 2);
    ToInt32Small(|m| + 1);
  }

  // ----- what is refused

  lemma {:induction false} StoreLoad(pv: seq<byte>)
    ensures Store(Load(pv), |pv|) == pv
  {
    if pv != [] {
      StoreLoad(pv[1..]);
      var v := Load(pv[1..]);
      assert (pv[0] + 256 * v) % 256 == pv[0] && (pv[0] + 256 * v) / 256 == v;
      assert pv == [pv[0]] + pv[1..];
    }
  }

  /** Four bytes, the most significant first, as a signed number. */
  function BigEndian(a: byte, b: byte, c: byte, d: byte): int {
    var v := 0x100_0000 * a + 0x1_0000 * b + 0x100 * c + d;
    if a < 128 then v else v - 0x1_0000_0000
  }

  lemma LengthFieldIs(data: seq<byte>)
    requires |data| >= 8
    ensures LengthField(data) == BigEndian(data[4], data[5], data[6], data[7])
  {
    var pv := data[4..8];
    var a: int, b: int, c: int, d: int := pv[0], pv[1], pv[2], pv[3];
    StoreLoad(pv);
    assert pv[..3][..2] == pv[..2] && pv[..2][..1] == pv[..1] && pv[..1][..0] == [];
    assert ShiftedIn(pv[..1]) == pv[0];
    assert ShiftedIn(pv[..2]) == 256 * a + b;
    assert ShiftedIn(pv[..3]) == 256 * (256 * a + b) + c;
    assert ShiftedIn(pv) == 256 * (256 * (256 * a + b) + c) + d;
  }

  /** A stream of length frames is refused exactly at a header that does not begin with `mBdT` or whose length is
      above 1 MiB or below -8; a stream of lines never. */
  lemma RefusedExactly(data: seq<byte>)
    requires |data| < 0x8000_0000
    ensures Decode(Line, data).0 >= 0
    ensures Decode(Length, data).0 < 0 <==>
            |data| >= 8 && (data[..4] != [109, 66, 100, 84]
                            || !(-8 <= BigEndian(data[4], data[5], data[6], data[7]) <= 0x10_0000))
  {
    ToInt32Small(|data|);
    if Newline(data) < |data| { ToInt32Small(Newline(data) + 1); }
    if |data| >= 8 { LengthFieldIs(data); }
  }

  ghost predicate Headed(data: seq<byte>, len: int) {
    |data| >= 8 && data[..4] == [109, 66, 100, 84] && BigEndian(data[4], data[5], data[6], data[7]) == len
  }

  lemma HeadedOn(data: seq<byte>, more: seq<byte>, len: int)
    requires Headed(data, len)
    ensures Headed(data + more, len) && LengthField(data + more) == len
  {
    assert (data + more)[..4] == data[..4];
    LengthFieldIs(data + more);
  }

  /** A length from -7 to -1 is answered with part of the header consumed and a slice that ends before it begins. */
  lemma NegativeLength(data: seq<byte>, len: int)
    requires |data| < 0x8000_0000 && Headed(data, len) && -8 < len < 0
    ensures Decode(Length, data) == (len + 8, Backwards(-len))
  {
    LengthFieldIs(data);
    ToInt32Small(|data|);
  }

  ghost predicate WaitsForEver(data: seq<byte>) {
    forall more: seq<byte> | |data + more| < 0x8000_0000 :: Decode(Length, data + more).0 == 0
  }

  /** Whatever comes, the codec waits for more, exactly if it has a header whose length is -8. */
  lemma WaitsForEverExactly(data: seq<byte>)
    requires 8 <= |data| < 0x4000_0000
    ensures WaitsForEver(data) <==> Headed(data, -8)
  {
    if Headed(data, -8) {
      forall more: seq<byte> | |data + more| < 0x8000_0000
        ensures Decode(Length, data + more).0 == 0
      {
        HeadedOn(data, more, -8);
        ToInt32Small(|data + more|);
      }
    } else {
      var more := EnoughBytes(data);
    }
  }

  lemma EnoughBytes(data: seq<byte>) returns (more: seq<byte>)
    requires 8 <= |data| < 0x4000_0000 && !Headed(data, -8)
    ensures |data + more| < 0x8000_0000 && Decode(Length, data + more).0 != 0
  {
    var len := BigEndian(data[4], data[5], data[6], data[7]);
    more := seq(if 0 <= len <= 0x10_0000 then len else 0, _ => 0);
    RefusedExactly(data + more);
    assert (data + more)[..4] == data[..4];
    if data[..4] == [109, 66, 100, 84] {
      HeadedOn(data, more, len);
      ToInt32Small(|data + more|);
    }
  }

  // ----- frames

  /** More bytes behind a frame, or behind a refused header, change nothing. */
  lemma FrameStable(c: Codec, data: seq<byte>, more: seq<byte>)
    ensures Frame(c, data).0 != 0 ==> Frame(c, data + more) == Frame(c, data)
  {
    var all := data + more;
    match c
    case Line =>
      var i := Newline(data);
      if i < |data| {
        NewlineIs(all, i);
        assert all[..i] == data[..i] && (i > 0 ==> all[..i - 1] == data[..i - 1]);
      }
    case Length =>
      if |data| >= 8 {
        assert all[4..8] == data[4..8] && all[..4] == data[..4];
        var len := LengthField(data);
        if 0 <= len && len + 8 <= |data| {
          assert all[8..8 + len] == data[8..8 + len];
        }
      }
  }

  lemma {:induction false} NewlineIs(data: seq<byte>, i: nat)
    requires i <= |data| && NEWLINE !in data[..i] && (i < |data| ==> data[i] == NEWLINE)
    ensures Newline(data) == i
  {
    if i > 0 {
      assert data[..i][0] == data[0] && data[..i][1..] == data[1..][..i - 1];
      NewlineIs(data[1..], i - 1);
    }
  }

  lemma {:induction false} ParseSettles(c: Codec, data: seq<byte>)
    ensures Parse(c, data).open ==> Frame(c, Parse(c, data).rest).0 == 0
    decreases |data|
  {
    var (r, msg) := Frame(c, data);
    if r > 0 { ParseSettles(c, data[r..]); }
  }

  lemma Behinds(s: Session, a: seq<Msg>, b: seq<Msg>)
    ensures s.Behind(b).Behind(a) == s.Behind(a + b) && s.Behind([]) == s
  {
    assert a + (b + s.delivered) == a + b + s.delivered && [] + s.delivered == s.delivered;
  }

  /** Parsing all is parsing the front, and then what that leaves with the rest. */
  ghost predicate SplitsAt(c: Codec, data: seq<byte>, more: seq<byte>) {
    var p := Parse(c, data);
    Parse(c, data + more).Like(if p.open then Parse(c, p.rest + more).Behind(p.delivered) else p)
  }

  lemma ParseTurn(c: Codec, data: seq<byte>, more: seq<byte>, r: nat, msg: Msg)
    requires Frame(c, data + more) == (r, msg) && 0 < r <= |data|
    ensures Parse(c, data + more) == Parse(c, data[r..] + more).Behind([msg])
  {
    assert (data + more)[r..] == data[r..] + more;
  }

  lemma LikeBehind(x: Session, p: Session, y: Session, first: seq<Msg>)
    requires x.Like(if p.open then y.Behind(p.delivered) else p)
    ensures x.Behind(first).Like(if p.open then y.Behind(p.Behind(first).delivered) else p.Behind(first))
  {
    Behinds(y, first, p.delivered);
  }

  lemma SplitsBehind(c: Codec, data: seq<byte>, more: seq<byte>, tail: seq<byte>, msg: Msg)
    requires Parse(c, data) == Parse(c, tail).Behind([msg])
    requires Parse(c, data + more) == Parse(c, tail + more).Behind([msg])
    requires SplitsAt(c, tail, more)
    ensures SplitsAt(c, data, more)
  {
    var q := Parse(c, tail);
    LikeBehind(Parse(c, tail + more), q, Parse(c, q.rest + more), [msg]);
  }

  /** A stream may be parsed in two parts, wherever they meet. */
  lemma {:induction false} ParseSplit(c: Codec, data: seq<byte>, more: seq<byte>)
    ensures SplitsAt(c, data, more)
    decreases |data|
  {
    var (r, msg) := Frame(c, data);
    FrameStable(c, data, more);
    if r > 0 {
      ParseSplit(c, data[r..], more);
      ParseTurn(c, data, more, r, msg);
      SplitsBehind(c, data, more, data[r..], msg);
    } else if r == 0 {
      Behinds(Parse(c, data + more), [], []);
    }
  }

  // ----- streams

  /** No line starts with byte 4, which the line codec takes for a message when nothing has followed yet. */
  ghost predicate Plain(c: Codec, data: seq<byte>) {
    c.Line? ==>
      && (data != [] ==> data[0] != END_OF_TRANSMISSION)
      && forall i | 0 < i < |data| :: data[i - 1] == NEWLINE ==> data[i] != END_OF_TRANSMISSION
  }

  /** What waits in the buffer when the decode loop starts never reaches 2 GiB. */
  ghost predicate Fits(c: Codec, s: Session, chunks: seq<seq<byte>>)
    decreases |chunks|
  {
    chunks != [] ==>
      && (s.open ==> |s.rest| + |chunks[0]| < 0x8000_0000)
      && Fits(c, Feed(c, s, chunks[0]), chunks[1..])
  }

  lemma PlainSuffix(c: Codec, data: seq<byte>, r: nat)
    requires Plain(c, data) && r <= |data| && (r > 0 && c.Line? ==> data[r - 1] == NEWLINE)
    ensures Plain(c, data[r..])
  {
    var d := data[r..];
    forall i | c.Line? && 0 < i < |d| && d[i - 1] == NEWLINE
      ensures d[i] != END_OF_TRANSMISSION
    {
      assert data[r + i - 1] == NEWLINE;
    }
  }

  lemma {:induction false} RestPlain(c: Codec, data: seq<byte>, more: seq<byte>)
    requires Plain(c, data + more) && Parse(c, data).open
    ensures Plain(c, Parse(c, data).rest + more)
    decreases |data|
  {
    var (r, msg) := Frame(c, data);
    if r > 0 {
      PlainSuffix(c, data + more, r);
      assert (data + more)[r..] == data[r..] + more;
      RestPlain(c, data[r..], more);
    }
  }

  lemma ToInt32Small(x: int)
    requires 0 <= x < 0x8000_0000
    ensures ToInt32(x) == x
  {
  }

  lemma {:induction false} LoopParses(c: Codec, data: seq<byte>)
    requires Plain(c, data) && |data| < 0x8000_0000
    ensures DecodeAll(c, data) == Parse(c, data)
    decreases |data|
  {
    ToInt32Small(|data|);
    if c.Line? && Newline(data) < |data| { ToInt32Small(Newline(data) + 1); }
    assert Decode(c, data) == Frame(c, data);
    var (r, msg) := Decode(c, data);
    if r > 0 {
      PlainSuffix(c, data, r);
      LoopParses(c, data[r..]);
    }
  }

  lemma {:induction false} ClosedStays(c: Codec, s: Session, chunks: seq<seq<byte>>)
    requires !s.open
    ensures FeedAll(c, s, chunks) == s
    decreases |chunks|
  {
    if chunks != [] { ClosedStays(c, s, chunks[1..]); }
  }

  lemma {:induction false} ChunksDoNotMatter(c: Codec, s: Session, chunks: seq<seq<byte>>)
    requires s.open && Frame(c, s.rest).0 == 0
    requires Fits(c, s, chunks) && Plain(c, s.rest + Join(chunks))
    ensures FeedAll(c, s, chunks).Like(Parse(c, s.rest + Join(chunks)).Behind(s.delivered))
    decreases |chunks|
  {
    if chunks == [] {
      assert s.rest + [] == s.rest && s.delivered + [] == s.delivered;
    } else {
      var data, more := s.rest + chunks[0], Join(chunks[1..]);
      assert s.rest + Join(chunks) == data + more;
      assert Plain(c, data) by {
        assert forall i | 0 <= i < |data| :: (data + more)[i] == data[i];
      }
      LoopParses(c, data);
      ParseSplit(c, data, more);
      var p, t := Parse(c, data), Feed(c, s, chunks[0]);
      if p.open {
        ParseSettles(c, data);
        RestPlain(c, data, more);
        ChunksDoNotMatter(c, t, chunks[1..]);
        Assoc(s.delivered, p.delivered, Parse(c, p.rest + more).delivered);
      } else {
        ClosedStays(c, t, chunks[1..]);
      }
    }
  }

  /** The receiver's session after any reads is the parse of the whole stream. */
  lemma ChunkIndependence(c: Codec, chunks: seq<seq<byte>>)
    requires Fits(c, START, chunks) && Plain(c, Join(chunks))
    ensures FeedAll(c, START, chunks).Like(Parse(c, Join(chunks)))
  {
    assert START.rest + Join(chunks) == Join(chunks);
    var p := Parse(c, Join(chunks));
    assert START.delivered + p.delivered == p.delivered;
    ChunksDoNotMatter(c, START, chunks);
  }

  // ----- messages

  /** What the codec can carry. */
  ghost predicate Good(c: Codec, m: seq<byte>) {
    match c
    case Line => NEWLINE !in m && (m != [] ==> m[0] != END_OF_TRANSMISSION)
    case Length => |m| <= MAX_MESSAGE
  }

  ghost predicate AllGood(c: Codec, ms: seq<seq<byte>>) {
    forall m | m in ms :: Good(c, m)
  }

  function EncodeAll(c: Codec, ms: seq<seq<byte>>): seq<byte> {
    if ms == [] then [] else Encode(c, ms[0]) + EncodeAll(c, ms[1..])
  }

  function Msgs(ms: seq<seq<byte>>): (r: seq<Msg>)
    ensures |r| == |ms|
  {
    if ms == [] then [] else [Bytes(ms[0])] + Msgs(ms[1..])
  }

  lemma LengthStored(n: nat)
    requires n < 0x8000_0000
    ensures ToInt32(HtoBe(Load(Store(HtoBe(n, 4), 4)), 4)) == n
  {
    assert Power(1) == 256 && Power(2) == 0x1_0000 && Power(3) == 0x100_0000 && Power(4) == 0x1_0000_0000;
    HtoBeTwice(n, 4);
    LoadStore(HtoBe(n, 4), 4);
  }

  lemma Slices(a: seq<byte>, b: seq<byte>, c: seq<byte>, d: seq<byte>)
    requires |a| == 4 && |b| == 4
    ensures var data := a + b + c + d;
            data[..4] == a && data[4..8] == b && data[8..8 + |c|] == c
  {
  }

  lemma LengthOnWire(m: seq<byte>, more: seq<byte>)
    requires |m| < 0x8000_0000
    ensures var data := Encode(Length, m) + more;
            data[..4] == MAGIC && LengthField(data) == |m| && data[8..8 + |m|] == m
  {
    var n := |m| % 0x1_0000_0000;
    assert n == |m|;
    LengthStored(n);
    Slices(MAGIC, Store(HtoBe(n, 4), 4), m, more);
  }

  lemma FrameOfEncoded(c: Codec, m: seq<byte>, more: seq<byte>)
    requires Good(c, m)
    ensures Frame(c, Encode(c, m) + more) == (|Encode(c, m)|, Bytes(m))
  {
    var data := Encode(c, m) + more;
    match c
    case Line =>
      assert data[..|m| + 1] == m + [RETURN];
      NewlineIs(data, |m| + 1);
      assert data[..|m|] == m;
    case Length =>
      LengthOnWire(m, more);
  }

  lemma UnfinishedFrame(c: Codec, m: seq<byte>, k: nat)
    requires Good(c, m) && k < |Encode(c, m)|
    ensures Frame(c, Encode(c, m)[..k]).0 == 0
  {
    var all := Encode(c, m);
    assert all[..k] + all[k..] == all && all + [] == all;
    FrameStable(c, all[..k], all[k..]);
    FrameOfEncoded(c, m, []);
  }

  lemma {:induction false} ParseEncoded(c: Codec, ms: seq<seq<byte>>, tail: seq<byte>)
    requires AllGood(c, ms)
    ensures Parse(c, EncodeAll(c, ms) + tail) == Parse(c, tail).Behind(Msgs(ms))
  {
    if ms == [] {
      assert [] + tail == tail;
      Behinds(Parse(c, tail), [], []);
    } else {
      var e := Encode(c, ms[0]);
      var rest := EncodeAll(c, ms[1..]) + tail;
      Assoc(e, EncodeAll(c, ms[1..]), tail);
      FrameOfEncoded(c, ms[0], rest);
      assert (e + rest)[|e|..] == rest;
      ParseEncoded(c, ms[1..], tail);
      Behinds(Parse(c, tail), [Bytes(ms[0])], Msgs(ms[1..]));
    }
  }

  lemma {:induction false} EncodedPlain(c: Codec, ms: seq<seq<byte>>, tail: seq<byte>)
    requires AllGood(c, ms) && Plain(c, tail)
    ensures Plain(c, EncodeAll(c, ms) + tail)
  {
    if ms == [] {
      assert [] + tail == tail;
    } else {
      var e := Encode(c, ms[0]);
      var rest := EncodeAll(c, ms[1..]) + tail;
      EncodedPlain(c, ms[1..], tail);
      Assoc(e, EncodeAll(c, ms[1..]), tail);
      var data := e + rest;
      assert data[0] == e[0] && Good(c, ms[0]);
      assert c.Line? ==> NEWLINE !in ms[0] + [RETURN];
      assert c.Line? ==> forall k | 0 <= k < |e| - 1 :: data[k] == (ms[0] + [RETURN])[k];
      forall i | c.Line? && 0 < i < |data| && data[i - 1] == NEWLINE
        ensures data[i] != END_OF_TRANSMISSION
      {
        assert i >= |e| ==> data[i] == rest[i - |e|];
        assert i > |e| ==> data[i - 1] == rest[i - |e| - 1];
      }
    }
  }

  lemma UnfinishedPlain(c: Codec, m: seq<byte>, k: nat)
    requires Good(c, m) && k < |Encode(c, m)|
    ensures Plain(c, Encode(c, m)[..k])
  {
    if c.Line? {
      assert Encode(c, m)[..k] == (m + [RETURN])[..k];
    }
  }

  /** Messages encoded one after the other, the last perhaps cut short, and read in any chunks: exactly
      those messages are delivered, in order, and exactly the cut tail is left. */
  lemma RoundTrip(c: Codec, ms: seq<seq<byte>>, m: seq<byte>, k: nat, chunks: seq<seq<byte>>)
    requires AllGood(c, ms) && Good(c, m) && k < |Encode(c, m)|
    requires Join(chunks) == EncodeAll(c, ms) + Encode(c, m)[..k]
    requires Fits(c, START, chunks)
    ensures FeedAll(c, START, chunks) == Session(Msgs(ms), Encode(c, m)[..k], true)
  {
    var tail := Encode(c, m)[..k];
    UnfinishedPlain(c, m, k);
    EncodedPlain(c, ms, tail);
    ChunkIndependence(c, chunks);
    ParseEncoded(c, ms, tail);
    UnfinishedFrame(c, m, k);
    assert Msgs(ms) + [] == Msgs(ms);
  }

  // ----- exactly which messages survive every chunking

  ghost predicate Survives(c: Codec, ms: seq<seq<byte>>) {
    forall chunks: seq<seq<byte>> | Join(chunks) == EncodeAll(c, ms) ::
      FeedAll(c, START, chunks) == Session(Msgs(ms), [], true)
  }

  lemma {:induction false} RestShrinks(c: Codec, data: seq<byte>)
    ensures |DecodeAll(c, data).rest| <= |data|
    decreases |data|
  {
    var r := Decode(c, data).0;
    if r > 0 { RestShrinks(c, data[r..]); }
  }

  lemma {:induction false} SmallFits(c: Codec, s: Session, chunks: seq<seq<byte>>)
    requires |s.rest| + |Join(chunks)| < 0x8000_0000
    ensures Fits(c, s, chunks)
    decreases |chunks|
  {
    if chunks != [] {
      RestShrinks(c, s.rest + chunks[0]);
      SmallFits(c, Feed(c, s, chunks[0]), chunks[1..]);
    }
  }

  lemma {:induction false} FeedBehind(c: Codec, s: Session, earlier: seq<Msg>, chunks: seq<seq<byte>>)
    ensures FeedAll(c, s.Behind(earlier), chunks) == FeedAll(c, s, chunks).Behind(earlier)
    decreases |chunks|
  {
    if chunks != [] {
      Assoc(earlier, s.delivered, DecodeAll(c, s.rest + chunks[0]).delivered);
      FeedBehind(c, Feed(c, s, chunks[0]), earlier, chunks[1..]);
    }
  }

  /** Read in one piece. */
  lemma OneChunk(c: Codec, data: seq<byte>)
    ensures Join([data]) == data && FeedAll(c, START, [data]) == DecodeAll(c, data)
  {
    assert data + [] == data && [] + data == data;
    var d := DecodeAll(c, data);
    assert [] + d.delivered == d.delivered;
    assert FeedAll(c, START, [data]) == FeedAll(c, Feed(c, START, data), []);
  }

  lemma TwoChunks(c: Codec, a: seq<byte>, b: seq<byte>)
    requires DecodeAll(c, a).rest == [] && DecodeAll(c, a).open
    ensures Join([a, b]) == a + b
    ensures FeedAll(c, START, [a, b]) == DecodeAll(c, b).Behind(DecodeAll(c, a).delivered)
  {
    OneChunk(c, a);
    OneChunk(c, b);
    assert [a, b][1..] == [b];
    FeedBehind(c, START, DecodeAll(c, a).delivered, [b]);
    var p := DecodeAll(c, a).delivered;
    assert p + [] == p && [] + p == p && [] + a == a;
    assert Feed(c, START, a) == START.Behind(p);
  }

  lemma NoneInFirstLine(data: seq<byte>, m: seq<byte>)
    requires m <= data && |m| <= Newline(data)
    ensures NEWLINE !in m
  {
    assert m == data[..Newline(data)][..|m|];
  }

  lemma FirstSurvives(c: Codec, ms: seq<seq<byte>>)
    requires ms != [] && Survives(c, ms) && |EncodeAll(c, ms)| < 0x8000_0000
    ensures Good(c, ms[0])
  {
    var m, data, rest := ms[0], EncodeAll(c, ms), EncodeAll(c, ms[1..]);
    OneChunk(c, data);
    assert DecodeAll(c, data) == FeedAll(c, START, [data]);
    assert DecodeAll(c, data).delivered[0] == Decode(c, data).1;
    match c
    case Length =>
      LengthOnWire(m, rest);
    case Line =>
      NoneInFirstLine(data, m);
      if m != [] && m[0] == END_OF_TRANSMISSION {
        FourFirst(ms);
        LoneFour(ms);
      }
  }

  lemma LoneFourCounts(rest: seq<byte>)
    ensures |DecodeAll(Line, [RETURN, NEWLINE] + rest).delivered| == 1 + |DecodeAll(Line, rest).delivered|
    ensures |DecodeAll(Line, [END_OF_TRANSMISSION, RETURN, NEWLINE] + rest).delivered| ==
            1 + |DecodeAll(Line, rest).delivered|
  {
    var short, long := [RETURN, NEWLINE] + rest, [END_OF_TRANSMISSION, RETURN, NEWLINE] + rest;
    NewlineIs(short, 1);
    NewlineIs(long, 2);
    ToInt32Small(2);
    ToInt32Small(3);
    assert Decode(Line, short).0 == 2 && short[2..] == rest;
    assert Decode(Line, long).0 == 3 && long[3..] == rest;
    assert DecodeAll(Line, short) == DecodeAll(Line, rest).Behind([Decode(Line, short).1]);
    assert DecodeAll(Line, long) == DecodeAll(Line, rest).Behind([Decode(Line, long).1]);
  }

  lemma FourAlone(data: seq<byte>)
    requires data != [] && data[0] == END_OF_TRANSMISSION
    ensures Join([data[..1], data[1..]]) == data
    ensures FeedAll(Line, START, [data[..1], data[1..]]) == DecodeAll(Line, data[1..]).Behind([Bytes(data[..1])])
  {
    var four := data[..1];
    assert four == [END_OF_TRANSMISSION] && four[1..] == [];
    assert DecodeAll(Line, four) == Session([Bytes(four)], [], true);
    TwoChunks(Line, four, data[1..]);
    assert data == four + data[1..];
  }

  lemma FourFirst(ms: seq<seq<byte>>)
    requires ms != [] && ms[0] != [] && ms[0][0] == END_OF_TRANSMISSION && Survives(Line, ms)
    ensures ms[0] == [END_OF_TRANSMISSION]
  {
    var data := EncodeAll(Line, ms);
    FourAlone(data);
    var cut := FeedAll(Line, START, [data[..1], data[1..]]);
    assert cut.delivered[0] == Bytes(data[..1]);
  }

  lemma FourEncoded(rest: seq<byte>)
    ensures var data := Encode(Line, [END_OF_TRANSMISSION]) + rest;
            data == [END_OF_TRANSMISSION, RETURN, NEWLINE] + rest && data[1..] == [RETURN, NEWLINE] + rest
  {
    assert Encode(Line, [END_OF_TRANSMISSION]) == [END_OF_TRANSMISSION, RETURN, NEWLINE];
  }

  lemma CutAndWhole(rest: seq<byte>)
    ensures var data := [END_OF_TRANSMISSION, RETURN, NEWLINE] + rest;
            && Join([data]) == data && Join([data[..1], data[1..]]) == data
            && |FeedAll(Line, START, [data[..1], data[1..]]).delivered| == 2 + |DecodeAll(Line, rest).delivered|
            && |FeedAll(Line, START, [data]).delivered| == 1 + |DecodeAll(Line, rest).delivered|
  {
    FourEncoded(rest);
    var data := [END_OF_TRANSMISSION, RETURN, NEWLINE] + rest;
    FourAlone(data);
    OneChunk(Line, data);
    LoneFourCounts(rest);
  }

  /** Byte 4 read on its own is a message, and what follows it up to the line end is another. */
  lemma LoneFour(ms: seq<seq<byte>>)
    requires ms != [] && ms[0] == [END_OF_TRANSMISSION]
    ensures !Survives(Line, ms)
  {
    FourEncoded(EncodeAll(Line, ms[1..]));
    CutAndWhole(EncodeAll(Line, ms[1..]));
  }

  lemma FirstChunk(c: Codec, m: seq<byte>)
    requires Good(c, m) && |Encode(c, m)| < 0x8000_0000
    ensures Feed(c, START, Encode(c, m)) == START.Behind([Bytes(m)])
  {
    var e, first := Encode(c, m), [Bytes(m)];
    EncodedPlain(c, [m], []);
    ParseEncoded(c, [m], []);
    assert EncodeAll(c, [m]) + [] == e;
    LoopParses(c, e);
    assert Msgs([m]) == first && first + [] == first && [] + first == first && [] + e == e;
  }

  lemma TailSurvives(c: Codec, ms: seq<seq<byte>>, chunks: seq<seq<byte>>)
    requires ms != [] && Survives(c, ms) && Good(c, ms[0]) && |Encode(c, ms[0])| < 0x8000_0000
    requires Join(chunks) == EncodeAll(c, ms[1..])
    ensures FeedAll(c, START, chunks) == Session(Msgs(ms[1..]), [], true)
  {
    var all, first := [Encode(c, ms[0])] + chunks, [Bytes(ms[0])];
    FirstChunk(c, ms[0]);
    assert all[1..] == chunks && Join(all) == EncodeAll(c, ms);
    FeedBehind(c, START, first, chunks);
    var rest := FeedAll(c, START, chunks).delivered;
    assert (first + rest)[1..] == rest;
  }

  lemma {:induction false} OnlyGoodSurvive(c: Codec, ms: seq<seq<byte>>)
    requires Survives(c, ms) && |EncodeAll(c, ms)| < 0x8000_0000
    ensures AllGood(c, ms)
  {
    if ms != [] {
      FirstSurvives(c, ms);
      forall chunks: seq<seq<byte>> | Join(chunks) == EncodeAll(c, ms[1..])
        ensures FeedAll(c, START, chunks) == Session(Msgs(ms[1..]), [], true)
      {
        TailSurvives(c, ms, chunks);
      }
      OnlyGoodSurvive(c, ms[1..]);
    }
  }

  /** Every way of cutting the encoding into reads delivers exactly the messages, if and only if no
      message is one that the codec cannot carry. */
  lemma ExactlyTheGoodSurvive(c: Codec, ms: seq<seq<byte>>)
    requires |EncodeAll(c, ms)| < 0x8000_0000
    ensures Survives(c, ms) <==> AllGood(c, ms)
  {
    if Survives(c, ms) { OnlyGoodSurvive(c, ms); }
    if AllGood(c, ms) {
      forall chunks: seq<seq<byte>> | Join(chunks) == EncodeAll(c, ms)
        ensures FeedAll(c, START, chunks) == Session(Msgs(ms), [], true)
      {
        SmallFits(c, START, chunks);
        assert EncodeAll(c, ms) + Encode(c, [])[..0] == EncodeAll(c, ms);
        RoundTrip(c, ms, [], 0, chunks);
      }
    }
  }

  // ----- exactly which streams may be cut anywhere

  ghost predicate CutAnywhere(c: Codec, data: seq<byte>) {
    forall chunks: seq<seq<byte>> | Join(chunks) == data ::
      FeedAll(c, START, chunks).Like(Parse(c, data))
  }

  lemma {:induction false} WholeLines(data: seq<byte>)
    requires |data| < 0x8000_0000 && (data != [] ==> data[|data| - 1] == NEWLINE)
    ensures DecodeAll(Line, data) == Parse(Line, data)
    ensures Parse(Line, data).rest == [] && Parse(Line, data).open
    decreases |data|
  {
    if data != [] {
      var i := Newline(data);
      assert data[|data| - 1] in data;
      assert data[..|data|] == data;
      ToInt32Small(i + 1);
      WholeLines(data[i + 1..]);
    }
  }

  lemma {:induction false} LoopFindsNoFewer(data: seq<byte>)
    requires |data| < 0x8000_0000
    ensures |DecodeAll(Line, data).delivered| >= |Parse(Line, data).delivered|
    decreases |data|
  {
    var i := Newline(data);
    if i < |data| && data != [END_OF_TRANSMISSION] {
      ToInt32Small(i + 1);
      LoopFindsNoFewer(data[i + 1..]);
    } else if data == [END_OF_TRANSMISSION] {
      assert Newline(data[1..]) == 0 && Frame(Line, data).0 == 0;
    }
  }

  /** What follows a byte 4 that was read alone holds at least as many messages as byte and rest together. */
  lemma RestHoldsAsMany(rest: seq<byte>)
    requires |rest| + 1 < 0x8000_0000
    ensures |Parse(Line, [END_OF_TRANSMISSION] + rest).delivered| <= |DecodeAll(Line, rest).delivered|
  {
    var all := [END_OF_TRANSMISSION] + rest;
    assert all[1..] == rest;
    var j := Newline(rest);
    assert Newline(all) == j + 1;
    if j < |rest| {
      ToInt32Small(j + 1);
      assert all[j + 2..] == rest[j + 1..];
      assert Decode(Line, rest).0 == j + 1 && Frame(Line, all).0 == j + 2;
      LoopFindsNoFewer(rest[j + 1..]);
    }
  }

  lemma AfterLines(lines: seq<byte>, chunks: seq<seq<byte>>)
    requires |lines| < 0x8000_0000 && (lines != [] ==> lines[|lines| - 1] == NEWLINE)
    ensures FeedAll(Line, START, [lines] + chunks) ==
            FeedAll(Line, START, chunks).Behind(Parse(Line, lines).delivered)
  {
    WholeLines(lines);
    var earlier := Parse(Line, lines).delivered;
    FeedBehind(Line, START, earlier, chunks);
    assert [] + lines == lines && [] + earlier == earlier && earlier + [] == earlier;
    assert Feed(Line, START, lines) == START.Behind(earlier);
    assert ([lines] + chunks)[1..] == chunks;
  }

  lemma ParsedAfterLines(lines: seq<byte>, behind: seq<byte>)
    requires |lines| < 0x8000_0000 && (lines != [] ==> lines[|lines| - 1] == NEWLINE)
    ensures |Parse(Line, lines + behind).delivered| ==
            |Parse(Line, lines).delivered| + |Parse(Line, behind).delivered|
  {
    WholeLines(lines);
    ParseSplit(Line, lines, behind);
    assert [] + behind == behind;
  }

  /** With a byte 4 read alone, more messages come out than the stream holds. */
  lemma FourBehindLines(lines: seq<byte>, behind: seq<byte>, cut: seq<seq<byte>>)
    requires |lines| < 0x8000_0000 && (lines != [] ==> lines[|lines| - 1] == NEWLINE)
    requires 0 < |behind| < 0x8000_0000 && behind[0] == END_OF_TRANSMISSION && cut == [behind[..1], behind[1..]]
    ensures Join(cut) == behind
    ensures |FeedAll(Line, START, [lines] + cut).delivered| > |Parse(Line, lines + behind).delivered|
  {
    AfterLines(lines, cut);
    ParsedAfterLines(lines, behind);
    FourAlone(behind);
    RestHoldsAsMany(behind[1..]);
    assert behind == [END_OF_TRANSMISSION] + behind[1..];
  }

  /** A line that starts with byte 4 shows where its stream was cut. */
  lemma CutShows(lines: seq<byte>, behind: seq<byte>)
    requires |lines| < 0x8000_0000 && (lines != [] ==> lines[|lines| - 1] == NEWLINE)
    requires 0 < |behind| < 0x8000_0000 && behind[0] == END_OF_TRANSMISSION
    ensures !CutAnywhere(Line, lines + behind)
  {
    var cut := [behind[..1], behind[1..]];
    FourBehindLines(lines, behind, cut);
    var all := [lines] + cut;
    assert all[1..] == cut && Join(all) == lines + Join(cut);
  }

  /** How a stream is cut into reads never matters, if and only if no line of it starts with byte 4. */
  lemma CutAnywhereExactlyIfPlain(c: Codec, data: seq<byte>)
    requires |data| < 0x8000_0000
    ensures CutAnywhere(c, data) <==> Plain(c, data)
  {
    if Plain(c, data) {
      forall chunks: seq<seq<byte>> | Join(chunks) == data
        ensures FeedAll(c, START, chunks).Like(Parse(c, data))
      {
        SmallFits(c, START, chunks);
        ChunkIndependence(c, chunks);
      }
    } else {
      var i :| 0 <= i < |data| && data[i] == END_OF_TRANSMISSION && (i > 0 ==> data[i - 1] == NEWLINE);
      assert data[..i] + data[i..] == data;
      CutShows(data[..i], data[i..]);
    }
  }
}
