/** The receive side of TSIP framing: the four-state decoder of tsip::encode
    as a pure transition function over (state, report buffer, fill level),
    and what it does to whole byte streams. */
module Framing {
  import opened Protocol

  /** The decoder states of tsip.h, START = 1 to DATA_DLE = 4. */
  datatype State = Start | Frame | Data | DataDle {
    function Code(): (n: int)
      ensures 1 <= n <= 4
    {
      match this
      case Start => 1
      case Frame => 2
      case Data => 3
      case DataDle => 4
    }
  }

  /** The framer part of a tsip object: m_state, m_report.raw.data and
      m_report_length. */
  datatype Framer = Framer(state: State, raw: seq<uint8>, len: int) {
    ghost predicate Valid() {
      |raw| == MAX_DATA && 0 <= len <= MAX_DATA
    }
  }

  datatype StepResult = StepResult(next: Framer, complete: bool)

  /** Append one payload byte, or drop it when the buffer is full. */
  function Append(f: Framer, c: uint8): (g: Framer)
    requires f.Valid()
    ensures g.Valid() && g.state == f.state
    ensures f.len < MAX_DATA ==> g.len == f.len + 1 && g.raw == f.raw[f.len := c]
    ensures f.len == MAX_DATA ==> g == f
  {
    if f.len < MAX_DATA then f.(raw := f.raw[f.len := c], len := f.len + 1) else f
  }

  /** One call of encode(c), without the report update it triggers at the end
      of a frame; `complete` says that the call hands the buffer to
      update_report. */
  function Step(f: Framer, c: uint8): (r: StepResult)
    requires f.Valid()
    ensures r.next.Valid()
    ensures r.complete <==> f.state == DataDle && c == ETX
    ensures r.complete ==> r.next == f.(state := Start)
    ensures f.state == Start ==> r.next == if c == DLE then f.(state := Frame) else f
    ensures r.next.state != Frame <== f.state != Start
    ensures f.state != Frame ==> r.next.len >= f.len && r.next.raw[..f.len] == f.raw[..f.len]
    ensures f.state == Frame && (c == DLE || c == ETX) ==> r == StepResult(f.(state := Start), false)
    ensures f.state == DataDle && c != DLE && c != ETX ==> r == StepResult(f.(state := Start), false)
    ensures f.state == DataDle && c == DLE ==> r == StepResult(Append(f.(state := Data), DLE), false)
  {
    match f.state
    case Start =>
      StepResult(if c == DLE then f.(state := Frame) else f, false)
    case Frame =>
      if c == DLE || c == ETX then StepResult(f.(state := Start), false)
      else StepResult(Framer(Data, f.raw[0 := c], 1), false)
    case Data =>
      if c == DLE then StepResult(f.(state := DataDle), false)
      else StepResult(Append(f, c), false)
    case DataDle =>
      if c == DLE then StepResult(Append(f.(state := Data), c), false)
      else if c == ETX then StepResult(f.(state := Start), true)
      else StepResult(f.(state := Start), false)
  }

  datatype FeedResult = FeedResult(framer: Framer, outs: seq<bool>)

  /** Feed a byte sequence one call at a time; outs[i] says whether the i-th
      call completed a packet. */
  function Feed(f: Framer, cs: seq<uint8>): (r: FeedResult)
    requires f.Valid()
    ensures r.framer.Valid() && |r.outs| == |cs|
    decreases |cs|
  {
    if cs == [] then FeedResult(f, [])
    else
      var s := Step(f, cs[0]);
      var rest := Feed(s.next, cs[1..]);
      FeedResult(rest.framer, [s.complete] + rest.outs)
  }

  /** Feeding one byte is one step. */
  lemma FeedOne(f: Framer, c: uint8)
    requires f.Valid()
    ensures Feed(f, [c]) == FeedResult(Step(f, c).next, [Step(f, c).complete])
  {
    assert [c][1..] == [];
  }

  /** Feeding two bytes is two steps. */
  lemma FeedTwo(f: Framer, c: uint8, d: uint8)
    requires f.Valid()
    ensures var s := Step(f, c); var t := Step(s.next, d);
      Feed(f, [c, d]) == FeedResult(t.next, [s.complete, t.complete])
  {
    assert [c, d] == [c] + [d];
    FeedConcat(f, [c], [d]);
    FeedOne(f, c);
    FeedOne(Step(f, c).next, d);
  }

  lemma {:induction false} FeedConcat(f: Framer, a: seq<uint8>, b: seq<uint8>)
    requires f.Valid()
    ensures var ra := Feed(f, a); var rb := Feed(ra.framer, b);
      Feed(f, a + b) == FeedResult(rb.framer, ra.outs + rb.outs)
    decreases |a|
  {
    if a == [] {
      assert a + b == b;
    } else {
      var s := Step(f, a[0]);
      assert (a + b)[0] == a[0];
      assert (a + b)[1..] == a[1..] + b;
      FeedConcat(s.next, a[1..], b);
    }
  }

  /** n calls that complete nothing. */
  function Falses(n: nat): (s: seq<bool>)
    ensures |s| == n && forall i :: 0 <= i < n ==> !s[i]
  {
    seq(n, _ => false)
  }

  /** How the sender writes one payload byte: a DLE is doubled. */
  function StuffByte(b: uint8): (s: seq<uint8>)
    ensures 1 <= |s| <= 2 && s[0] == b && (|s| == 2 <==> b == DLE)
  {
    if b == DLE then [DLE, DLE] else [b]
  }

  lemma FalsesConcat(m: nat, n: nat)
    ensures Falses(m) + Falses(n) == Falses(m + n)
  {
  }

  /** The sender's byte stuffing: every DLE of the payload is doubled. */
  function Stuff(p: seq<uint8>): (s: seq<uint8>)
    ensures |s| >= |p|
    decreases |p|
  {
    if p == [] then [] else StuffByte(p[0]) + Stuff(p[1..])
  }

  /** In DATA, one stuffed payload byte is appended, completing nothing. */
  lemma StuffedByteAppended(f: Framer, b: uint8)
    requires f.Valid() && f.state == Data && f.len < MAX_DATA
    ensures Feed(f, StuffByte(b)) == FeedResult(Append(f, b), Falses(|StuffByte(b)|))
  {
    if b == DLE {
      FeedTwo(f, DLE, DLE);
    } else {
      FeedOne(f, b);
    }
  }

  lemma {:induction false} StuffConcat(a: seq<uint8>, b: seq<uint8>)
    ensures Stuff(a + b) == Stuff(a) + Stuff(b)
    decreases |a|
  {
    if a == [] {
      assert a + b == b;
    } else {
      assert (a + b)[0] == a[0];
      assert (a + b)[1..] == a[1..] + b;
      StuffConcat(a[1..], b);
    }
  }

  /** A payload without DLE is sent as it is. */
  lemma {:induction false} StuffNoDle(p: seq<uint8>)
    requires forall i :: 0 <= i < |p| ==> p[i] != DLE
    ensures Stuff(p) == p
    decreases |p|
  {
    if p != [] {
      StuffNoDle(p[1..]);
    }
  }

  /** Bytes before a frame that contain no DLE are skipped in START. */
  lemma {:induction false} NoiseSkipped(f: Framer, noise: seq<uint8>)
    requires f.Valid() && f.state == Start
    requires forall i :: 0 <= i < |noise| ==> noise[i] != DLE
    ensures Feed(f, noise) == FeedResult(f, Falses(|noise|))
    decreases |noise|
  {
    if noise != [] {
      NoiseSkipped(f, noise[1..]);
    }
  }

  /** In DATA, a stuffed run of payload bytes is appended to the buffer
      unstuffed, completing nothing. */
  lemma {:induction false} StuffedDataAppended(f: Framer, q: seq<uint8>)
    requires f.Valid() && f.state == Data && f.len + |q| <= MAX_DATA
    ensures var r := Feed(f, Stuff(q));
      r.framer.state == Data && r.framer.len == f.len + |q|
      && r.framer.raw[..r.framer.len] == f.raw[..f.len] + q
      && r.outs == Falses(|Stuff(q)|)
    decreases |q|
  {
    if q == [] {
      assert f.raw[..f.len] + q == f.raw[..f.len];
    } else {
      var head := StuffByte(q[0]);
      FeedConcat(f, head, Stuff(q[1..]));
      StuffedByteAppended(f, q[0]);
      var g := Append(f, q[0]);
      assert g.raw[..g.len] == f.raw[..f.len] + [q[0]];
      StuffedDataAppended(g, q[1..]);
      assert f.raw[..f.len] + [q[0]] + q[1..] == f.raw[..f.len] + q;
      FalsesConcat(|head|, |Stuff(q[1..])|);
    }
  }

  /** A packet framed for the wire: DLE, the stuffed packet, DLE ETX. */
  function FrameOf(p: seq<uint8>): (s: seq<uint8>)
    ensures |s| == |Stuff(p)| + 3 && s[0] == DLE && s[|s| - 2..] == [DLE, ETX]
  {
    [DLE] + Stuff(p) + [DLE, ETX]
  }

  /** From START, DLE and a first byte that is neither DLE nor ETX open a
      packet holding that byte. */
  lemma FrameOpens(f: Framer, b: uint8)
    requires f.Valid() && f.state == Start && b != DLE && b != ETX
    ensures Feed(f, [DLE, b]) == FeedResult(Framer(Data, f.raw[0 := b], 1), [false, false])
  {
    FeedTwo(f, DLE, b);
  }

  /** In DATA, DLE ETX closes the packet at its last byte. */
  lemma FrameCloses(g: Framer)
    requires g.Valid() && g.state == Data
    ensures Feed(g, [DLE, ETX]) == FeedResult(g.(state := Start), [false, true])
  {
    FeedTwo(g, DLE, ETX);
  }

  /** In DATA, a stuffed payload and DLE ETX append the payload and
      complete exactly at the last byte. */
  lemma PayloadFeeds(g: Framer, q: seq<uint8>)
    requires g.Valid() && g.state == Data && g.len + |q| <= MAX_DATA
    ensures var r := Feed(g, Stuff(q) + [DLE, ETX]);
      r.framer.state == Start && r.framer.len == g.len + |q|
      && r.framer.raw[..r.framer.len] == g.raw[..g.len] + q
      && r.outs == Falses(|Stuff(q)| + 1) + [true]
  {
    FeedConcat(g, Stuff(q), [DLE, ETX]);
    StuffedDataAppended(g, q);
    FrameCloses(Feed(g, Stuff(q)).framer);
    FalsesConcat(|Stuff(q)|, 1);
  }

  /** A frame whose first payload byte is not DLE: DLE, that byte, then
      the stuffed rest and DLE ETX. */
  lemma FrameOfSplit(p: seq<uint8>)
    requires 1 <= |p| && p[0] != DLE
    ensures FrameOf(p) == [DLE, p[0]] + (Stuff(p[1..]) + [DLE, ETX])
  {
    assert Stuff(p) == [p[0]] + Stuff(p[1..]);
  }

  /** Feeding a frame is opening it and then feeding the rest of it in
      DATA. */
  lemma FrameFeedsPayload(f: Framer, p: seq<uint8>)
    requires f.Valid() && f.state == Start
    requires 1 <= |p| && p[0] != DLE && p[0] != ETX
    ensures var q := Feed(Framer(Data, f.raw[0 := p[0]], 1), Stuff(p[1..]) + [DLE, ETX]);
      Feed(f, FrameOf(p)) == FeedResult(q.framer, [false, false] + q.outs)
  {
    FrameOfSplit(p);
    FeedConcat(f, [DLE, p[0]], Stuff(p[1..]) + [DLE, ETX]);
    FrameOpens(f, p[0]);
  }

  /** Unstuffing round trip: from START, FrameOf(p) leaves p at raw[0..|p|],
      returns to START, and completes exactly at its last byte. */
  lemma FrameRoundTrip(f: Framer, p: seq<uint8>)
    requires f.Valid() && f.state == Start
    requires 1 <= |p| <= MAX_DATA && p[0] != DLE && p[0] != ETX
    ensures var r := Feed(f, FrameOf(p));
      r.framer.state == Start && r.framer.len == |p| && r.framer.raw[..|p|] == p
      && r.outs == Falses(|Stuff(p)| + 2) + [true]
  {
    var g1 := Framer(Data, f.raw[0 := p[0]], 1);
    FrameFeedsPayload(f, p);
    PayloadFeeds(g1, p[1..]);
    assert g1.raw[..1] + p[1..] == p;
    var k := |Stuff(p[1..])|;
    assert |Stuff(p)| == k + 1;
    FalsesConcat(2, k + 1);
    assert [false, false] + (Falses(k + 1) + [true]) == (Falses(2) + Falses(k + 1)) + [true];
  }

  /** A stray DLE DLE sequence while a frame is opening puts the framer back
      in START; the next well-formed frame then decodes as if nothing had
      happened before it. */
  lemma MisframedRecovery(f: Framer, p: seq<uint8>)
    requires f.Valid() && f.state == Frame
    requires 1 <= |p| <= MAX_DATA && p[0] != DLE && p[0] != ETX
    ensures var r := Feed(f, [DLE] + FrameOf(p));
      r.framer.state == Start && r.framer.len == |p| && r.framer.raw[..|p|] == p
      && r.outs == [false] + Falses(|Stuff(p)| + 2) + [true]
  {
    FeedConcat(f, [DLE], FrameOf(p));
    FeedOne(f, DLE);
    FrameRoundTrip(f.(state := Start), p);
  }
}
