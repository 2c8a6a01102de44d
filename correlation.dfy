/** Matching received reports to the command that asked for them
    (tsip::is_report_found and its copy gps_api::is_report_found) and the
    bounded receive loop of tsip::get_report_msg, as functions over the
    decoder state and the bytes still to be read. */
module Correlation {
  import opened Protocol
  import opened Framing
  import opened Reports
  import opened Requests

  /** Reference table: the report kinds a command waits for; an empty set
      means that the command expects no report at all. */
  function ExpectedReports(code: uint8, subcode: uint8): set<ReportKind> {
    if code == 0x1e || code == 0x1f || code == 0x25 then {SwVersion}
    else if code == 0x35 then {IoOptions}
    else if code == 0x37 then {EcefPositionS, EcefPositionD}
    else if code == 0x8e && subcode == 0xa2 then {UtcGpsTime}
    else if code == 0x8e && subcode == 0xab then {PrimaryTime}
    else if code == 0x8e && subcode == 0xac then {SecondaryTime}
    else {}
  }

  /** is_report_found: the switch on the command code (and, for 0x8E, on
      the subcode) over the freshness bits. */
  predicate IsReportFound(cmd: Command, updated: bv16)
    requires cmd.Valid()
    ensures ExpectedReports(cmd.Code(), cmd.Subcode()) == {} ==> !IsReportFound(cmd, updated)

  {
    var code := cmd.Code();
    if code == COMMAND_COLD_FACTORY_RESET then Fresh(updated, SwVersion)
    else if code == COMMAND_REQUEST_SW_VERSION then Fresh(updated, SwVersion)
    else if code == COMMAND_WARM_RESET_SELF_TEST then Fresh(updated, SwVersion)
    else if code == COMMAND_SET_IO_OPTIONS then Fresh(updated, IoOptions)
    else if code == COMMAND_REQUEST_POSITION then
      Fresh(updated, EcefPositionS) && Fresh(updated, EcefPositionD)
    else if code == COMMAND_SUPER_PACKET then
      var subcode := cmd.Subcode();
      if subcode == REPORT_SUPER_UTC_GPS_TIME then Fresh(updated, UtcGpsTime)
      else if subcode == REPORT_SUPER_PRIMARY_TIME then Fresh(updated, PrimaryTime)
      else if subcode == REPORT_SUPER_SECONDARY_TIME then Fresh(updated, SecondaryTime)
      else false
    else false
  }

  /** A command is answered exactly when it expects some report and every
      report it expects is fresh. */
  lemma IsReportFoundMeaning(cmd: Command, updated: bv16)
    requires cmd.Valid()
    ensures IsReportFound(cmd, updated) <==>
      (ExpectedReports(cmd.Code(), cmd.Subcode()) != {}
       && forall k :: k in ExpectedReports(cmd.Code(), cmd.Subcode()) ==> Fresh(updated, k))
  {
    var code, subcode := cmd.Code(), cmd.Subcode();
    var e := ExpectedReports(code, subcode);
    if code == 0x1e || code == 0x1f || code == 0x25 {
      assert e == {SwVersion};
    } else if code == 0x35 {
      assert e == {IoOptions};
    } else if code == 0x37 {
      assert e == {EcefPositionS, EcefPositionD};
    } else if code == 0x8e && subcode in {0xa2, 0xab, 0xac} {
      assert e == {KindOfSub(subcode)};
    } else {
      assert e == {};
    }
  }

  /** With every freshness bit clear (after init_rpt) no command is answered. */
  lemma NothingFoundWhenCleared(cmd: Command, updated: bv16)
    requires cmd.Valid() && updated & 0x87ff == 0
    ensures !IsReportFound(cmd, updated)
  {
    IsReportFoundMeaning(cmd, updated);
    var e := ExpectedReports(cmd.Code(), cmd.Subcode());
    if e != {} {
      var k :| k in e;
      assert Bit(k) & 0x87ff == Bit(k);
      assert !Fresh(updated, k);
    }
  }

  /** A report only ever adds freshness: once a command is answered, later
      packets leave it answered. */
  lemma FoundIsStable(cmd: Command, s: Store, raw: seq<uint8>)
    requires cmd.Valid() && |raw| == MAX_DATA
    requires IsReportFound(cmd, s.updated)
    ensures IsReportFound(cmd, Dispatch(s, raw).updated)
  {
    IsReportFoundMeaning(cmd, s.updated);
    IsReportFoundMeaning(cmd, Dispatch(s, raw).updated);
    DispatchFreshness(s, raw);
  }

  /** A packet answers a command that was not yet answered only if it is
      of a kind the command waits for. */
  lemma AnsweredOnlyByExpected(cmd: Command, s: Store, raw: seq<uint8>)
    requires cmd.Valid() && |raw| == MAX_DATA
    requires !IsReportFound(cmd, s.updated) && IsReportFound(cmd, Dispatch(s, raw).updated)
    ensures ExpectedReports(cmd.Code(), cmd.Subcode()) * DispatchedKinds(raw[0], raw[1]) != {}
  {
    IsReportFoundMeaning(cmd, s.updated);
    IsReportFoundMeaning(cmd, Dispatch(s, raw).updated);
    DispatchFreshness(s, raw);
    var e := ExpectedReports(cmd.Code(), cmd.Subcode());
    var k :| k in e && !Fresh(s.updated, k);
    assert k in DispatchedKinds(raw[0], raw[1]);
  }

  /** The receive side of a tsip object: framer and report store. */
  datatype Decoder = Decoder(framer: Framer, store: Store) {
    ghost predicate Valid() {
      framer.Valid()
    }
  }

  /** init_rpt: START, empty and zeroed buffer, no freshness bit and no valid
      flag; the report fields keep their last values. */
  function Cleared(d: Decoder): (r: Decoder)
    ensures r.Valid() && r.framer.state == Start && r.framer.len == 0
    ensures forall i :: 0 <= i < |r.framer.raw| ==> r.framer.raw[i] == 0
    ensures r.store == ClearFlags(d.store)
  {
    Decoder(Framer(Start, seq(MAX_DATA, _ => 0), 0), ClearFlags(d.store))
  }

  datatype DecodeResult = DecodeResult(decoder: Decoder, rc: int)

  /** encode(c): one framer step, and on DLE ETX the report update, whose
      return value 1 is passed back; every other call returns 0. */
  function DecodeStep(d: Decoder, c: uint8): (r: DecodeResult)
    requires d.Valid()
    ensures r.decoder.Valid() && r.decoder.framer == Step(d.framer, c).next
    ensures r.rc == 1 <==> d.framer.state == DataDle && c == ETX
    ensures r.rc == 0 || r.rc == 1
    ensures r.rc == 0 ==> r.decoder.store == d.store
    ensures r.rc == 1 ==> r.decoder.store == Dispatch(d.store, d.framer.raw)
  {
    var s := Step(d.framer, c);
    if s.complete then DecodeResult(Decoder(s.next, Dispatch(d.store, s.next.raw)), 1)
    else DecodeResult(Decoder(s.next, d.store), 0)
  }

  /** The outcome of the inner pump loop `while (rc == 0) rc = encode(getc())`:
      a completed packet and the unread rest, or the input ran out first. */
  datatype Pumped = Packet(decoder: Decoder, rest: seq<uint8>) | Drained(decoder: Decoder)

  function NextPacket(d: Decoder, input: seq<uint8>): (r: Pumped)
    requires d.Valid()
    ensures r.decoder.Valid()
    ensures r.Packet? ==> |r.rest| < |input| && r.rest == input[|input| - |r.rest|..]
    ensures r.Drained? ==> r.decoder.store == d.store
    decreases |input|
  {
    if input == [] then Drained(d)
    else
      var s := DecodeStep(d, input[0]);
      if s.rc != 0 then Packet(s.decoder, input[1..])
      else NextPacket(s.decoder, input[1..])
  }

  /** Bytes that complete no packet only move the framer along. */
  lemma {:induction false} NextPacketSkips(d: Decoder, a: seq<uint8>, b: seq<uint8>)
    requires d.Valid()
    requires forall i :: 0 <= i < |a| ==> !Feed(d.framer, a).outs[i]
    ensures NextPacket(d, a + b) == NextPacket(Decoder(Feed(d.framer, a).framer, d.store), b)
    decreases |a|
  {
    if a == [] {
      assert a + b == b;
    } else {
      var s := DecodeStep(d, a[0]);
      var r := Feed(d.framer, a);
      assert r.outs[0] == Step(d.framer, a[0]).complete;
      assert (a + b)[0] == a[0] && (a + b)[1..] == a[1..] + b;
      assert Feed(s.decoder.framer, a[1..]).outs == r.outs[1..];
      NextPacketSkips(s.decoder, a[1..], b);
    }
  }

  /** A well-formed frame, after noise without DLE, is read as one packet:
      the framer holds the payload, is back in START, and the store is
      updated from it; the bytes after the frame are left unread. */
  lemma NextPacketOfFrame(d: Decoder, noise: seq<uint8>, p: seq<uint8>, rest: seq<uint8>)
    requires d.Valid() && d.framer.state == Start
    requires forall i :: 0 <= i < |noise| ==> noise[i] != DLE
    requires 1 <= |p| <= MAX_DATA && p[0] != DLE && p[0] != ETX
    ensures var r := NextPacket(d, noise + FrameOf(p) + rest);
      r.Packet? && r.rest == rest
      && r.decoder.framer.state == Start && r.decoder.framer.len == |p|
      && r.decoder.framer.raw[..|p|] == p
      && r.decoder.store == Dispatch(d.store, r.decoder.framer.raw)
  {
    var n := |Stuff(p)| + 2;
    var body := [DLE] + Stuff(p) + [DLE];
    assert FrameOf(p) == body + [ETX];
    FrameRoundTrip(d.framer, p);
    FeedConcat(d.framer, body, [ETX]);
    var g := Feed(d.framer, body).framer;
    FeedOne(g, ETX);
    var outs := Feed(d.framer, body).outs;
    assert outs + [Step(g, ETX).complete] == Falses(n) + [true];
    assert outs == (outs + [true])[..n] == (Falses(n) + [true])[..n];
    NoiseSkipped(d.framer, noise);
    assert noise + FrameOf(p) + rest == (noise + body) + ([ETX] + rest);
    FeedConcat(d.framer, noise, body);
    NextPacketSkips(d, noise + body, [ETX] + rest);
    assert ([ETX] + rest)[1..] == rest;
  }

  /** How the outer loop of get_report_msg ends: with the packet count
      loop_cnt and the unread input, or because the input ran out while a
      packet was still incomplete (where the source blocks in getc). */
  datatype Outcome =
    | Finished(decoder: Decoder, rest: seq<uint8>, packets: nat)
    | Starved(decoder: Decoder, packets: nat)
  {
    function Final(): Decoder {
      match this
      case Finished(d, _, _) => d
      case Starved(d, _) => d
    }
  }

  /** The outer loop `while (!is_report_found(cmd))` from loop_cnt == count:
      one packet per round, leaving as soon as loop_cnt exceeds 20. */
  function Correlate(d: Decoder, input: seq<uint8>, cmd: Command, count: nat): (o: Outcome)
    requires d.Valid() && cmd.Valid() && count <= 20
    ensures o.Final().Valid()
    ensures o.Finished? ==> count <= o.packets <= 21
    ensures o.Finished? && o.packets <= 20 ==> IsReportFound(cmd, o.decoder.store.updated)
    ensures o.Starved? ==> !IsReportFound(cmd, o.decoder.store.updated)
    decreases |input|
  {
    if IsReportFound(cmd, d.store.updated) then Finished(d, input, count)
    else
      match NextPacket(d, input)
      case Drained(d') => Starved(d', count)
      case Packet(d', rest) =>
        if count + 1 > 20 then Finished(d', rest, count + 1)
        else Correlate(d', rest, cmd, count + 1)
  }

  /** The loop reads at most 21 packets in all, stops early only on an
      answered command, and runs out of input only unanswered. */
  lemma {:induction false} CorrelateBounds(d: Decoder, input: seq<uint8>, cmd: Command, count: nat)
    requires d.Valid() && cmd.Valid() && count <= 20
    ensures var o := Correlate(d, input, cmd, count);
      (o.Finished? ==>
         count <= o.packets <= 21
         && (IsReportFound(cmd, o.decoder.store.updated) || o.packets == 21)
         && (IsReportFound(cmd, d.store.updated) || o.packets > count))
      && (o.Starved? ==> count <= o.packets <= 20 && !IsReportFound(cmd, o.decoder.store.updated))
    decreases |input|
  {
    if !IsReportFound(cmd, d.store.updated) {
      var np := NextPacket(d, input);
      if np.Packet? && count + 1 <= 20 {
        assert Correlate(d, input, cmd, count) == Correlate(np.decoder, np.rest, cmd, count + 1);
        CorrelateBounds(np.decoder, np.rest, cmd, count + 1);
      }
    }
  }

  /** From a cleared decoder, as get_report_msg starts, the loop reads at
      least one and at most 21 packets; fewer than 21 means the report was
      found. */
  lemma GetReportBounds(d: Decoder, input: seq<uint8>, cmd: Command)
    requires d.Valid() && cmd.Valid() && d.store.updated == 0
    ensures var o := Correlate(d, input, cmd, 0);
      (o.Finished? ==>
         1 <= o.packets <= 21 && (o.packets < 21 ==> IsReportFound(cmd, o.decoder.store.updated)))
      && (o.Starved? ==> !IsReportFound(cmd, o.decoder.store.updated))
  {
    NothingFoundWhenCleared(cmd, 0);
    CorrelateBounds(d, input, cmd, 0);
  }

  /** The unread input is always a suffix of what the loop was given. */
  lemma {:induction false} CorrelateConsumes(d: Decoder, input: seq<uint8>, cmd: Command, count: nat)
    requires d.Valid() && cmd.Valid() && count <= 20
    ensures var o := Correlate(d, input, cmd, count);
      o.Finished? ==> |o.rest| <= |input| && o.rest == input[|input| - |o.rest|..]
    decreases |input|
  {
    if !IsReportFound(cmd, d.store.updated) {
      var np := NextPacket(d, input);
      if np.Packet? && count + 1 <= 20 {
        var rest := np.rest;
        var o := Correlate(np.decoder, rest, cmd, count + 1);
        assert Correlate(d, input, cmd, count) == o;
        CorrelateConsumes(np.decoder, rest, cmd, count + 1);
        if o.Finished? {
          assert input[|input| - |rest|..][|rest| - |o.rest|..] == input[|input| - |o.rest|..];
        }
      }
    }
  }

  /** End to end: an 8F-AB reply (after noise without DLE) to an 8E-AB
      request decoded from a cleared state answers it with the first packet,
      and the primary time read is the one the device encoded. */
  lemma PrimaryTimeAnswered(d: Decoder, noise: seq<uint8>, t: PrimaryTimeReport, rest: seq<uint8>, cmd: Command)
    requires d.Valid() && d.framer.state == Start && d.store.updated == 0
    requires cmd.Valid() && cmd.Code() == COMMAND_SUPER_PACKET && cmd.Subcode() == REPORT_SUPER_PRIMARY_TIME
    requires forall i :: 0 <= i < |noise| ==> noise[i] != DLE
    ensures var p := [REPORT_SUPER, REPORT_SUPER_PRIMARY_TIME] + EncodePrimaryTime(t);
      var o := Correlate(d, noise + FrameOf(p) + rest, cmd, 0);
      o.Finished? && o.packets == 1 && o.rest == rest
      && IsReportFound(cmd, o.decoder.store.updated)
      && o.decoder.store.primaryTime == t
  {
    var p := [REPORT_SUPER, REPORT_SUPER_PRIMARY_TIME] + EncodePrimaryTime(t);
    NothingFoundWhenCleared(cmd, 0);
    NextPacketOfFrame(d, noise, p, rest);
    var d' := NextPacket(d, noise + FrameOf(p) + rest).decoder;
    var raw := d'.framer.raw;
    assert raw[..18] == p;
    assert raw[0] == REPORT_SUPER && raw[1] == REPORT_SUPER_PRIMARY_TIME;
    PrimaryTimeRoundTrip(t, raw);
    DispatchFreshness(d.store, raw);
    assert Fresh(d'.store.updated, PrimaryTime);
    assert Correlate(d', rest, cmd, 1) == Finished(d', rest, 1);
  }
}
