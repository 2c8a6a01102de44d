/** The hand-rolled 8F-AB reader that both copies of get_time share
    (gps_api::get_time and get_time in get_gps_time.h): write the A2 and AB
    requests, sync on 0x10 0x8F 0xAB, collect and unstuff the packet, check
    its length and flags, and start over from RETRY on any failure. */
module LegacyTime {
  import opened Protocol
  import opened Fields
  import opened Framing
  import opened Reports
  import opened Requests
  import opened Serial
  import opened TimeFields

  /** The two requests written at the top of every attempt, ETX included. */
  const UTC_REQUEST: seq<uint8> :=
    [DLE, COMMAND_SUPER_PACKET, REPORT_SUPER_UTC_GPS_TIME, 0x03, DLE, ETX]
  const PRIMARY_TIME_REQUEST: seq<uint8> :=
    [DLE, COMMAND_SUPER_PACKET, REPORT_SUPER_PRIMARY_TIME, 0x01, DLE, ETX]

  /** Unlike send_request_msg, these hand-built requests are complete
      frames: exactly what the protocol calls for. */
  lemma RequestsAreFrames()
    ensures UTC_REQUEST == CorrectedRequest([COMMAND_SUPER_PACKET, REPORT_SUPER_UTC_GPS_TIME, 0x03], 3)
    ensures PRIMARY_TIME_REQUEST == CorrectedRequest([COMMAND_SUPER_PACKET, REPORT_SUPER_PRIMARY_TIME, 0x01], 3)
  {
    CorrectedIsBufferWithoutDle([COMMAND_SUPER_PACKET, REPORT_SUPER_UTC_GPS_TIME, 0x03], 3);
    CorrectedIsBufferWithoutDle([COMMAND_SUPER_PACKET, REPORT_SUPER_PRIMARY_TIME, 0x01], 3);
  }

  /** The packet index at which collecting gives up: `if (i > 20) goto RETRY`. */
  const LONGEST_PACKET: nat := 20

  /** The length of an accepted packet, the leading 0xAB included. */
  const PACKET_LENGTH: nat := 17

  /** What is left of the input once a pass has read from its front. */
  ghost predicate SuffixOf(rest: seq<uint8>, input: seq<uint8>) {
    |rest| <= |input| && rest == input[|input| - |rest|..]
  }

  /** A suffix of a suffix is a suffix. */
  lemma SuffixOfSuffix(a: seq<uint8>, b: seq<uint8>, c: seq<uint8>)
    requires SuffixOf(b, a) && SuffixOf(c, b)
    ensures SuffixOf(c, a)
  {
    assert a[|a| - |b|..][|b| - |c|..] == a[|a| - |c|..];
  }

  /** A prefix of a prefix is a prefix. */
  lemma PrefixOfPrefix(buf: seq<uint8>, b: uint8, packet: seq<uint8>)
    requires |buf| + 1 <= |packet| && packet[..|buf| + 1] == buf + [b]
    ensures packet[..|buf|] == buf
  {
    assert packet[..|buf|] == packet[..|buf| + 1][..|buf|];
  }

  /** Regrouping a frame that follows some bytes and is followed by others. */
  lemma Regroup(head: seq<uint8>, sp: seq<uint8>, rest: seq<uint8>)
    ensures head + ([DLE] + sp + [DLE, ETX]) + rest == head + [DLE] + (sp + [DLE, ETX] + rest)
  {
  }

  /** The input after the first DLE, or None when there is none: the loop
      `while ((ch = getc(file)) != 0x10)`. */
  function AfterDle(input: seq<uint8>): (r: Option<seq<uint8>>)
    ensures r.Some? ==> |r.value| < |input| && SuffixOf(r.value, input)
    ensures r.Some? ==> input[|input| - |r.value| - 1] == DLE
    decreases |input|
  {
    if input == [] then None
    else if input[0] == DLE then Some(input[1..])
    else AfterDle(input[1..])
  }

  /** How collecting a packet ends: closed by 0x10 0x03, broken (too long,
      or 0x10 followed by another byte), or cut off by the end of input. */
  datatype Collected = Closed(packet: seq<uint8>, rest: seq<uint8>) | Broken(rest: seq<uint8>) | Cut

  /** The collecting loop from buffer[..i] == buf. */
  function Collect(buf: seq<uint8>, input: seq<uint8>): (r: Collected)
    requires |buf| <= LONGEST_PACKET + 1
    ensures r.Closed? ==> |r.rest| < |input| && SuffixOf(r.rest, input)
    ensures r.Broken? ==> SuffixOf(r.rest, input)
    decreases |input|
  {
    if |buf| > LONGEST_PACKET then Broken(input)
    else if input == [] then Cut
    else if input[0] != DLE then
      var r := Collect(buf + [input[0]], input[1..]);
      if r.Cut? then r else SuffixOfSuffix(input, input[1..], r.rest); r
    else if |input| == 1 then Cut
    else if input[1] == ETX then Closed(buf, input[2..])
    else if input[1] != DLE then Broken(input[2..])
    else
      var r := Collect(buf + [DLE], input[2..]);
      if r.Cut? then r else SuffixOfSuffix(input, input[2..], r.rest); r
  }

  /** A closed packet extends what was already collected and holds at most
      20 bytes. */
  lemma {:induction false} CollectedPacketBounds(buf: seq<uint8>, input: seq<uint8>)
    requires |buf| <= LONGEST_PACKET + 1
    ensures var r := Collect(buf, input);
      r.Closed? ==> |buf| <= |r.packet| <= LONGEST_PACKET && r.packet[..|buf|] == buf
    decreases |input|
  {
    var r := Collect(buf, input);
    if |buf| > LONGEST_PACKET || input == [] {
    } else if input[0] != DLE {
      CollectedPacketBounds(buf + [input[0]], input[1..]);
      if r.Closed? {
        PrefixOfPrefix(buf, input[0], r.packet);
      }
    } else if |input| == 1 || input[1] == ETX || input[1] != DLE {
    } else {
      CollectedPacketBounds(buf + [DLE], input[2..]);
      if r.Closed? {
        PrefixOfPrefix(buf, DLE, r.packet);
      }
    }
  }

  /** The acceptance checks: 17 bytes, and both low bits of buffer[9] set. */
  predicate Acceptable(packet: seq<uint8>) {
    |packet| == PACKET_LENGTH && packet[9] % 4 == 3
  }

  /** The fields read out of an accepted packet. */
  function ClockOf(packet: seq<uint8>): (c: Clock)
    requires |packet| == PACKET_LENGTH
    ensures c.year == Be16(packet[15], packet[16])
  {
    Clock(packet[15] as int * 256 + packet[16] as int, packet[14], packet[13], packet[12], packet[11], packet[10])
  }

  /** How one pass from RETRY ends. Running out of input stands for what
      the source does instead: it blocks in getc, or spins on EOF. */
  datatype Attempted = Accepted(clock: Clock, rest: seq<uint8>) | Retry(rest: seq<uint8>) | Exhausted

  /** The verdict on a collected packet: a closed packet is accepted when
      it passes the checks, anything else is retried or has run out. */
  function Judge(c: Collected): (r: Attempted)
    ensures r.Accepted? <==> c.Closed? && Acceptable(c.packet)
    ensures r.Exhausted? <==> c.Cut?
    ensures !c.Cut? ==> r.rest == c.rest
    ensures r.Accepted? ==> r.clock == ClockOf(c.packet)
  {
    match c
    case Cut => Exhausted
    case Broken(rest) => Retry(rest)
    case Closed(packet, rest) =>
      if Acceptable(packet) then Accepted(ClockOf(packet), rest) else Retry(rest)
  }

  /** A pass after the sync byte: 0x8F and 0xAB must follow, then the packet
      is collected and judged. */
  function AfterSync(s: seq<uint8>): (r: Attempted)
    ensures !r.Exhausted? ==> |r.rest| < |s| && SuffixOf(r.rest, s)
  {
    if s == [] then Exhausted
    else if s[0] != REPORT_SUPER then Retry(s[1..])
    else if |s| == 1 then Exhausted
    else if s[1] != REPORT_SUPER_PRIMARY_TIME then Retry(s[2..])
    else
      var r := Judge(Collect([REPORT_SUPER_PRIMARY_TIME], s[2..]));
      if r.Exhausted? then r else SuffixOfSuffix(s, s[2..], r.rest); r
  }

  /** One pass from RETRY over the bytes the device sends. */
  function Attempt(input: seq<uint8>): (r: Attempted)
    ensures !r.Exhausted? ==> |r.rest| < |input| && SuffixOf(r.rest, input)
  {
    match AfterDle(input)
    case None => Exhausted
    case Some(s) =>
      var r := AfterSync(s);
      if r.Exhausted? then r else SuffixOfSuffix(input, s, r.rest); r
  }

  /** The goto RETRY loop: attempts until one is accepted or the input runs
      out. */
  function Run(input: seq<uint8>): (r: Attempted)
    ensures !r.Retry?
    decreases |input|
  {
    match Attempt(input)
    case Retry(rest) => Run(rest)
    case other => other
  }

  /** The number of attempts Run makes, the last one included. */
  function Attempts(input: seq<uint8>): (n: nat)
    ensures n >= 1
    decreases |input|
  {
    match Attempt(input)
    case Retry(rest) => 1 + Attempts(rest)
    case _ => 1
  }

  /** Every attempt writes the A2 request and then the AB request, each of
      which may go out only in part. */
  ghost predicate RequestPairs(chunks: seq<seq<uint8>>)
    decreases |chunks|
  {
    chunks == []
    || (|chunks| >= 2 && chunks[0] <= UTC_REQUEST && chunks[1] <= PRIMARY_TIME_REQUEST
        && RequestPairs(chunks[2..]))
  }

  lemma {:induction false} RequestPairsAppend(chunks: seq<seq<uint8>>, utc: seq<uint8>, primary: seq<uint8>)
    requires RequestPairs(chunks) && utc <= UTC_REQUEST && primary <= PRIMARY_TIME_REQUEST
    ensures RequestPairs(chunks + [utc, primary])
    decreases |chunks|
  {
    if chunks == [] {
      assert ([] + [utc, primary])[2..] == [];
    } else {
      RequestPairsAppend(chunks[2..], utc, primary);
      assert (chunks + [utc, primary])[2..] == chunks[2..] + [utc, primary];
    }
  }

  /** The flag test `(timing_flag & 0x3) == 0x3` is the UTC time flag and
      the UTC PPS flag together. */
  lemma LowBitsAreUtcFlags(flags: uint8)
    ensures flags % 4 == 3 <==> UtcTimeFlag(flags) && UtcPpsFlag(flags)
  {
    var q := flags / 4;
    var r := flags % 4;
    assert flags == q * 4 + r;
    assert flags / 2 == q * 2 + r / 2;
  }

  /** Bytes that contain no DLE are skipped while syncing. */
  lemma {:induction false} AfterDleSkips(noise: seq<uint8>, s: seq<uint8>)
    requires forall i :: 0 <= i < |noise| ==> noise[i] != DLE
    ensures AfterDle(noise + [DLE] + s) == Some(s)
    decreases |noise|
  {
    if noise == [] {
      assert noise + [DLE] + s == [DLE] + s;
    } else {
      assert (noise + [DLE] + s)[1..] == noise[1..] + [DLE] + s;
      AfterDleSkips(noise[1..], s);
    }
  }

  /** One stuffed byte is collected as that byte. */
  lemma CollectByte(buf: seq<uint8>, b: uint8, tail: seq<uint8>)
    requires |buf| < LONGEST_PACKET
    ensures Collect(buf, StuffByte(b) + tail) == Collect(buf + [b], tail)
  {
    var input := StuffByte(b) + tail;
    if b == DLE {
      assert input[0] == DLE && input[1] == DLE && input[2..] == tail;
    } else {
      assert input[0] == b && input[1..] == tail;
    }
  }

  /** Unstuffing: a stuffed payload closed by 0x10 0x03 is collected as
      the payload itself, as long as no more than 20 bytes are collected. */
  lemma {:induction false} CollectUnstuffs(buf: seq<uint8>, q: seq<uint8>, rest: seq<uint8>)
    requires |buf| + |q| <= LONGEST_PACKET
    ensures Collect(buf, Stuff(q) + [DLE, ETX] + rest) == Closed(buf + q, rest)
    decreases |q|
  {
    if q == [] {
      assert Stuff(q) + [DLE, ETX] + rest == [DLE, ETX] + rest;
      assert buf + q == buf;
    } else {
      var tail := Stuff(q[1..]) + [DLE, ETX] + rest;
      assert Stuff(q) + [DLE, ETX] + rest == StuffByte(q[0]) + tail;
      CollectByte(buf, q[0], tail);
      CollectUnstuffs(buf + [q[0]], q[1..], rest);
      assert buf + [q[0]] + q[1..] == buf + q;
    }
  }

  /** After noise without DLE, syncing stops right after a frame's
      opening DLE. */
  lemma FrameSyncs(noise: seq<uint8>, p: seq<uint8>, rest: seq<uint8>)
    requires forall i :: 0 <= i < |noise| ==> noise[i] != DLE
    ensures AfterDle(noise + FrameOf(p) + rest) == Some(Stuff(p) + [DLE, ETX] + rest)
  {
    var sp := Stuff(p);
    var s := sp + [DLE, ETX] + rest;
    assert FrameOf(p) == [DLE] + sp + [DLE, ETX];
    Regroup(noise, sp, rest);
    AfterDleSkips(noise, s);
  }

  /** The two header bytes of a primary timing report need no stuffing. */
  lemma PrimaryHeaderUnstuffed(e: seq<uint8>)
    ensures Stuff([REPORT_SUPER, REPORT_SUPER_PRIMARY_TIME] + e)
      == [REPORT_SUPER, REPORT_SUPER_PRIMARY_TIME] + Stuff(e)
  {
    StuffConcat([REPORT_SUPER, REPORT_SUPER_PRIMARY_TIME], e);
    StuffNoDle([REPORT_SUPER, REPORT_SUPER_PRIMARY_TIME]);
  }

  lemma HeaderRegroup(se: seq<uint8>, rest: seq<uint8>)
    ensures [REPORT_SUPER, REPORT_SUPER_PRIMARY_TIME] + se + [DLE, ETX] + rest
      == [REPORT_SUPER, REPORT_SUPER_PRIMARY_TIME] + (se + [DLE, ETX] + rest)
  {
  }

  /** A primary timing report framed by the device, after noise without
      DLE, syncs right after the frame's opening DLE. */
  lemma PrimaryFrameSyncs(noise: seq<uint8>, e: seq<uint8>, rest: seq<uint8>)
    requires forall i :: 0 <= i < |noise| ==> noise[i] != DLE
    ensures var p := [REPORT_SUPER, REPORT_SUPER_PRIMARY_TIME] + e;
      AfterDle(noise + FrameOf(p) + rest)
        == Some([REPORT_SUPER, REPORT_SUPER_PRIMARY_TIME] + (Stuff(e) + [DLE, ETX] + rest))
  {
    var p := [REPORT_SUPER, REPORT_SUPER_PRIMARY_TIME] + e;
    FrameSyncs(noise, p, rest);
    PrimaryHeaderUnstuffed(e);
    HeaderRegroup(Stuff(e), rest);
  }

  /** The packet get_time collects from a primary timing report: 0xAB and
      the sixteen report bytes, with the flags at index 9 and the time read
      back as the report's. */
  lemma PrimaryPacketClock(t: PrimaryTimeReport)
    ensures var packet := [REPORT_SUPER_PRIMARY_TIME] + EncodePrimaryTime(t);
      |packet| == PACKET_LENGTH && packet[9] == t.flags && ClockOf(packet) == ClockOfReport(t)
  {
    var e := EncodePrimaryTime(t);
    var packet := [REPORT_SUPER_PRIMARY_TIME] + e;
    assert e[8..14] == [t.flags, t.seconds, t.minutes, t.hours, t.day, t.month];
    assert e[14..] == Be16Bytes(t.year);
    assert packet[9] == e[8] && packet[10] == e[9] && packet[11] == e[10];
    assert packet[12] == e[11] && packet[13] == e[12] && packet[14] == e[13];
    assert packet[15] == e[14] && packet[16] == e[15];
    Be16RoundTrip(t.year);
  }

  /** The two copies of the 8F-AB reader agree: a primary timing report
      framed as the device sends it, after noise without DLE, is accepted
      by get_time exactly when both low flag bits are set, and then with the
      date and time that update_report stores. */
  lemma LegacyAgreesWithDecoder(noise: seq<uint8>, t: PrimaryTimeReport, rest: seq<uint8>)
    requires forall i :: 0 <= i < |noise| ==> noise[i] != DLE
    ensures var p := [REPORT_SUPER, REPORT_SUPER_PRIMARY_TIME] + EncodePrimaryTime(t);
      Attempt(noise + FrameOf(p) + rest)
        == if UtcTimeFlag(t.flags) && UtcPpsFlag(t.flags) then Accepted(ClockOfReport(t), rest)
           else Retry(rest)
  {
    var e := EncodePrimaryTime(t);
    var body := Stuff(e) + [DLE, ETX] + rest;
    PrimaryFrameSyncs(noise, e, rest);
    var s := [REPORT_SUPER, REPORT_SUPER_PRIMARY_TIME] + body;
    assert s[2..] == body;
    CollectUnstuffs([REPORT_SUPER_PRIMARY_TIME], e, rest);
    PrimaryPacketClock(t);
    LowBitsAreUtcFlags(t.flags);
  }

  /** The two fwrite calls at the top of an attempt, both from buffer[]. */
  method WriteRequests(port: Port, buffer: array<uint8>)
    requires buffer.Length == 256
    modifies port, buffer
    ensures port.input == old(port.input)
    ensures WroteTwice(old(port.written), port.written, UTC_REQUEST, PRIMARY_TIME_REQUEST)
  {
    ghost var w0 := port.written;
    buffer[0], buffer[1], buffer[2], buffer[3], buffer[4], buffer[5] :=
      DLE, COMMAND_SUPER_PACKET, REPORT_SUPER_UTC_GPS_TIME, 0x03, DLE, ETX;
    assert buffer[..6] == UTC_REQUEST;
    var _ := port.Write(buffer[..6]);
    ghost var w1 := port.written;
    buffer[0], buffer[1], buffer[2], buffer[3], buffer[4], buffer[5] :=
      DLE, COMMAND_SUPER_PACKET, REPORT_SUPER_PRIMARY_TIME, 0x01, DLE, ETX;
    assert buffer[..6] == PRIMARY_TIME_REQUEST;
    var _ := port.Write(buffer[..6]);
    WroteOnceThenOnce(w0, w1, port.written, UTC_REQUEST, PRIMARY_TIME_REQUEST);
  }

  /** The sync loop: read up to and including the first DLE. */
  method SkipToDle(port: Port) returns (found: bool)
    modifies port
    ensures port.written == old(port.written)
    ensures found <==> AfterDle(old(port.input)).Some?
    ensures port.input == if found then AfterDle(old(port.input)).value else []
  {
    while true
      invariant AfterDle(port.input) == AfterDle(old(port.input)) && port.written == old(port.written)
      decreases |port.input|
    {
      var c := port.Read();
      if c.None? {
        found := false;
        return;
      }
      if c.value == DLE {
        found := true;
        return;
      }
    }
  }

  /** The collecting loop of get_time over buffer[], which already holds
      0xAB at index 0; on a closed packet its length is returned. */
  method CollectPacket(port: Port, buffer: array<uint8>) returns (r: Collected, len: int)
    requires buffer.Length == 256 && buffer[0] == REPORT_SUPER_PRIMARY_TIME
    modifies port, buffer
    ensures port.written == old(port.written)
    ensures r == Collect([REPORT_SUPER_PRIMARY_TIME], old(port.input))
    ensures r.Closed? ==> len == |r.packet| <= LONGEST_PACKET
    ensures r.Closed? ==> buffer[..len] == r.packet && port.input == r.rest
    ensures r.Broken? ==> port.input == r.rest
    ensures r.Cut? ==> port.input == []
  {
    ghost var body := port.input;
    len := 0;
    var i := 1;
    assert buffer[..i] == [REPORT_SUPER_PRIMARY_TIME];
    while true
      invariant 1 <= i <= LONGEST_PACKET + 1 && port.written == old(port.written)
      invariant Collect(buffer[..i], port.input) == Collect([REPORT_SUPER_PRIMARY_TIME], body)
      decreases |port.input|
    {
      if i > LONGEST_PACKET {
        r := Broken(port.input);
        return;
      }
      var c := port.Read();
      if c.None? {
        r := Cut;
        return;
      }
      if c.value != DLE {
        buffer[i] := c.value;
        assert buffer[..i + 1] == buffer[..i] + [c.value];
        i := i + 1;
      } else {
        var d := port.Read();
        if d.None? {
          r := Cut;
          return;
        }
        if d.value == ETX {
          r := Closed(buffer[..i], port.input);
          len := i;
          return;
        } else if d.value != DLE {
          r := Broken(port.input);
          return;
        } else {
          buffer[i] := DLE;
          assert buffer[..i + 1] == buffer[..i] + [DLE];
          i := i + 1;
        }
      }
    }
  }

  /** One pass from the RETRY label to acceptance or the next goto RETRY. */
  method AttemptOnce(port: Port) returns (a: Attempted)
    modifies port
    ensures a == Attempt(old(port.input))
    ensures port.input == if a.Exhausted? then [] else a.rest
    ensures WroteTwice(old(port.written), port.written, UTC_REQUEST, PRIMARY_TIME_REQUEST)
  {
    var buffer := new uint8[256];
    WriteRequests(port, buffer);
    var found := SkipToDle(port);
    if !found {
      a := Exhausted;
      return;
    }
    a := ReadPacket(port, buffer);
  }

  /** The rest of an attempt after the sync byte: the two header bytes, the
      packet, and the length and flag checks. */
  method ReadPacket(port: Port, buffer: array<uint8>) returns (a: Attempted)
    requires buffer.Length == 256
    modifies port, buffer
    ensures port.written == old(port.written)
    ensures a == AfterSync(old(port.input))
    ensures port.input == if a.Exhausted? then [] else a.rest
  {
    var c := port.Read();
    if c.None? {
      a := Exhausted;
      return;
    }
    if c.value != REPORT_SUPER {
      a := Retry(port.input);
      return;
    }
    c := port.Read();
    if c.None? {
      a := Exhausted;
      return;
    }
    if c.value != REPORT_SUPER_PRIMARY_TIME {
      a := Retry(port.input);
      return;
    }
    assert port.input == old(port.input)[2..];
    var i := 0;
    buffer[i] := REPORT_SUPER_PRIMARY_TIME;
    i := i + 1;
    var collected, packetLen := CollectPacket(port, buffer);
    if collected.Cut? {
      a := Exhausted;
    } else if collected.Broken? || packetLen != PACKET_LENGTH {
      a := Retry(port.input);
    } else {
      var timingFlag := buffer[9];
      assert timingFlag == collected.packet[9];
      if timingFlag % 4 != 3 {
        a := Retry(port.input);
      } else {
        a := Accepted(Clock(buffer[15] as int * 256 + buffer[16] as int, buffer[14], buffer[13],
                            buffer[12], buffer[11], buffer[10]),
                      port.input);
        assert a.clock == ClockOf(collected.packet);
      }
    }
  }

  /** Two more writes of an attempt extend the pairs written so far. */
  lemma PairsExtend(w0: seq<seq<uint8>>, before: seq<seq<uint8>>, after: seq<seq<uint8>>)
    requires |w0| <= |before| && before[..|w0|] == w0 && RequestPairs(before[|w0|..])
    requires WroteTwice(before, after, UTC_REQUEST, PRIMARY_TIME_REQUEST)
    ensures |after| == |before| + 2 && after[..|w0|] == w0 && RequestPairs(after[|w0|..])
  {
    assert after[|w0|..] == before[|w0|..] + [after[|before|], after[|before| + 1]];
    RequestPairsAppend(before[|w0|..], after[|before|], after[|before| + 1]);
    assert after[..|w0|] == after[..|before|][..|w0|];
  }

  /** The RETRY loop of get_time: attempt until a packet is accepted. The
      requests are written again at every attempt. */
  method ReadPrimaryTime(port: Port) returns (r: Attempted)
    modifies port
    ensures r == Run(old(port.input)) && (r.Accepted? || r.Exhausted?)
    ensures port.input == if r.Accepted? then r.rest else []
    ensures |port.written| == |old(port.written)| + 2 * Attempts(old(port.input))
    ensures port.written[..|old(port.written)|] == old(port.written)
    ensures RequestPairs(port.written[|old(port.written)|..])
  {
    ghost var input0 := port.input;
    ghost var w0 := port.written;
    ghost var k := 0;
    assert port.written[|w0|..] == [];
    while true
      invariant Run(port.input) == Run(input0)
      invariant Attempts(input0) == k + Attempts(port.input)
      invariant |port.written| == |w0| + 2 * k && port.written[..|w0|] == w0
      invariant RequestPairs(port.written[|w0|..])
      decreases |port.input|
    {
      ghost var before := port.written;
      ghost var input := port.input;
      r := AttemptOnce(port);
      k := k + 1;
      PairsExtend(w0, before, port.written);
      if !r.Retry? {
        assert Run(input) == r && Attempts(input) == 1;
        return;
      }
      assert Run(input) == Run(r.rest) && Attempts(input) == 1 + Attempts(r.rest);
    }
  }

  /** get_time of get_gps_time.h: false when the port cannot be opened
      (null here); otherwise it only returns, with true, once a packet has
      been accepted. */
  method GetTime(port: Port?) returns (ok: bool, clock: Clock, starved: bool)
    modifies port
    ensures port == null ==> !ok && !starved
    ensures port != null ==>
      var r := Run(old(port.input));
      (ok <==> r.Accepted?) && (starved <==> r.Exhausted?) && (ok ==> clock == r.clock)
  {
    clock := Clock(0, 0, 0, 0, 0, 0);
    if port == null {
      ok, starved := false, false;
      return;
    }
    var r := ReadPrimaryTime(port);
    ok := r.Accepted?;
    starved := r.Exhausted?;
    if ok {
      clock := r.clock;
    }
  }

  /** get_gps_time_utc of get_gps_time.h: the accepted time as tm fields;
      the call to timegm is not modelled. */
  method GetGpsTimeUtc(port: Port?) returns (ok: bool, tm: Tm, starved: bool)
    modifies port
    ensures port == null ==> !ok && !starved
    ensures port != null ==>
      var r := Run(old(port.input));
      (ok <==> r.Accepted?) && (starved <==> r.Exhausted?) && (ok ==> tm == TmOf(r.clock))
  {
    var clock;
    ok, clock, starved := GetTime(port);
    tm := TmOf(clock);
  }
}
