/** The tsip object: the receive decoder (encode, update_report), the report
    flags (init_rpt), the request/response cycle (send_request_msg,
    get_report_msg) and the fixed request builders, over a serial Port. */
module Receiver {
  import opened Protocol
  import opened Fields
  import opened Framing
  import opened Reports
  import opened Requests
  import opened Correlation
  import opened Serial
  import opened TimeFields

  /** get_gps_time_utc ends with the broken-down time, with exit(false) when
      no primary timing report arrived, or blocks when the device goes
      quiet in the middle of a packet. */
  datatype TimeReply = GotTime(tm: Tm) | Exited | Blocked

  const ZERO_PRIMARY_TIME := PrimaryTimeReport(0, 0, 0, 0, 0, 0, 0, 0, 0, 0)
  const ZERO_SECONDARY_TIME := SecondaryTimeReport(0, 0, 0, 0, 0, 0, 0, 0, 0, 0, 0, seq(8, _ => 0))

  class Tsip {
    var state: State
    const report: array<uint8>
    var reportLength: int
    var updated: bv16
    var valid: set<ReportKind>
    var utcGpsTime: UtcGpsTimeReport
    var primaryTime: PrimaryTimeReport
    var secondaryTime: SecondaryTimeReport
    var command: Command
    const port: Port

    ghost predicate Valid()
      reads this, report
    {
      report.Length == MAX_DATA && 0 <= reportLength <= MAX_DATA && command.Valid()
    }

    /** The report store: m_updated, the valid flags and the report fields. */
    function StoreOf(): Store
      reads this`updated, this`valid, this`utcGpsTime, this`primaryTime, this`secondaryTime
    {
      Store(updated, valid, utcGpsTime, primaryTime, secondaryTime)
    }

    /** The framer and store as one value. */
    function DecoderOf(): Decoder
      reads this`state, this`reportLength, report
      reads this`updated, this`valid, this`utcGpsTime, this`primaryTime, this`secondaryTime
    {
      Decoder(Framer(state, report[..], reportLength), StoreOf())
    }

    /** The constructor's init_rpt call; opening the port is not modelled,
        and the command buffer, which C leaves indeterminate, starts zeroed. */
    constructor(port: Port)
      ensures Valid() && fresh(report) && this.port == port
      ensures state == Start && reportLength == 0 && updated == 0 && valid == {}
    {
      report := new uint8[MAX_DATA];
      this.port := port;
      command := Command(seq(MAX_COMMAND, _ => 0), 0);
      utcGpsTime := UtcGpsTimeReport(0);
      primaryTime := ZERO_PRIMARY_TIME;
      secondaryTime := ZERO_SECONDARY_TIME;
      new;
      InitRpt();
    }

    /** init_rpt: length 0, START, no freshness bit, no valid flag, and the
        report buffer zeroed. */
    method InitRpt()
      requires report.Length == MAX_DATA && command.Valid()
      modifies this, report
      ensures Valid() && DecoderOf() == Cleared(old(DecoderOf()))
      ensures command == old(command)
    {
      reportLength := 0;
      state := Start;
      updated := 0;
      valid := {};
      for i := 0 to MAX_DATA
        modifies report
        invariant forall j :: 0 <= j < i ==> report[j] == 0
      {
        report[i] := 0;
      }
      assert report[..] == seq(MAX_DATA, _ => 0);
    }

    /** encode(c): one step of the receive state machine; at DLE ETX the
        packet is handed to update_report and its result returned. */
    method Encode(c: uint8) returns (rc: int)
      requires Valid()
      modifies this, report
      ensures Valid() && command == old(command)
      ensures DecoderOf() == DecodeStep(old(DecoderOf()), c).decoder
      ensures rc == DecodeStep(old(DecoderOf()), c).rc
    {
      rc := 0;
      match state
      case Start =>
        if c == DLE {
          state := Frame;
        }
      case Frame =>
        if c == DLE || c == ETX {
          state := Start;
        } else {
          state := Data;
          reportLength := 0;
          report[reportLength] := c;
          reportLength := reportLength + 1;
        }
      case Data =>
        if c == DLE {
          state := DataDle;
        } else if reportLength < MAX_DATA {
          report[reportLength] := c;
          reportLength := reportLength + 1;
        }
      case DataDle =>
        if c == DLE {
          state := Data;
          if reportLength < MAX_DATA {
            report[reportLength] := c;
            reportLength := reportLength + 1;
          }
        } else if c == ETX {
          state := Start;
          rc := UpdateReport();
        } else {
          state := Start;
        }
    }

    /** Set kind k's bit of m_updated and its valid flag. */
    method MarkReport(k: ReportKind)
      modifies this
      ensures updated == MarkFresh(old(updated), k) && valid == old(valid) + {k}
      ensures state == old(state) && reportLength == old(reportLength) && command == old(command)
      ensures utcGpsTime == old(utcGpsTime) && primaryTime == old(primaryTime)
      ensures secondaryTime == old(secondaryTime)
    {
      updated := updated | Bit(k);
      valid := valid + {k};
    }

    /** update_report: the switch on the code and, for 0x8f, on the subcode,
        whose missing break runs the default case after it. Every case sets
        rlen to the size of a report structure, so the result is always 1. */
    method UpdateReport() returns (rc: int)
      requires Valid()
      modifies this
      ensures Valid() && command == old(command)
      ensures state == old(state) && reportLength == old(reportLength)
      ensures StoreOf() == Dispatch(old(StoreOf()), report[..])
      ensures rc == 1
    {
      ghost var s0 := StoreOf();
      var code := report[0];
      if code == REPORT_ECEF_POSITION_S {
        MarkReport(EcefPositionS);
      } else if code == REPORT_ECEF_POSITION_D {
        MarkReport(EcefPositionD);
      } else if code == REPORT_ECEF_VELOCITY {
        MarkReport(EcefVelocity);
      } else if code == REPORT_SW_VERSION {
        MarkReport(SwVersion);
      } else if code == REPORT_SINGLE_POSITION {
        MarkReport(SinglePosition);
      } else if code == REPORT_DOUBLE_POSITION {
        MarkReport(DoublePosition);
      } else if code == REPORT_IO_OPTIONS {
        MarkReport(IoOptions);
      } else if code == REPORT_ENU_VELOCITY {
        MarkReport(EnuVelocity);
      } else if code == REPORT_SUPER {
        UpdateSuperReport();
        MarkReport(UnknownReport);
        assert StoreOf() == Mark(DispatchSuper(s0, report[..]), UnknownReport);
      } else {
        MarkReport(UnknownReport);
      }
      assert code != REPORT_SUPER ==> StoreOf() == Mark(s0, KindOfCode(code));
      rc := 1;
    }

    /** The inner switch of update_report on an 0x8f packet's subcode. */
    method UpdateSuperReport()
      requires Valid() && report[0] == REPORT_SUPER
      modifies this
      ensures Valid() && command == old(command)
      ensures state == old(state) && reportLength == old(reportLength)
      ensures StoreOf() == DispatchSuper(old(StoreOf()), report[..])
    {
      var raw := report[..];
      var subcode := report[1];
      if subcode == REPORT_SUPER_UTC_GPS_TIME {
        MarkReport(UtcGpsTime);
        utcGpsTime := UtcGpsTimeReport(report[2]);
      } else if subcode == REPORT_SUPER_PRIMARY_TIME {
        MarkReport(PrimaryTime);
        primaryTime := PrimaryTimeReport(
          B4ToUint32(raw, 0, 'e'), B2ToUint16(raw, 4, 'e'), ToInt16(B2ToUint16(raw, 6, 'e')),
          report[10], report[11], report[12], report[13], report[14], report[15],
          B2ToUint16(raw, 14, 'e'));
      } else if subcode == REPORT_SUPER_SECONDARY_TIME {
        MarkReport(SecondaryTime);
        secondaryTime := SecondaryTimeReport(
          report[2], report[3], report[4],
          B4ToUint32(raw, 3, 'e'), B2ToUint16(raw, 7, 'e'), B2ToUint16(raw, 9, 'e'),
          report[13], report[14], report[15], report[16],
          B4ToUint32(raw, 23, 'e'),
          report[61..69]);
      } else {
        MarkReport(UnknownReport);
      }
    }

    /** send_request_msg: frame the first cmd_len command bytes and write
        cmd_len + 2 bytes of the frame; true iff all of them went out. */
    method SendRequestMsg(cmd: Command) returns (ok: bool)
      requires cmd.Valid() && cmd.cmdLen <= MAX_COMMAND
      modifies port
      ensures port.input == old(port.input)
      ensures WroteOnce(old(port.written), port.written, RequestBytes(cmd.data, cmd.cmdLen))
      ensures ok <==> port.written[|old(port.written)|] == RequestBytes(cmd.data, cmd.cmdLen)
    {
      var n := cmd.cmdLen;
      var count := SendFrame(port, cmd.data, n);
      ok := count == n + 2;
    }

    /** The two nested loops of get_report_msg (and of send_gps_msg, reading
        the caller's port): pump bytes into encode until a packet completes,
        count it, and stop once the command is answered or 21 packets have
        been read. */
    method Pump(src: Port, cmd: Command) returns (found: bool, starved: bool)
      requires Valid() && cmd.Valid()
      modifies this, report, src
      ensures Valid() && command == old(command) && src.written == old(src.written)
      ensures var o := Correlate(old(DecoderOf()), old(src.input), cmd, 0);
        DecoderOf() == o.Final() && (starved <==> o.Starved?)
        && src.input == (if o.Finished? then o.rest else [])
        && found == IsReportFound(cmd, updated)
    {
      ghost var outcome := Correlate(DecoderOf(), src.input, cmd, 0);
      var loopCnt := 0;
      while !IsReportFound(cmd, updated)
        invariant Valid() && command == old(command) && src.written == old(src.written)
        invariant 0 <= loopCnt <= 20
        invariant Correlate(DecoderOf(), src.input, cmd, loopCnt) == outcome
        decreases |src.input|
      {
        ghost var d := DecoderOf();
        ghost var input := src.input;
        var rc := 0;
        while rc == 0
          invariant Valid() && command == old(command) && src.written == old(src.written)
          invariant rc == 0 ==> NextPacket(DecoderOf(), src.input) == NextPacket(d, input)
          invariant rc != 0 ==> NextPacket(d, input) == Packet(DecoderOf(), src.input)
          decreases |src.input|, if rc == 0 then 1 else 0
        {
          var c := src.Read();
          if c.None? {
            found := IsReportFound(cmd, updated);
            starved := true;
            return;
          }
          rc := Encode(c.value);
        }
        loopCnt := loopCnt + 1;
        if loopCnt > 20 {
          break;
        }
      }
      found := IsReportFound(cmd, updated);
      starved := false;
    }

    /** get_report_msg: clear the flags, send m_command once (the RETRY
        label is never jumped to) and pump until `cmd` is answered or 21
        packets have been read; the answer is is_report_found. */
    method GetReportMsg(cmd: Command) returns (found: bool, starved: bool)
      requires Valid() && cmd.Valid() && command.cmdLen <= MAX_COMMAND
      modifies this, report, port
      ensures Valid() && command == old(command)
      ensures WroteOnce(old(port.written), port.written, RequestBytes(command.data, command.cmdLen))
      ensures var o := Correlate(Cleared(old(DecoderOf())), old(port.input), cmd, 0);
        DecoderOf() == o.Final() && (starved <==> o.Starved?)
        && port.input == (if o.Finished? then o.rest else [])
        && found == IsReportFound(cmd, updated)
    {
      InitRpt();
      var _ := SendRequestMsg(command);
      found, starved := Pump(port, cmd);
    }

    /** The builders' writes of extended.code, extended.subcode and cmd_len. */
    method SetSuper(subcode: uint8, len: uint8)
      requires command.Valid()
      modifies this`command
      ensures command.Valid() && command.cmdLen == len
      ensures command.data[..2] == [COMMAND_SUPER_PACKET, subcode]
      ensures command.data[2..] == old(command.data[2..])
    {
      command := command.(data := command.data[0 := COMMAND_SUPER_PACKET]);
      command := command.(data := command.data[1 := subcode]);
      command := command.(cmdLen := len);
    }

    /** The builders' write of extended.data[0], command byte 2. */
    method SetArgument(b: uint8)
      requires command.Valid()
      modifies this`command
      ensures command.Valid() && command.cmdLen == old(command.cmdLen)
      ensures command.data[..2] == old(command.data[..2]) && command.data[2] == b
      ensures command.data[3..] == old(command.data[3..])
    {
      command := command.(data := command.data[2 := b]);
    }

    /** The first half of get_gps_time_utc: 8E-A2 with argument 3, which
        switches the device to UTC time, sent without waiting for a reply. */
    method SendUtcRequest() returns (ok: bool)
      requires Valid()
      modifies this, port
      ensures Valid() && DecoderOf() == old(DecoderOf()) && port.input == old(port.input)
      ensures command.data[..3] == [COMMAND_SUPER_PACKET, REPORT_SUPER_UTC_GPS_TIME, 0x03]
      ensures command.data[3..] == old(command.data[3..]) && command.cmdLen == 3
      ensures WroteOnce(old(port.written), port.written, [DLE, COMMAND_SUPER_PACKET, REPORT_SUPER_UTC_GPS_TIME, 0x03, DLE])
    {
      SetSuper(REPORT_SUPER_UTC_GPS_TIME, 3);
      SetArgument(0x03);
      assert RequestBytes(command.data, 3) == [DLE, COMMAND_SUPER_PACKET, REPORT_SUPER_UTC_GPS_TIME, 0x03, DLE];
      ok := SendRequestMsg(command);
    }

    /** The second request of get_gps_time_utc: code and subcode 8E-AB and
        cmd_len 2 over the command the first one left behind. */
    method SetPrimaryTimeRequest()
      requires command.Valid() && command.data[..3] == [COMMAND_SUPER_PACKET, REPORT_SUPER_UTC_GPS_TIME, 0x03]
      modifies this`command
      ensures command.Valid() && command.cmdLen == 2
      ensures command.data[..3] == [COMMAND_SUPER_PACKET, REPORT_SUPER_PRIMARY_TIME, 0x03]
      ensures command.data[3..] == old(command.data[3..])
      ensures command.Code() == COMMAND_SUPER_PACKET && command.Subcode() == REPORT_SUPER_PRIMARY_TIME
      ensures RequestBytes(command.data, 2) == [DLE, COMMAND_SUPER_PACKET, REPORT_SUPER_PRIMARY_TIME, DLE]
    {
      ghost var before := command.data;
      SetSuper(REPORT_SUPER_PRIMARY_TIME, 2);
      assert command.data[2] == command.data[2..][0] == before[2..][0] == 0x03;
      assert command.data[3..] == command.data[2..][1..] == before[2..][1..] == before[3..];
      assert RequestBytes(command.data, 2) == [DLE, COMMAND_SUPER_PACKET, REPORT_SUPER_PRIMARY_TIME, DLE];
    }

    /** get_gps_time_utc: send 8E-A2, then ask for 8E-AB (byte 2 still
        holds the 3 of the first request) and turn the primary timing report
        into tm fields; the call to timegm is not modelled. */
    method GetGpsTimeUtc() returns (reply: TimeReply)
      requires Valid()
      modifies this, report, port
      ensures Valid()
      ensures command.data[..3] == [COMMAND_SUPER_PACKET, REPORT_SUPER_PRIMARY_TIME, 0x03]
      ensures command.data[3..] == old(command.data[3..]) && command.cmdLen == 2
      ensures WroteTwice(old(port.written), port.written,
                         [DLE, COMMAND_SUPER_PACKET, REPORT_SUPER_UTC_GPS_TIME, 0x03, DLE],
                         [DLE, COMMAND_SUPER_PACKET, REPORT_SUPER_PRIMARY_TIME, DLE])
      ensures var o := Correlate(Cleared(old(DecoderOf())), old(port.input), command, 0);
        DecoderOf() == o.Final()
        && (reply.Blocked? <==> o.Starved?)
        && (reply.Exited? <==> o.Finished? && !Fresh(updated, PrimaryTime))
        && (reply.GotTime? ==> reply.tm == TmOf(ClockOfReport(primaryTime)))
    {
      ghost var w0 := port.written;
      var _ := SendUtcRequest();
      ghost var w1 := port.written;
      SetPrimaryTimeRequest();
      var found, starved := GetReportMsg(command);
      WroteOnceThenOnce(w0, w1, port.written,
                        [DLE, COMMAND_SUPER_PACKET, REPORT_SUPER_UTC_GPS_TIME, 0x03, DLE],
                        [DLE, COMMAND_SUPER_PACKET, REPORT_SUPER_PRIMARY_TIME, DLE]);
      assert found == Fresh(updated, PrimaryTime);
      if starved {
        reply := Blocked;
      } else if !found {
        reply := Exited;
      } else {
        reply := GotTime(TmOf(ClockOfReport(primaryTime)));
      }
    }

    /** get_xyz: ask for 8E-AC and report whether the secondary timing
        report arrived; the position it carries is floating point and not
        modelled. */
    method GetXyz() returns (found: bool, starved: bool)
      requires Valid()
      modifies this, report, port
      ensures Valid()
      ensures command.data[..2] == [COMMAND_SUPER_PACKET, REPORT_SUPER_SECONDARY_TIME]
      ensures command.data[2..] == old(command.data[2..]) && command.cmdLen == 2
      ensures WroteOnce(old(port.written), port.written, [DLE] + command.data[..2] + [DLE])
      ensures var o := Correlate(Cleared(old(DecoderOf())), old(port.input), command, 0);
        DecoderOf() == o.Final() && (starved <==> o.Starved?)
        && (found <==> Fresh(updated, SecondaryTime))
    {
      SetSuper(REPORT_SUPER_SECONDARY_TIME, 2);
      assert command.Code() == COMMAND_SUPER_PACKET && command.Subcode() == REPORT_SUPER_SECONDARY_TIME;
      assert RequestBytes(command.data, 2) == [DLE] + command.data[..2] + [DLE];
      found, starved := GetReportMsg(command);
      assert found == Fresh(updated, SecondaryTime);
    }

    /** save_to_eeprom(seg_num), 8E-4C: the segment is stored into a byte
        (modulo 256) and the request is sent without waiting for a reply. */
    method SaveToEeprom(segNum: int) returns (ok: bool)
      requires Valid()
      modifies this, port
      ensures Valid() && DecoderOf() == old(DecoderOf()) && port.input == old(port.input)
      ensures command.data[..3] == [COMMAND_SUPER_PACKET, COMMAND_SAVE_EEPROM, segNum % 256]
      ensures command.data[3..] == old(command.data[3..]) && command.cmdLen == 3
      ensures WroteOnce(old(port.written), port.written, [DLE] + command.data[..3] + [DLE])
      ensures ok <==> port.written[|old(port.written)|] == [DLE] + command.data[..3] + [DLE]
    {
      SetSuper(COMMAND_SAVE_EEPROM, 3);
      SetArgument(segNum % 256);
      ok := SendRequestMsg(command);
    }

    /** start_self_survey, 8E-A6 with argument 0 (restart the survey), sent
        without waiting for a reply. */
    method StartSelfSurvey() returns (ok: bool)
      requires Valid()
      modifies this, port
      ensures Valid() && DecoderOf() == old(DecoderOf()) && port.input == old(port.input)
      ensures command.data[..3] == [COMMAND_SUPER_PACKET, COMMAND_SELF_SURVEY, 0]
      ensures command.data[3..] == old(command.data[3..]) && command.cmdLen == 3
      ensures WroteOnce(old(port.written), port.written, [DLE, COMMAND_SUPER_PACKET, COMMAND_SELF_SURVEY, 0, DLE])
      ensures ok <==> port.written[|old(port.written)|] == [DLE, COMMAND_SUPER_PACKET, COMMAND_SELF_SURVEY, 0, DLE]
    {
      SetSuper(COMMAND_SELF_SURVEY, 3);
      SetArgument(0);
      ok := SendRequestMsg(command);
    }
  }
}
