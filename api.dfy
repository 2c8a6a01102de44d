/** The gps_api object: its own request sender send_gps_msg, with the
    no-wait shortcut for 8E commands that carry arguments, its get_xyz, and
    its copy of get_time, all driving the tsip object it holds over the
    port it opened itself. */
module Api {
  import opened Protocol
  import opened Requests
  import opened Reports
  import opened Serial
  import opened Correlation
  import opened Receiver
  import opened TimeFields
  import LegacyTime

  /** cmd_stack_t: the command and the number of its bytes to send; the
      expected report code, subcode and description are only printed. */
  datatype CmdStack = CmdStack(cmd: Command, byteCnt: int)

  /** The shortcut of send_gps_msg: an 8E command with more than two bytes
      is taken to have no reply, and nothing is read. */
  predicate NoWait(stack: CmdStack)
    requires stack.cmd.Valid() && 0 <= stack.byteCnt <= MAX_COMMAND
    ensures var w := RequestBytes(stack.cmd.data, stack.byteCnt);
      NoWait(stack) <==> |w| >= 5 && w[1] == COMMAND_SUPER_PACKET
  {
    stack.cmd.Code() == COMMAND_SUPER_PACKET && stack.byteCnt > 2
  }

  /** The get_xyz request: code 0x37 with every later command byte zeroed. */
  const POSITION_REQUEST: seq<uint8> := [COMMAND_REQUEST_POSITION] + seq(MAX_COMMAND - 1, _ => 0)

  class GpsApi {
    /** The FILE the object opened itself; sip holds the port it opened. */
    const file: Port
    const sip: Tsip
    var cmdStack: CmdStack

    /** Opening and configuring the port are not modelled. */
    constructor(file: Port, sip: Tsip)
      requires sip.Valid()
      ensures this.file == file && this.sip == sip && cmdStack == CmdStack(sip.command, 0)
    {
      this.file := file;
      this.sip := sip;
      cmdStack := CmdStack(sip.command, 0);
    }

    /** send_gps_msg: clear the report flags, write DLE, the first byteCnt
        command bytes and DLE (the ETX is built but not written), then,
        unless the shortcut applies, pump packets from the object's own
        port until the command is answered or 21 packets have been read.
        It returns true whatever happened. */
    method SendGpsMsg(stack: CmdStack) returns (ok: bool, starved: bool)
      requires sip.Valid() && stack.cmd.Valid() && 0 <= stack.byteCnt <= MAX_COMMAND
      modifies sip, sip.report, file
      ensures ok && sip.Valid() && sip.command == old(sip.command)
      ensures WroteOnce(old(file.written), file.written, RequestBytes(stack.cmd.data, stack.byteCnt))
      ensures NoWait(stack) ==>
        !starved && file.input == old(file.input) && sip.DecoderOf() == Cleared(old(sip.DecoderOf()))
      ensures !NoWait(stack) ==>
        var o := Correlate(Cleared(old(sip.DecoderOf())), old(file.input), stack.cmd, 0);
        sip.DecoderOf() == o.Final() && (starved <==> o.Starved?)
        && file.input == (if o.Finished? then o.rest else [])
    {
      sip.InitRpt();
      ghost var cleared := sip.DecoderOf();
      var _ := SendFrame(file, stack.cmd.data, stack.byteCnt);
      assert sip.DecoderOf() == cleared;
      if stack.cmd.Code() == COMMAND_SUPER_PACKET && stack.byteCnt > 2 {
        ok, starved := true, false;
        return;
      }
      var found;
      found, starved := sip.Pump(file, stack.cmd);
      ok := true;
    }

    /** The command get_xyz builds in sip.m_command: code 0x37, then the
        loop over the 63-byte report.data view zeroes 64 bytes, the last of
        which is the cmd_len that follows the union's data. */
    method SetPositionRequest()
      requires sip.command.Valid()
      modifies sip`command
      ensures sip.command == Command(POSITION_REQUEST, 0)
    {
      sip.command := sip.command.(data := sip.command.data[0 := COMMAND_REQUEST_POSITION]);
      for i := 0 to MAX_COMMAND
        invariant sip.command.Valid() && sip.command.data[0] == COMMAND_REQUEST_POSITION
        invariant forall j :: 1 <= j <= i && j < MAX_COMMAND ==> sip.command.data[j] == 0
        invariant i == MAX_COMMAND ==> sip.command.cmdLen == 0
      {
        if i + 1 < MAX_COMMAND {
          sip.command := sip.command.(data := sip.command.data[i + 1 := 0]);
        } else {
          sip.command := sip.command.(cmdLen := 0);
        }
      }
      assert sip.command.data == POSITION_REQUEST;
    }

    /** get_xyz: send the one byte 0x37 and wait for both position reports;
        the position itself is floating point and not modelled. */
    method GetXyz() returns (ok: bool, starved: bool)
      requires sip.Valid()
      modifies this, sip, sip.report, file
      ensures ok && sip.Valid()
      ensures sip.command == Command(POSITION_REQUEST, 0) && cmdStack == CmdStack(sip.command, 1)
      ensures WroteOnce(old(file.written), file.written, [DLE, COMMAND_REQUEST_POSITION, DLE])
      ensures var o := Correlate(Cleared(old(sip.DecoderOf())), old(file.input), sip.command, 0);
        sip.DecoderOf() == o.Final() && (starved <==> o.Starved?)
        && (o.Finished? ==> 1 <= o.packets <= 21)
        && (o.Finished? && o.packets < 21 ==>
              Fresh(sip.updated, EcefPositionS) && Fresh(sip.updated, EcefPositionD))
    {
      SetPositionRequest();
      cmdStack := CmdStack(sip.command, 1);
      ghost var d := Cleared(sip.DecoderOf());
      assert RequestBytes(sip.command.data, 1) == [DLE, COMMAND_REQUEST_POSITION, DLE];
      assert sip.command.Code() == COMMAND_REQUEST_POSITION;
      ok, starved := SendGpsMsg(cmdStack);
      GetReportBounds(d, old(file.input), sip.command);
    }

    /** get_time of gps_api: the port is already open, so it only returns,
        with true, once a packet has been accepted. */
    method GetTime() returns (ok: bool, clock: Clock, starved: bool)
      modifies file
      ensures var r := LegacyTime.Run(old(file.input));
        (ok <==> r.Accepted?) && (starved <==> !ok) && (ok ==> clock == r.clock)
    {
      ok, clock, starved := LegacyTime.GetTime(file);
    }

    /** get_gps_time_utc of gps_api: the accepted time as tm fields; the
        call to timegm is not modelled. */
    method GetGpsTimeUtc() returns (ok: bool, tm: Tm, starved: bool)
      modifies file
      ensures var r := LegacyTime.Run(old(file.input));
        (ok <==> r.Accepted?) && (starved <==> !ok) && (ok ==> tm == TmOf(r.clock))
    {
      var clock;
      ok, clock, starved := GetTime();
      tm := TmOf(clock);
    }
  }
}
