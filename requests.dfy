/** Outgoing command packets: the _command_packet union, the frame that
    tsip::send_request_msg builds and the part of it that reaches the wire,
    and the stuffed frame the protocol calls for instead. */
module Requests {
  import opened Protocol
  import opened Framing

  /** The _command_packet union: 64 command bytes and cmd_len. The report and
      extended views read code = data[0], subcode = data[1] and their own
      data arrays from data[1] and data[2] on; all three views share cmd_len. */
  datatype Command = Command(data: seq<uint8>, cmdLen: uint8) {
    ghost predicate Valid() {
      |data| == MAX_COMMAND
    }

    function Code(): uint8
      requires Valid()
    {
      data[0]
    }

    function Subcode(): uint8
      requires Valid()
    {
      data[1]
    }
  }

  /** The buffer the sender fills: DLE, the first n command bytes unescaped,
      DLE, ETX. */
  function RequestBuffer(data: seq<uint8>, n: nat): (b: seq<uint8>)
    requires n <= |data|
    ensures |b| == n + 3 && b[0] == DLE && b[n + 1] == DLE && b[n + 2] == ETX
    ensures b[1..n + 1] == data[..n]
  {
    [DLE] + data[..n] + [DLE, ETX]
  }

  /** The bytes handed to fwrite: the first n + 2 bytes of the buffer, so
      the closing ETX is never sent. */
  function RequestBytes(data: seq<uint8>, n: nat): (w: seq<uint8>)
    requires n <= |data|
    ensures |w| == n + 2 && w + [ETX] == RequestBuffer(data, n)
  {
    var w := [DLE] + data[..n] + [DLE];
    assert w + [ETX] == RequestBuffer(data, n);
    w
  }

  /** A receiver that follows the protocol never completes a packet from the
      bytes actually written: after the final DLE it still waits for ETX. */
  lemma AsWrittenRequestNeverCompletes(f: Framer, data: seq<uint8>, n: nat)
    requires f.Valid() && f.state == Start
    requires 1 <= n <= |data| && n <= MAX_DATA && data[0] != DLE && data[0] != ETX
    requires forall i :: 0 <= i < n ==> data[i] != DLE
    ensures var r := Feed(f, RequestBytes(data, n));
      r.framer.state == DataDle && r.outs == Falses(n + 2)
  {
    var p := data[..n];
    StuffNoDle(p);
    var w := RequestBytes(data, n);
    assert w == [DLE] + Stuff(p) + [DLE];
    assert FrameOf(p) == w + [ETX];
    FeedConcat(f, w, [ETX]);
    FeedOne(Feed(f, w).framer, ETX);
    FrameRoundTrip(f, p);
    var outs := Feed(f, w).outs;
    assert outs + [Step(Feed(f, w).framer, ETX).complete] == Falses(n + 2) + [true];
    assert outs == (outs + [true])[..n + 2] == (Falses(n + 2) + [true])[..n + 2];
  }

  /** The AB request of get_gps_time_utc as written: DLE 8E AB DLE. */
  lemma PrimaryTimeRequestNeverCompletes(f: Framer)
    requires f.Valid() && f.state == Start
    ensures Feed(f, [DLE, COMMAND_SUPER_PACKET, 0xab, DLE]).framer.state == DataDle
    ensures Feed(f, [DLE, COMMAND_SUPER_PACKET, 0xab, DLE]).outs == [false, false, false, false]
  {
    var data := [COMMAND_SUPER_PACKET, 0xab];
    assert RequestBytes(data, 2) == [DLE, COMMAND_SUPER_PACKET, 0xab, DLE];
    AsWrittenRequestNeverCompletes(f, data, 2);
  }

  /** Even the full buffer misframes a payload holding DLE: save_to_eeprom
      with segment 0x10 builds DLE 8E 4C DLE DLE ETX, which a receiver reads
      as the unfinished packet 8E 4C 10 03. */
  lemma UnstuffedBufferMisframes(f: Framer)
    requires f.Valid() && f.state == Start
    ensures var r := Feed(f, RequestBuffer([COMMAND_SUPER_PACKET, COMMAND_SAVE_EEPROM, DLE], 3));
      r.outs == Falses(6) && r.framer.state == Data && r.framer.len == 4
      && r.framer.raw[..4] == [COMMAND_SUPER_PACKET, COMMAND_SAVE_EEPROM, DLE, ETX]
  {
    var b := RequestBuffer([COMMAND_SUPER_PACKET, COMMAND_SAVE_EEPROM, DLE], 3);
    assert b == [DLE, COMMAND_SUPER_PACKET] + [COMMAND_SAVE_EEPROM, DLE] + [DLE, ETX];
    FeedConcat(f, [DLE, COMMAND_SUPER_PACKET] + [COMMAND_SAVE_EEPROM, DLE], [DLE, ETX]);
    FeedConcat(f, [DLE, COMMAND_SUPER_PACKET], [COMMAND_SAVE_EEPROM, DLE]);
    FeedTwo(f, DLE, COMMAND_SUPER_PACKET);
    var g1 := Feed(f, [DLE, COMMAND_SUPER_PACKET]).framer;
    FeedTwo(g1, COMMAND_SAVE_EEPROM, DLE);
    var g2 := Feed(g1, [COMMAND_SAVE_EEPROM, DLE]).framer;
    FeedTwo(g2, DLE, ETX);
    var g3 := Feed(g2, [DLE, ETX]).framer;
    assert g3.raw[..4] == [COMMAND_SUPER_PACKET, COMMAND_SAVE_EEPROM, DLE, ETX];
  }

  /** The request frame the protocol calls for: the first n command bytes
      stuffed and closed by DLE ETX. */
  function CorrectedRequest(data: seq<uint8>, n: nat): (w: seq<uint8>)
    requires n <= |data|
    ensures |w| >= n + 3 && w[0] == DLE && w[|w| - 2..] == [DLE, ETX]
  {
    FrameOf(data[..n])
  }

  /** A receiver reads the corrected frame back as exactly the n command
      bytes and completes it at its last byte, whatever bytes they are. */
  lemma CorrectedRequestDecodes(f: Framer, data: seq<uint8>, n: nat)
    requires f.Valid() && f.state == Start
    requires 1 <= n <= |data| && n <= MAX_DATA && data[0] != DLE && data[0] != ETX
    ensures var r := Feed(f, CorrectedRequest(data, n));
      r.framer.state == Start && r.framer.raw[..n] == data[..n] && r.framer.len == n
      && r.outs == Falses(|Stuff(data[..n])| + 2) + [true]
  {
    FrameRoundTrip(f, data[..n]);
  }

  /** Without a DLE in the payload the corrected frame is the buffer the
      sender already builds; only the write count drops its ETX. */
  lemma CorrectedIsBufferWithoutDle(data: seq<uint8>, n: nat)
    requires n <= |data|
    requires forall i :: 0 <= i < n ==> data[i] != DLE
    ensures CorrectedRequest(data, n) == RequestBuffer(data, n)
    ensures CorrectedRequest(data, n) == RequestBytes(data, n) + [ETX]
  {
    StuffNoDle(data[..n]);
  }
}
