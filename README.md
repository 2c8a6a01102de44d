# TSIP packet layer of cswaim/gps, modelled in Dafny

This project models the Trimble Standard Interface Protocol (TSIP) layer
of the cswaim/gps ThunderBolt clock library. It covers:

- the receive framer `tsip::encode`, a four-state machine that skips
  noise, removes DLE stuffing and ends a packet on DLE ETX;
- the report dispatch `tsip::update_report`, with its missing `break`,
  its flag-only reports and its big-endian field readers;
- the correlation of a command with the report it waits for
  (`init_rpt`, `is_report_found`, the bounded pump loop of
  `get_report_msg`);
- the request framing of `tsip::send_request_msg` and
  `gps_api::send_gps_msg`, and the fixed request builders;
- the two hand-written 8F-AB readers `get_time` (in `gps_api.cpp` and
  in `get_gps_time.h`), their RETRY loop and the `struct tm`
  adjustments of `get_gps_time_utc`.

The serial port is a `Serial.Port` object. It holds the bytes the device
will still send (`input`) and one entry per `fwrite` (`written`), each
entry being the prefix of its buffer that went out. Bytes are
`uint8 = 0..255`. `m_updated` is a `bv16` laid out as GCC lays out the
bit-field union: bits 0-10 in declaration order, bits 11-14 unused, and
bit 15 for the unknown report.

The imperative parts are classes and methods that follow the code:

- `Receiver.Tsip` has the decoder state, a 1024-byte `array` report
  buffer, the flags and the report fields, and is proved against pure
  specifications:
  - `Framing.Step` and `Framing.Feed` for the framer;
  - `Reports.Dispatch` for `update_report`;
  - `Correlation.DecodeStep`, `Correlation.NextPacket` and
    `Correlation.Correlate` for the receive loops.
- `Api.GpsApi` holds a `Tsip` and its own port.
- `LegacyTime` has the `get_time` loops as methods, proved against the
  functions `AfterDle`, `Collect`, `Attempt` and `Run`.

An input that has no more bytes stands for what the source does instead: it blocks
in `getc`, or spins on EOF. Running out is an explicit outcome:
`Starved`, `Exhausted` or `Cut`, and a `starved` result.

Where the code departs from the behaviour described for it, the model
follows the code:

- `update_report` ends the inner 0x8F switch without `break`, so every
  0x8F packet also runs the `default` case and sets the unknown bit.
- The sender does not escape DLE bytes and leaves out the final ETX.
- `send_gps_msg` returns true in every case.
- The RETRY label of `get_report_msg` and `send_gps_msg` is never
  jumped to, so the request is sent once.
- In `gps_api::get_xyz` the zeroing loop runs over 64 bytes of the
  63-byte `report.data` view. The 64th byte is `cmd_len`, so `cmd_len`
  ends up 0. `send_gps_msg` reads `_byte_cnt` rather than `cmd_len`, so
  that write has no further effect.
- `m_command` holds indeterminate bytes before its first use. The model
  starts it zeroed.

## Model

| member | source | states |
|---|---|---|
| Protocol.Bit | src/lib/tsip.h:472-489 | each report kind owns one single bit of m_updated, outside the four unused bits 11-14 |
| Protocol.BitInjective | src/lib/tsip.h:472-489 | two kinds share a bit exactly when they are the same kind |
| Protocol.MarkFresh | src/lib/tsip.h:472-489 | setting a kind's bit makes it fresh and leaves the unused bits alone |
| Protocol.MarkFreshExact | src/lib/tsip.h:472-489 | after setting kind k, exactly the previously fresh kinds and k are fresh |
| Protocol.NothingFreshAtZero | src/lib/tsip.h:472-489 | value 0 means no report is fresh |
| Framing.State.Code | src/lib/tsip.h:530-535 | the four decoder states are numbered from START = 1 to DATA_DLE = 4 |
| Framing.Append | src/lib/tsip.cpp:539-550 | one payload byte is stored at raw[len] and counted while len < MAX_DATA, and dropped when the buffer is full |
| Framing.Step | src/lib/tsip.cpp:512-570 | one encode call: START leaves everything unchanged except DLE, which moves to FRAME; in FRAME, DLE or ETX falls back to START; in DATA_DLE, DLE returns to DATA with the 0x10 appended (or dropped when the buffer is full), ETX completes the packet and returns to START, and any other byte falls back to START with no packet; a packet completes only there; len never shrinks outside FRAME |
| Framing.Feed | src/lib/tsip.cpp:512-570 | successive encode calls keep len <= MAX_DATA and give one completion flag per byte |
| Framing.FeedConcat | src/lib/tsip.cpp:512-570 | feeding a + b is feeding a and then b |
| Framing.StuffByte | src/lib/tsip.cpp:544-551 | the stuffing the framer undoes: a DLE is doubled and every other byte is sent as is |
| Framing.StuffConcat | src/lib/tsip.cpp:544-551 | stuffing distributes over concatenation |
| Framing.StuffNoDle | src/lib/tsip.cpp:544-551 | a payload without DLE is its own stuffing |
| Framing.NoiseSkipped | src/lib/tsip.cpp:516-520 | in START, bytes other than DLE change nothing and complete nothing |
| Framing.StuffedByteAppended | src/lib/tsip.cpp:533-551 | in DATA, a stuffed byte (DLE DLE for 0x10) appends exactly that byte |
| Framing.StuffedDataAppended | src/lib/tsip.cpp:533-551 | in DATA, a stuffed payload appends exactly the payload and completes nothing |
| Framing.FrameOpens | src/lib/tsip.cpp:522-532 | in FRAME, a byte other than DLE or ETX resets the length to 0, stores that byte at raw[0] and enters DATA |
| Framing.FrameCloses | src/lib/tsip.cpp:533-569 | in DATA, DLE ETX returns to START and completes a packet at the ETX |
| Framing.PayloadFeeds | src/lib/tsip.cpp:533-569 | in DATA, a stuffed payload and DLE ETX append the payload, return to START and complete only at the last byte |
| Framing.FrameRoundTrip | src/lib/tsip.cpp:512-570 | from START, a framed payload p with 1 <= p <= MAX_DATA bytes and a first byte other than DLE and ETX leaves raw[..p] == p, state START, and exactly one completion, at the last byte |
| Framing.MisframedRecovery | src/lib/tsip.cpp:522-527 | a stray DLE in FRAME falls back to START, and the next frame is still read intact |
| Fields.Be16 | src/lib/tsip.cpp:300-310 | the big-endian value of two bytes has them as its high and low byte |
| Fields.Be32 | src/lib/tsip.cpp:325-335 | the big-endian value of four bytes has the two halves as its high and low words |
| Fields.Be16RoundTrip | src/lib/tsip.cpp:300-310 | reading back the two bytes of a 16-bit value gives the value |
| Fields.Be32RoundTrip | src/lib/tsip.cpp:325-335 | reading back the four bytes of a 32-bit value gives the value |
| Fields.Be16Injective | src/lib/tsip.cpp:300-310 | different byte pairs give different 16-bit values |
| Fields.Be32Injective | src/lib/tsip.cpp:325-335 | different byte quadruples give different 32-bit values |
| Fields.ToInt16 | src/lib/tsip.h:324-347 | the UINT16 stored into the SINT16 utc_offset is reinterpreted modulo 2^16 and is negative exactly from 0x8000 up |
| Fields.ReportData | src/lib/tsip.h:163-176 | report.data[i] is raw[i+1] |
| Fields.ExtendedData | src/lib/tsip.h:163-176 | extended.data[i] is raw[i+2] |
| Fields.B2ToUint16 | src/lib/tsip.cpp:300-310 | with 'r' it reads raw[bb+1..bb+3] big-endian, with 'e' raw[bb+2..bb+4], with any other code 0 |
| Fields.B4ToUint32 | src/lib/tsip.cpp:325-335 | with 'r' it reads raw[bb+1..bb+5] big-endian, with 'e' raw[bb+2..bb+6], with any other code 0 |
| Reports.DecodePrimaryTime | src/lib/tsip.cpp:670-686 | the 8F-AB fields come from fixed offsets (seconds of week raw[2..6], week raw[6..8], signed UTC offset raw[8..10], flags raw[10], seconds to month raw[11..16], year raw[16..18]), whatever the packet length |
| Reports.DecodeSecondaryTime | src/lib/tsip.cpp:689-723 | the integer 8F-AC fields come from their fixed offsets, spare from raw[61..69] |
| Reports.KindOfCode | src/lib/tsip.cpp:587-740 | the outer switch files the eight plain report codes under their own kinds and every other code under the unknown kind, as the reference table does |
| Reports.DispatchSuper | src/lib/tsip.cpp:657-731 | the inner switch sets exactly the freshness bit and valid flag of the subcode's kind (unknown for anything but A2, AB, AC), and changes only that subcode's report field |
| Reports.Dispatch | src/lib/tsip.cpp:579-760 | the valid flags gain exactly the dispatched kinds; a report field changes only for its own 8F subcode; the unused bits stay as they were |
| Reports.DispatchedKindsShape | src/lib/tsip.cpp:587-740 | the reference table agrees with the two switches: a 0x8F packet files under its subcode's kind and the unknown kind, any other code under its own kind |
| Reports.DispatchUpdated | src/lib/tsip.cpp:587-740 | the m_updated word after dispatch, for 0x8F packets and for the others |
| Reports.DispatchFreshAt | src/lib/tsip.cpp:587-740 | one kind is fresh after dispatch exactly when it was fresh before or the packet is of that kind |
| Reports.DispatchFreshness | src/lib/tsip.cpp:587-740 | the freshness bits after dispatch are exactly the old ones plus those of the dispatched kinds |
| Reports.SuperAlwaysUnknown | src/lib/tsip.cpp:657-740 | every 0x8F packet, A2, AB and AC included, also sets the unknown bit and m_unknown.valid |
| Reports.FlagOnlyReports | src/lib/tsip.cpp:601-655 | codes 0x43, 0x45, 0x4a, 0x55, 0x56, 0x83 and 0x84 set their own valid flag, set exactly their own freshness bit and no other (so the unknown bit is left alone), and change no report field |
| Reports.PrimaryTimeRoundTrip | src/lib/tsip.cpp:670-686 | decoding the bytes the device encodes gives the report back, whatever follows them in the buffer |
| Reports.PrimaryTimeExampleEncoding | src/lib/tsip.h:324-347 | the example report 12:45:30 on 15 June 2024 is encoded as the sixteen listed bytes |
| Reports.PrimaryTimeExample | src/lib/tsip.cpp:670-686 | a buffer holding the example packet decodes to the example report |
| Reports.ClearFlags | src/lib/tsip.cpp:121-142 | init_rpt leaves no kind fresh and no valid flag set, and keeps the report fields |
| Reports.FlagBitsIndependent | src/lib/tsip.h:330-340 | the five primary-time flags are five distinct bits 0-4 |
| Reports.UtcFlagsByte | src/lib/tsip.h:311-319 | the low two bits of the 8F-A2 flag byte are 0 only when neither UTC flag is set |
| Reports.PpsReferenceAliasesTimeFormat | src/lib/tsip.h:313-318 | as declared, pps_reference reads the same bit as date_time_fmt, so flags 0x02 reads as a GPS PPS |
| Reports.UtcFlagsRoundTrip | src/lib/tsip.h:313-318 | with the bits as intended, each flag reads back its own bit of the byte |
| Requests.RequestBuffer | src/lib/tsip.cpp:768-786 | the built buffer is DLE, the first n command bytes unescaped, DLE, ETX |
| Requests.RequestBytes | src/lib/tsip.cpp:768-786 | the bytes handed to fwrite are the buffer without its final ETX |
| Requests.AsWrittenRequestNeverCompletes | src/lib/tsip.cpp:778-785 | a receiver following the protocol never completes the written request and is left waiting in DATA_DLE |
| Requests.PrimaryTimeRequestNeverCompletes | src/lib/tsip.cpp:851-854 | the 8E-AB request as written, DLE 8E AB DLE, leaves a receiver in DATA_DLE with no packet |
| Requests.UnstuffedBufferMisframes | src/lib/tsip.cpp:960-972 | save_to_eeprom(0x10), even with its ETX, is read as the wrong, unfinished packet 8E 4C 10 03 |
| Requests.CorrectedRequest | src/lib/tsip.cpp:768-786 | the intended request is a complete frame: DLE, the stuffed bytes, DLE ETX |
| Requests.CorrectedRequestDecodes | src/lib/tsip.cpp:768-786 | a receiver reads the intended request back as exactly the command bytes, completing at the last byte |
| Requests.CorrectedIsBufferWithoutDle | src/lib/tsip.cpp:768-786 | without DLE in the payload the intended frame is the built buffer, and the written bytes lack only its ETX |
| Correlation.IsReportFoundMeaning | src/lib/tsip.cpp:418-495 | a command is answered exactly when it waits for some report and every report it waits for is fresh (0x1e, 0x1f and 0x25 wait for sw_version, 0x35 for io_options, 0x37 for both ECEF positions, 8E-A2, AB and AC for their timing report, others for nothing); the copy in gps_api.cpp:93-170 is the same switch |
| Correlation.NothingFoundWhenCleared | src/lib/tsip.cpp:121-142 | with every freshness bit clear no command is answered |
| Correlation.FoundIsStable | src/lib/tsip.cpp:418-495 | once a command is answered, later packets keep it answered |
| Correlation.AnsweredOnlyByExpected | src/lib/tsip.cpp:418-495 | a packet that answers a command is of a kind the command waits for |
| Correlation.IsReportFound | src/lib/tsip.cpp:418-495 | a command with no entry in the reference table is never answered, whatever the freshness bits (the full table equivalence is IsReportFoundMeaning) |
| Correlation.Cleared | src/lib/tsip.cpp:121-142 | init_rpt: state START, length 0, report buffer zeroed, flags cleared |
| Correlation.DecodeStep | src/lib/tsip.cpp:512-570 | encode returns 1 exactly on ETX after DLE in DATA_DLE, and then dispatches the packet; otherwise it returns 0 and leaves the store alone |
| Correlation.NextPacket | src/lib/tsip.cpp:809-814 | pumping bytes to the next packet consumes part of the input, or all of it without changing the store |
| Correlation.NextPacketSkips | src/lib/tsip.cpp:809-814 | bytes that complete no packet only advance the framer |
| Correlation.NextPacketOfFrame | src/lib/tsip.cpp:809-814 | after noise without DLE, a framed packet is the next packet read, and the rest of the input is left |
| Correlation.Correlate | src/lib/tsip.cpp:808-816 | the outer loop from loop_cnt == count reads at most 21 packets in all, ends before 21 only once the command is answered, and runs out of input only unanswered |
| Correlation.CorrelateBounds | src/lib/tsip.cpp:795-832 | the loop reads at most 21 packets, stops before 21 only on an answered command, and runs out of input only unanswered |
| Correlation.GetReportBounds | src/lib/tsip.cpp:795-832 | from cleared flags it reads at least one and at most 21 packets, and fewer than 21 means the command was answered |
| Correlation.CorrelateConsumes | src/lib/tsip.cpp:795-832 | the unread input is a suffix of what the loop was given |
| Correlation.PrimaryTimeAnswered | src/lib/tsip.cpp:795-832 | an 8F-AB reply to an 8E-AB request answers it with the first packet, and the primary time read is the one the device encoded |
| Serial.Port.Read | src/lib/tsip.cpp:811-813 | getc gives the next byte and consumes it, or nothing once the input is empty |
| Serial.Port.Write | src/lib/tsip.cpp:778-785 | fwrite sends some prefix of its buffer and returns its length |
| Serial.WroteOnceThenOnce | src/lib/gps_api.cpp:204-222 | two writes in a row each send a prefix of their own bytes |
| Serial.SendFrame | src/lib/gps_api.cpp:385-393 | the buffer is filled with DLE, the first n command bytes and DLE by a loop, and its first n + 2 bytes are written |
| Receiver.Tsip.InitRpt | src/lib/tsip.cpp:121-142 | the decoder becomes the cleared decoder and the command is kept |
| Receiver.Tsip.Encode | src/lib/tsip.cpp:512-570 | the new decoder state and the return value are those of DecodeStep |
| Receiver.Tsip.MarkReport | src/lib/tsip.cpp:587-740 | one freshness bit and valid flag set, nothing else changed |
| Receiver.Tsip.UpdateReport | src/lib/tsip.cpp:579-760 | the new store is Dispatch of the old one, and the result is always 1 |
| Receiver.Tsip.UpdateSuperReport | src/lib/tsip.cpp:657-731 | the inner 0x8F switch: the new store is DispatchSuper of the old one |
| Receiver.Tsip.SendRequestMsg | src/lib/tsip.cpp:768-786 | writes cmd_len + 2 bytes of the unescaped frame, and returns true exactly when all of them went out |
| Receiver.Tsip.Pump | src/lib/tsip.cpp:809-828 | the nested pump loops end in the state Correlate predicts, report starvation exactly when it does, and return is_report_found |
| Receiver.Tsip.GetReportMsg | src/lib/tsip.cpp:795-832 | init_rpt, one send of m_command, then the pump; the result is is_report_found |
| Receiver.Tsip.SetSuper | src/lib/tsip.cpp:845-854 | code 8E, the subcode and cmd_len are set, and the later command bytes are kept |
| Receiver.Tsip.SetArgument | src/lib/tsip.cpp:847-848 | extended.data[0] is set and everything else is kept |
| Receiver.Tsip.SendUtcRequest | src/lib/tsip.cpp:843-850 | the 8E-A2 request with argument 3 is built and DLE 8E A2 03 DLE written |
| Receiver.Tsip.SetPrimaryTimeRequest | src/lib/tsip.cpp:852-854 | the 8E-AB request keeps the 3 of the first one in byte 2, and its written bytes are DLE 8E AB DLE |
| Receiver.Tsip.GetGpsTimeUtc | src/lib/tsip.cpp:841-883 | two writes, then the exit case exactly when no primary timing report arrived, otherwise the report's date and time as tm fields (year - 1900, month - 1) |
| Receiver.Tsip.GetXyz | src/lib/tsip.cpp:891-910 | asks for 8E-AC and reports whether the secondary timing report arrived |
| Receiver.Tsip.SaveToEeprom | src/lib/tsip.cpp:960-972 | the 8E-4C request with the segment number reduced modulo 256 is sent once, and the result says whether all of it went out |
| Receiver.Tsip.StartSelfSurvey | src/lib/tsip.cpp:985-996 | the 8E-A6 request with argument 0 is sent once, and the result says whether all of it went out |
| TimeFields.TmOf | src/lib/get_gps_time.h:165-166 | tm_year is the year less 1900 and tm_mon the month less 1, the other fields as given |
| LegacyTime.RequestsAreFrames | src/lib/get_gps_time.h:82-99 | the two hand-built requests are exactly the intended frames of 8E A2 03 and 8E AB 01 |
| LegacyTime.AfterDle | src/lib/get_gps_time.h:103 | syncing consumes input up to and including the first DLE |
| LegacyTime.Collect | src/lib/get_gps_time.h:109-133 | collecting consumes a part of the input from its front |
| LegacyTime.CollectedPacketBounds | src/lib/get_gps_time.h:111-112 | a closed packet extends what was collected and has at most 20 bytes |
| LegacyTime.Judge | src/lib/get_gps_time.h:134-157 | a packet is accepted exactly when it closed with 17 bytes and both low bits of buffer[9] set, and then with the fields at buffer[10..16] |
| LegacyTime.ClockOf | src/lib/get_gps_time.h:151-156 | the year is the big-endian pair buffer[15..16] |
| LegacyTime.AfterSync | src/lib/get_gps_time.h:104-107 | after the DLE, anything but 8F then AB restarts the attempt |
| LegacyTime.Attempt | src/lib/get_gps_time.h:79-157 | one pass from RETRY leaves a strict suffix of the input |
| LegacyTime.Run | src/lib/get_gps_time.h:79-157 | the RETRY loop ends only with an accepted packet or with the input run out |
| LegacyTime.Attempts | src/lib/get_gps_time.h:79-157 | the RETRY loop makes at least one attempt |
| LegacyTime.RequestPairsAppend | src/lib/get_gps_time.h:82-99 | every attempt adds a UTC request and a primary-time request to the writes |
| LegacyTime.LowBitsAreUtcFlags | src/lib/get_gps_time.h:145 | (timing_flag & 0x3) == 0x3 is the UTC time flag and the UTC PPS flag together |
| LegacyTime.AfterDleSkips | src/lib/get_gps_time.h:103 | bytes other than DLE are skipped while syncing |
| LegacyTime.CollectByte | src/lib/get_gps_time.h:113-130 | one stuffed byte is collected as that byte |
| LegacyTime.CollectUnstuffs | src/lib/get_gps_time.h:113-130 | a stuffed payload closed by DLE ETX is collected as the payload, as long as it fits in 20 bytes |
| LegacyTime.FrameSyncs | src/lib/get_gps_time.h:103 | after noise without DLE, syncing stops right after the frame's opening DLE |
| LegacyTime.PrimaryHeaderUnstuffed | src/lib/get_gps_time.h:104-107 | the 8F AB header needs no stuffing |
| LegacyTime.PrimaryFrameSyncs | src/lib/get_gps_time.h:103-107 | a framed primary timing report after noise syncs at its header |
| LegacyTime.PrimaryPacketClock | src/lib/get_gps_time.h:134-156 | the collected packet of a primary timing report has 17 bytes, the flags at index 9 and the report's date and time |
| LegacyTime.LegacyAgreesWithDecoder | src/lib/gps_api.cpp:187-281 | the hand-written reader accepts a framed primary timing report exactly when both low flag bits are set, and then with the date and time that update_report stores |
| LegacyTime.WriteRequests | src/lib/get_gps_time.h:82-99 | two writes, each a prefix of its six-byte request |
| LegacyTime.SkipToDle | src/lib/get_gps_time.h:103 | the sync loop reads exactly what AfterDle consumes |
| LegacyTime.CollectPacket | src/lib/get_gps_time.h:109-133 | the collecting loop over buffer[] ends as Collect predicts, with the packet in buffer[..len] |
| LegacyTime.ReadPacket | src/lib/get_gps_time.h:104-157 | the header checks, the collection and the acceptance checks end as AfterSync predicts |
| LegacyTime.AttemptOnce | src/lib/get_gps_time.h:79-157 | one pass of the RETRY loop ends as Attempt predicts, after two writes |
| LegacyTime.PairsExtend | src/lib/get_gps_time.h:82-99 | the writes of one more attempt extend the request pairs written so far |
| LegacyTime.ReadPrimaryTime | src/lib/get_gps_time.h:79-157 | the RETRY loop ends as Run predicts, with two writes per attempt, in UTC-request and primary-request pairs |
| LegacyTime.GetTime | src/lib/get_gps_time.h:64-158 | false when the port cannot be opened; otherwise it returns only with true and the accepted packet's fields, or runs out of input |
| LegacyTime.GetGpsTimeUtc | src/lib/get_gps_time.h:160-179 | the accepted time as tm fields, false when the port cannot be opened |
| Api.GpsApi.SendGpsMsg | src/lib/gps_api.cpp:370-444 | init_rpt, one write of byte_cnt + 2 unescaped frame bytes, no reading for an 8E command of more than two bytes, otherwise the bounded pump on the object's own port; true in every case |
| Api.GpsApi.SetPositionRequest | src/lib/gps_api.cpp:346-351 | code 0x37 and all later bytes zeroed, the 64th of them being cmd_len |
| Api.GpsApi.GetXyz | src/lib/gps_api.cpp:343-360 | DLE 37 DLE is written, and the pump reads one to 21 packets, fewer than 21 only with both ECEF position reports fresh |
| Api.GpsApi.GetTime | src/lib/gps_api.cpp:187-281 | on the open port it returns only with true and the accepted packet's fields, or runs out of input |
| Api.GpsApi.GetGpsTimeUtc | src/lib/gps_api.cpp:290-315 | the accepted time as tm fields (year - 1900, month - 1) |
| Api.NoWait | src/lib/gps_api.cpp:401-404 | the no-reply shortcut applies exactly when the written request is at least five bytes and opens with DLE 8E |

## Left out

- Serial setup and file handling (`setup_gps_port`, `setup_serial_port`, termios, `fopen`, `fclose`, `open_gps_port`, constructors and destructors) are operating-system I/O. The two class constructors only take the objects they are given. `LegacyTime.GetTime` takes a null port for a failed `fopen`.
- Blocking in `getc` and the truncation of EOF to 0xFF are not modelled. The input is finite, and running out is an explicit outcome.
- What `fwrite` sends is any prefix of its buffer. Short writes on a port opened read-only are allowed, and nothing is assumed about the device's reaction to a partial request.
- Floating point is left out: `b4_to_single`, `b8_to_double`, the float fields of 8F-AC, the integer-to-float assignments of 0x42, and the radian conversion of `get_xyz`. `Reports.SecondaryTimeReport` keeps only the integer fields.
- `timegm` and calendar conversion are left out. The model stops at the `struct tm` fields; `tm_zone`, `tm_wday`, `tm_yday` and `tm_isdst` are constants.
- `exit(false)` in `tsip::get_gps_time_utc` is the `Exited` reply.
- `set_survey_params` is left out. Its bytes depend on C struct padding, on an offset of `cmd_len` that differs from the one `send_request_msg` reads, and on the host byte order.
- `revert_to_default` is left out: it uses a command constant that `tsip.h` never defines. `set_auto_save` and `store_position` are declared but never defined.
- `gps_api::send_get_time` and `recv_gps_msg` are left out. They are not part of the modelled core, and `send_get_time` falls off its end without returning.
- Printing, verbose and debug output, `print_report` and the driver programs are left out.
- The `src`, `dst` and `rlen` copies that `update_report` prepares are left out. Only the result `rlen > 0` matters, and it is always true.
- Receiver.Tsip.GetXyz: the returned `xyz_t` is floating point and not modelled; only whether the report arrived is stated.
- LegacyTime.GetTime, Api.GpsApi.GetTime: where the source spins forever on EOF, the model returns with `starved` set.
- Correlation.IsReportFoundMeaning: `gps_api::is_report_found` is not written out a second time. The two switches are identical, so both use the one predicate.

## Findings

| source | as written | input that shows it | evidently intended | confidence | as-written member | corrected member |
|---|---|---|---|---|---|---|
| src/lib/tsip.cpp:778-785 | `fwrite(buffer, 1, x+1, file)` writes DLE, the command bytes and DLE but never the ETX that `buffer[x+1]` holds | 8E-AB with cmd_len 2: DLE 8E AB DLE, after which a receiver waits in DATA_DLE | write the whole frame, x + 2 bytes | high, not executed | Requests.PrimaryTimeRequestNeverCompletes | Requests.CorrectedRequestDecodes |
| src/lib/gps_api.cpp:385-393 | the same frame, the same omitted ETX, in `send_gps_msg` | any command without DLE, e.g. get_xyz's DLE 37 DLE | write the whole frame | high, not executed | Requests.AsWrittenRequestNeverCompletes | Requests.CorrectedRequestDecodes |
| src/lib/tsip.cpp:773-775 | command bytes are copied without doubling DLE | save_to_eeprom(0x10): DLE 8E 4C DLE DLE ETX is read as the unfinished packet 8E 4C 10 03 | stuff every 0x10 of the payload | high, not executed | Requests.UnstuffedBufferMisframes | Requests.CorrectedRequestDecodes |
| src/lib/tsip.h:313-318 | `date_time_fmt` and `pps_reference` are bit-fields directly in the union, so both are bit 0 | flags 0x02 (GPS time, UTC PPS): pps_reference reads 0 | the two bits inside a struct, bit 0 and bit 1 as for the 8F-AB flags | high, not executed | Reports.PpsReferenceAliasesTimeFormat | Reports.UtcFlagsRoundTrip |
