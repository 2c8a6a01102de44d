/** The report store of a tsip object and tsip::update_report, the dispatch
    of a completed packet on its code (and, for 0x8f, its subcode). */
module Reports {
  import opened Protocol
  import opened Fields

  /** 8F-A2 UTC/GPS time flags: one flag byte. */
  datatype UtcGpsTimeReport = UtcGpsTimeReport(flags: uint8)

  /** 8F-AB primary timing packet, integer fields at their declared widths. */
  datatype PrimaryTimeReport = PrimaryTimeReport(
    secondsOfWeek: uint32,
    weekNumber: uint16,
    utcOffset: int16,
    flags: uint8,
    seconds: uint8,
    minutes: uint8,
    hours: uint8,
    day: uint8,
    month: uint8,
    year: uint16)

  /** 8F-AC secondary timing packet; the SINGLE and DOUBLE fields are not
      part of this model. */
  datatype SecondaryTimeReport = SecondaryTimeReport(
    receiverMode: uint8,
    discipliningMode: uint8,
    selfSurveyProgress: uint8,
    holdoverDuration: uint32,
    criticalAlarms: uint16,
    minorAlarms: uint16,
    gpsDecodingStatus: uint8,
    discipliningActivity: uint8,
    spareStatus1: uint8,
    spareStatus2: uint8,
    dacValue: uint32,
    spare: seq<uint8>)

  /** The m_updated bit set, the valid flags (as the set of kinds whose flag
      is true) and the report fields the decoder writes. */
  datatype Store = Store(
    updated: bv16,
    valid: set<ReportKind>,
    utcGpsTime: UtcGpsTimeReport,
    primaryTime: PrimaryTimeReport,
    secondaryTime: SecondaryTimeReport)

  // Bits of the primary-time flag byte.
  predicate UtcTimeFlag(flags: uint8) { flags % 2 == 1 }
  predicate UtcPpsFlag(flags: uint8) { flags / 0x02 % 2 == 1 }
  predicate TimeNotSetFlag(flags: uint8) { flags / 0x04 % 2 == 1 }
  predicate NoUtcInfoFlag(flags: uint8) { flags / 0x08 % 2 == 1 }
  predicate TestModeTimeFlag(flags: uint8) { flags / 0x10 % 2 == 1 }

  /** The five named flag bits are distinct bits: each flag can be set alone. */
  lemma FlagBitsIndependent()
    ensures UtcTimeFlag(0x01) && !UtcPpsFlag(0x01) && !TimeNotSetFlag(0x01)
    ensures UtcPpsFlag(0x02) && !UtcTimeFlag(0x02) && !TimeNotSetFlag(0x02)
    ensures TimeNotSetFlag(0x04) && !NoUtcInfoFlag(0x04) && !UtcPpsFlag(0x04)
    ensures NoUtcInfoFlag(0x08) && !TestModeTimeFlag(0x08) && !TimeNotSetFlag(0x08)
    ensures TestModeTimeFlag(0x10) && !NoUtcInfoFlag(0x10) && !UtcTimeFlag(0x10)
  {
  }

  // Bits of the 8F-A2 flag byte as tsip.h declares them: both bit-fields
  // are members of the union itself, not of a struct inside it, so each of
  // them starts at bit 0.
  predicate DateTimeFmtAsDeclared(flags: uint8) { flags % 2 == 1 }
  predicate PpsReferenceAsDeclared(flags: uint8) { flags % 2 == 1 }

  /** The low bits of the 8F-A2 flag byte the device sends: bit 0 for a
      time in UTC, bit 1 for a PPS referenced to UTC. */
  function UtcFlagsByte(utcTime: bool, utcPps: bool): (b: uint8)
    ensures b < 4 && (b == 0 <==> !utcTime && !utcPps)
  {
    (if utcTime then 1 else 0) + (if utcPps then 2 else 0)
  }

  /** As declared, the PPS reference bit is the time format bit: a GPS time
      with a UTC PPS (flags 0x02) reads as a GPS PPS, and a UTC time with a
      GPS PPS (flags 0x01) reads as a UTC PPS. */
  lemma PpsReferenceAliasesTimeFormat()
    ensures UtcFlagsByte(false, true) == 0x02 && !PpsReferenceAsDeclared(0x02)
    ensures UtcFlagsByte(true, false) == 0x01 && PpsReferenceAsDeclared(0x01)
    ensures forall f: uint8 :: PpsReferenceAsDeclared(f) == DateTimeFmtAsDeclared(f)
  {
  }

  // The two bits as the comments at tsip.h:315-316 describe them.
  predicate DateTimeFmt(flags: uint8) { flags % 2 == 1 }
  predicate PpsReference(flags: uint8) { flags / 2 % 2 == 1 }

  /** Each flag reads back its own bit, and the two low bits together with
      the unused bits make up the whole byte. */
  lemma UtcFlagsRoundTrip(utcTime: bool, utcPps: bool, unused: nat)
    requires unused < 64
    ensures var f := 4 * unused + UtcFlagsByte(utcTime, utcPps);
      f < 0x100 && DateTimeFmt(f) == utcTime && PpsReference(f) == utcPps && f / 4 == unused
  {
    var b := UtcFlagsByte(utcTime, utcPps);
    var f := 4 * unused + b;
    assert f % 2 == b % 2 && f / 2 == 2 * unused + b / 2;
  }

  /** The codes whose case only sets the freshness bit and the valid flag:
      their src/dst/rlen are computed but nothing is ever copied. */
  const FLAG_ONLY_CODES: set<uint8> := {
    REPORT_ECEF_VELOCITY, REPORT_SW_VERSION, REPORT_SINGLE_POSITION,
    REPORT_IO_OPTIONS, REPORT_ENU_VELOCITY, REPORT_ECEF_POSITION_D,
    REPORT_DOUBLE_POSITION }

  /** The eight plain codes the outer switch has a case for. */
  const PLAIN_REPORT_CODES: set<uint8> := FLAG_ONLY_CODES + {REPORT_ECEF_POSITION_S}

  /** The report kind a plain (non-0x8f) code is filed under. */
  function KindOfCode(code: uint8): (k: ReportKind)
    requires code != REPORT_SUPER
    ensures k == UnknownReport <==> code !in PLAIN_REPORT_CODES
    ensures DispatchedKinds(code, 0) == {k}
  {
    if code == REPORT_ECEF_POSITION_S then EcefPositionS
    else if code == REPORT_ECEF_POSITION_D then EcefPositionD
    else if code == REPORT_ECEF_VELOCITY then EcefVelocity
    else if code == REPORT_SW_VERSION then SwVersion
    else if code == REPORT_SINGLE_POSITION then SinglePosition
    else if code == REPORT_DOUBLE_POSITION then DoublePosition
    else if code == REPORT_IO_OPTIONS then IoOptions
    else if code == REPORT_ENU_VELOCITY then EnuVelocity
    else UnknownReport
  }

  /** Reference table: the kinds whose flags a packet with this code and
      subcode sets. Every 0x8f packet also falls through into the unknown
      case, because the inner switch of update_report has no break after it. */
  function DispatchedKinds(code: uint8, subcode: uint8): set<ReportKind> {
    if code == 0x42 then {EcefPositionS}
    else if code == 0x83 then {EcefPositionD}
    else if code == 0x43 then {EcefVelocity}
    else if code == 0x45 then {SwVersion}
    else if code == 0x4a then {SinglePosition}
    else if code == 0x84 then {DoublePosition}
    else if code == 0x55 then {IoOptions}
    else if code == 0x56 then {EnuVelocity}
    else if code == 0x8f && subcode == 0xa2 then {UtcGpsTime, UnknownReport}
    else if code == 0x8f && subcode == 0xab then {PrimaryTime, UnknownReport}
    else if code == 0x8f && subcode == 0xac then {SecondaryTime, UnknownReport}
    else {UnknownReport}
  }

  /** Set kind k's freshness bit and valid flag. */
  function Mark(s: Store, k: ReportKind): Store {
    s.(updated := MarkFresh(s.updated, k), valid := s.valid + {k})
  }

  /** The 8F-AB layout read out of the buffer; nothing checks how many bytes
      the packet really had. */
  function DecodePrimaryTime(raw: seq<uint8>): (t: PrimaryTimeReport)
    requires |raw| == MAX_DATA
    ensures Be32Bytes(t.secondsOfWeek) == raw[2..6]
    ensures Be16Bytes(t.weekNumber) == raw[6..8]
    ensures Be16Bytes((t.utcOffset + 0x1_0000) % 0x1_0000) == raw[8..10]
    ensures t.flags == raw[10] && t.seconds == raw[11] && t.minutes == raw[12]
    ensures t.hours == raw[13] && t.day == raw[14] && t.month == raw[15]
    ensures Be16Bytes(t.year) == raw[16..18]
  {
    var d := ExtendedData(raw);
    PrimaryTimeReport(
      B4ToUint32(raw, 0, 'e'),
      B2ToUint16(raw, 4, 'e'),
      ToInt16(B2ToUint16(raw, 6, 'e')),
      d[8], d[9], d[10], d[11], d[12], d[13],
      B2ToUint16(raw, 14, 'e'))
  }

  /** The integer part of the 8F-AC layout. */
  function DecodeSecondaryTime(raw: seq<uint8>): (t: SecondaryTimeReport)
    requires |raw| == MAX_DATA
    ensures t.receiverMode == raw[2] && t.discipliningMode == raw[3]
    ensures t.selfSurveyProgress == raw[4]
    ensures Be32Bytes(t.holdoverDuration) == raw[5..9]
    ensures Be16Bytes(t.criticalAlarms) == raw[9..11]
    ensures Be16Bytes(t.minorAlarms) == raw[11..13]
    ensures t.gpsDecodingStatus == raw[13] && t.discipliningActivity == raw[14]
    ensures t.spareStatus1 == raw[15] && t.spareStatus2 == raw[16]
    ensures Be32Bytes(t.dacValue) == raw[25..29]
    ensures t.spare == raw[61..69]
  {
    var d := ExtendedData(raw);
    SecondaryTimeReport(
      d[0], d[1], d[2],
      B4ToUint32(raw, 3, 'e'),
      B2ToUint16(raw, 7, 'e'),
      B2ToUint16(raw, 9, 'e'),
      d[11], d[12], d[13], d[14],
      B4ToUint32(raw, 23, 'e'),
      d[59..67])
  }

  /** The inner switch of update_report on a 0x8f packet's subcode. */
  function DispatchSuper(s: Store, raw: seq<uint8>): (r: Store)
    requires |raw| == MAX_DATA
    ensures r.valid == s.valid + {KindOfSub(raw[1])}
    ensures forall k :: Fresh(r.updated, k) <==> Fresh(s.updated, k) || k == KindOfSub(raw[1])
    ensures r.updated & 0x7800 == s.updated & 0x7800
    ensures r.utcGpsTime == if raw[1] == REPORT_SUPER_UTC_GPS_TIME then UtcGpsTimeReport(raw[2]) else s.utcGpsTime
    ensures r.primaryTime == if raw[1] == REPORT_SUPER_PRIMARY_TIME then DecodePrimaryTime(raw) else s.primaryTime
    ensures r.secondaryTime ==
      if raw[1] == REPORT_SUPER_SECONDARY_TIME then DecodeSecondaryTime(raw) else s.secondaryTime
  {
    MarkFreshExact(s.updated, KindOfSub(raw[1]));
    var subcode := raw[1];
    if subcode == REPORT_SUPER_UTC_GPS_TIME then
      Mark(s, UtcGpsTime).(utcGpsTime := UtcGpsTimeReport(ExtendedData(raw)[0]))
    else if subcode == REPORT_SUPER_PRIMARY_TIME then
      Mark(s, PrimaryTime).(primaryTime := DecodePrimaryTime(raw))
    else if subcode == REPORT_SUPER_SECONDARY_TIME then
      Mark(s, SecondaryTime).(secondaryTime := DecodeSecondaryTime(raw))
    else
      Mark(s, UnknownReport)
  }

  /** The kind the inner switch files a 0x8f subcode under. */
  function KindOfSub(subcode: uint8): ReportKind {
    if subcode == REPORT_SUPER_UTC_GPS_TIME then UtcGpsTime
    else if subcode == REPORT_SUPER_PRIMARY_TIME then PrimaryTime
    else if subcode == REPORT_SUPER_SECONDARY_TIME then SecondaryTime
    else UnknownReport
  }

  /** update_report on a completed packet held in raw: a 0x8f packet runs the
      inner switch and then, having no break, the default case as well. */
  function Dispatch(s: Store, raw: seq<uint8>): (r: Store)
    requires |raw| == MAX_DATA
    ensures r.valid == s.valid + DispatchedKinds(raw[0], raw[1])
    ensures r.updated & 0x7800 == s.updated & 0x7800
    ensures r.utcGpsTime ==
      if raw[0] == REPORT_SUPER && raw[1] == REPORT_SUPER_UTC_GPS_TIME then UtcGpsTimeReport(raw[2]) else s.utcGpsTime
    ensures r.primaryTime ==
      if raw[0] == REPORT_SUPER && raw[1] == REPORT_SUPER_PRIMARY_TIME then DecodePrimaryTime(raw) else s.primaryTime
    ensures r.secondaryTime ==
      if raw[0] == REPORT_SUPER && raw[1] == REPORT_SUPER_SECONDARY_TIME then DecodeSecondaryTime(raw) else s.secondaryTime
  {
    if raw[0] == REPORT_SUPER then Mark(DispatchSuper(s, raw), UnknownReport)
    else Mark(s, KindOfCode(raw[0]))
  }

  /** The reference table agrees with the two switches of update_report. */
  lemma DispatchedKindsShape(code: uint8, subcode: uint8)
    ensures DispatchedKinds(code, subcode) ==
      if code == REPORT_SUPER then {KindOfSub(subcode), UnknownReport} else {KindOfCode(code)}
  {
  }

  /** The m_updated word after update_report: the bit of the kind the
      switch files the packet under and, for 0x8f, the unknown bit too. */
  lemma DispatchUpdated(s: Store, raw: seq<uint8>)
    requires |raw| == MAX_DATA
    ensures raw[0] == REPORT_SUPER ==>
      Dispatch(s, raw).updated == MarkFresh(MarkFresh(s.updated, KindOfSub(raw[1])), UnknownReport)
    ensures raw[0] != REPORT_SUPER ==> Dispatch(s, raw).updated == MarkFresh(s.updated, KindOfCode(raw[0]))
  {
    if raw[0] == REPORT_SUPER {
      assert DispatchSuper(s, raw).updated == MarkFresh(s.updated, KindOfSub(raw[1]));
    }
  }

  /** One kind's freshness bit after update_report. */
  lemma DispatchFreshAt(s: Store, raw: seq<uint8>, k: ReportKind)
    requires |raw| == MAX_DATA
    ensures Fresh(Dispatch(s, raw).updated, k) <==> Fresh(s.updated, k) || k in DispatchedKinds(raw[0], raw[1])
  {
    DispatchedKindsShape(raw[0], raw[1]);
    DispatchUpdated(s, raw);
    if raw[0] == REPORT_SUPER {
      var u := MarkFresh(s.updated, KindOfSub(raw[1]));
      MarkFreshAt(s.updated, KindOfSub(raw[1]), k);
      MarkFreshAt(u, UnknownReport, k);
    } else {
      MarkFreshAt(s.updated, KindOfCode(raw[0]), k);
    }
  }

  /** The freshness bits after update_report: exactly the old ones plus those
      of the dispatched kinds. */
  lemma DispatchFreshness(s: Store, raw: seq<uint8>)
    requires |raw| == MAX_DATA
    ensures forall k :: Fresh(Dispatch(s, raw).updated, k) <==> Fresh(s.updated, k) || k in DispatchedKinds(raw[0], raw[1])
  {
    forall k ensures Fresh(Dispatch(s, raw).updated, k) <==> Fresh(s.updated, k) || k in DispatchedKinds(raw[0], raw[1]) {
      DispatchFreshAt(s, raw, k);
    }
  }

  /** Every 0x8f packet, recognised or not, also sets the unknown bit and
      m_unknown.valid. */
  lemma SuperAlwaysUnknown(s: Store, raw: seq<uint8>)
    requires |raw| == MAX_DATA && raw[0] == REPORT_SUPER
    ensures Fresh(Dispatch(s, raw).updated, UnknownReport)
    ensures UnknownReport in Dispatch(s, raw).valid
  {
  }

  /** The seven flag-only codes set their own bit and valid flag and change
      no report field. */
  lemma FlagOnlyReports(s: Store, raw: seq<uint8>)
    requires |raw| == MAX_DATA && raw[0] in FLAG_ONLY_CODES
    ensures var r := Dispatch(s, raw);
      r.utcGpsTime == s.utcGpsTime && r.primaryTime == s.primaryTime
      && r.secondaryTime == s.secondaryTime
      && r.valid == s.valid + {KindOfCode(raw[0])}
      && KindOfCode(raw[0]) != UnknownReport
      && (Fresh(r.updated, UnknownReport) <==> Fresh(s.updated, UnknownReport))
      && Fresh(r.updated, KindOfCode(raw[0]))
      && forall k :: k != KindOfCode(raw[0]) ==> (Fresh(r.updated, k) <==> Fresh(s.updated, k))
  {
    DispatchedKindsShape(raw[0], raw[1]);
    DispatchFreshness(s, raw);
    assert raw[0] != REPORT_SUPER;
    assert KindOfCode(raw[0]) != UnknownReport;
  }

  /** The bytes of a primary timing report as the device sends them (after
      the 0x8f 0xab header), the partner of DecodePrimaryTime. */
  function EncodePrimaryTime(t: PrimaryTimeReport): (s: seq<uint8>)
    ensures |s| == 16
  {
    Be32Bytes(t.secondsOfWeek) + Be16Bytes(t.weekNumber)
      + Be16Bytes((t.utcOffset + 0x1_0000) % 0x1_0000)
      + [t.flags, t.seconds, t.minutes, t.hours, t.day, t.month]
      + Be16Bytes(t.year)
  }

  /** Decoding what the device encodes gives the report back, whatever
      follows it in the buffer. */
  lemma PrimaryTimeRoundTrip(t: PrimaryTimeReport, raw: seq<uint8>)
    requires |raw| == MAX_DATA
    requires raw[..18] == [REPORT_SUPER, REPORT_SUPER_PRIMARY_TIME] + EncodePrimaryTime(t)
    ensures DecodePrimaryTime(raw) == t
  {
    var e := EncodePrimaryTime(t);
    var u := DecodePrimaryTime(raw);
    var h := raw[..18];
    assert h[2..] == e;
    assert raw[2..6] == h[2..6] == e[0..4] == Be32Bytes(t.secondsOfWeek);
    Be32BytesInjective(u.secondsOfWeek, t.secondsOfWeek);
    assert raw[6..8] == h[6..8] == e[4..6] == Be16Bytes(t.weekNumber);
    Be16BytesInjective(u.weekNumber, t.weekNumber);
    assert raw[8..10] == h[8..10] == e[6..8] == Be16Bytes((t.utcOffset + 0x1_0000) % 0x1_0000);
    Be16BytesInjective((u.utcOffset + 0x1_0000) % 0x1_0000, (t.utcOffset + 0x1_0000) % 0x1_0000);
    Int16BitsInjective(u.utcOffset, t.utcOffset);
    assert raw[16..18] == h[16..18] == e[14..16] == Be16Bytes(t.year);
    Be16BytesInjective(u.year, t.year);
    assert e[8..14] == [t.flags, t.seconds, t.minutes, t.hours, t.day, t.month];
    assert raw[10] == h[10] == e[8];
    assert raw[11] == h[11] == e[9];
    assert raw[12] == h[12] == e[10];
    assert raw[13] == h[13] == e[11];
    assert raw[14] == h[14] == e[12];
    assert raw[15] == h[15] == e[13];
  }

  /** The example 8F-AB packet: 86400 s into week 1, 12:45:30 on 15 June
      2024, UTC offset 0, flags 3. */
  const EXAMPLE_PRIMARY_TIME := PrimaryTimeReport(86400, 1, 0, 3, 30, 45, 12, 15, 6, 2024)
  const EXAMPLE_PRIMARY_TIME_BYTES: seq<uint8> :=
    [0x00, 0x01, 0x51, 0x80, 0x00, 0x01, 0x00, 0x00,
     0x03, 0x1e, 0x2d, 0x0c, 0x0f, 0x06, 0x07, 0xe8]

  lemma PrimaryTimeExampleEncoding()
    ensures EncodePrimaryTime(EXAMPLE_PRIMARY_TIME) == EXAMPLE_PRIMARY_TIME_BYTES
  {
    assert Be32Bytes(86400) == [0x00, 0x01, 0x51, 0x80];
    assert Be16Bytes(1) == [0x00, 0x01] && Be16Bytes(0) == [0x00, 0x00];
    assert Be16Bytes(2024) == [0x07, 0xe8];
  }

  /** A buffer holding the example packet decodes to the example report. */
  lemma PrimaryTimeExample(raw: seq<uint8>)
    requires |raw| == MAX_DATA
    requires raw[..18] == [REPORT_SUPER, REPORT_SUPER_PRIMARY_TIME] + EXAMPLE_PRIMARY_TIME_BYTES
    ensures DecodePrimaryTime(raw) == EXAMPLE_PRIMARY_TIME
  {
    PrimaryTimeExampleEncoding();
    PrimaryTimeRoundTrip(EXAMPLE_PRIMARY_TIME, raw);
  }

  /** init_rpt: every freshness bit and valid flag cleared, the report
      fields kept as they were. */
  function ClearFlags(s: Store): (r: Store)
    ensures forall k :: !Fresh(r.updated, k) && k !in r.valid
    ensures r.utcGpsTime == s.utcGpsTime && r.primaryTime == s.primaryTime
    ensures r.secondaryTime == s.secondaryTime
  {
    s.(updated := 0, valid := {})
  }
}
