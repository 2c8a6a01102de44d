/** Wire constants, fixed-width integer types and the report bit set of the
    Trimble Standard Interface Protocol library (tsip.h). */
module Protocol {

  type uint8 = x: int | 0 <= x < 0x100
  type uint16 = x: int | 0 <= x < 0x1_0000
  type uint32 = x: int | 0 <= x < 0x1_0000_0000
  type int16 = x: int | -0x8000 <= x < 0x8000

  /** Frame markers: DLE opens a frame and escapes itself, DLE ETX closes it. */
  const DLE: uint8 := 0x10
  const ETX: uint8 := 0x03

  /** Capacity of the report buffer and of the command buffer. */
  const MAX_DATA: nat := 1024
  const MAX_COMMAND: nat := 64

  // Report codes and super-report subcodes.
  const REPORT_ECEF_POSITION_S: uint8 := 0x42
  const REPORT_ECEF_VELOCITY: uint8 := 0x43
  const REPORT_SW_VERSION: uint8 := 0x45
  const REPORT_SINGLE_POSITION: uint8 := 0x4a
  const REPORT_IO_OPTIONS: uint8 := 0x55
  const REPORT_ENU_VELOCITY: uint8 := 0x56
  const REPORT_ECEF_POSITION_D: uint8 := 0x83
  const REPORT_DOUBLE_POSITION: uint8 := 0x84
  const REPORT_SUPER: uint8 := 0x8f
  const REPORT_SUPER_UTC_GPS_TIME: uint8 := 0xa2
  const REPORT_SUPER_PRIMARY_TIME: uint8 := 0xab
  const REPORT_SUPER_SECONDARY_TIME: uint8 := 0xac

  // Super-command subcodes.
  const COMMAND_SAVE_EEPROM: uint8 := 0x4c
  const COMMAND_SELF_SURVEY: uint8 := 0xa6
  const COMMAND_SET_SELF_SURVEY_PARAMS: uint8 := 0xa9

  // Command codes.
  const COMMAND_COLD_FACTORY_RESET: uint8 := 0x1e
  const COMMAND_REQUEST_SW_VERSION: uint8 := 0x1f
  const COMMAND_WARM_RESET_SELF_TEST: uint8 := 0x25
  const COMMAND_SET_IO_OPTIONS: uint8 := 0x35
  const COMMAND_REQUEST_POSITION: uint8 := 0x37
  const COMMAND_SUPER_PACKET: uint8 := 0x8e

  /** The report kinds that own a freshness bit in m_updated and a valid flag. */
  datatype ReportKind =
    | EcefPositionS | EcefPositionD | EcefVelocity | SwVersion
    | SinglePosition | DoublePosition | IoOptions | EnuVelocity
    | PrimaryTime | SecondaryTime | UtcGpsTime | UnknownReport

  /** Position of each kind's bit in the m_updated bit-field union: bits 0-10
      in declaration order, four unused bits, then the unknown bit. */
  function Bit(k: ReportKind): (b: bv16)
    ensures b != 0 && b & (b - 1) == 0
    ensures b & 0x7800 == 0
  {
    match k
    case EcefPositionS => 0x0001
    case EcefPositionD => 0x0002
    case EcefVelocity => 0x0004
    case SwVersion => 0x0008
    case SinglePosition => 0x0010
    case DoublePosition => 0x0020
    case IoOptions => 0x0040
    case EnuVelocity => 0x0080
    case PrimaryTime => 0x0100
    case SecondaryTime => 0x0200
    case UtcGpsTime => 0x0400
    case UnknownReport => 0x8000
  }

  /** Distinct kinds own distinct bits. */
  lemma BitInjective(j: ReportKind, k: ReportKind)
    ensures Bit(j) & Bit(k) != 0 <==> j == k
  {
  }


  /** A kind is fresh when its bit of m_updated is set. */
  predicate Fresh(updated: bv16, k: ReportKind) {
    updated & Bit(k) != 0
  }

  /** Sets the bit of kind k, as `m_updated.report.<kind> = 1` does. */
  function MarkFresh(updated: bv16, k: ReportKind): (r: bv16)
    ensures Fresh(r, k)
    ensures r & 0x7800 == updated & 0x7800
  {
    updated | Bit(k)
  }

  lemma MarkFreshAt(updated: bv16, k: ReportKind, j: ReportKind)
    ensures Fresh(MarkFresh(updated, k), j) <==> Fresh(updated, j) || j == k
  {
    BitInjective(j, k);
  }

  /** Setting one kind's bit makes exactly that kind fresh in addition. */
  lemma MarkFreshExact(updated: bv16, k: ReportKind)
    ensures forall j :: Fresh(MarkFresh(updated, k), j) <==> Fresh(updated, j) || j == k
  {
    forall j ensures Fresh(MarkFresh(updated, k), j) <==> Fresh(updated, j) || j == k {
      MarkFreshAt(updated, k, j);
    }
  }

  /** m_updated.value == 0 means that no report is fresh. */
  lemma NothingFreshAtZero(k: ReportKind)
    ensures !Fresh(0, k)
  {
  }
}
