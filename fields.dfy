/** Big-endian integer fields of a report buffer (tsip.cpp b2_to_uint16 and
    b4_to_uint32) and the overlay views of the report packet union. */
module Fields {
  import opened Protocol

  /** Two bytes, most significant first. */
  function Be16(hi: uint8, lo: uint8): (x: uint16)
    ensures x / 256 == hi && x % 256 == lo
  {
    hi * 256 + lo
  }

  /** Four bytes, most significant first. */
  function Be32(b0: uint8, b1: uint8, b2: uint8, b3: uint8): (x: uint32)
    ensures x / 0x1_0000 == Be16(b0, b1) && x % 0x1_0000 == Be16(b2, b3)
  {
    Be16(b0, b1) * 0x1_0000 + Be16(b2, b3)
  }

  /** The two bytes that the device sends for a 16-bit field. */
  function Be16Bytes(x: uint16): (s: seq<uint8>)
    ensures |s| == 2
  {
    [x / 256, x % 256]
  }

  /** The four bytes that the device sends for a 32-bit field. */
  function Be32Bytes(x: uint32): (s: seq<uint8>)
    ensures |s| == 4
  {
    Be16Bytes(x / 0x1_0000) + Be16Bytes(x % 0x1_0000)
  }

  lemma Be16RoundTrip(x: uint16)
    ensures Be16(Be16Bytes(x)[0], Be16Bytes(x)[1]) == x
  {
    assert x == x / 256 * 256 + x % 256;
  }

  lemma Be16BytesInjective(x: uint16, y: uint16)
    requires Be16Bytes(x) == Be16Bytes(y)
    ensures x == y
  {
    Be16RoundTrip(x);
    Be16RoundTrip(y);
  }

  lemma Be32BytesInjective(x: uint32, y: uint32)
    requires Be32Bytes(x) == Be32Bytes(y)
    ensures x == y
  {
    Be32RoundTrip(x);
    Be32RoundTrip(y);
  }

  /** Two 16-bit signed values with the same bits are equal. */
  lemma Int16BitsInjective(x: int16, y: int16)
    requires (x + 0x1_0000) % 0x1_0000 == (y + 0x1_0000) % 0x1_0000
    ensures x == y
  {
  }

  lemma Be16Injective(a: uint8, b: uint8, c: uint8, d: uint8)
    requires Be16(a, b) == Be16(c, d)
    ensures a == c && b == d
  {
    assert a == Be16(a, b) / 256 == c;
    assert b == Be16(a, b) % 256 == d;
  }

  lemma Be32RoundTrip(x: uint32)
    ensures var s := Be32Bytes(x); Be32(s[0], s[1], s[2], s[3]) == x
  {
    var s := Be32Bytes(x);
    Be16RoundTrip(x / 0x1_0000);
    Be16RoundTrip(x % 0x1_0000);
    assert Be16(s[0], s[1]) == x / 0x1_0000;
    assert Be16(s[2], s[3]) == x % 0x1_0000;
  }

  lemma Be32Injective(a: seq<uint8>, b: seq<uint8>)
    requires |a| == 4 && |b| == 4
    requires Be32(a[0], a[1], a[2], a[3]) == Be32(b[0], b[1], b[2], b[3])
    ensures a == b
  {
    var x := Be32(a[0], a[1], a[2], a[3]);
    assert Be16(a[0], a[1]) == x / 0x1_0000 == Be16(b[0], b[1]);
    assert Be16(a[2], a[3]) == x % 0x1_0000 == Be16(b[2], b[3]);
    Be16Injective(a[0], a[1], b[0], b[1]);
    Be16Injective(a[2], a[3], b[2], b[3]);
  }

  /** A UINT16 stored into the SINT16 utc_offset field: the host's two's
      complement reading of the same 16 bits. */
  function ToInt16(x: uint16): (r: int16)
    ensures (r + 0x1_0000) % 0x1_0000 == x
    ensures r < 0 <==> x >= 0x8000
  {
    if x < 0x8000 then x else x - 0x1_0000
  }

  // Overlay views of the report packet union over its raw buffer.

  /** report.data[i] aliases raw.data[i + 1]. */
  function ReportData(raw: seq<uint8>): (d: seq<uint8>)
    requires |raw| >= 1
    ensures |d| == |raw| - 1 && forall i :: 0 <= i < |d| ==> d[i] == raw[i + 1]
  {
    raw[1..]
  }

  /** extended.data[i] aliases raw.data[i + 2]; extended.subcode is raw.data[1]. */
  function ExtendedData(raw: seq<uint8>): (d: seq<uint8>)
    requires |raw| >= 2
    ensures |d| == |raw| - 2 && forall i :: 0 <= i < |d| ==> d[i] == raw[i + 2]
  {
    raw[2..]
  }

  /** b2_to_uint16(bb, r_code): the big-endian 16-bit value at offset bb
      of the `report` view for 'r', of the `extended` view for 'e', and 0 for
      any other code. */
  function B2ToUint16(raw: seq<uint8>, bb: int, rCode: char): (x: uint16)
    requires |raw| == MAX_DATA
    requires 0 <= bb
    requires rCode == 'r' ==> bb + 2 < MAX_DATA
    requires rCode == 'e' ==> bb + 3 < MAX_DATA
    ensures rCode == 'r' ==> Be16Bytes(x) == raw[bb + 1..bb + 3]
    ensures rCode == 'e' ==> Be16Bytes(x) == raw[bb + 2..bb + 4]
    ensures rCode != 'r' && rCode != 'e' ==> x == 0
  {
    if rCode == 'r' then
      var d := ReportData(raw);
      Be16(d[bb], d[bb + 1])
    else if rCode == 'e' then
      var d := ExtendedData(raw);
      Be16(d[bb], d[bb + 1])
    else
      0
  }

  /** b4_to_uint32(bb, r_code): the big-endian 32-bit value at offset bb of
      the view chosen by r_code, and 0 for any other code. */
  function B4ToUint32(raw: seq<uint8>, bb: int, rCode: char): (x: uint32)
    requires |raw| == MAX_DATA
    requires 0 <= bb
    requires rCode == 'r' ==> bb + 4 < MAX_DATA
    requires rCode == 'e' ==> bb + 5 < MAX_DATA
    ensures rCode == 'r' ==> Be32Bytes(x) == raw[bb + 1..bb + 5]
    ensures rCode == 'e' ==> Be32Bytes(x) == raw[bb + 2..bb + 6]
    ensures rCode != 'r' && rCode != 'e' ==> x == 0
  {
    if rCode == 'r' then
      var d := ReportData(raw);
      Be32Of(d, bb)
    else if rCode == 'e' then
      var d := ExtendedData(raw);
      Be32Of(d, bb)
    else
      0
  }

  /** The 32-bit big-endian value at offset bb of d; its bytes are d[bb..bb+4]. */
  function Be32Of(d: seq<uint8>, bb: nat): (x: uint32)
    requires bb + 4 <= |d|
    ensures Be32Bytes(x) == d[bb..bb + 4]
  {
    var x := Be32(d[bb], d[bb + 1], d[bb + 2], d[bb + 3]);
    Be32BytesOf(d[bb], d[bb + 1], d[bb + 2], d[bb + 3]);
    x
  }

  /** Encoding a decoded 32-bit value gives back its four bytes. */
  lemma Be32BytesOf(b0: uint8, b1: uint8, b2: uint8, b3: uint8)
    ensures Be32Bytes(Be32(b0, b1, b2, b3)) == [b0, b1, b2, b3]
  {
    var x := Be32(b0, b1, b2, b3);
    assert x / 0x1_0000 == Be16(b0, b1);
    assert x % 0x1_0000 == Be16(b2, b3);
  }
}
