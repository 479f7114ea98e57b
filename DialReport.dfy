/**
 * The radial-controller input report HID_DialReport_Data_t
 * (Esp32_BLE_HapticDial.hpp): a union of one uint16_t word with the bit-fields
 * `button : 1` and `rotation : 15`. The union is modelled as explicit packing
 * of the bit-fields into the two bytes that `sendReport` hands to the
 * transport, and unpacking of those two bytes.
 */
module DialReport {
  import opened CTypes

  /** sizeof(HID_DialReport_Data_t): the bit-fields fill one uint16_t. */
  const ReportLength: nat := 2

  /** Bounds of the dial field declared by the report descriptor, in tenths of a degree. */
  const MinRotation: int := -3600
  const MaxRotation: int := 3600

  type uint15 = x: int | 0 <= x < 0x8000

  /** The two bit-fields of the union. */
  datatype Report = Report(button: bool, rotation: uint15)

  /**
   * `report.button = _button_status; report.rotation = _dial_degree;`:
   * storing a uint16_t in a 15-bit unsigned bit-field keeps the value modulo 2^15.
   */
  function FromState(button: bool, dialDegree: uint16): (r: Report)
    ensures r.button == button
    ensures (dialDegree - r.rotation) % 0x8000 == 0
  {
    Report(button, dialDegree % 0x8000)
  }

  /**
   * The union's byte view: the compiler allocates bit-fields from the least
   * significant bit, so the button is bit 0 and the rotation bits 1-15 of the
   * word, which the little-endian target stores low byte first.
   */
  function Pack(r: Report): (bytes: seq<uint8>)
    ensures |bytes| == ReportLength
    ensures UnsignedLE(bytes) == 2 * r.rotation + (if r.button then 1 else 0)
  {
    var word := 2 * r.rotation + (if r.button then 1 else 0);
    [word % 0x100, word / 0x100]
  }

  /** Reads the bit-fields back from a received report; anything but two bytes is rejected. */
  function Unpack(bytes: seq<uint8>): (r: Option<Report>)
    ensures r.Some? <==> |bytes| == ReportLength
  {
    if |bytes| != ReportLength then None
    else
      var word: int := bytes[0] as int + 0x100 * bytes[1] as int;
      Some(Report(word % 2 == 1, word / 2))
  }

  /** Where each bit-field lands in the two bytes. */
  lemma PackLayout(r: Report)
    ensures Pack(r)[0] % 2 == (if r.button then 1 else 0)
    ensures Pack(r)[0] / 2 == r.rotation % 0x80
    ensures Pack(r)[1] == r.rotation / 0x80
  {
  }

  /** Unpacking a packed report gives back both bit-fields. */
  lemma PackUnpack(r: Report)
    ensures Unpack(Pack(r)) == Some(r)
  {
  }

  /** Every two-byte report is the packing of the bit-fields it unpacks to. */
  lemma UnpackPack(bytes: seq<uint8>)
    requires |bytes| == ReportLength
    ensures Pack(Unpack(bytes).value) == bytes
  {
  }

  /** What the dial state puts on the wire: the button and the dial value modulo 2^15. */
  lemma StateRoundTrip(button: bool, dialDegree: uint16)
    ensures Unpack(Pack(FromState(button, dialDegree))) == Some(Report(button, dialDegree % 0x8000))
  {
    PackUnpack(FromState(button, dialDegree));
  }

  /** The signed value a host reads from the 15-bit field. */
  function SignExtend15(field: uint15): (v: int)
    ensures -0x4000 <= v < 0x4000
    ensures (field - v) % 0x8000 == 0
  {
    if field < 0x4000 then field else field - 0x8000
  }

  /**
   * A signed rotation stored as its 16-bit two's-complement value, packed into
   * the 15-bit field and sign-extended, comes back unchanged exactly when it
   * fits in 15 signed bits.
   */
  lemma RotationRecoveredIff(button: bool, v: int16)
    ensures SignExtend15(FromState(button, Int16ToUint16(v)).rotation) == v <==> -0x4000 <= v < 0x4000
  {
  }

  /** Every rotation within the descriptor's logical bounds survives the wire. */
  lemma RotationInBoundsRecovered(button: bool, v: int)
    requires MinRotation <= v <= MaxRotation
    ensures Unpack(Pack(FromState(button, Int16ToUint16(v)))).Some?
    ensures SignExtend15(Unpack(Pack(FromState(button, Int16ToUint16(v)))).value.rotation) == v
  {
    StateRoundTrip(button, Int16ToUint16(v));
    RotationRecoveredIff(button, v);
  }
}
