/**
 * The "flashed ATC" thermometer: its classification by a marker in the hex
 * payload, the raw fields at byte offsets 10 to 15, and the reading that is
 * published as device state.
 */
module Atc {
  import opened Wrappers
  import opened JsNumber
  import opened JsText
  import opened JsObject
  import opened HexCodec

  /** The inbound measurement, after `JSON.parse`: `data` may be absent. */
  datatype Measurement = Measurement(data: Option<string>, rssi: Option<int>, ts: Option<string>)

  /** The case-sensitive marker of the alternate firmware's service data. */
  const Marker: string := "10161A18A4C"

  /** `data.indexOf("10161A18A4C") !== -1`. */
  predicate IsFlashedAtc(data: string) {
    IndexOf(data, Marker) != -1
  }

  /** Classification is a plain substring test, at any character offset. */
  lemma FlashedAtcIsSubstring(data: string)
    ensures IsFlashedAtc(data) <==> exists i :: 0 <= i <= |data| - |Marker| && OccursAt(data, Marker, i)
  {
  }

  /** The test is case-sensitive: a payload with no upper-case letters
      (such as lower-case hex) is never classified. */
  lemma LowerCasePayloadNotFlashedAtc(data: string)
    requires forall k :: 0 <= k < |data| ==> !IsUpper(data[k])
    ensures !IsFlashedAtc(data)
  {
    if IsFlashedAtc(data) {
      var i := IndexOf(data, Marker);
      MarkerHasUpper(data, i);
      assert false;
    }
  }

  lemma MarkerHasUpper(data: string, i: int)
    requires OccursAt(data, Marker, i)
    ensures 0 <= i + 5 < |data| && IsUpper(data[i + 5])
  {
    assert data[i..i + |Marker|][5] == Marker[5];
  }

  /** The raw integer fields: temperature in tenths of a degree Celsius,
      humidity and battery in percent, voltage in millivolts. */
  datatype AtcFields = AtcFields(temperature: Num, humidity: Num, battery: Num, voltage: Num)

  /** The field extraction of app.js on the numbers `hexToBytes` returned.
      None when fewer than 16 numbers exist: `intToHex(undefined)` throws. */
  function DecodeAtc(bytes: seq<Num>): (r: Option<AtcFields>)
    ensures r.None? <==> |bytes| < 16
  {
    if |bytes| < 16 then None
    else Some(AtcFields(
      ParseIntHex(IntToHex(bytes[10]) + IntToHex(bytes[11])),
      ParseIntHex(IntToHex(bytes[12])),
      ParseIntHex(IntToHex(bytes[13])),
      ParseIntHex(IntToHex(bytes[14]) + IntToHex(bytes[15]))))
  }

  predicate IsByte(n: Num) {
    n.Int? && 0 <= n.value < 256
  }

  /** On bytes, the fields are big-endian 16-bit values at 10-11 and 14-15
      and single bytes at 12 and 13. */
  lemma DecodeAtcBytes(bytes: seq<Num>)
    requires |bytes| >= 16
    requires IsByte(bytes[10]) && IsByte(bytes[11]) && IsByte(bytes[12])
    requires IsByte(bytes[13]) && IsByte(bytes[14]) && IsByte(bytes[15])
    ensures DecodeAtc(bytes) == Some(AtcFields(
      Int(256 * bytes[10].value + bytes[11].value),
      bytes[12], bytes[13],
      Int(256 * bytes[14].value + bytes[15].value)))
  {
    var r := DecodeAtc(bytes).value;
    WordOfBytes(bytes[10], bytes[11]);
    assert r.temperature == Int(256 * bytes[10].value + bytes[11].value);
    ByteOfByte(bytes[12]);
    assert r.humidity == bytes[12];
    ByteOfByte(bytes[13]);
    assert r.battery == bytes[13];
    WordOfBytes(bytes[14], bytes[15]);
    assert r.voltage == Int(256 * bytes[14].value + bytes[15].value);
  }

  lemma WordOfBytes(hi: Num, lo: Num)
    requires IsByte(hi) && IsByte(lo)
    ensures ParseIntHex(IntToHex(hi) + IntToHex(lo)) == Int(256 * hi.value + lo.value)
  {
    IntToHexPair(hi.value, lo.value);
  }

  lemma ByteOfByte(b: Num)
    requires IsByte(b)
    ensures ParseIntHex(IntToHex(b)) == b
  {
    IntToHexParse(b.value);
  }

  /** On a hex payload of at least 31 digits the decode succeeds on the parsed
      bytes (with 31 digits byte 15 is the lone last digit): temperature and voltage are the big-endian words of bytes 10-11
      and 14-15, humidity and battery are bytes 12 and 13 (see ByteOfPayload
      and PayloadWord for the digits each byte and word is read from). */
  lemma DecodeAtcPayload(hex: string, bs: seq<Num>)
    requires AllHex(hex) && |hex| >= 31 && bs == HexBytes(hex)
    ensures |bs| >= 16 && IsByte(bs[10]) && IsByte(bs[11]) && IsByte(bs[12]) && IsByte(bs[13])
      && IsByte(bs[14]) && IsByte(bs[15])
    ensures DecodeAtc(bs) == Some(AtcFields(
        Int(256 * bs[10].value + bs[11].value), bs[12], bs[13],
        Int(256 * bs[14].value + bs[15].value)))
  {
    PayloadBytes(hex);
    DecodeAtcBytes(bs);
  }

  lemma PayloadBytes(hex: string)
    requires AllHex(hex) && |hex| >= 31
    ensures var bs := HexBytes(hex);
      |bs| >= 16 && IsByte(bs[10]) && IsByte(bs[11]) && IsByte(bs[12]) && IsByte(bs[13])
      && IsByte(bs[14]) && IsByte(bs[15])
  {
    PayloadIsByte(hex, 10);
    PayloadIsByte(hex, 11);
    PayloadIsByte(hex, 12);
    PayloadIsByte(hex, 13);
    PayloadIsByte(hex, 14);
    PayloadIsByte(hex, 15);
  }

  lemma PayloadIsByte(hex: string, k: nat)
    requires AllHex(hex) && 2 * k < |hex|
    ensures k < |HexBytes(hex)| && IsByte(HexBytes(hex)[k])
  {
    ByteOfDigits(hex, k);
  }

  /** Byte k of an all-hex payload is the number spelt by digits 2k and 2k+1. */
  lemma ByteOfPayload(hex: string, k: nat)
    requires AllHex(hex) && 2 * k + 2 <= |hex|
    ensures k < |HexBytes(hex)|
    ensures HexBytes(hex)[k] == Int(HexValue(hex[2 * k..2 * k + 2]))
    ensures HexValue(hex[2 * k..2 * k + 2]) < 256
  {
    HexBytesAt(hex, k);
    ParseChunk(hex, k);
    TwoDigitValue(hex[2 * k..2 * k + 2]);
  }

  /** The big-endian word of bytes k and k+1 is the number spelt by digits
      2k to 2k+3, so temperature is read from digits 20-23 and voltage from
      28-31. */
  lemma PayloadWord(hex: string, k: nat)
    requires AllHex(hex) && 2 * k + 4 <= |hex|
    ensures k + 1 < |HexBytes(hex)| && IsByte(HexBytes(hex)[k]) && IsByte(HexBytes(hex)[k + 1])
    ensures 256 * HexBytes(hex)[k].value + HexBytes(hex)[k + 1].value == HexValue(hex[2 * k..2 * k + 4])
  {
    var i := 2 * k;
    ByteOfPayload(hex, k);
    ByteOfPayload(hex, k + 1);
    assert 2 * (k + 1) == i + 2 && 2 * (k + 1) + 2 == i + 4;
    WordDigits(hex, i);
  }

  /** Four hex digits read as one number are two bytes joined big-endian. */
  lemma WordDigits(hex: string, i: nat)
    requires AllHex(hex) && i + 4 <= |hex|
    ensures HexValue(hex[i..i + 4]) == 256 * HexValue(hex[i..i + 2]) + HexValue(hex[i + 2..i + 4])
    ensures HexValue(hex[i..i + 4]) < 65536
  {
    JoinDigits(hex[i..i + 2], hex[i + 2..i + 4]);
    assert hex[i..i + 2] + hex[i + 2..i + 4] == hex[i..i + 4];
    assert Pow16(4) == 65536;
  }

  lemma TwoDigitValue(z: string)
    requires AllHex(z) && |z| == 2
    ensures HexValue(z) == 16 * DigitValue(z[0]) + DigitValue(z[1])
  {
    assert z[..1] == [z[0]];
    assert [z[0]][..0] == [];
  }

  lemma JoinDigits(x: string, y: string)
    requires AllHex(x) && AllHex(y) && |y| == 2
    ensures AllHex(x + y) && HexValue(x + y) == 256 * HexValue(x) + HexValue(y)
  {
    HexValueAppend(x, y);
    assert Pow16(|y|) == 256 by {
      assert Pow16(2) == 256;
    }
    ScaleBy256(HexValue(x + y), HexValue(x), Pow16(|y|), HexValue(y));
  }

  /** The floating-point quantities derived from temperature and humidity. */
  datatype Derived = Derived(equilibriumVaporPressure: Float, dewPoint: Float, absoluteHumidity: Float)

  const AtcType: string := "ACT_MI_TEMP"

  /** The published reading `out`; temperature and voltage stay raw integers. */
  datatype AtcState = AtcState(
    temperature: Num, humidity: Num, battery: Num, voltage: Num,
    equilibriumVaporPressure: Float, dewPoint: Float, absoluteHumidity: Float,
    mac: string, rssi: Option<int>, deviceType: string, updated: Option<string>)

  /** The reading app.js builds from the decoded fields. */
  function Reading(f: AtcFields, d: Derived, mac: string, m: Measurement): (out: AtcState)
    ensures out.deviceType == AtcType && out.mac == mac
  {
    AtcState(f.temperature, f.humidity, f.battery, f.voltage,
      d.equilibriumVaporPressure, d.dewPoint, d.absoluteHumidity,
      mac, m.rssi, AtcType, m.ts)
  }

  /** `!!out[attr]`. Dividing a raw temperature by 10 or a raw voltage by 1000
      keeps it falsy exactly when it is 0 or NaN. A name that is not a field
      of `out` is looked up on `Object.prototype`. */
  predicate AttributeTruthy(out: AtcState, attr: string) {
    match attr
    case "temperature" => out.temperature.Truthy()
    case "humidity" => out.humidity.Truthy()
    case "battery" => out.battery.Truthy()
    case "voltage" => out.voltage.Truthy()
    case "equilibriumVaporPressure" => out.equilibriumVaporPressure.Truthy()
    case "dewPoint" => out.dewPoint.Truthy()
    case "absoluteHumidity" => out.absoluteHumidity.Truthy()
    case "mac" => out.mac != ""
    case "rssi" => out.rssi.Some? && out.rssi.value != 0
    case "type" => out.deviceType != ""
    case "updated" => out.updated.Some? && out.updated.value != ""
    case _ => attr in PrototypeProperties
  }

  /** The property names of `out`. */
  const OutFields: set<string> := {
    "temperature", "humidity", "battery", "voltage", "equilibriumVaporPressure",
    "dewPoint", "absoluteHumidity", "mac", "rssi", "type", "updated"
  }

  /** The raw integer fields are falsy exactly at 0 and NaN, so a reading of
      exactly 0 (0.0 degrees, 0 % or 0 mV) is treated as absent. */
  lemma AttributeTruthyRaw(out: AtcState)
    ensures AttributeTruthy(out, "temperature") <==> out.temperature != Int(0) && out.temperature != NaN
    ensures AttributeTruthy(out, "humidity") <==> out.humidity != Int(0) && out.humidity != NaN
    ensures AttributeTruthy(out, "battery") <==> out.battery != Int(0) && out.battery != NaN
    ensures AttributeTruthy(out, "voltage") <==> out.voltage != Int(0) && out.voltage != NaN
  {
  }

  /** A name that is not a property of `out` is truthy exactly when every
      object inherits it. */
  lemma AttributeTruthyNonField(out: AtcState, attr: string)
    requires attr !in OutFields
    ensures AttributeTruthy(out, attr) <==> attr in PrototypeProperties
  {
  }
}
