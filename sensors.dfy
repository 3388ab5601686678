/** The sensor-type tables and the decoder's output record. */
module Sensors {

  /** Display name of each sensor type, indexed by the type (0..7). */
  const SensorTypes: seq<string> :=
    ["Thermo", "Thermo/Hygro", "Rain(?)", "Wind(?)", "Thermo/Hygro/Baro",
     "Luminance(?)", "Pyrano(?)", "Kombi"]

  /** Number of data nibbles in a frame of each sensor type. */
  const SensorDataCount: seq<nat> := [5, 8, 5, 8, 12, 6, 6, 14]

  /** Every sensor type, the three low bits of the type nibble, has an entry in
      both tables, and each type's frame carries every nibble its reading is
      computed from: nibbles 0 to 3 for all types, up to 6 for types 1 and 4,
      up to 9 for type 4 and up to 11 for type 7. */
  lemma TablesCover(raw: nat)
    ensures var t := raw % 8;
      t < |SensorTypes| && t < |SensorDataCount| && SensorDataCount[t] > 3 &&
      (t == 1 || t == 4 ==> SensorDataCount[t] > 6) &&
      (t == 4 ==> SensorDataCount[t] > 9) &&
      (t == 7 ==> SensorDataCount[t] > 11)
  {
  }

  /** The decoded reading. temperature, humidity and wind are exact tenths
      (the source holds them as floats: 2.3 degrees is 23 here). */
  datatype DecoderOutput = DecoderOutput(
    sensorType: int,
    sensorTypeStr: string,
    address: int,
    temperature: int,
    humidity: int,
    wind: int,
    rainSum: int,
    rainDetect: int,
    pressure: int)

  /** The record before any frame has been decoded. */
  const EmptyOutput := DecoderOutput(0, "", 0, 0, 0, 0, 0, 0, 0)

  /** A type is one the tables know, and dec holds that type's nibbles. */
  predicate IsPayload(t: int, dec: seq<nat>)
  {
    0 <= t < 8 && |dec| == SensorDataCount[t] &&
    forall i :: 0 <= i < |dec| ==> dec[i] < 16
  }

  /** The reading a frame of type t with data nibbles dec stands for. The sign
      of the temperature is bit 3 of dec[0]; its magnitude is the decimal
      digits dec[3] dec[2] . dec[1]. */
  function Output(t: nat, dec: seq<nat>): DecoderOutput
    requires IsPayload(t, dec)
  {
    // dec[0] & 8 for a nibble
    var sign: int := if (dec[0] / 8) % 2 == 1 then -1 else 1;
    var temperature := (dec[3] * 100 + dec[2] * 10 + dec[1]) * sign;
    var humidity :=
      if t == 1 || t == 4 then dec[6] * 100 + dec[5] * 10 + dec[4]
      else if t == 7 then dec[5] * 100 + dec[4] * 10
      else 0;
    var wind := if t == 7 then dec[8] * 100 + dec[7] * 10 + dec[6] else 0;
    var rainSum := if t == 7 then dec[11] * 16 * 16 + dec[10] * 16 + dec[9] else 0;
    var pressure := if t == 4 then 200 + dec[9] * 100 + dec[8] * 10 + dec[7] else 0;
    // `dec[0]&2 == 1` binds as `dec[0] & (2 == 1)`, that is dec[0] & 0
    var rainDetect := 0;
    DecoderOutput(t, SensorTypes[t], dec[0] % 8, temperature, humidity, wind,
                  rainSum, rainDetect, pressure)
  }

  /** What each field of the reading is: the type and its name, the address
      in the three low bits of the first nibble, a temperature whose sign is
      bit 3 of that nibble, and the fields that only some types carry. */
  lemma OutputFields(t: nat, dec: seq<nat>)
    requires IsPayload(t, dec)
    ensures var r := Output(t, dec);
      r.sensorType == t && r.sensorTypeStr == SensorTypes[t] &&
      0 <= r.address < 8 && r.address == dec[0] % 8
    ensures var r := Output(t, dec);
      var magnitude: int := dec[3] * 100 + dec[2] * 10 + dec[1];
      (r.temperature == magnitude || r.temperature == -magnitude) &&
      (r.temperature < 0 <==> (dec[0] / 8) % 2 == 1 && magnitude != 0)
    ensures var r := Output(t, dec);
      (r.humidity != 0 ==> t == 1 || t == 4 || t == 7) &&
      (r.wind != 0 || r.rainSum != 0 ==> t == 7) &&
      (r.pressure != 0 <==> t == 4) &&
      r.rainDetect == 0
  {
  }

  /** Decimal digits of a magnitude in tenths, least significant first: the
      inverse of how the temperature is assembled when its nibbles are BCD
      digits. */
  function Digits(m: nat): (r: seq<nat>)
    ensures |r| == 3
  {
    [m % 10, (m / 10) % 10, m / 100]
  }

  /** Three decimal digits come back from the number they make. */
  lemma DigitsOf(d0: nat, d1: nat, d2: nat)
    requires d0 < 10 && d1 < 10 && d2 < 10
    ensures Digits(d2 * 100 + d1 * 10 + d0) == [d0, d1, d2]
  {
    var m := d2 * 100 + d1 * 10 + d0;
    assert m / 10 == d2 * 10 + d1;
  }

  /** A temperature whose nibbles are decimal digits gives those digits back. */
  lemma TemperatureDigits(t: nat, dec: seq<nat>)
    requires IsPayload(t, dec)
    requires dec[1] < 10 && dec[2] < 10 && dec[3] < 10
    ensures var temp := Output(t, dec).temperature;
      Digits(if temp < 0 then -temp else temp) == dec[1..4]
  {
    OutputFields(t, dec);
    var temp := Output(t, dec).temperature;
    assert (if temp < 0 then -temp else temp) == dec[3] * 100 + dec[2] * 10 + dec[1];
    DigitsOf(dec[1], dec[2], dec[3]);
    assert dec[1..4] == [dec[1], dec[2], dec[3]];
  }

  /** A Thermo/Hygro humidity whose nibbles are decimal digits gives them back. */
  lemma HumidityDigits(t: nat, dec: seq<nat>)
    requires IsPayload(t, dec) && (t == 1 || t == 4)
    requires dec[4] < 10 && dec[5] < 10 && dec[6] < 10
    ensures Digits(Output(t, dec).humidity) == dec[4..7]
  {
    assert Output(t, dec).humidity == dec[6] * 100 + dec[5] * 10 + dec[4];
    DigitsOf(dec[4], dec[5], dec[6]);
    assert dec[4..7] == [dec[4], dec[5], dec[6]];
  }
}
