/** The decoder object: it is fed one pulse at a time, buffers the bits of a
    frame, and decodes the frame when a pulse that is not a bit ends it. Each
    method is proved against the functions of the modules it imports. */
module DecoderImpl {
  import opened Bits
  import opened Sensors
  import opened Frame
  import opened DecoderMachine

  /** Pulse length bounds for a sample period of 100 microseconds. */
  const DefaultMinLen: int := 5
  const DefaultMaxLen: int := 14

  class Decoder {
    var syncCount: int
    const minLen: int
    const maxLen: int
    var data: seq<Bit>
    var decoderState: DecoderState
    var decoderOutput: DecoderOutput

    /** The state the functional model speaks about. */
    function View(): Machine
      reads this
    {
      Machine(syncCount, data, decoderState, decoderOutput)
    }

    predicate Valid()
      reads this
    {
      Invariant(View())
    }

    /** A new decoder waits for a sync train with an empty buffer. The record
        is given a value here, but nothing is promised about it: the source
        leaves it uninitialised until the first frame is decoded. */
    constructor (minLen: int := DefaultMinLen, maxLen: int := DefaultMaxLen)
      ensures this.minLen == minLen && this.maxLen == maxLen
      ensures decoderState == WAIT && syncCount == 0 && data == []
      ensures Valid()
    {
      this.minLen := minLen;
      this.maxLen := maxLen;
      decoderState := WAIT;
      syncCount := 0;
      data := [];
      decoderOutput := EmptyOutput;
    }

    /** Feed one pulse. The new state and the answer are those of Step; a
        true answer means the record now holds the frame just decoded, and
        a false one leaves the record as it was. */
    method Pulse(len: int, lo: int) returns (hasNewValue: bool)
      requires Valid()
      modifies this
      ensures Valid()
      ensures (View(), hasNewValue) == Step(minLen, maxLen, old(View()), Measurement(len, lo))
      ensures hasNewValue ==>
        old(decoderState) == DATA &&
        DecodeFrame(old(data) + [1]) == Accepted(GetDecoderOutput(), DecodeFrame(old(data) + [1]).rest)
      ensures !hasNewValue ==> GetDecoderOutput() == old(GetDecoderOutput())
    {
      hasNewValue := false;
      var val := BitVal(minLen, maxLen, len, lo);
      if -1 == val {
        if DATA == decoderState {
          data := data + [1];
          hasNewValue := Decode();
          data := [];
        }
        decoderState := WAIT;
      } else if WAIT == decoderState {
        if 0 == val {
          syncCount := 1;
          decoderState := SYNC;
        }
      } else if SYNC == decoderState {
        if 0 == val {
          syncCount := syncCount + 1;
        } else if 1 == val && syncCount > 6 {
          syncCount := 0;
          decoderState := DATA;
        }
      } else if DATA == decoderState {
        data := data + [val];
      }
    }

    /** Take the num oldest bits off the buffer as a value, the oldest bit
        being bit 0; if fewer than num are buffered, take nothing and give 0. */
    method PopBits(num: nat) returns (val: nat)
      modifies this`data
      ensures (val, data) == Pop(old(data), num)
      ensures val < Pow2(num)
    {
      if |data| < num {
        return 0;
      }
      ghost var s := data;
      val := 0;
      var i := 0;
      while i < num
        invariant 0 <= i <= num <= |s|
        invariant data == s[i..]
        invariant val == Value(s[..i])
      {
        assert s[..i + 1] == s[..i] + [s[i]];
        ValueSnoc(s[..i], s[i]);
        val := val + data[0] * Pow2(i);
        data := data[1..];
        i := i + 1;
      }
      assert s[..num] == s[..i];
    }

    /** Take the marker bit that ends a nibble; true exactly when it is 1. */
    method ExpectEon() returns (ok: bool)
      modifies this`data
      ensures ok == (Pop(old(data), 1).0 == 1) && data == Pop(old(data), 1).1
    {
      var marker := PopBits(1);
      ok := marker == 1;
    }

    /** Decode the buffered frame. It is consumed exactly as far as
        DecodeFrame reads; the record is overwritten only when the frame is
        accepted, and then with the reading DecodeFrame gives. */
    method Decode() returns (ok: bool)
      modifies this`data, this`decoderOutput
      ensures var result := DecodeFrame(old(data));
        ok == result.Accepted? && data == result.rest &&
        decoderOutput == (if ok then result.output else old(decoderOutput))
    {
      ghost var result := DecodeFrame(data);
      var raw := PopBits(4);
      var sensorType := raw % 8;  // raw & 7
      ghost var s1 := data;
      var eon := ExpectEon();
      DecodeFrameStep(old(data), raw, s1, Pop(s1, 1).0, data);
      if !eon {
        return false;
      }
      ghost var s2 := data;

      var dec, check, sum;
      ok, dec, check, sum := ReadData(sensorType);
      if !ok {
        DecodeBodyStopped(sensorType, s2, ReadNibbles(s2, SensorDataCount[sensorType]).nibbles, data);
        assert result == Rejected(data);
        return false;
      }
      DecodeBodyBadCheck(sensorType, s2, dec, data);

      if check != 0 {
        assert result == Rejected(data);
        return false;
      }

      ghost var rest := data;
      var sumRead := PopBits(4);
      DecodeBodyChecked(sensorType, s2, dec, rest, sumRead, data);
      SumNibbleOf(sensorType, dec, sum);
      sum := (sum + 5) % 16;  // sum += 5; sum &= 0xF
      if sumRead != sum {
        assert result == Rejected(data);
        return false;
      }

      assert result == Accepted(Output(sensorType, dec), data);
      StoreOutput(sensorType, dec);
      return true;
    }

    /** The data nibbles of a frame of type t, each with its marker bit,
        folded into the exclusive-or check and the sum together with t. The
        buffer is consumed as ReadNibbles reads it; ok says whether every
        marker bit was 1. */
    method ReadData(t: nat) returns (ok: bool, dec: seq<nat>, check: nat, sum: nat)
      requires t < 8
      modifies this`data
      ensures var scan := ReadNibbles(old(data), SensorDataCount[t]);
        ok == scan.ok && data == scan.rest &&
        (ok ==> dec == scan.nibbles && check == XorAll([t] + dec) && sum == Sum([t] + dec))
    {
      ghost var s := data;
      ghost var scan := ReadNibbles(s, SensorDataCount[t]);
      assert [t][..0] == [];
      check := Xor(0, t);
      sum := t;
      var nibbleCount := SensorDataCount[t];
      dec := [];
      var i := 0;
      while i < nibbleCount
        invariant 0 <= i <= nibbleCount
        invariant |dec| == i
        invariant scan == Resume(dec, data, nibbleCount - i)
        invariant check == XorAll([t] + dec)
        invariant sum == Sum([t] + dec)
      {
        ghost var before := data;
        var nibble := PopBits(4);
        ghost var mid := data;
        var eon := ExpectEon();
        if !eon {
          ScanStop(s, nibbleCount, dec, before, nibbleCount - i, nibble, mid, Pop(mid, 1).0, data);
          return false, dec, check, sum;
        }
        ScanNext(s, nibbleCount, dec, before, nibbleCount - i, nibble, mid, data);
        FoldNext(t, dec, nibble);
        dec := dec + [nibble];
        check := Xor(check, nibble);
        sum := sum + nibble;
        i := i + 1;
      }
      ScanDone(s, nibbleCount, dec, data);
      ok := true;
    }

    /** Fill the record from an accepted frame of type t with data nibbles
        dec, field by field; temperature, humidity and wind in tenths. */
    method StoreOutput(t: nat, dec: seq<nat>)
      requires IsPayload(t, dec)
      modifies this`decoderOutput
      ensures decoderOutput == Output(t, dec)
    {
      var sign: int := if (dec[0] / 8) % 2 == 1 then -1 else 1;  // dec[0] & 8
      decoderOutput := decoderOutput.(sensorType := t);
      decoderOutput := decoderOutput.(sensorTypeStr := SensorTypes[t]);
      decoderOutput := decoderOutput.(address := dec[0] % 8);
      decoderOutput := decoderOutput.(temperature := (dec[3] * 100 + dec[2] * 10 + dec[1]) * sign);
      decoderOutput := decoderOutput.(humidity := 0, wind := 0, rainSum := 0, rainDetect := 0, pressure := 0);
      if 7 == t {
        decoderOutput := decoderOutput.(humidity := dec[5] * 100 + dec[4] * 10);
        decoderOutput := decoderOutput.(wind := dec[8] * 100 + dec[7] * 10 + dec[6]);
        decoderOutput := decoderOutput.(rainSum := dec[11] * 16 * 16 + dec[10] * 16 + dec[9]);
        // `dec[0]&2 == 1` is `dec[0] & (2 == 1)`: always 0
        decoderOutput := decoderOutput.(rainDetect := 0);
      }
      if 1 == t || 4 == t {
        decoderOutput := decoderOutput.(humidity := dec[6] * 100 + dec[5] * 10 + dec[4]);
      }
      if 4 == t {
        decoderOutput := decoderOutput.(pressure := 200 + dec[9] * 100 + dec[8] * 10 + dec[7]);
      }
    }

    /** The last record decoded. */
    function GetDecoderOutput(): (r: DecoderOutput)
      reads this
      ensures r == decoderOutput
    {
      decoderOutput
    }
  }

}
