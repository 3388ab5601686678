# TempHygroRX868 decoder, modelled in Dafny

This project models the `Decoder` class of the TempHygroRX868 receiver for data of wireless
weather sensors with an RX868 module and a Raspberry Pi: the class that turns the received
transmissions into sensor readings (type, address, temperature, humidity, wind, rain,
pressure).

The decoder is fed one ON-OFF pulse at a time, as the pair (whole length, length of the OFF part)
in sample ticks.

- **Classifying a pulse.** A pulse whose length lies in `[minLen, maxLen]` is a bit. It is 0 when
  `lo < len/2` with the half rounded down, that is when `2*(lo+1) <= len`, and 1 otherwise. For
  an odd length such as 5, an OFF part of 2 is below 2.5 and still gives 1. Any other pulse is
  not a bit.
- **The state machine.** It has the states `WAIT`, `SYNC` and `DATA`.
  - A 0 in `WAIT` starts a sync train.
  - A 1 after more than six sync pulses is the start bit and enters `DATA`.
  - In `DATA` every bit is buffered.
  - A pulse that is not a bit ends the frame. A sentinel 1 is appended, one decode is attempted,
    the buffer is cleared, and the machine goes back to `WAIT`.
- **Decoding a frame.** A frame is buffered as:
  1. a type nibble, sent LSB first, followed by a marker bit 1;
  2. as many data nibbles as the type's entry in the data-count table, each followed by a
     marker 1;
  3. a sum nibble.

  The frame is accepted when all of these hold:
  - every marker bit is 1;
  - the exclusive-or of the type (its three low bits) and all data nibbles is 0;
  - the sum nibble equals (type + nibbles + 5) mod 16.

  The reading is then computed from the nibbles.

The model has five modules.

- `Bits` (bits.dfy): bits and LSB-first values (`Value`, `ToBits` and their round trips), and
  exclusive-or on naturals.
- `Sensors` (sensors.dfy): the two sensor-type tables (Decoder.cpp:12-14), the `DecoderOutput`
  record (Decoder.h:10-20), and `Output`, the reading a payload stands for. Float fields are
  kept as exact tenths: 23 means 2.3.
- `Frame` (frame.dfy): pure functions that specify decoding.
  - `Pop` is `popbits`.
  - `ReadNibbles` is the nibble loop.
  - `DecodeFrame` is `decode`.
  - `EncodeFrame` builds a frame from a type and nibbles.

  The module also holds the lemmas that relate decoding to encoding. An accepted buffer begins
  with a well-formed encoded frame; the bits after it are left unread. A frame that fails a
  marker, the exclusive-or check or the sum check is rejected, and a single flipped bit in any
  data nibble always fails the exclusive-or check. Not every corruption fails a check:
  - two flips of the same bit in two data nibbles, one from 0 to 1 and the other from 1 to 0,
    leave both checks unchanged, and so do two flips of bit 3 in any direction;
  - bit 3 of the type nibble is never checked.
- `DecoderMachine` (machine.dfy): the `EDecoderState` enumeration (Decoder.h:6-8) as
  `DecoderState`, `bitval` as `BitVal`, `pulse` as the pure transition `Step` on a `Machine`
  value, and `Run` over a pulse sequence. It holds lemmas for each branch and for a
  whole transmission (sync train, start bit, frame, closing pulse).
- `DecoderImpl` (decoder.dfy): class `Decoder` holds the C++ fields. Its methods `Pulse`,
  `PopBits`, `ExpectEon` and `Decode` change them in place, with loops where the source has
  them. Each method is proved against the pure functions above.

## Model

| member | source | states |
|---|---|---|
| Bits.Value | Decoder.cpp:74-77 | the value of n bits read LSB first is below 2^n |
| Bits.ValueSnoc | Decoder.cpp:75 | adding the next bit `b` at position i adds `b << i` to the value |
| Bits.ValueOfToBits | Decoder.cpp:74-77 | the n low bits of v, read back LSB first, give v for every v < 2^n |
| Bits.ToBitsOfValue | Decoder.cpp:74-77 | any bit run is the n-bit encoding of the value it is read as |
| Bits.XorBound | Decoder.cpp:116 | exclusive-or of two n-bit values is an n-bit value |
| Bits.XorZeroIff | Decoder.cpp:116-121 | exclusive-or is 0 exactly when the operands are equal (both directions) |
| Bits.Xor | Decoder.cpp:116 | C `^` on non-negative integers; no contract of its own: its facts are XorParity, XorBound, XorZeroIff, XorStep, XorZeroLeft, XorComm and XorAssoc |
| Bits.XorParity | Decoder.cpp:116 | the low bit of an exclusive-or is the parity of the sum of the operands |
| Bits.XorStep | Decoder.cpp:116 | exclusive-or works bit by bit: its low bit is the sum of the low bits mod 2, and the rest is the exclusive-or of the rest |
| Bits.XorZeroLeft | Decoder.cpp:106 | exclusive-or into a check that starts at 0 gives the value itself |
| Bits.XorComm | Decoder.cpp:116 | exclusive-or is commutative |
| Bits.XorAssoc | Decoder.cpp:106-116 | exclusive-or is associative, so the order the check folds nibbles in regroups freely |
| Bits.ToBitsFlip | Decoder.cpp:113-116 | exclusive-or with 2^k flips bit k of the n-bit encoding and leaves every other bit as it was |
| Sensors.OutputFields | Decoder.cpp:139-164 | the reading carries the type and its table name, and the address `dec[0] & 7` (0..7); the temperature is ±(dec[3] dec[2].dec[1]) and is negative only when bit 3 of dec[0] is set; humidity only for types 1, 4 and 7; wind and rain only for type 7; pressure exactly for type 4; rainDetect is always 0 |
| Sensors.Output | Decoder.cpp:139-164 | the reading of a payload; no contract of its own: its facts are OutputFields, TemperatureDigits and HumidityDigits, and StoreOutput is proved to write exactly it |
| Sensors.TablesCover | Decoder.cpp:12-14 | both tables have an entry for each of the eight types `raw & 7`, and each type has every nibble `decode` reads for its reading (more than 3, more than 6 for types 1 and 4, more than 9 for type 4, more than 11 for type 7) |
| Sensors.TemperatureDigits | Decoder.cpp:143 | when the temperature nibbles are decimal digits, the magnitude of the temperature gives those digits back |
| Sensors.HumidityDigits | Decoder.cpp:159 | when the Thermo/Hygro humidity nibbles are decimal digits, the humidity gives those digits back |
| Sensors.DigitsOf | Decoder.cpp:143-159 | three decimal digits are recovered from the number they make |
| Frame.Pop | Decoder.cpp:66-79 | with at least n bits buffered, takes exactly n of them and yields a value below 2^n; with fewer, yields 0 and leaves the buffer as it was |
| Frame.PopToBits | Decoder.cpp:66-79 | popping n bits off the n-bit encoding of v gives v and the rest of the buffer |
| Frame.PopSplit | Decoder.cpp:66-79 | the buffer is the encoding of the popped value followed by what is left |
| Frame.ReadNibbles | Decoder.cpp:110-118 | a completed scan holds exactly the type's nibble count of nibbles, every one below 16, and never lengthens the buffer |
| Frame.SumNibble | Decoder.cpp:129-131 | the expected sum nibble is below 16 |
| Frame.SumNibbleOf | Decoder.cpp:107-131 | the running sum, plus 5 and masked to 4 bits, is the expected sum nibble |
| Frame.XorAll | Decoder.cpp:100-116 | the `check` accumulator folded over the type and nibbles; no contract of its own: its facts are XorAllParity, XorAllUpdate and FoldNext |
| Frame.Sum | Decoder.cpp:101-117 | the `sum` accumulator over the type and nibbles; no contract of its own: its facts are XorAllParity, SumNibbleOf and FoldNext |
| Frame.DecodeFrame | Decoder.cpp:92-167 | `decode` as a function of the buffer; never lengthens the buffer (DecodeFrameSuffix: it leaves the end of the buffer; DecodeAccepts and DecodeOnlyAccepts: what it accepts) |
| Frame.DecodeFrameStep | Decoder.cpp:102-105 | proof step for `Decoder.Decode`: a type nibble with a marker other than 1 rejects the frame after reading five bits; with marker 1, decoding continues with the body for type `raw & 7` |
| Frame.DecodeFrameHeader | Decoder.cpp:102-107 | a type nibble followed by a 1 hands the rest to the body decoder with the three low bits as the type |
| Frame.DecodeFrameFront | Decoder.cpp:102-105 | decoding depends on the fifth bit: 1 decodes the body, anything else rejects; a buffer shorter than five bits can be accepted only when it is shorter than four, read as type 0 with its first bit as the marker |
| Frame.DecodeBody | Decoder.cpp:109-137 | the nibble loop, the exclusive-or check and the sum check for type t; never lengthens the buffer (its verdicts are stated by DecodeBodyEncoded, DecodeBodyShape and DecodeBodyAccepted) |
| Frame.ReadNibblesSuffix | Decoder.cpp:110-118 | what the nibble loop leaves unread is the end of the buffer it was given |
| Frame.DecodeBodySuffix | Decoder.cpp:109-137 | what the body decoder leaves unread is the end of the buffer it was given |
| Frame.DecodeFrameSuffix | Decoder.cpp:92-137 | `decode` only takes bits off the front: what it leaves unread is the end of the buffer |
| Frame.ReadNibblesStep | Decoder.cpp:112-117 | a nibble followed by marker 1 is read and the scan goes on |
| Frame.ReadNibblesBadMarker | Decoder.cpp:113-114 | a nibble followed by marker 0 stops the scan as failed |
| Frame.ReadNibblesCons | Decoder.cpp:112-117 | scanning encoded nibbles reads the first one, then the rest |
| Frame.ReadNibblesEncoded | Decoder.cpp:110-118 | scanning an encoding of nibbles yields those nibbles and then scans on in what follows |
| Frame.ReadNibblesEncodedStep | Decoder.cpp:112-117 | one induction step of the above |
| Frame.ReadNibblesFront | Decoder.cpp:112-114 | how a scan starts, by the buffer's length and fifth bit |
| Frame.ReadNibblesShape | Decoder.cpp:110-118 | a successful scan either ran out of bits (fewer than four remain) or read exactly the encoding of the nibbles it returns |
| Frame.XorAllParity | Decoder.cpp:106-117 | the low bit of the exclusive-or check equals the low bit of the running sum |
| Frame.SumNibbleOddWhenXorZero | Decoder.cpp:120-131 | when the exclusive-or check passes, the expected sum nibble is odd, so it never equals the 0 an exhausted buffer yields |
| Frame.DecodeBodyEncoded | Decoder.cpp:110-164 | the body decoder on an encoded payload rejects on a non-zero check, rejects on a wrong sum nibble, and otherwise accepts with `Output`, consuming exactly the sum nibble |
| Frame.FrameLayout | Decoder.cpp:102-129 | proof step for DecodeAccepts and DecodeOnlyAccepts: a frame is the type nibble, marker 1, the encoded data nibbles and the sum nibble, in that order |
| Frame.DecodeAccepts | Decoder.cpp:92-167 | every well-formed frame (payload of the right length, nibbles below 16, check 0, correct sum) is accepted whatever follows it, with the reading `Output` gives, and leaves what follows unread |
| Frame.DecodeBodyShape | Decoder.cpp:110-137 | an accepted body is the encoding of a payload with check 0, followed by the correct sum nibble |
| Frame.DecodeBodyAccepted | Decoder.cpp:110-164 | an accepted body passed every marker, the check and the sum, and its reading is `Output` of the nibbles read |
| Frame.PopNonzero | Decoder.cpp:68-73 | a pop that yields an odd value had enough bits to read |
| Frame.DecodeOnlyAccepts | Decoder.cpp:92-167 | conversely, an accepted buffer starts with a well-formed frame; the reading is that frame's, and exactly the bits after it are left unread |
| Frame.SampleThermoHygro | Decoder.cpp:139-160 | a Thermo/Hygro frame with address 1, temperature 2.3 and humidity 7.4, followed by the sentinel 1, is accepted with that reading |
| Frame.SampleChecks | Decoder.cpp:106-121 | the sample frame's exclusive-or check is 0 |
| Frame.SampleReading | Decoder.cpp:139-160 | the sample frame's payload is well-sized, and its reading is type 1 "Thermo/Hygro", address 1, 2.3 degrees, humidity 7.4 and no other field |
| Frame.RejectsTypeMarker | Decoder.cpp:102-105 | a type nibble followed by marker 0 rejects the frame |
| Frame.RejectsNibbleMarker | Decoder.cpp:112-114 | a frame in which any one of the type's data nibbles is followed by marker 0 is rejected |
| Frame.RejectsXor | Decoder.cpp:120-126 | a full payload whose exclusive-or check is not 0 is rejected, whatever follows it |
| Frame.RejectsSum | Decoder.cpp:128-137 | a frame that passes the check but carries a wrong sum nibble is rejected |
| Frame.XorAllUpdate | Decoder.cpp:116 | changing one nibble by exclusive-or with d changes the exclusive-or check by exclusive-or with d |
| Frame.FlipBreaksCheck | Decoder.cpp:116-121 | flipping one bit of one nibble of a payload whose check is 0 keeps it a payload and makes the check non-zero |
| Frame.RejectsFlippedNibble | Decoder.cpp:112-126 | a well-formed frame with one bit of one data nibble flipped and its original sum nibble is rejected by the exclusive-or check, whatever follows it; the flipped nibble differs from the original in exactly that one bit |
| Frame.FoldNext | Decoder.cpp:115-117 | appending one nibble updates the exclusive-or check and the sum by that nibble |
| Frame.ScanNext | Decoder.cpp:112-117 | proof step for `Decoder.ReadData`: after a nibble with marker 1, the overall scan is the nibbles so far plus that nibble, resumed on the rest |
| Frame.ScanStop | Decoder.cpp:113-114 | proof step for `Decoder.ReadData`: after a nibble with a marker other than 1, the overall scan fails with the nibbles read before it, after reading the marker |
| Frame.ScanDone | Decoder.cpp:112-118 | proof step for `Decoder.ReadData`: once the count of nibbles is reached, the scan succeeded with the nibbles read |
| Frame.DecodeBodyStopped | Decoder.cpp:114 | proof step for `Decoder.Decode`: a failed nibble scan rejects the body where the scan stopped |
| Frame.DecodeBodyBadCheck | Decoder.cpp:120-126 | proof step for `Decoder.Decode`: a completed scan holds a payload, and a non-zero check rejects it without reading further |
| Frame.DecodeBodyChecked | Decoder.cpp:128-164 | proof step for `Decoder.Decode`: after a passed check, the sum nibble read decides rejection or acceptance with `Output` |
| DecoderMachine.Half | Decoder.cpp:24 | C's `len/2` (truncating toward zero): within one of half of len, exactly `len / 2` for len >= 0, and for negative len the half rounded up, so never below half of len |
| DecoderMachine.BitVal | Decoder.cpp:22-31 | not a bit exactly when len is outside [minLen, maxLen]; 0 means `lo` is below `len/2` rounded down; for non-negative len, 0 exactly when `2*(lo+1) <= len` |
| DecoderMachine.Step | Decoder.cpp:33-64 | each pulse preserves the state invariant (bits buffered only in DATA, a sync train has count >= 1, the count is 0 in DATA); a true answer comes only from DATA and leaves WAIT |
| DecoderMachine.StepInvalid | Decoder.cpp:36-43 | a pulse that is not a bit always leads to WAIT; from DATA it decodes the buffer plus a sentinel 1, clears the buffer, answers whether the decode succeeded and updates the record only then; from other states it changes nothing else and answers false |
| DecoderMachine.StepWait | Decoder.cpp:44-49 | in WAIT a 0 starts a sync train with count 1; a 1 changes nothing |
| DecoderMachine.StepSync | Decoder.cpp:50-58 | in SYNC a 0 increments the count; a 1 after more than six enters DATA with count 0; a 1 after six or fewer changes nothing |
| DecoderMachine.StepData | Decoder.cpp:59-61 | in DATA a bit is appended to the buffer and nothing else changes |
| DecoderMachine.StepReturnsTrue | Decoder.cpp:33-64 | `pulse` answers true exactly when a pulse that is not a bit ends DATA and the buffer decodes; the record then holds that reading, and otherwise is unchanged |
| DecoderMachine.RunAppend | Decoder.cpp:33-64 | running two pulse sequences one after the other is running their concatenation |
| DecoderMachine.SyncZeros | Decoder.cpp:50-53 | in SYNC, k 0-pulses add k to the sync count |
| DecoderMachine.SyncTrain | Decoder.cpp:44-53 | from WAIT, k >= 1 0-pulses give SYNC with count k |
| DecoderMachine.Preamble | Decoder.cpp:44-58 | from WAIT, a sync train and a 1 enter DATA with an empty buffer when the train has more than six pulses, and otherwise stay in SYNC with the train's count |
| DecoderMachine.DataBits | Decoder.cpp:59-61 | in DATA, bit pulses append exactly their bits to the buffer |
| DecoderMachine.Transmission | Decoder.cpp:33-64 | a sync train of more than six pulses, the start bit, a frame and a closing pulse leave WAIT with an empty buffer; the answer is whether frame plus sentinel decodes, and the record is that reading or the earlier one |
| DecoderMachine.FrameReceived | Decoder.cpp:33-167 | a well-formed frame sent this way makes `pulse` answer true on the closing pulse, with the frame's reading |
| DecoderMachine.BadMarkerDropped | Decoder.cpp:36-114 | a frame with one data-nibble marker forced to 0 makes `pulse` answer false; the decoder is back in WAIT with an empty buffer and the old record |
| DecoderImpl.Decoder.constructor | Decoder.cpp:18-20 | a new decoder keeps the given pulse bounds (the defaults are 5 and 14), waits for sync with count 0 and an empty buffer, and satisfies the invariant |
| DecoderImpl.Decoder.Pulse | Decoder.cpp:33-64 | the new fields and the answer are exactly `Step` of the old fields, and the invariant is kept; a true answer means the old state was DATA and the record now holds the reading of the buffer plus sentinel; a false one leaves the record as it was |
| DecoderImpl.Decoder.PopBits | Decoder.cpp:66-79 | the loop takes bits exactly as `Pop` does: the value and the new buffer are `Pop` of the old buffer, and the value is below 2^num |
| DecoderImpl.Decoder.ExpectEon | Decoder.cpp:81-90 | one bit is popped, and the answer is true exactly when it was 1 |
| DecoderImpl.Decoder.Decode | Decoder.cpp:92-167 | the answer is whether `DecodeFrame` accepts the buffer; the buffer is consumed exactly as far as `DecodeFrame` reads; the record is overwritten with the decoded reading only on acceptance |
| DecoderImpl.Decoder.ReadData | Decoder.cpp:110-118 | the nibble loop consumes the buffer as `ReadNibbles` does; when every marker is 1, it returns the nibbles together with their exclusive-or check and sum, each folded with the type |
| DecoderImpl.Decoder.StoreOutput | Decoder.cpp:139-164 | the record, written field by field, equals `Output` of the type and nibbles |
| DecoderImpl.Decoder.GetDecoderOutput | Decoder.cpp:169-171 | returns the record held, reading the object and changing nothing |

## Left out

- rxdec.cpp is not part of this model. It samples the GPIO pin, measures pulses, runs the
  threads and handles SIGINT. A pulse measurement is a parameter of `Pulse` instead.
- `printDecoderOutput` and `dateTimeBuf` (Decoder.cpp:16, 173-205) only format a reading with the
  wall clock onto stdout. This is I/O.
- The `DEBUG` tracing with `printf` has no effect on state.
- Temperature, humidity and wind are C floats. Here they are exact integers in tenths, so the
  model ignores float rounding such as `dec[1]/10.f`. It also ignores the `-0.0` the source
  produces when the sign bit is set on a zero magnitude; the model gives 0.
- `sensorTypeStr` is a string value, not the address of a table entry.
- The `std::list<int>` buffer and the `std::vector<int>` of nibbles are sequences. The buffer can
  hold only bits, by its type.
- C `int` is 32 bits and `pulse`'s parameters are unbounded here. So is `syncCount`: the overflow
  after 2^31 sync pulses in a row is not modelled.
- DecoderImpl.Decoder.PopBits: takes `num` as a natural number. The source's `int num` is only
  called with 1 and 4, and its negative case (signed/unsigned comparison) is not modelled.
- DecoderImpl.Decoder.constructor: the source leaves `decoderOutput` uninitialised. The model
  gives it a zero record and promises nothing about it.
- DecoderImpl.Decoder.ReadData and DecoderImpl.Decoder.StoreOutput are the nibble loop and the
  record-filling block of `decode`, split out as methods. `Decode` calls them at the point where
  the source runs that code, in the same order and with the same early returns.
- The access levels (`private` members) of the C++ class are not modelled.
- Three behaviours of the code that are easy to misread, all modelled as the code has them:
  - Decoder.cpp:54: in SYNC, a 1 after six or fewer sync pulses changes nothing. The state stays
    SYNC and the count is kept; it is not a return to WAIT.
  - Decoder.cpp:68-73: `popbits` on an exhausted buffer returns 0 and consumes nothing. Bits
    after the sum nibble stay in the buffer unread, and the buffer is cleared afterwards.
  - Decoder.cpp:155: rainDetect is always 0. `dec[0]&2 == 1` binds as `dec[0] & (2 == 1)`,
    because `==` binds tighter than `&` in C. The model keeps the code's result, not bit 1 of
    `dec[0]`.
