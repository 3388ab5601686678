/** Pulse classification and the decoder's state machine as a function from
    one decoder state and one pulse to the next state and the value `pulse`
    returns. */
module DecoderMachine {
  import opened Bits
  import opened Sensors
  import opened Frame

  datatype DecoderState = WAIT | SYNC | DATA

  /** Everything `pulse` reads or changes. */
  datatype Machine = Machine(syncCount: int, data: seq<Bit>, state: DecoderState, output: DecoderOutput)

  /** One pulse measurement: its whole length and the length of its low part,
      in sample ticks. */
  datatype Measurement = Measurement(len: int, lo: int)

  /** The states `pulse` can leave the decoder in: bits are buffered only in
      DATA, a sync train has seen at least one pulse, and the count is reset
      on entering DATA. */
  predicate Invariant(m: Machine)
  {
    (m.state != DATA ==> m.data == []) &&
    (m.state == SYNC ==> m.syncCount >= 1) &&
    (m.state == DATA ==> m.syncCount == 0)
  }

  /** C's `x / 2` on int, which truncates toward zero. */
  function Half(x: int): (r: int)
    ensures x - 1 <= 2 * r <= x + 1
    ensures x >= 0 ==> r == x / 2
    ensures x < 0 ==> x <= 2 * r
  {
    if x >= 0 then x / 2 else -((-x) / 2)
  }

  /** A pulse is a bit only if its length lies in [minLen, maxLen]; then it
      is 0 when lo < len/2 with C's truncating division (for a non-negative
      length, when 2 * (lo + 1) <= len), and 1 otherwise.
      -1 marks a pulse that is not a bit. */
  function BitVal(minLen: int, maxLen: int, len: int, lo: int): (v: int)
    ensures -1 <= v <= 1
    ensures v == -1 <==> len < minLen || maxLen < len
    ensures v == 0 ==> 2 * lo < len
    ensures v == 1 ==> 2 * lo >= len - 1
    ensures v != -1 && len >= 0 ==> (v == 0 <==> 2 * (lo + 1) <= len)
  {
    if len >= minLen && len <= maxLen then
      if lo < Half(len) then 0 else 1
    else -1
  }

  /** One call of `pulse`: the next state and whether a frame was decoded. */
  function Step(minLen: int, maxLen: int, m: Machine, p: Measurement): (r: (Machine, bool))
    ensures Invariant(m) ==> Invariant(r.0)
    ensures r.1 ==> m.state == DATA && r.0.state == WAIT
  {
    var val := BitVal(minLen, maxLen, p.len, p.lo);
    if val == -1 then
      if m.state == DATA then
        // end of frame: a sentinel 1, one decode attempt, and the buffer is cleared
        var result := DecodeFrame(m.data + [1]);
        var output := if result.Accepted? then result.output else m.output;
        (Machine(m.syncCount, [], WAIT, output), result.Accepted?)
      else
        (m.(state := WAIT), false)
    else if m.state == WAIT then
      if val == 0 then (m.(syncCount := 1, state := SYNC), false) else (m, false)
    else if m.state == SYNC then
      if val == 0 then (m.(syncCount := m.syncCount + 1), false)
      else if val == 1 && m.syncCount > 6 then (m.(syncCount := 0, state := DATA), false)
      else (m, false)
    else
      (m.(data := m.data + [val]), false)
  }

  /** The state after a run of pulses. */
  function Run(minLen: int, maxLen: int, m: Machine, ps: seq<Measurement>): Machine
    decreases |ps|
  {
    if ps == [] then m else Run(minLen, maxLen, Step(minLen, maxLen, m, ps[0]).0, ps[1..])
  }

  /** Each pulse of ps classifies as the corresponding entry of bits. */
  predicate Classifies(minLen: int, maxLen: int, ps: seq<Measurement>, bits: seq<int>)
  {
    |ps| == |bits| &&
    forall i :: 0 <= i < |ps| ==> BitVal(minLen, maxLen, ps[i].len, ps[i].lo) == bits[i]
  }

  function Zeros(n: nat): (r: seq<int>)
    ensures |r| == n && forall i :: 0 <= i < n ==> r[i] == 0
  {
    if n == 0 then [] else [0] + Zeros(n - 1)
  }

  // ---------------------------------------------------------------------------
  // One pulse

  /** A pulse that is not a bit always leads to WAIT. Out of DATA it appends
      the sentinel 1, decodes, and empties the buffer whatever the outcome;
      anywhere else it changes nothing else. */
  lemma StepInvalid(minLen: int, maxLen: int, m: Machine, p: Measurement)
    requires BitVal(minLen, maxLen, p.len, p.lo) == -1
    ensures var (m', ok) := Step(minLen, maxLen, m, p);
      m'.state == WAIT && m'.syncCount == m.syncCount &&
      (m.state == DATA ==>
        var result := DecodeFrame(m.data + [1]);
        m'.data == [] && ok == result.Accepted? &&
        m'.output == (if ok then result.output else m.output)) &&
      (m.state != DATA ==> m' == m.(state := WAIT) && !ok)
  {
  }

  /** In WAIT a 0 starts a sync train; a 1 changes nothing. */
  lemma StepWait(minLen: int, maxLen: int, m: Machine, p: Measurement)
    requires m.state == WAIT
    ensures var val := BitVal(minLen, maxLen, p.len, p.lo);
      (val == 0 ==> Step(minLen, maxLen, m, p) == (m.(syncCount := 1, state := SYNC), false)) &&
      (val == 1 ==> Step(minLen, maxLen, m, p) == (m, false))
  {
  }

  /** In SYNC a 0 lengthens the train; a 1 after more than six of them is the
      start bit, which leads to DATA with the count reset and is not
      buffered; a 1 after a shorter train changes nothing. */
  lemma StepSync(minLen: int, maxLen: int, m: Machine, p: Measurement)
    requires m.state == SYNC
    ensures var val := BitVal(minLen, maxLen, p.len, p.lo);
      (val == 0 ==> Step(minLen, maxLen, m, p) == (m.(syncCount := m.syncCount + 1), false)) &&
      (val == 1 && m.syncCount > 6 ==> Step(minLen, maxLen, m, p) == (m.(syncCount := 0, state := DATA), false)) &&
      (val == 1 && m.syncCount <= 6 ==> Step(minLen, maxLen, m, p) == (m, false))
  {
  }

  /** In DATA a bit is appended to the buffer and nothing else changes. */
  lemma StepData(minLen: int, maxLen: int, m: Machine, p: Measurement)
    requires m.state == DATA
    ensures var val := BitVal(minLen, maxLen, p.len, p.lo);
      val != -1 ==> Step(minLen, maxLen, m, p) == (m.(data := m.data + [val]), false)
  {
  }

  /** `pulse` returns true exactly when a pulse that is not a bit ends DATA
      and the buffer decodes; the output record then holds the reading just
      decoded, and otherwise it is never touched. */
  lemma StepReturnsTrue(minLen: int, maxLen: int, m: Machine, p: Measurement)
    ensures var (m', ok) := Step(minLen, maxLen, m, p);
      var result := DecodeFrame(m.data + [1]);
      (ok <==> BitVal(minLen, maxLen, p.len, p.lo) == -1 && m.state == DATA && result.Accepted?) &&
      (ok ==> m'.output == result.output) &&
      (!ok ==> m'.output == m.output)
  {
  }

  // ---------------------------------------------------------------------------
  // Runs of pulses

  lemma {:induction false} RunAppend(minLen: int, maxLen: int, m: Machine, a: seq<Measurement>, b: seq<Measurement>)
    ensures Run(minLen, maxLen, m, a + b) == Run(minLen, maxLen, Run(minLen, maxLen, m, a), b)
    decreases |a|
  {
    if a == [] {
      assert a + b == b;
    } else {
      assert (a + b)[0] == a[0] && (a + b)[1..] == a[1..] + b;
      RunAppend(minLen, maxLen, Step(minLen, maxLen, m, a[0]).0, a[1..], b);
    }
  }

  /** In SYNC each 0-pulse adds one to the count. */
  lemma {:induction false} SyncZeros(minLen: int, maxLen: int, m: Machine, ps: seq<Measurement>)
    requires m.state == SYNC && Classifies(minLen, maxLen, ps, Zeros(|ps|))
    ensures Run(minLen, maxLen, m, ps) == m.(syncCount := m.syncCount + |ps|)
    decreases |ps|
  {
    if ps != [] {
      assert BitVal(minLen, maxLen, ps[0].len, ps[0].lo) == Zeros(|ps|)[0];
      var m1 := m.(syncCount := m.syncCount + 1);
      assert Step(minLen, maxLen, m, ps[0]).0 == m1;
      assert forall i :: 0 <= i < |ps| - 1 ==> ps[1..][i] == ps[i + 1] && Zeros(|ps|)[i + 1] == 0;
      SyncZeros(minLen, maxLen, m1, ps[1..]);
    }
  }

  /** From WAIT, a train of k 0-pulses leads to SYNC with count k. */
  lemma SyncTrain(minLen: int, maxLen: int, m: Machine, ps: seq<Measurement>)
    requires m.state == WAIT && |ps| >= 1 && Classifies(minLen, maxLen, ps, Zeros(|ps|))
    ensures Run(minLen, maxLen, m, ps) == m.(syncCount := |ps|, state := SYNC)
  {
    assert BitVal(minLen, maxLen, ps[0].len, ps[0].lo) == Zeros(|ps|)[0];
    var m1 := m.(syncCount := 1, state := SYNC);
    assert Step(minLen, maxLen, m, ps[0]).0 == m1;
    assert forall i :: 0 <= i < |ps| - 1 ==> ps[1..][i] == ps[i + 1] && Zeros(|ps|)[i + 1] == 0;
    SyncZeros(minLen, maxLen, m1, ps[1..]);
  }

  /** From WAIT, a train of 0-pulses and then a 1-pulse reaches DATA, with
      the count reset and the buffer empty, exactly when the train had more
      than six pulses; after a shorter train the decoder is still in SYNC. */
  lemma Preamble(minLen: int, maxLen: int, m: Machine, ps: seq<Measurement>, start: Measurement)
    requires m.state == WAIT && Invariant(m)
    requires |ps| >= 1 && Classifies(minLen, maxLen, ps, Zeros(|ps|))
    requires BitVal(minLen, maxLen, start.len, start.lo) == 1
    ensures var m' := Run(minLen, maxLen, m, ps + [start]);
      (|ps| > 6 ==> m' == Machine(0, [], DATA, m.output)) &&
      (|ps| <= 6 ==> m' == Machine(|ps|, [], SYNC, m.output))
  {
    RunAppend(minLen, maxLen, m, ps, [start]);
    SyncTrain(minLen, maxLen, m, ps);
  }

  /** In DATA, pulses that are bits are appended to the buffer in order. */
  lemma {:induction false} DataBits(minLen: int, maxLen: int, m: Machine, ps: seq<Measurement>, bits: seq<Bit>)
    requires m.state == DATA && Classifies(minLen, maxLen, ps, bits)
    ensures Run(minLen, maxLen, m, ps) == m.(data := m.data + bits)
    decreases |ps|
  {
    if ps == [] {
      assert m.data + bits == m.data;
    } else {
      assert BitVal(minLen, maxLen, ps[0].len, ps[0].lo) == bits[0];
      var m1 := m.(data := m.data + [bits[0]]);
      assert Step(minLen, maxLen, m, ps[0]).0 == m1;
      assert forall i :: 0 <= i < |ps| - 1 ==> ps[1..][i] == ps[i + 1] && bits[1..][i] == bits[i + 1];
      DataBits(minLen, maxLen, m1, ps[1..], bits[1..]);
      assert m.data + [bits[0]] + bits[1..] == m.data + bits;
    }
  }

  /** A whole transmission from WAIT: a sync train of more than six 0-pulses,
      the start bit, the frame's bits and a pulse that is not a bit. The
      decoder ends in WAIT with an empty buffer, `pulse` returns whether the
      frame (with the sentinel 1) decodes, and the output is the decoded
      reading or else the one held before. */
  lemma Transmission(minLen: int, maxLen: int, m: Machine, sync: seq<Measurement>, start: Measurement,
                     frame: seq<Measurement>, bits: seq<Bit>, end: Measurement)
    requires m.state == WAIT && Invariant(m)
    requires |sync| > 6 && Classifies(minLen, maxLen, sync, Zeros(|sync|))
    requires BitVal(minLen, maxLen, start.len, start.lo) == 1
    requires Classifies(minLen, maxLen, frame, bits)
    requires BitVal(minLen, maxLen, end.len, end.lo) == -1
    ensures var result := DecodeFrame(bits + [1]);
      Step(minLen, maxLen, Run(minLen, maxLen, m, sync + [start] + frame), end) ==
        (Machine(0, [], WAIT, if result.Accepted? then result.output else m.output), result.Accepted?)
  {
    RunAppend(minLen, maxLen, m, sync + [start], frame);
    Preamble(minLen, maxLen, m, sync, start);
    var inData := Machine(0, [], DATA, m.output);
    DataBits(minLen, maxLen, inData, frame, bits);
    assert [] + bits == bits;
  }

  /** A well-formed frame sent after a long enough sync train is received:
      `pulse` returns true on the closing pulse and the output is the reading
      the frame carries. */
  lemma FrameReceived(minLen: int, maxLen: int, m: Machine, sync: seq<Measurement>, start: Measurement,
                      frame: seq<Measurement>, raw: nat, nibs: seq<nat>, end: Measurement)
    requires m.state == WAIT && Invariant(m) && WellFormed(raw, nibs)
    requires |sync| > 6 && Classifies(minLen, maxLen, sync, Zeros(|sync|))
    requires BitVal(minLen, maxLen, start.len, start.lo) == 1
    requires Classifies(minLen, maxLen, frame, EncodeFrame(raw, nibs))
    requires BitVal(minLen, maxLen, end.len, end.lo) == -1
    ensures Step(minLen, maxLen, Run(minLen, maxLen, m, sync + [start] + frame), end) ==
      (Machine(0, [], WAIT, Output(raw % 8, nibs)), true)
  {
    Transmission(minLen, maxLen, m, sync, start, frame, EncodeFrame(raw, nibs), end);
    DecodeAccepts(raw, nibs, [1]);
  }

  lemma BadMarkerLayout(a: seq<Bit>, e: seq<Bit>, b: seq<Bit>, tail: seq<Bit>)
    ensures a + [1] + e + b + [0] + tail + [1] == a + [1] + e + b + [0] + (tail + [1])
  {
  }

  /** A frame in which one data nibble has marker bit 0 is dropped: `pulse`
      returns false on the closing pulse, the output is unchanged, and the
      decoder is back in WAIT with an empty buffer. */
  lemma BadMarkerDropped(minLen: int, maxLen: int, m: Machine, sync: seq<Measurement>, start: Measurement,
                         frame: seq<Measurement>, raw: nat, before: seq<nat>, nibble: nat,
                         tail: seq<Bit>, end: Measurement)
    requires m.state == WAIT && Invariant(m) && raw < 16 && nibble < 16
    requires |before| < SensorDataCount[raw % 8]
    requires forall i :: 0 <= i < |before| ==> before[i] < 16
    requires |sync| > 6 && Classifies(minLen, maxLen, sync, Zeros(|sync|))
    requires BitVal(minLen, maxLen, start.len, start.lo) == 1
    requires Classifies(minLen, maxLen, frame,
                        ToBits(raw, 4) + [1] + EncodeNibbles(before) + ToBits(nibble, 4) + [0] + tail)
    requires BitVal(minLen, maxLen, end.len, end.lo) == -1
    ensures Step(minLen, maxLen, Run(minLen, maxLen, m, sync + [start] + frame), end) ==
      (Machine(0, [], WAIT, m.output), false)
  {
    var bits := ToBits(raw, 4) + [1] + EncodeNibbles(before) + ToBits(nibble, 4) + [0] + tail;
    Transmission(minLen, maxLen, m, sync, start, frame, bits, end);
    BadMarkerLayout(ToBits(raw, 4), EncodeNibbles(before), ToBits(nibble, 4), tail);
    RejectsNibbleMarker(raw, before, nibble, tail + [1]);
  }
}
