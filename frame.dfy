/** The frame format and the reference definition of frame decoding.

    A frame is, least-significant bit first: a type nibble and a marker bit 1;
    then, for type t = typeNibble & 7, SensorDataCount[t] data nibbles each
    followed by a marker bit 1; then a sum nibble with no marker. The exclusive-or
    of t and the data nibbles must be 0, and the sum nibble must be the low four
    bits of t + (the data nibbles' sum) + 5. Bits after the sum nibble are left
    in the buffer. */
module Frame {
  import opened Bits
  import opened Sensors

  /** What reading data nibbles yields: whether every marker was 1, the
      nibbles whose marker was read as 1, and the unread bits. */
  datatype Scan = Scan(ok: bool, nibbles: seq<nat>, rest: seq<Bit>)

  /** What decoding a buffer yields, with the bits it left unread. */
  datatype DecodeResult =
    | Accepted(output: DecoderOutput, rest: seq<Bit>)
    | Rejected(rest: seq<Bit>)

  /** Take n bits off the front of the buffer as an LSB-first value; with
      fewer than n bits, yield 0 and take nothing. */
  function Pop(s: seq<Bit>, n: nat): (r: (nat, seq<Bit>))
    ensures n <= |s| ==> r.0 < Pow2(n) && r.1 == s[n..]
    ensures |s| < n ==> r == (0, s)
  {
    if |s| < n then (0, s) else (Value(s[..n]), s[n..])
  }

  /** Exclusive-or of all values, folded from 0 in order. */
  function XorAll(s: seq<nat>): nat
  {
    if s == [] then 0 else Xor(XorAll(s[..|s| - 1]), s[|s| - 1])
  }

  /** Sum of all values, added in order. */
  function Sum(s: seq<nat>): nat
  {
    if s == [] then 0 else Sum(s[..|s| - 1]) + s[|s| - 1]
  }

  /** Read count data nibbles, each with its marker bit; stop at the first
      marker that is not 1. */
  function ReadNibbles(s: seq<Bit>, count: nat): (r: Scan)
    ensures r.ok ==> |r.nibbles| == count
    ensures forall i :: 0 <= i < |r.nibbles| ==> r.nibbles[i] < 16
    ensures |r.rest| <= |s|
    decreases count
  {
    if count == 0 then Scan(true, [], s)
    else
      var (nibble, s1) := Pop(s, 4);
      var (marker, s2) := Pop(s1, 1);
      if marker != 1 then Scan(false, [], s2)
      else
        var r := ReadNibbles(s2, count - 1);
        Scan(r.ok, [nibble] + r.nibbles, r.rest)
  }

  /** The sum nibble a frame of type t with data nibbles nibs carries. */
  function SumNibble(t: nat, nibs: seq<nat>): (r: nat)
    ensures r < 16
  {
    (Sum([t] + nibs) + 5) % 16
  }

  /** The sum nibble from a running sum, as the decoder computes it. */
  lemma SumNibbleOf(t: nat, nibs: seq<nat>, sum: nat)
    requires sum == Sum([t] + nibs)
    ensures (sum + 5) % 16 == SumNibble(t, nibs)
  {
  }

  /** Decoding the front of a buffer, as the decoder does it: the type
      nibble and its marker, then the rest of the frame. */
  function DecodeFrame(s: seq<Bit>): (r: DecodeResult)
    ensures |r.rest| <= |s|
  {
    var (raw, s1) := Pop(s, 4);
    var (marker, s2) := Pop(s1, 1);
    if marker != 1 then Rejected(s2)
    else DecodeBody(raw % 8, s2)  // raw & 7
  }

  /** The rest of a frame of type t: its data nibbles, the exclusive-or check,
      then the sum nibble. */
  function DecodeBody(t: nat, s: seq<Bit>): (r: DecodeResult)
    requires t < 8
    ensures |r.rest| <= |s|
  {
    var scan := ReadNibbles(s, SensorDataCount[t]);
    if !scan.ok then Rejected(scan.rest)
    else if XorAll([t] + scan.nibbles) != 0 then Rejected(scan.rest)
    else
      var (sumRead, s3) := Pop(scan.rest, 4);
      if sumRead != SumNibble(t, scan.nibbles) then Rejected(s3)
      else Accepted(Output(t, scan.nibbles), s3)
  }

  // ---------------------------------------------------------------------------
  // Encoding frames

  /** Data nibbles, each followed by its marker bit 1. */
  function EncodeNibbles(nibs: seq<nat>): (r: seq<Bit>)
    ensures |r| == 5 * |nibs|
  {
    if nibs == [] then [] else ToBits(nibs[0], 4) + [1] + EncodeNibbles(nibs[1..])
  }

  /** A type nibble and data nibbles that make a valid frame. */
  predicate WellFormed(raw: nat, nibs: seq<nat>)
  {
    raw < 16 && IsPayload(raw % 8, nibs) && XorAll([raw % 8] + nibs) == 0
  }

  /** The bits of the frame with type nibble raw and data nibbles nibs. */
  function EncodeFrame(raw: nat, nibs: seq<nat>): (r: seq<Bit>)
    ensures |r| == 9 + 5 * |nibs|
  {
    ToBits(raw, 4) + [1] + EncodeNibbles(nibs) + ToBits(SumNibble(raw % 8, nibs), 4)
  }

  // ---------------------------------------------------------------------------
  // Popping bits and reading nibbles

  /** Popping n bits of a run that starts with the n low bits of v < 2^n. */
  lemma PopToBits(v: nat, n: nat, tail: seq<Bit>)
    requires v < Pow2(n)
    ensures Pop(ToBits(v, n) + tail, n) == (v, tail)
  {
    var s := ToBits(v, n) + tail;
    assert s[..n] == ToBits(v, n);
    assert s[n..] == tail;
    ValueOfToBits(v, n);
  }

  /** When n bits are there, they are the n low bits of the popped value. */
  lemma PopSplit(s: seq<Bit>, n: nat)
    requires n <= |s|
    ensures s == ToBits(Pop(s, n).0, n) + Pop(s, n).1
  {
    ToBitsOfValue(s[..n]);
    assert s == s[..n] + s[n..];
  }

  /** A non-empty sequence is its head before its tail, also in front of u. */
  lemma ConsAppend<T>(s: seq<T>, u: seq<T>)
    requires s != []
    ensures [s[0]] + (s[1..] + u) == s + u
  {
    assert s == [s[0]] + s[1..];
  }

  /** The encoding of nibbles, one nibble at a time. */
  lemma EncodeCons(nibble: nat, nibs: seq<nat>, rest: seq<Bit>)
    ensures EncodeNibbles([nibble] + nibs) + rest == ToBits(nibble, 4) + ([1] + (EncodeNibbles(nibs) + rest))
  {
    assert ([nibble] + nibs)[1..] == nibs;
  }

  /** Reading a nibble that is followed by a marker bit 1. */
  lemma ReadNibblesStep(nibble: nat, rest: seq<Bit>, count: nat)
    requires nibble < 16 && count > 0
    ensures var r := ReadNibbles(rest, count - 1);
      ReadNibbles(ToBits(nibble, 4) + ([1] + rest), count) == Scan(r.ok, [nibble] + r.nibbles, r.rest)
  {
    PopToBits(nibble, 4, [1] + rest);
    PopToBits(1, 1, rest);
  }

  /** Reading a nibble that is followed by a marker bit 0 fails. */
  lemma ReadNibblesBadMarker(nibble: nat, tail: seq<Bit>, count: nat)
    requires nibble < 16 && count > 0
    ensures !ReadNibbles(ToBits(nibble, 4) + ([0] + tail), count).ok
  {
    PopToBits(nibble, 4, [0] + tail);
    PopToBits(0, 1, tail);
  }

  /** Reading nibbles over encoded nibbles, one nibble at a time. */
  lemma ReadNibblesCons(nibs: seq<nat>, tail: seq<Bit>, count: nat)
    requires nibs != [] && count > 0 && nibs[0] < 16
    ensures var r := ReadNibbles(EncodeNibbles(nibs[1..]) + tail, count - 1);
      ReadNibbles(EncodeNibbles(nibs) + tail, count) == Scan(r.ok, [nibs[0]] + r.nibbles, r.rest)
  {
    var rest := EncodeNibbles(nibs[1..]) + tail;
    assert EncodeNibbles(nibs) + tail == ToBits(nibs[0], 4) + ([1] + rest);
    ReadNibblesStep(nibs[0], rest, count);
  }

  lemma EmptyAppend<T>(s: seq<T>, u: seq<T>)
    requires s == []
    ensures s + u == u
  {
  }

  /** Reading nibbles over encoded nibbles yields them, then reads on. */
  lemma {:induction false} ReadNibblesEncoded(nibs: seq<nat>, tail: seq<Bit>, count: nat)
    requires |nibs| <= count
    requires forall i :: 0 <= i < |nibs| ==> nibs[i] < 16
    ensures var r := ReadNibbles(tail, count - |nibs|);
      ReadNibbles(EncodeNibbles(nibs) + tail, count) == Scan(r.ok, nibs + r.nibbles, r.rest)
  {
    if nibs != [] {
      ReadNibblesEncoded(nibs[1..], tail, count - 1);
      ReadNibblesEncodedStep(nibs, tail, count);
    } else {
      var r := ReadNibbles(tail, count);
      EmptyAppend(EncodeNibbles(nibs), tail);
      EmptyAppend(nibs, r.nibbles);
    }
  }

  lemma ReadNibblesEncodedStep(nibs: seq<nat>, tail: seq<Bit>, count: nat)
    requires 0 < |nibs| <= count && nibs[0] < 16
    requires var r := ReadNibbles(tail, count - |nibs|);
      ReadNibbles(EncodeNibbles(nibs[1..]) + tail, count - 1) == Scan(r.ok, nibs[1..] + r.nibbles, r.rest)
    ensures var r := ReadNibbles(tail, count - |nibs|);
      ReadNibbles(EncodeNibbles(nibs) + tail, count) == Scan(r.ok, nibs + r.nibbles, r.rest)
  {
    var r := ReadNibbles(tail, count - |nibs|);
    ReadNibblesCons(nibs, tail, count);
    ConsAppend(nibs, r.nibbles);
  }

  /** Popping a 4-bit nibble and a 1-bit marker off a buffer of at least 5 bits. */
  lemma PopNibbleAndMarker(s: seq<Bit>)
    requires |s| >= 5
    ensures Pop(s, 4) == (Value(s[..4]), s[4..])
    ensures Pop(s[4..], 1) == (s[4], s[5..])
    ensures s == ToBits(Value(s[..4]), 4) + ([s[4]] + s[5..])
  {
    assert s == s[..4] + ([s[4]] + s[5..]);
    assert s[4..][..1] == [s[4]] && s[4..][1..] == s[5..];
    ToBitsOfValue(s[..4]);
  }

  /** How reading nibbles starts, by the length of the buffer and its fifth bit. */
  lemma ReadNibblesFront(s: seq<Bit>, count: nat)
    requires count > 0
    ensures |s| < 5 ==> var r := ReadNibbles(s, count); r.ok ==> |r.rest| < 4
    ensures |s| >= 5 && s[4] != 1 ==> !ReadNibbles(s, count).ok
    ensures |s| >= 5 && s[4] == 1 ==> var r := ReadNibbles(s[5..], count - 1);
      ReadNibbles(s, count) == Scan(r.ok, [Value(s[..4])] + r.nibbles, r.rest) &&
      s == ToBits(Value(s[..4]), 4) + ([1] + s[5..])
  {
    if |s| >= 5 {
      PopNibbleAndMarker(s);
    }
  }

  /** When reading nibbles succeeds, either the bits read were laid out as
      encoded nibbles, or the buffer ran short and fewer than 4 bits remain. */
  lemma {:induction false} ReadNibblesShape(s: seq<Bit>, count: nat)
    ensures var r := ReadNibbles(s, count);
      r.ok ==> |r.rest| < 4 || s == EncodeNibbles(r.nibbles) + r.rest
    decreases count
  {
    if count == 0 {
      EmptyAppend(EncodeNibbles([]), s);
    } else {
      ReadNibblesFront(s, count);
      if |s| >= 5 && s[4] == 1 {
        ReadNibblesShape(s[5..], count - 1);
        var r := ReadNibbles(s[5..], count - 1);
        if r.ok && |r.rest| >= 4 {
          EncodeCons(Value(s[..4]), r.nibbles, r.rest);
        }
      }
    }
  }

  /** x is what is left of s once some bits have been taken from its front. */
  predicate IsSuffix(x: seq<Bit>, s: seq<Bit>)
  {
    |x| <= |s| && x == s[|s| - |x|..]
  }

  /** What a scan leaves unread is the end of the buffer it was given. */
  lemma {:induction false} ReadNibblesSuffix(s: seq<Bit>, count: nat)
    ensures IsSuffix(ReadNibbles(s, count).rest, s)
    decreases count
  {
    if count > 0 {
      var s2 := ReadNibblesRest(s, count);
      ReadNibblesSuffix(s2, count - 1);
    }
  }

  /** One step of a scan drops at most five bits from the front, leaving s2;
      it then stops there or, after a marker bit 1, scans on from s2, so what
      the whole scan leaves is a suffix of s when the scan from s2 leaves a
      suffix of s2. */
  lemma ReadNibblesRest(s: seq<Bit>, count: nat) returns (s2: seq<Bit>)
    requires count > 0
    ensures IsSuffix(s2, s) && |s| - 5 <= |s2|
    ensures IsSuffix(ReadNibbles(s2, count - 1).rest, s2) ==> IsSuffix(ReadNibbles(s, count).rest, s)
  {
    var p := Pop(Pop(s, 4).1, 1);
    s2 := p.1;
    var x := ReadNibbles(s2, count - 1).rest;
    assert ReadNibbles(s, count).rest == if p.0 == 1 then x else s2;
    SuffixTrans(x, s2, s);
  }

  /** A suffix of a suffix of s is a suffix of s. */
  lemma SuffixTrans(x: seq<Bit>, u: seq<Bit>, s: seq<Bit>)
    ensures IsSuffix(x, u) && IsSuffix(u, s) ==> IsSuffix(x, s)
  {
  }

  // ---------------------------------------------------------------------------
  // The checksums

  /** The low bit of a running exclusive-or is the parity of the sum. */
  lemma {:induction false} XorAllParity(s: seq<nat>)
    ensures XorAll(s) % 2 == Sum(s) % 2
  {
    if s != [] {
      var init, x := s[..|s| - 1], s[|s| - 1];
      var a := XorAll(init);
      assert XorAll(s) == Xor(a, x) && Sum(s) == Sum(init) + x;
      XorAllParity(init);
      XorParity(a, x);
      SameParityPlus(a, Sum(init), x);
    }
  }

  lemma SameParityPlus(a: nat, b: nat, x: nat)
    requires a % 2 == b % 2
    ensures (a + x) % 2 == (b + x) % 2
  {
  }

  /** A frame whose exclusive-or check passes has an odd sum nibble, so an
      exhausted buffer (read as 0) never matches it. */
  lemma SumNibbleOddWhenXorZero(t: nat, nibs: seq<nat>)
    requires XorAll([t] + nibs) == 0
    ensures SumNibble(t, nibs) % 2 == 1
  {
    var sum := Sum([t] + nibs);
    XorAllParity([t] + nibs);
    assert sum % 2 == 0;
    assert sum + 5 == 16 * ((sum + 5) / 16) + (sum + 5) % 16;
  }

  /** Decoding takes bits off the front of the buffer only: what it leaves
      unread is the end of the buffer. */
  lemma DecodeFrameSuffix(s: seq<Bit>)
    ensures IsSuffix(DecodeFrame(s).rest, s)
  {
    var h := Pop(s, 4);
    var p := Pop(h.1, 1);
    assert IsSuffix(p.1, s);
    if p.0 == 1 {
      DecodeBodySuffix(h.0 % 8, p.1);
      SuffixTrans(DecodeBody(h.0 % 8, p.1).rest, p.1, s);
    }
  }

  lemma DecodeBodySuffix(t: nat, s: seq<Bit>)
    requires t < 8
    ensures IsSuffix(DecodeBody(t, s).rest, s)
  {
    var scan := ReadNibbles(s, SensorDataCount[t]);
    ReadNibblesSuffix(s, SensorDataCount[t]);
    var s3 := Pop(scan.rest, 4).1;
    assert IsSuffix(s3, scan.rest);
    SuffixTrans(s3, scan.rest, s);
  }

  // ---------------------------------------------------------------------------
  // Decoding encoded frames

  /** The type nibble and its marker bit 1, then the rest of the frame. */
  lemma DecodeFrameHeader(raw: nat, body: seq<Bit>)
    requires raw < 16
    ensures DecodeFrame(ToBits(raw, 4) + ([1] + body)) == DecodeBody(raw % 8, body)
  {
    PopToBits(raw, 4, [1] + body);
    PopToBits(1, 1, body);
  }

  /** The rest of a frame whose data nibbles are all there with marker bits 1
      is decided by the two checksums. */
  lemma DecodeBodyEncoded(t: nat, nibs: seq<nat>, after: seq<Bit>)
    requires IsPayload(t, nibs)
    ensures DecodeBody(t, EncodeNibbles(nibs) + after) ==
      if XorAll([t] + nibs) != 0 then Rejected(after)
      else if Pop(after, 4).0 != SumNibble(t, nibs) then Rejected(Pop(after, 4).1)
      else Accepted(Output(t, nibs), Pop(after, 4).1)
  {
    ReadNibblesEncoded(nibs, after, |nibs|);
    assert nibs + [] == nibs;
  }

  lemma FrameLayout(raw: nat, nibs: seq<nat>, tail: seq<Bit>)
    ensures EncodeFrame(raw, nibs) + tail ==
      ToBits(raw, 4) + ([1] + (EncodeNibbles(nibs) + (ToBits(SumNibble(raw % 8, nibs), 4) + tail)))
  {
  }

  /** A well-formed frame is accepted whatever follows it, with the reading
      its nibbles stand for, and what follows is left unread. */
  lemma DecodeAccepts(raw: nat, nibs: seq<nat>, tail: seq<Bit>)
    requires WellFormed(raw, nibs)
    ensures DecodeFrame(EncodeFrame(raw, nibs) + tail) == Accepted(Output(raw % 8, nibs), tail)
  {
    var sn := SumNibble(raw % 8, nibs);
    var after := ToBits(sn, 4) + tail;
    FrameLayout(raw, nibs, tail);
    DecodeFrameHeader(raw, EncodeNibbles(nibs) + after);
    DecodeBodyEncoded(raw % 8, nibs, after);
    PopToBits(sn, 4, tail);
  }

  /** How decoding starts, by the length of the buffer and its fifth bit. */
  lemma DecodeFrameFront(s: seq<Bit>)
    ensures |s| >= 5 && s[4] == 1 ==>
      DecodeFrame(s) == DecodeBody(Value(s[..4]) % 8, s[5..]) &&
      s == ToBits(Value(s[..4]), 4) + ([1] + s[5..])
    ensures |s| >= 5 && s[4] != 1 ==> DecodeFrame(s).Rejected?
    ensures |s| < 5 && DecodeFrame(s).Accepted? ==> |s| < 4 && DecodeFrame(s) == DecodeBody(0, s[1..])
  {
    if |s| >= 5 {
      PopNibbleAndMarker(s);
    }
  }

  /** An accepted frame body is laid out as encoded data nibbles that pass
      the exclusive-or check, followed by the matching sum nibble. */
  lemma DecodeBodyShape(t: nat, s: seq<Bit>)
    requires t < 8 && DecodeBody(t, s).Accepted?
    ensures var nibs := ReadNibbles(s, SensorDataCount[t]).nibbles;
      IsPayload(t, nibs) && XorAll([t] + nibs) == 0 &&
      DecodeBody(t, s).output == Output(t, nibs) &&
      s == EncodeNibbles(nibs) + (ToBits(SumNibble(t, nibs), 4) + DecodeBody(t, s).rest)
  {
    var scan := ReadNibbles(s, SensorDataCount[t]);
    DecodeBodyAccepted(t, s);
    var (sumRead, s3) := Pop(scan.rest, 4);
    SumNibbleOddWhenXorZero(t, scan.nibbles);
    PopNonzero(scan.rest, 4);
    ReadNibblesShape(s, SensorDataCount[t]);
    assert s == EncodeNibbles(scan.nibbles) + scan.rest;
    PopSplit(scan.rest, 4);
    assert scan.rest == ToBits(sumRead, 4) + s3;
  }

  /** Only a buffer that holds n bits pops an odd value. */
  lemma PopNonzero(s: seq<Bit>, n: nat)
    requires Pop(s, n).0 % 2 == 1
    ensures |s| >= n
  {
  }

  /** What an accepted body has been through: every marker bit 1, the
      exclusive-or check 0, and the sum nibble matching. */
  lemma DecodeBodyAccepted(t: nat, s: seq<Bit>)
    requires t < 8 && DecodeBody(t, s).Accepted?
    ensures var scan := ReadNibbles(s, SensorDataCount[t]);
      scan.ok && IsPayload(t, scan.nibbles) && XorAll([t] + scan.nibbles) == 0 &&
      Pop(scan.rest, 4).0 == SumNibble(t, scan.nibbles) &&
      DecodeBody(t, s) == Accepted(Output(t, scan.nibbles), Pop(scan.rest, 4).1)
  {
  }

  /** A Thermo/Hygro frame of address 1 reading 2.3 degrees and 7.4 percent,
      its last data nibble chosen to make the exclusive-or check 0. */
  lemma SampleThermoHygro()
    ensures DecodeFrame(EncodeFrame(1, [1, 3, 2, 0, 4, 7, 0, 2]) + [1]) ==
      Accepted(DecoderOutput(1, "Thermo/Hygro", 1, 23, 74, 0, 0, 0, 0), [1])
  {
    SampleChecks();
    SampleReading();
    DecodeAccepts(1, [1, 3, 2, 0, 4, 7, 0, 2], [1]);
  }

  /** The running exclusive-or of the sample frame, three nibbles at a time. */
  lemma SampleXorLow()
    ensures XorAll([1, 1, 3]) == 3
  {
    assert XorAll([1]) == 1 by { assert [1][..0] == []; }
    assert XorAll([1, 1]) == 0 by { assert [1, 1][..1] == [1]; }
    assert XorAll([1, 1, 3]) == 3 by { assert [1, 1, 3][..2] == [1, 1]; }
  }

  lemma SampleXorMid()
    ensures XorAll([1, 1, 3, 2, 0, 4]) == 5
  {
    SampleXorLow();
    assert XorAll([1, 1, 3, 2]) == 1 by { assert [1, 1, 3, 2][..3] == [1, 1, 3]; }
    assert XorAll([1, 1, 3, 2, 0]) == 1 by { assert [1, 1, 3, 2, 0][..4] == [1, 1, 3, 2]; }
    assert XorAll([1, 1, 3, 2, 0, 4]) == 5 by { assert [1, 1, 3, 2, 0, 4][..5] == [1, 1, 3, 2, 0]; }
  }

  lemma SampleChecks()
    ensures XorAll([1] + [1, 3, 2, 0, 4, 7, 0, 2]) == 0
  {
    SampleXorMid();
    assert XorAll([1, 1, 3, 2, 0, 4, 7]) == 2 by { assert [1, 1, 3, 2, 0, 4, 7][..6] == [1, 1, 3, 2, 0, 4]; }
    assert XorAll([1, 1, 3, 2, 0, 4, 7, 0]) == 2 by { assert [1, 1, 3, 2, 0, 4, 7, 0][..7] == [1, 1, 3, 2, 0, 4, 7]; }
    assert XorAll([1, 1, 3, 2, 0, 4, 7, 0, 2]) == 0 by { assert [1, 1, 3, 2, 0, 4, 7, 0, 2][..8] == [1, 1, 3, 2, 0, 4, 7, 0]; }
    assert [1] + [1, 3, 2, 0, 4, 7, 0, 2] == [1, 1, 3, 2, 0, 4, 7, 0, 2];
  }

  lemma SampleReading()
    ensures IsPayload(1, [1, 3, 2, 0, 4, 7, 0, 2])
    ensures Output(1, [1, 3, 2, 0, 4, 7, 0, 2]) == DecoderOutput(1, "Thermo/Hygro", 1, 23, 74, 0, 0, 0, 0)
  {
  }

  /** Only well-formed frames are accepted: an accepted buffer starts with the
      encoding of a well-formed frame, and the reading and the unread bits are
      those of that frame. In particular an exhausted buffer, which the decoder
      reads as zeros, never leads to acceptance. */
  lemma DecodeOnlyAccepts(s: seq<Bit>)
    requires DecodeFrame(s).Accepted?
    ensures exists raw: nat, nibs: seq<nat> ::
      WellFormed(raw, nibs) && EncodeFrame(raw, nibs) <= s &&
      DecodeFrame(s) == Accepted(Output(raw % 8, nibs), s[|EncodeFrame(raw, nibs)|..])
  {
    DecodeFrameFront(s);
    if |s| < 5 {
      DecodeBodyShape(0, s[1..]);
      assert false;
    } else {
      var raw := Value(s[..4]);
      var t := raw % 8;
      DecodeBodyShape(t, s[5..]);
      var nibs := ReadNibbles(s[5..], SensorDataCount[t]).nibbles;
      var rest := DecodeFrame(s).rest;
      FrameLayout(raw, nibs, rest);
      var frame := EncodeFrame(raw, nibs);
      assert frame <= frame + rest && (frame + rest)[|frame|..] == rest;
      assert WellFormed(raw, nibs);
    }
  }

  // ---------------------------------------------------------------------------
  // Rejection

  /** Regrouping concatenations to the right, for the frame layouts below. */
  lemma Assoc4<T>(a: seq<T>, b: seq<T>, c: seq<T>, d: seq<T>)
    ensures a + b + c == a + (b + c)
    ensures a + b + c + d == a + (b + (c + d))
  {
  }

  lemma Assoc5<T>(a: seq<T>, b: seq<T>, c: seq<T>, d: seq<T>, e: seq<T>)
    ensures a + b + c + d + e == a + (b + (c + (d + e)))
    ensures a + b + c + d + e == a + (b + (c + d + e))
  {
  }

  /** A type nibble whose marker bit is 0 is rejected. */
  lemma RejectsTypeMarker(raw: nat, tail: seq<Bit>)
    requires raw < 16
    ensures DecodeFrame(ToBits(raw, 4) + [0] + tail).Rejected?
  {
    assert ToBits(raw, 4) + [0] + tail == ToBits(raw, 4) + ([0] + tail);
    PopToBits(raw, 4, [0] + tail);
    PopToBits(0, 1, tail);
  }

  /** A data nibble whose marker bit is 0 is rejected, wherever it sits among
      the frame's data nibbles. */
  lemma RejectsNibbleMarker(raw: nat, before: seq<nat>, nibble: nat, tail: seq<Bit>)
    requires raw < 16 && nibble < 16
    requires |before| < SensorDataCount[raw % 8]
    requires forall i :: 0 <= i < |before| ==> before[i] < 16
    ensures DecodeFrame(ToBits(raw, 4) + [1] + EncodeNibbles(before) + ToBits(nibble, 4) + [0] + tail).Rejected?
  {
    var count := SensorDataCount[raw % 8];
    var bad := ToBits(nibble, 4) + ([0] + tail);
    var body := EncodeNibbles(before) + bad;
    Assoc4(ToBits(raw, 4), [1], EncodeNibbles(before), ToBits(nibble, 4));
    Assoc4(ToBits(raw, 4) + [1] + EncodeNibbles(before), ToBits(nibble, 4), [0], tail);
    Assoc4(ToBits(raw, 4), [1], EncodeNibbles(before), bad);
    assert ToBits(raw, 4) + [1] + EncodeNibbles(before) + ToBits(nibble, 4) + [0] + tail
      == ToBits(raw, 4) + ([1] + body);
    DecodeFrameHeader(raw, body);
    ReadNibblesEncoded(before, bad, count);
    ReadNibblesBadMarker(nibble, tail, count - |before|);
    assert !ReadNibbles(body, count).ok;
  }

  /** Data nibbles whose exclusive-or with the type is not 0 are rejected. */
  lemma RejectsXor(raw: nat, nibs: seq<nat>, tail: seq<Bit>)
    requires raw < 16 && IsPayload(raw % 8, nibs)
    requires XorAll([raw % 8] + nibs) != 0
    ensures DecodeFrame(ToBits(raw, 4) + [1] + EncodeNibbles(nibs) + tail).Rejected?
  {
    assert ToBits(raw, 4) + [1] + EncodeNibbles(nibs) + tail == ToBits(raw, 4) + ([1] + (EncodeNibbles(nibs) + tail));
    DecodeFrameHeader(raw, EncodeNibbles(nibs) + tail);
    DecodeBodyEncoded(raw % 8, nibs, tail);
  }

  /** A sum nibble other than the one the frame's nibbles call for is rejected. */
  lemma RejectsSum(raw: nat, nibs: seq<nat>, sumRead: nat, tail: seq<Bit>)
    requires WellFormed(raw, nibs) && sumRead < 16
    requires sumRead != SumNibble(raw % 8, nibs)
    ensures DecodeFrame(ToBits(raw, 4) + [1] + EncodeNibbles(nibs) + ToBits(sumRead, 4) + tail).Rejected?
  {
    var after := ToBits(sumRead, 4) + tail;
    Assoc5(ToBits(raw, 4), [1], EncodeNibbles(nibs), ToBits(sumRead, 4), tail);
    assert ToBits(raw, 4) + [1] + EncodeNibbles(nibs) + ToBits(sumRead, 4) + tail
      == ToBits(raw, 4) + ([1] + (EncodeNibbles(nibs) + after));
    DecodeFrameHeader(raw, EncodeNibbles(nibs) + after);
    DecodeBodyEncoded(raw % 8, nibs, after);
    PopToBits(sumRead, 4, tail);
  }

  /** Changing one value of a sequence by exclusive-or with d changes the
      exclusive-or of the whole sequence by d. */
  lemma {:induction false} XorAllUpdate(s: seq<nat>, i: nat, d: nat)
    requires i < |s|
    ensures XorAll(s[i := Xor(s[i], d)]) == Xor(XorAll(s), d)
    decreases |s|
  {
    var s' := s[i := Xor(s[i], d)];
    var init, x := s[..|s| - 1], s[|s| - 1];
    var a := XorAll(init);
    assert XorAll(s) == Xor(a, x);
    if i == |s| - 1 {
      assert s'[..|s| - 1] == init;
      assert XorAll(s') == Xor(a, Xor(x, d));
      XorAssoc(a, x, d);
    } else {
      assert s'[..|s| - 1] == init[i := Xor(init[i], d)];
      XorAllUpdate(init, i, d);
      assert XorAll(s') == Xor(Xor(a, d), x);
      XorAssoc(a, d, x);
      XorComm(d, x);
      XorAssoc(a, x, d);
    }
  }

  /** One bit flipped in any data nibble of a well-formed frame is caught by
      the exclusive-or check, whatever follows the frame: exclusive-or with 2^k
      flips exactly bit k of the nibble's encoding, and that frame is rejected. */
  lemma RejectsFlippedNibble(raw: nat, nibs: seq<nat>, i: nat, k: nat, tail: seq<Bit>)
    requires WellFormed(raw, nibs) && i < |nibs| && k < 4
    ensures ToBits(Xor(nibs[i], Pow2(k)), 4) == ToBits(nibs[i], 4)[k := 1 - ToBits(nibs[i], 4)[k]]
    ensures DecodeFrame(ToBits(raw, 4) + [1] + EncodeNibbles(nibs[i := Xor(nibs[i], Pow2(k))]) +
                        ToBits(SumNibble(raw % 8, nibs), 4) + tail).Rejected?
  {
    FlipBreaksCheck(raw % 8, nibs, i, k);
    RejectsXorFollowed(raw, nibs[i := Xor(nibs[i], Pow2(k))], ToBits(SumNibble(raw % 8, nibs), 4), tail);
    ToBitsFlip(nibs[i], k, 4);
  }

  /** RejectsXor, with the bits after the data nibbles given in two parts. */
  lemma RejectsXorFollowed(raw: nat, nibs: seq<nat>, sum: seq<Bit>, tail: seq<Bit>)
    requires raw < 16 && IsPayload(raw % 8, nibs)
    requires XorAll([raw % 8] + nibs) != 0
    ensures DecodeFrame(ToBits(raw, 4) + [1] + EncodeNibbles(nibs) + sum + tail).Rejected?
  {
    var front := ToBits(raw, 4) + [1] + EncodeNibbles(nibs);
    assert front + sum + tail == front + (sum + tail);
    RejectsXor(raw, nibs, sum + tail);
  }

  /** A payload that passes the exclusive-or check fails it once one bit of
      one of its nibbles is flipped, and is still a payload. */
  lemma FlipBreaksCheck(t: nat, nibs: seq<nat>, i: nat, k: nat)
    requires IsPayload(t, nibs) && XorAll([t] + nibs) == 0 && i < |nibs| && k < 4
    ensures var flipped := nibs[i := Xor(nibs[i], Pow2(k))];
      IsPayload(t, flipped) && XorAll([t] + flipped) != 0
  {
    var d := Pow2(k);
    var flipped := nibs[i := Xor(nibs[i], d)];
    Pow2Nibble(k);
    XorBound(nibs[i], d, 4);
    assert IsPayload(t, flipped);
    assert [t] + flipped == ([t] + nibs)[i + 1 := Xor(([t] + nibs)[i + 1], d)];
    XorAllUpdate([t] + nibs, i + 1, d);
    XorZeroLeft(d);
  }

  // ---------------------------------------------------------------------------
  // Decoding one nibble at a time

  /** Folding in one more nibble after t and dec. */
  lemma FoldNext(t: nat, dec: seq<nat>, x: nat)
    ensures XorAll([t] + (dec + [x])) == Xor(XorAll([t] + dec), x)
    ensures Sum([t] + (dec + [x])) == Sum([t] + dec) + x
  {
    var s := [t] + dec;
    assert [t] + (dec + [x]) == s + [x];
    assert (s + [x])[..|s|] == s;
  }

  /** The outcome of a scan that has read dec so far and has count nibbles
      to go from before. */
  function Resume(dec: seq<nat>, before: seq<Bit>, count: nat): Scan
  {
    var r := ReadNibbles(before, count);
    Scan(r.ok, dec + r.nibbles, r.rest)
  }

  /** A nibble whose marker bit is 1 joins the nibbles read. */
  lemma ScanNext(s: seq<Bit>, n: nat, dec: seq<nat>, before: seq<Bit>, count: nat,
                 nibble: nat, mid: seq<Bit>, after: seq<Bit>)
    requires count > 0 && ReadNibbles(s, n) == Resume(dec, before, count)
    requires Pop(before, 4) == (nibble, mid) && Pop(mid, 1) == (1, after)
    ensures ReadNibbles(s, n) == Resume(dec + [nibble], after, count - 1)
  {
    var r := ReadNibbles(after, count - 1);
    assert ReadNibbles(before, count) == Scan(r.ok, [nibble] + r.nibbles, r.rest);
    assert dec + ([nibble] + r.nibbles) == dec + [nibble] + r.nibbles;
  }

  /** A nibble whose marker bit is not 1 ends the scan unsuccessfully. */
  lemma ScanStop(s: seq<Bit>, n: nat, dec: seq<nat>, before: seq<Bit>, count: nat,
                 nibble: nat, mid: seq<Bit>, marker: nat, after: seq<Bit>)
    requires count > 0 && ReadNibbles(s, n) == Resume(dec, before, count)
    requires Pop(before, 4) == (nibble, mid) && Pop(mid, 1) == (marker, after) && marker != 1
    ensures ReadNibbles(s, n) == Scan(false, dec, after)
  {
    assert dec + [] == dec;
  }

  /** With nothing left to read, the scan is complete. */
  lemma ScanDone(s: seq<Bit>, n: nat, dec: seq<nat>, before: seq<Bit>)
    requires ReadNibbles(s, n) == Resume(dec, before, 0)
    ensures ReadNibbles(s, n) == Scan(true, dec, before)
  {
    assert dec + [] == dec;
  }

  /** The type nibble and its marker bit, as popped off the buffer. */
  lemma DecodeFrameStep(s: seq<Bit>, raw: nat, s1: seq<Bit>, marker: nat, s2: seq<Bit>)
    requires Pop(s, 4) == (raw, s1) && Pop(s1, 1) == (marker, s2)
    ensures marker != 1 ==> DecodeFrame(s) == Rejected(s2)
    ensures marker == 1 ==> DecodeFrame(s) == DecodeBody(raw % 8, s2)
  {
  }

  /** The body of a frame whose nibble scan failed is rejected where the scan
      stopped. */
  lemma DecodeBodyStopped(t: nat, s: seq<Bit>, dec: seq<nat>, rest: seq<Bit>)
    requires t < 8 && ReadNibbles(s, SensorDataCount[t]) == Scan(false, dec, rest)
    ensures DecodeBody(t, s) == Rejected(rest)
  {
  }

  /** The body of a frame whose nibbles were all read holds a payload of
      its type, and is rejected if the exclusive-or check fails. */
  lemma DecodeBodyBadCheck(t: nat, s: seq<Bit>, dec: seq<nat>, rest: seq<Bit>)
    requires t < 8 && ReadNibbles(s, SensorDataCount[t]) == Scan(true, dec, rest)
    ensures IsPayload(t, dec)
    ensures XorAll([t] + dec) != 0 ==> DecodeBody(t, s) == Rejected(rest)
  {
  }

  /** Past the exclusive-or check, the sum nibble decides. */
  lemma DecodeBodyChecked(t: nat, s: seq<Bit>, dec: seq<nat>, rest: seq<Bit>, sumRead: nat, s3: seq<Bit>)
    requires t < 8 && ReadNibbles(s, SensorDataCount[t]) == Scan(true, dec, rest)
    requires XorAll([t] + dec) == 0 && Pop(rest, 4) == (sumRead, s3)
    ensures IsPayload(t, dec)
    ensures DecodeBody(t, s) ==
      if sumRead != SumNibble(t, dec) then Rejected(s3) else Accepted(Output(t, dec), s3)
  {
  }
}
