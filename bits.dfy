/** Bits and the small amount of bit arithmetic the decoder does on non-negative
    integers: least-significant-bit-first values of bit runs and bitwise
    exclusive-or. */
module Bits {

  /** One entry of the decoder's bit buffer. */
  type Bit = b: int | 0 <= b <= 1

  function Pow2(n: nat): (r: nat)
    ensures r >= 1
  {
    if n == 0 then 1 else 2 * Pow2(n - 1)
  }

  /** The bit weights of a nibble. */
  lemma Pow2Nibble(k: nat)
    requires k < 4
    ensures 1 <= Pow2(k) < 16 && Pow2(4) == 16
  {
    assert Pow2(1) == 2 && Pow2(2) == 4 && Pow2(3) == 8 && Pow2(4) == 16;
  }

  /** The value of a bit run read least-significant bit first: s[0] is bit 0. */
  function Value(s: seq<Bit>): (v: nat)
    ensures v < Pow2(|s|)
  {
    if s == [] then 0 else s[0] + 2 * Value(s[1..])
  }

  /** The n low bits of v, least-significant bit first. */
  function ToBits(v: nat, n: nat): (r: seq<Bit>)
    ensures |r| == n
  {
    if n == 0 then [] else [v % 2] + ToBits(v / 2, n - 1)
  }

  /** Appending a bit at the high end adds it with weight 2^|s|. */
  lemma {:induction false} ValueSnoc(s: seq<Bit>, b: Bit)
    ensures Value(s + [b]) == Value(s) + b * Pow2(|s|)
  {
    if s != [] {
      assert (s + [b])[1..] == s[1..] + [b];
      ValueSnoc(s[1..], b);
    }
  }

  /** Reading back the n low bits of a value below 2^n gives the value. */
  lemma {:induction false} ValueOfToBits(v: nat, n: nat)
    requires v < Pow2(n)
    ensures Value(ToBits(v, n)) == v
  {
    if n > 0 {
      var r := ToBits(v, n);
      assert r[1..] == ToBits(v / 2, n - 1);
      ValueOfToBits(v / 2, n - 1);
    }
  }

  /** A bit run is determined by its value and its length. */
  lemma {:induction false} ToBitsOfValue(s: seq<Bit>)
    ensures ToBits(Value(s), |s|) == s
  {
    if s != [] {
      var v := Value(s);
      assert v % 2 == s[0] && v / 2 == Value(s[1..]);
      ToBitsOfValue(s[1..]);
    }
  }

  /** Bitwise exclusive-or of two non-negative integers (C's `^` on them). */
  function Xor(a: nat, b: nat): (r: nat)
    decreases a + b
  {
    if a == 0 && b == 0 then 0 else 2 * Xor(a / 2, b / 2) + (a + b) % 2
  }

  /** The low bit of an exclusive-or is the parity of the operands' low bits. */
  lemma XorParity(a: nat, b: nat)
    ensures Xor(a, b) % 2 == (a + b) % 2
  {
  }

  /** Exclusive-or of two n-bit values is an n-bit value. */
  lemma {:induction false} XorBound(a: nat, b: nat, n: nat)
    requires a < Pow2(n) && b < Pow2(n)
    ensures Xor(a, b) < Pow2(n)
  {
    if n > 0 && !(a == 0 && b == 0) {
      XorBound(a / 2, b / 2, n - 1);
    }
  }

  /** Exclusive-or is zero exactly when the operands are equal. */
  lemma {:induction false} XorZeroIff(a: nat, b: nat)
    ensures Xor(a, b) == 0 <==> a == b
    decreases a + b
  {
    if !(a == 0 && b == 0) {
      XorZeroIff(a / 2, b / 2);
    }
  }

  /** One level of exclusive-or: the low bits, then the rest shifted down. */
  lemma XorStep(a: nat, b: nat)
    ensures Xor(a, b) % 2 == (a % 2 + b % 2) % 2 && Xor(a, b) / 2 == Xor(a / 2, b / 2)
  {
    var x := Xor(a / 2, b / 2);
    if a == 0 && b == 0 {
      assert x == 0;
    }
    var p := (a % 2 + b % 2) % 2;
    SumParity(a, b);
    assert Xor(a, b) == 2 * x + p;
    HalveTwice(x, p);
  }

  lemma SumParity(a: nat, b: nat)
    ensures (a + b) % 2 == (a % 2 + b % 2) % 2
  {
    HalveTwice(a / 2 + b / 2, a % 2 + b % 2 - 2 * ((a % 2 + b % 2) / 2));
    assert a + b == 2 * (a / 2 + b / 2) + (a % 2 + b % 2);
  }

  lemma HalveTwice(x: nat, p: nat)
    requires p < 2
    ensures (2 * x + p) % 2 == p && (2 * x + p) / 2 == x
  {
  }

  /** The low bit of an exclusive-or of three values does not depend on the
      grouping. */
  lemma LowAssoc(a: nat, b: nat, c: nat, ab: nat, bc: nat, l: nat, r: nat)
    requires ab % 2 == (a % 2 + b % 2) % 2 && bc % 2 == (b % 2 + c % 2) % 2
    requires l % 2 == (ab % 2 + c % 2) % 2 && r % 2 == (a % 2 + bc % 2) % 2
    ensures l % 2 == r % 2
  {
    BitXorAssoc(a % 2, b % 2, c % 2);
  }

  /** Two values with the same low bit and the same upper bits are equal. */
  lemma SameBits(l: nat, r: nat)
    requires l % 2 == r % 2 && l / 2 == r / 2
    ensures l == r
  {
  }

  /** Exclusive-or of single bits is associative. */
  lemma BitXorAssoc(x: nat, y: nat, z: nat)
    requires x < 2 && y < 2 && z < 2
    ensures ((x + y) % 2 + z) % 2 == (x + (y + z) % 2) % 2
  {
  }

  lemma {:induction false} XorZeroLeft(b: nat)
    ensures Xor(0, b) == b
    decreases b
  {
    if b != 0 {
      XorZeroLeft(b / 2);
    }
  }

  lemma {:induction false} XorComm(a: nat, b: nat)
    ensures Xor(a, b) == Xor(b, a)
    decreases a + b
  {
    if !(a == 0 && b == 0) {
      XorComm(a / 2, b / 2);
    }
  }

  lemma {:induction false} XorAssoc(a: nat, b: nat, c: nat)
    ensures Xor(Xor(a, b), c) == Xor(a, Xor(b, c))
    decreases a + b + c
  {
    if !(a == 0 && b == 0 && c == 0) {
      XorAssoc(a / 2, b / 2, c / 2);
      var ab, bc := Xor(a, b), Xor(b, c);
      var l, r := Xor(ab, c), Xor(a, bc);
      XorStep(a, b);
      XorStep(b, c);
      XorStep(ab, c);
      XorStep(a, bc);
      LowAssoc(a, b, c, ab, bc, l, r);
      SameBits(l, r);
    }
  }

  /** Exclusive-or with 2^k flips bit k of the n-bit encoding and no other. */
  lemma {:induction false} ToBitsFlip(v: nat, k: nat, n: nat)
    requires k < n
    ensures ToBits(Xor(v, Pow2(k)), n) == ToBits(v, n)[k := 1 - ToBits(v, n)[k]]
    decreases n
  {
    var w := Xor(v, Pow2(k));
    XorStep(v, Pow2(k));
    if k == 0 {
      XorComm(v / 2, 0);
      XorZeroLeft(v / 2);
      FlipLowBit(v, w, n);
    } else {
      var d := Pow2(k - 1);
      assert Pow2(k) == 2 * d;
      HalveTwice(d, 0);
      EvenStep(v % 2, Pow2(k), w % 2);
      assert w / 2 == Xor(v / 2, d);
      ToBitsFlip(v / 2, k - 1, n - 1);
      FlipHighBit(v, w, k, n);
    }
  }

  /** Adding an even number leaves a bit as it was. */
  lemma EvenStep(a: nat, p: nat, r: nat)
    requires a < 2 && p % 2 == 0 && r == (a + p % 2) % 2
    ensures r == a
  {
  }

  /** The two steps of ToBitsFlip, free of exclusive-or: flipping the low bit,
      and flipping bit k of the higher bits. */
  lemma FlipLowBit(v: nat, w: nat, n: nat)
    requires 0 < n && (w % 2 == (v % 2 + 1) % 2) && w / 2 == v / 2
    ensures ToBits(w, n) == ToBits(v, n)[0 := 1 - ToBits(v, n)[0]]
  {
    assert ToBits(w, n) == [w % 2] + ToBits(w / 2, n - 1);
    assert ToBits(v, n) == [v % 2] + ToBits(v / 2, n - 1);
  }

  lemma FlipHighBit(v: nat, w: nat, k: nat, n: nat)
    requires 0 < k < n && w % 2 == v % 2
    requires ToBits(w / 2, n - 1) == ToBits(v / 2, n - 1)[k - 1 := 1 - ToBits(v / 2, n - 1)[k - 1]]
    ensures ToBits(w, n) == ToBits(v, n)[k := 1 - ToBits(v, n)[k]]
  {
    var lo, hi := ToBits(v / 2, n - 1), ToBits(w / 2, n - 1);
    assert ToBits(w, n) == [w % 2] + hi;
    assert ToBits(v, n) == [v % 2] + lo;
    assert ([v % 2] + lo)[k := 1 - lo[k - 1]] == [v % 2] + lo[k - 1 := 1 - lo[k - 1]];
  }
}
