/**
 * JavaScript strings and their UTF-8 bytes, as `Buffer.from(s, 'utf8')` and
 * `buffer.toString('utf8')` convert them. A string is a sequence of UTF-16 code units in
 * which surrogates need not be paired; encoding replaces a lone one by U+FFFD, and decoding
 * replaces each maximal invalid byte sequence by U+FFFD.
 */
module Utf8 {

  type Unit = x: int | 0 <= x < 0x10000

  type Byte = x: int | 0 <= x < 0x100

  predicate IsHigh(u: int) {
    0xD800 <= u < 0xDC00
  }

  predicate IsLow(u: int) {
    0xDC00 <= u < 0xE000
  }

  type Scalar = c: int | 0 <= c < 0x110000 && !(0xD800 <= c < 0xE000)

  const REPLACEMENT: Scalar := 0xFFFD

  function Pair(high: Unit, low: Unit): Scalar
    requires IsHigh(high) && IsLow(low)
  {
    0x10000 + (high - 0xD800) * 0x400 + (low - 0xDC00)
  }

  predicate StartsPair(s: seq<Unit>) {
    |s| >= 2 && IsHigh(s[0]) && IsLow(s[1])
  }

  function Scalars(s: seq<Unit>): seq<Scalar>
    decreases |s|
  {
    if s == [] then []
    else if StartsPair(s) then [Pair(s[0], s[1])] + Scalars(s[2..])
    else if IsHigh(s[0]) || IsLow(s[0]) then [REPLACEMENT] + Scalars(s[1..])
    else [s[0] as Scalar] + Scalars(s[1..])
  }

  function UnitsOf(c: Scalar): seq<Unit> {
    if c < 0x10000 then [c] else [0xD800 + (c - 0x10000) / 0x400, 0xDC00 + (c - 0x10000) % 0x400]
  }

  function ToUnits(cs: seq<Scalar>): seq<Unit> {
    if cs == [] then [] else UnitsOf(cs[0]) + ToUnits(cs[1..])
  }

  function BytesOf(c: Scalar): seq<Byte> {
    if c < 0x80 then [c]
    else if c < 0x800 then [0xC0 + c / 0x40, 0x80 + c % 0x40]
    else if c < 0x10000 then [0xE0 + c / 0x1000, 0x80 + c / 0x40 % 0x40, 0x80 + c % 0x40]
    else [0xF0 + c / 0x40000, 0x80 + c / 0x1000 % 0x40, 0x80 + c / 0x40 % 0x40, 0x80 + c % 0x40]
  }

  function ToBytes(cs: seq<Scalar>): seq<Byte> {
    if cs == [] then [] else BytesOf(cs[0]) + ToBytes(cs[1..])
  }

  function Encode(s: seq<Unit>): seq<Byte> {
    ToBytes(Scalars(s))
  }

  // ----- decoding -----

  predicate Continues(b: seq<Byte>, i: nat) {
    i < |b| && 0x80 <= b[i] < 0xC0
  }

  /** The second byte of a long sequence is restricted so that no value is overlong, a surrogate or too large. */
  predicate SecondFits(b: seq<Byte>) {
    && Continues(b, 1)
    && (b[0] == 0xE0 ==> b[1] >= 0xA0)
    && (b[0] == 0xED ==> b[1] < 0xA0)
    && (b[0] == 0xF0 ==> b[1] >= 0x90)
    && (b[0] == 0xF4 ==> b[1] < 0x90)
  }

  function Two(b0: int, b1: int): int {
    (b0 - 0xC0) * 0x40 + (b1 - 0x80)
  }

  function Three(b0: int, b1: int, b2: int): int {
    (b0 - 0xE0) * 0x1000 + (b1 - 0x80) * 0x40 + (b2 - 0x80)
  }

  function Four(b0: int, b1: int, b2: int, b3: int): int {
    (b0 - 0xF0) * 0x40000 + (b1 - 0x80) * 0x1000 + (b2 - 0x80) * 0x40 + (b3 - 0x80)
  }

  /** The first scalar value of a byte sequence and how many bytes it takes. */
  function DecodeOne(b: seq<Byte>): (r: (Scalar, nat))
    requires b != []
    ensures 1 <= r.1 <= |b|
  {
    if b[0] < 0x80 then (b[0] as Scalar, 1)
    else if 0xC2 <= b[0] < 0xE0 then
      if Continues(b, 1) then (Two(b[0], b[1]), 2) else (REPLACEMENT, 1)
    else if 0xE0 <= b[0] < 0xF0 then
      if !SecondFits(b) then (REPLACEMENT, 1)
      else if !Continues(b, 2) then (REPLACEMENT, 2)
      else (Three(b[0], b[1], b[2]), 3)
    else if 0xF0 <= b[0] < 0xF5 then
      if !SecondFits(b) then (REPLACEMENT, 1)
      else if !Continues(b, 2) then (REPLACEMENT, 2)
      else if !Continues(b, 3) then (REPLACEMENT, 3)
      else (Four(b[0], b[1], b[2], b[3]), 4)
    else (REPLACEMENT, 1)
  }

  function FromBytes(b: seq<Byte>): seq<Scalar>
    decreases |b|
  {
    if b == [] then []
    else
      var (c, n) := DecodeOne(b);
      [c] + FromBytes(b[n..])
  }

  function Decode(b: seq<Byte>): seq<Unit> {
    ToUnits(FromBytes(b))
  }

  lemma SixBitDigits(c: nat)
    ensures c == c / 0x40 * 0x40 + c % 0x40
    ensures c / 0x40 == c / 0x1000 * 0x40 + c / 0x40 % 0x40
    ensures c / 0x1000 == c / 0x40000 * 0x40 + c / 0x1000 % 0x40
  {
    assert c / 0x1000 == c / 0x40 / 0x40;
    assert c / 0x40000 == c / 0x1000 / 0x40;
  }

  lemma DecodeThree(c: Scalar, rest: seq<Byte>)
    requires 0x800 <= c < 0x10000
    ensures DecodeOne(BytesOf(c) + rest) == (c, 3)
  {
    SixBitDigits(c);
    var b := BytesOf(c) + rest;
    var d0, d1, d2 := c / 0x1000, c / 0x40 % 0x40, c % 0x40;
    assert c == d0 * 0x1000 + d1 * 0x40 + d2;
    assert b[0] == 0xE0 + d0 && b[1] == 0x80 + d1 && b[2] == 0x80 + d2;
    assert SecondFits(b) && Continues(b, 2);
  }

  lemma DecodeFour(c: Scalar, rest: seq<Byte>)
    requires 0x10000 <= c
    ensures DecodeOne(BytesOf(c) + rest) == (c, 4)
  {
    SixBitDigits(c);
    var b := BytesOf(c) + rest;
    var d0, d1, d2, d3 := c / 0x40000, c / 0x1000 % 0x40, c / 0x40 % 0x40, c % 0x40;
    assert c == d0 * 0x40000 + d1 * 0x1000 + d2 * 0x40 + d3;
    assert b[0] == 0xF0 + d0 && b[1] == 0x80 + d1 && b[2] == 0x80 + d2 && b[3] == 0x80 + d3;
    assert SecondFits(b) && Continues(b, 2) && Continues(b, 3);
  }

  lemma DecodeOneInvertsBytesOf(c: Scalar, rest: seq<Byte>)
    ensures DecodeOne(BytesOf(c) + rest) == (c, |BytesOf(c)|)
  {
    if c >= 0x10000 {
      DecodeFour(c, rest);
    } else if c >= 0x800 {
      DecodeThree(c, rest);
    } else if c >= 0x80 {
      var b := BytesOf(c) + rest;
      assert b[0] == 0xC0 + c / 0x40 && b[1] == 0x80 + c % 0x40;
    }
  }

  /** Decoding inverts encoding on scalar values. */
  lemma {:induction false} FromBytesInvertsToBytes(cs: seq<Scalar>)
    ensures FromBytes(ToBytes(cs)) == cs
  {
    if cs != [] {
      var rest := ToBytes(cs[1..]);
      DecodeOneInvertsBytesOf(cs[0], rest);
      var b := ToBytes(cs);
      assert b[|BytesOf(cs[0])|..] == rest;
      FromBytesInvertsToBytes(cs[1..]);
    }
  }

  // ----- lone surrogates -----

  /** The string with every lone surrogate replaced. */
  function Scrub(s: seq<Unit>): seq<Unit>
    decreases |s|
  {
    if s == [] then []
    else if StartsPair(s) then s[..2] + Scrub(s[2..])
    else if IsHigh(s[0]) || IsLow(s[0]) then [REPLACEMENT as Unit] + Scrub(s[1..])
    else [s[0]] + Scrub(s[1..])
  }

  /** Every surrogate is half of a pair: a low one follows each high one, and a high one precedes each low one. */
  predicate WellFormed(s: seq<Unit>) {
    && (forall i :: 0 <= i < |s| && IsHigh(s[i]) ==> i + 1 < |s| && IsLow(s[i + 1]))
    && (forall i :: 0 <= i < |s| && IsLow(s[i]) ==> i > 0 && IsHigh(s[i - 1]))
  }

  lemma {:induction false} ToUnitsOfScalars(s: seq<Unit>)
    ensures ToUnits(Scalars(s)) == Scrub(s)
    decreases |s|
  {
    if s != [] {
      if StartsPair(s) {
        ToUnitsOfScalars(s[2..]);
        assert Scalars(s)[1..] == Scalars(s[2..]);
        assert UnitsOf(Pair(s[0], s[1])) == s[..2];
      } else {
        ToUnitsOfScalars(s[1..]);
        assert Scalars(s)[1..] == Scalars(s[1..]);
      }
    }
  }

  /** Cutting off a leading pair, or a leading unit that is no surrogate, does not change well-formedness. */
  lemma WellFormedTail(s: seq<Unit>, k: nat)
    requires s != [] && k == if StartsPair(s) then 2 else 1
    requires StartsPair(s) || !(IsHigh(s[0]) || IsLow(s[0]))
    ensures WellFormed(s) <==> WellFormed(s[k..])
  {
    var t := s[k..];
    assert forall i :: 0 <= i < |t| ==> t[i] == s[i + k];
    assert forall i :: k <= i < |s| ==> s[i] == t[i - k];
    if WellFormed(s) {
      forall i | 0 <= i < |t| && IsLow(t[i])
        ensures i > 0 && IsHigh(t[i - 1])
      {
        assert IsHigh(s[i + k - 1]);
      }
      forall i | 0 <= i < |t| && IsHigh(t[i])
        ensures i + 1 < |t| && IsLow(t[i + 1])
      {
        assert IsLow(s[i + k + 1]);
      }
    }
    if WellFormed(t) {
      forall i | 0 <= i < |s| && IsLow(s[i])
        ensures i > 0 && IsHigh(s[i - 1])
      {
        if i >= k {
          assert IsHigh(t[i - k - 1]);
        }
      }
      forall i | 0 <= i < |s| && IsHigh(s[i])
        ensures i + 1 < |s| && IsLow(s[i + 1])
      {
        if i >= k {
          assert IsLow(t[i - k + 1]);
        }
      }
    }
  }

  lemma {:induction false} ScrubKeepsWellFormed(s: seq<Unit>)
    ensures Scrub(s) == s <==> WellFormed(s)
    decreases |s|
  {
    if s != [] {
      if StartsPair(s) {
        WellFormedTail(s, 2);
        ScrubKeepsWellFormed(s[2..]);
        assert s == s[..2] + s[2..];
        assert Scrub(s)[2..] == Scrub(s[2..]);
      } else if IsHigh(s[0]) || IsLow(s[0]) {
        assert Scrub(s)[0] == REPLACEMENT;
      } else {
        WellFormedTail(s, 1);
        ScrubKeepsWellFormed(s[1..]);
        assert s == [s[0]] + s[1..];
        assert Scrub(s)[1..] == Scrub(s[1..]);
      }
    }
  }

  /** Through bytes and back, a string keeps everything but its lone surrogates. */
  lemma {:induction false} DecodeInvertsEncode(s: seq<Unit>)
    ensures Decode(Encode(s)) == Scrub(s)
    ensures Decode(Encode(s)) == s <==> WellFormed(s)
  {
    FromBytesInvertsToBytes(Scalars(s));
    ToUnitsOfScalars(s);
    ScrubKeepsWellFormed(s);
  }
}
