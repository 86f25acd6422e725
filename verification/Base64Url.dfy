/**
 * Base 64 with the URL and file name safe alphabet, section 5 of RFC 4648, written without
 * padding. Decoding also accepts the standard alphabet and skips every other character.
 */
module Base64Url {
  import opened Prelude
  import opened Utf8

  type Six = x: int | 0 <= x < 64

  const MINUS: Unit := 45
  const UNDERSCORE: Unit := 95
  const PLUS: Unit := 43
  const SLASH: Unit := 47

  function CharOf(v: Six): Unit {
    if v < 26 then 65 + v
    else if v < 52 then 97 + (v - 26)
    else if v < 62 then 48 + (v - 52)
    else if v == 62 then MINUS
    else UNDERSCORE
  }

  function ValueOf(c: Unit): Option<Six> {
    if 65 <= c < 91 then Some(c - 65)
    else if 97 <= c < 123 then Some(c - 97 + 26)
    else if 48 <= c < 58 then Some(c - 48 + 52)
    else if c == MINUS || c == PLUS then Some(62)
    else if c == UNDERSCORE || c == SLASH then Some(63)
    else None
  }

  function ToSixes(b: seq<Byte>): seq<Six>
    decreases |b|
  {
    if b == [] then []
    else if |b| == 1 then [b[0] / 4, b[0] % 4 * 16]
    else if |b| == 2 then [b[0] / 4, b[0] % 4 * 16 + b[1] / 16, b[1] % 16 * 4]
    else [b[0] / 4, b[0] % 4 * 16 + b[1] / 16, b[1] % 16 * 4 + b[2] / 64, b[2] % 64] + ToSixes(b[3..])
  }

  function First(v0: int, v1: int): int {
    v0 * 4 + v1 / 16
  }

  function Second(v1: int, v2: int): int {
    v1 % 16 * 16 + v2 / 4
  }

  function Third(v2: int, v3: int): int {
    v2 % 4 * 64 + v3
  }

  /** A last group of one value carries no byte. */
  function FromSixes(v: seq<Six>): seq<Byte>
    decreases |v|
  {
    if |v| < 2 then []
    else if |v| == 2 then [First(v[0], v[1])]
    else if |v| == 3 then [First(v[0], v[1]), Second(v[1], v[2])]
    else [First(v[0], v[1]), Second(v[1], v[2]), Third(v[2], v[3])] + FromSixes(v[4..])
  }

  function Chars(v: seq<Six>): seq<Unit> {
    if v == [] then [] else [CharOf(v[0])] + Chars(v[1..])
  }

  function Values(cs: seq<Unit>): seq<Six> {
    if cs == [] then []
    else
      var v := ValueOf(cs[0]);
      if v.Some? then [v.value] + Values(cs[1..]) else Values(cs[1..])
  }

  function Encode(b: seq<Byte>): seq<Unit> {
    Chars(ToSixes(b))
  }

  function Decode(cs: seq<Unit>): seq<Byte> {
    FromSixes(Values(cs))
  }

  lemma {:induction false} ValuesInvertChars(v: seq<Six>)
    ensures Values(Chars(v)) == v
  {
    if v != [] {
      ValuesInvertChars(v[1..]);
      assert Chars(v)[1..] == Chars(v[1..]);
    }
  }

  /** Four values give back the three bytes they were made of. */
  lemma ThreeBytes(b0: Byte, b1: Byte, b2: Byte)
    ensures First(b0 / 4, b0 % 4 * 16 + b1 / 16) == b0
    ensures Second(b0 % 4 * 16 + b1 / 16, b1 % 16 * 4 + b2 / 64) == b1
    ensures Third(b1 % 16 * 4 + b2 / 64, b2 % 64) == b2
  {
  }

  lemma {:induction false} FromSixesGroup(v: seq<Six>, rest: seq<Six>)
    requires |v| == 4
    ensures FromSixes(v + rest) == [First(v[0], v[1]), Second(v[1], v[2]), Third(v[2], v[3])] + FromSixes(rest)
  {
    assert (v + rest)[4..] == rest;
  }

  lemma {:induction false} OneGroup(b: seq<Byte>)
    requires |b| >= 3
    ensures FromSixes(ToSixes(b)) == b[..3] + FromSixes(ToSixes(b[3..]))
  {
    var v: seq<Six> := [b[0] / 4, b[0] % 4 * 16 + b[1] / 16, b[1] % 16 * 4 + b[2] / 64, b[2] % 64];
    assert ToSixes(b) == v + ToSixes(b[3..]);
    FromSixesGroup(v, ToSixes(b[3..]));
    ThreeBytes(b[0], b[1], b[2]);
  }

  lemma {:induction false} OneByte(b0: Byte)
    ensures FromSixes([b0 / 4, b0 % 4 * 16]) == [b0]
  {
    ThreeBytes(b0, 0, 0);
  }

  lemma {:induction false} TwoBytes(b0: Byte, b1: Byte)
    ensures FromSixes([b0 / 4, b0 % 4 * 16 + b1 / 16, b1 % 16 * 4]) == [b0, b1]
  {
    ThreeBytes(b0, b1, 0);
  }

  lemma {:induction false} FromSixesInvertsToSixes(b: seq<Byte>)
    ensures FromSixes(ToSixes(b)) == b
    decreases |b|
  {
    if |b| == 1 {
      OneByte(b[0]);
    } else if |b| == 2 {
      TwoBytes(b[0], b[1]);
    } else if |b| >= 3 {
      OneGroup(b);
      FromSixesInvertsToSixes(b[3..]);
      assert b == b[..3] + b[3..];
    }
  }

  lemma DecodeInvertsEncode(b: seq<Byte>)
    ensures Decode(Encode(b)) == b
  {
    ValuesInvertChars(ToSixes(b));
    FromSixesInvertsToSixes(b);
  }

  predicate InAlphabet(c: Unit) {
    65 <= c < 91 || 97 <= c < 123 || 48 <= c < 58 || c == MINUS || c == UNDERSCORE
  }

  lemma {:induction false} CharsInAlphabet(v: seq<Six>)
    ensures forall c :: c in Chars(v) ==> InAlphabet(c)
  {
    if v != [] {
      CharsInAlphabet(v[1..]);
    }
  }

  /** Table 2 of RFC 4648: `A` to `Z`, `a` to `z`, `0` to `9`, `-` and `_`, in this order. */
  lemma AlphabetOfTheStandard(v: Six)
    ensures CharOf(0) == 'A' as int && CharOf(25) == 'Z' as int && CharOf(26) == 'a' as int && CharOf(51) == 'z' as int
    ensures CharOf(52) == '0' as int && CharOf(61) == '9' as int && CharOf(62) == '-' as int && CharOf(63) == '_' as int
    ensures v < 61 && v != 25 && v != 51 ==> CharOf(v + 1) == CharOf(v) + 1
  {
  }

  /** Each group of three bytes and its four values are the same 24 bits, most significant first. */
  lemma {:induction false} GroupsAreBigEndian(b: seq<Byte>)
    requires |b| >= 3
    ensures var v := ToSixes(b);
            && |v| >= 4 && v[4..] == ToSixes(b[3..])
            && (b[0] as int) * 0x10000 + (b[1] as int) * 0x100 + b[2] as int
               == (v[0] as int) * 0x40000 + (v[1] as int) * 0x1000 + (v[2] as int) * 0x40 + v[3] as int
  {
    var v := ToSixes(b);
    assert v[4..] == ToSixes(b[3..]);
  }

  /** The last one or two bytes are filled up with zero bits, and no padding is written. */
  lemma {:induction false} LastGroupIsFilledUp(b: seq<Byte>)
    requires 1 <= |b| <= 2
    ensures ToSixes(b) == ToSixes(b + [0, 0])[..|b| + 1]
  {
    var filled := b + [0, 0];
    var (b0, b1) := (filled[0], filled[1]);
    var v: seq<Six> := [b0 / 4, b0 % 4 * 16 + b1 / 16, b1 % 16 * 4 + 0 / 64, 0 % 64];
    assert ToSixes(filled) == v + ToSixes(filled[3..]);
  }

  /** The standard alphabet in place of the one for URLs. */
  function Standard(cs: seq<Unit>): seq<Unit> {
    seq(|cs|, i requires 0 <= i < |cs| => if cs[i] == MINUS then PLUS else if cs[i] == UNDERSCORE then SLASH else cs[i])
  }

  lemma {:induction false} StandardValues(cs: seq<Unit>)
    ensures Values(Standard(cs)) == Values(cs)
  {
    if cs != [] {
      StandardValues(cs[1..]);
      assert Standard(cs)[1..] == Standard(cs[1..]);
    }
  }

  /** The decoder reads both alphabets alike, and skips what is in neither. */
  lemma DecodesBothAlphabets(cs: seq<Unit>, x: Unit)
    ensures Decode(Standard(cs)) == Decode(cs)
    ensures !InAlphabet(x) && x != PLUS && x != SLASH ==> Decode([x] + cs) == Decode(cs)
  {
    StandardValues(cs);
    assert ([x] + cs)[1..] == cs;
  }
}
