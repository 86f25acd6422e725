/**
 * Decoding UTF-8 chunk by chunk. `buffer.toString()` on each chunk of a byte stream gives the
 * text of the whole stream exactly when no cut falls inside a byte sequence that the decoder
 * would have read as one.
 */
module Utf8Chunks {
  import opened Utf8

  /** The decoder, reading `b` from its start, begins a new sequence at position `k` or ends there. */
  predicate Boundary(b: seq<Byte>, k: nat)
    decreases |b|
  {
    k == 0 || (b != [] && DecodeOne(b).1 <= k && Boundary(b[DecodeOne(b).1..], k - DecodeOne(b).1))
  }

  function Joined(chunks: seq<seq<Byte>>): seq<Byte> {
    if chunks == [] then [] else Joined(chunks[..|chunks| - 1]) + chunks[|chunks| - 1]
  }

  function DecodeEach(chunks: seq<seq<Byte>>): seq<Scalar> {
    if chunks == [] then [] else DecodeEach(chunks[..|chunks| - 1]) + FromBytes(chunks[|chunks| - 1])
  }

  /** Every cut of the stream is on a boundary of the whole stream. */
  ghost predicate CutsFit(chunks: seq<seq<Byte>>) {
    forall i :: 0 <= i <= |chunks| ==> Boundary(Joined(chunks), |Joined(chunks[..i])|)
  }

  /** A sequence that ends within the first part reads the same without the second part. */
  lemma DecodeOneInPrefix(a: seq<Byte>, b: seq<Byte>)
    requires a != [] && DecodeOne(a + b).1 <= |a|
    ensures DecodeOne(a) == DecodeOne(a + b)
  {
    var w := a + b;
    assert forall i :: 0 <= i < |a| ==> w[i] == a[i];
  }

  /** A sequence cut in two leaves a truncated one in the first part and bare continuation bytes in the second. */
  lemma DecodeOneAcross(a: seq<Byte>, b: seq<Byte>)
    requires a != [] && DecodeOne(a + b).1 > |a|
    ensures DecodeOne(a) == (REPLACEMENT, |a|)
    ensures forall i :: 0 <= i < DecodeOne(a + b).1 - |a| ==> 0x80 <= b[i] < 0xC0
  {
    var w := a + b;
    assert forall i :: 0 <= i < |a| ==> w[i] == a[i];
    assert forall i :: |a| <= i < |w| ==> w[i] == b[i - |a|];
    forall i | 1 <= i < DecodeOne(w).1
      ensures Continues(w, i)
    {
    }
    forall i | 0 <= i < DecodeOne(w).1 - |a|
      ensures 0x80 <= b[i] < 0xC0
    {
      assert Continues(w, |a| + i);
    }
  }

  /** What is read is a valid encoding of what it is read as, or is replaced. */
  lemma ReadsOnlyEncodings(b: seq<Byte>)
    requires b != []
    ensures b[..DecodeOne(b).1] == BytesOf(DecodeOne(b).0) || DecodeOne(b).0 == REPLACEMENT
  {
    var (c, n) := DecodeOne(b);
    if n == 2 && c != REPLACEMENT {
      assert c / 0x40 == b[0] - 0xC0 && c % 0x40 == b[1] - 0x80;
    } else if n == 3 && c != REPLACEMENT {
      ThreeDigits(b[0], b[1], b[2]);
    } else if n == 4 {
      FourDigits(b[0], b[1], b[2], b[3]);
    }
  }

  lemma ThreeDigits(b0: Byte, b1: Byte, b2: Byte)
    requires 0xE0 <= b0 < 0xF0 && 0x80 <= b1 < 0xC0 && 0x80 <= b2 < 0xC0
    ensures var c := Three(b0, b1, b2);
            c / 0x1000 == b0 - 0xE0 && c / 0x40 % 0x40 == b1 - 0x80 && c % 0x40 == b2 - 0x80
  {
    var c := Three(b0, b1, b2);
    assert c / 0x40 == (b0 - 0xE0) * 0x40 + (b1 - 0x80);
    assert c / 0x1000 == c / 0x40 / 0x40;
  }

  lemma FourDigits(b0: Byte, b1: Byte, b2: Byte, b3: Byte)
    requires 0xF0 <= b0 < 0xF5 && 0x80 <= b1 < 0xC0 && 0x80 <= b2 < 0xC0 && 0x80 <= b3 < 0xC0
    ensures var c := Four(b0, b1, b2, b3);
            && c / 0x40000 == b0 - 0xF0 && c / 0x1000 % 0x40 == b1 - 0x80
            && c / 0x40 % 0x40 == b2 - 0x80 && c % 0x40 == b3 - 0x80
  {
    var c := Four(b0, b1, b2, b3);
    assert c / 0x40 == (b0 - 0xF0) * 0x1000 + (b1 - 0x80) * 0x40 + (b2 - 0x80);
    assert c / 0x1000 == c / 0x40 / 0x40 == (b0 - 0xF0) * 0x40 + (b1 - 0x80);
    assert c / 0x40000 == c / 0x1000 / 0x40;
  }

  /**
   * Bytes that are replaced start no valid encoding, and one byte more is the beginning of none either: the decoder
   * replaces the longest beginning of a valid sequence at once.
   */
  lemma ReplacesMaximally(b: seq<Byte>, d: Scalar)
    requires b != [] && b[..DecodeOne(b).1] != BytesOf(DecodeOne(b).0)
    ensures !(BytesOf(d) <= b)
    ensures DecodeOne(b).1 < |b| ==> !(b[..DecodeOne(b).1 + 1] <= BytesOf(d))
  {
    var (c, n) := DecodeOne(b);
    var e := BytesOf(d);
    if e <= b {
      assert b == e + b[|e|..];
      DecodeOneInvertsBytesOf(d, b[|e|..]);
    } else if n < |b| && b[..n + 1] <= e {
      var a := b[..n + 1];
      assert a + b[n + 1..] == b;
      DecodeOneInPrefix(a, b[n + 1..]);
      assert a != e;
      DecodeOneInvertsBytesOf(d, []);
      assert e == a + e[n + 1..] && e + [] == e;
      DecodeOneAcross(a, e[n + 1..]);
    }
  }

  lemma ThreeBegins(b0: Byte, b1: Byte) returns (d: Scalar)
    requires 0xE0 <= b0 < 0xF0 && SecondFits([b0, b1])
    ensures BytesOf(d) == [b0, b1, 0x80]
  {
    var w: seq<Byte> := [b0, b1, 0x80];
    assert SecondFits(w) && Continues(w, 2);
    ThreeDigits(b0, b1, 0x80);
    d := Three(b0, b1, 0x80);
  }

  lemma FourInRange(b0: Byte, b1: Byte, b2: Byte)
    requires 0xF0 <= b0 < 0xF5 && 0x80 <= b1 < 0xC0 && 0x80 <= b2 < 0xC0
    requires (b0 == 0xF0 ==> b1 >= 0x90) && (b0 == 0xF4 ==> b1 < 0x90)
    ensures 0x10000 <= Four(b0, b1, b2, 0x80) < 0x110000
  {
  }

  lemma FourBegins(b0: Byte, b1: Byte, b2: Byte) returns (d: Scalar)
    requires 0xF0 <= b0 < 0xF5 && 0x80 <= b1 < 0xC0 && 0x80 <= b2 < 0xC0
    requires (b0 == 0xF0 ==> b1 >= 0x90) && (b0 == 0xF4 ==> b1 < 0x90)
    ensures BytesOf(d) == [b0, b1, b2, 0x80]
  {
    FourInRange(b0, b1, b2);
    FourDigits(b0, b1, b2, 0x80);
    d := Four(b0, b1, b2, 0x80);
  }

  /** Sequences of more than one byte are replaced only where a long sequence began well and then broke off. */
  lemma LongReplacements(b: seq<Byte>)
    requires b != [] && DecodeOne(b).0 == REPLACEMENT && b[..DecodeOne(b).1] != BytesOf(REPLACEMENT)
    requires DecodeOne(b).1 > 1
    ensures SecondFits(b) && 0xE0 <= b[0] < 0xF5
    ensures DecodeOne(b).1 == 2 || (DecodeOne(b).1 == 3 && 0xF0 <= b[0] && Continues(b, 2))
  {
    if 0xE0 <= b[0] < 0xF0 && SecondFits(b) && Continues(b, 2) {
      ThreeDigits(b[0], b[1], b[2]);
    }
  }

  /** Of a replaced sequence, everything but a lone first byte is the beginning of some valid encoding. */
  lemma ReplacesOnlyBeginnings(b: seq<Byte>) returns (d: Scalar)
    requires b != [] && b[..DecodeOne(b).1] != BytesOf(DecodeOne(b).0) && DecodeOne(b).1 > 1
    ensures b[..DecodeOne(b).1] < BytesOf(d)
  {
    ReadsOnlyEncodings(b);
    LongReplacements(b);
    assert SecondFits([b[0], b[1]]);
    if b[0] < 0xF0 {
      d := ThreeBegins(b[0], b[1]);
    } else if DecodeOne(b).1 == 3 {
      d := FourBegins(b[0], b[1], b[2]);
    } else {
      d := FourBegins(b[0], b[1], 0x80);
    }
  }

  /** Bare continuation bytes are replaced one by one. */
  lemma {:induction false} ContinuationsAlone(b: seq<Byte>, m: nat)
    requires m <= |b| && forall i :: 0 <= i < m ==> 0x80 <= b[i] < 0xC0
    ensures |FromBytes(b)| == m + |FromBytes(b[m..])|
    decreases m
  {
    if m == 0 {
      assert b[0..] == b;
    } else {
      assert DecodeOne(b) == (REPLACEMENT, 1);
      ContinuationsAlone(b[1..], m - 1);
      assert b[1..][m - 1..] == b[m..];
    }
  }

  lemma FromBytesStep(b: seq<Byte>)
    requires b != []
    ensures FromBytes(b) == [DecodeOne(b).0] + FromBytes(b[DecodeOne(b).1..])
  {
  }

  lemma BoundaryStep(b: seq<Byte>, k: nat)
    requires b != [] && DecodeOne(b).1 <= k
    ensures Boundary(b, k) <==> Boundary(b[DecodeOne(b).1..], k - DecodeOne(b).1)
  {
  }

  lemma {:induction false} PartsInside(a: seq<Byte>, b: seq<Byte>, c: Scalar, n: nat)
    requires a != [] && DecodeOne(a + b) == (c, n) && n <= |a|
    ensures FromBytes(a + b) == [c] + FromBytes(a[n..] + b) && FromBytes(a) == [c] + FromBytes(a[n..])
    ensures Boundary(a + b, |a|) <==> Boundary(a[n..] + b, |a[n..]|)
  {
    DecodeOneInPrefix(a, b);
    FromBytesStep(a + b);
    FromBytesStep(a);
    BoundaryStep(a + b, |a|);
    assert (a + b)[n..] == a[n..] + b;
  }

  lemma {:induction false} PartsAcross(a: seq<Byte>, b: seq<Byte>)
    requires a != [] && DecodeOne(a + b).1 > |a|
    ensures !Boundary(a + b, |a|) && |FromBytes(a)| + |FromBytes(b)| > |FromBytes(a + b)|
  {
    var n := DecodeOne(a + b).1;
    var m := n - |a|;
    DecodeOneAcross(a, b);
    ContinuationsAlone(b, m);
    FromBytesStep(a + b);
    FromBytesStep(a);
    assert (a + b)[n..] == b[m..] && a[|a|..] == [];
  }

  /** Decoding two parts gives what decoding the whole gives, or more replacement characters. */
  lemma {:induction false} DecodeParts(a: seq<Byte>, b: seq<Byte>)
    ensures Boundary(a + b, |a|) ==> FromBytes(a + b) == FromBytes(a) + FromBytes(b)
    ensures !Boundary(a + b, |a|) ==> |FromBytes(a)| + |FromBytes(b)| > |FromBytes(a + b)|
    decreases |a|
  {
    if a == [] {
      assert a + b == b;
    } else if DecodeOne(a + b).1 <= |a| {
      var (c, n) := DecodeOne(a + b);
      PartsInside(a, b, c, n);
      DecodeParts(a[n..], b);
    } else {
      PartsAcross(a, b);
    }
  }

  /** If the first part ends on a boundary, its own boundaries are those of the whole. */
  lemma {:induction false} BoundaryInPrefix(a: seq<Byte>, b: seq<Byte>, k: nat)
    requires Boundary(a + b, |a|) && k <= |a|
    ensures Boundary(a + b, k) <==> Boundary(a, k)
    decreases |a|
  {
    if a != [] {
      var n := DecodeOne(a + b).1;
      DecodeOneInPrefix(a, b);
      assert (a + b)[n..] == a[n..] + b;
      if n <= k {
        BoundaryInPrefix(a[n..], b, k - n);
      }
    }
  }

  lemma {:induction false} JoinedPrefix(chunks: seq<seq<Byte>>, i: nat)
    requires i <= |chunks|
    ensures |Joined(chunks[..i])| <= |Joined(chunks)|
    decreases |chunks|
  {
    if i < |chunks| {
      var front := chunks[..|chunks| - 1];
      assert front[..i] == chunks[..i];
      JoinedPrefix(front, i);
    } else {
      assert chunks[..i] == chunks;
    }
  }

  lemma {:induction false} EndIsBoundary(b: seq<Byte>)
    ensures Boundary(b, |b|)
    decreases |b|
  {
    if b != [] {
      EndIsBoundary(b[DecodeOne(b).1..]);
    }
  }

  lemma CutInFront(chunks: seq<seq<Byte>>, i: nat)
    requires i < |chunks| && Boundary(Joined(chunks), |Joined(chunks[..|chunks| - 1])|)
    ensures var front := chunks[..|chunks| - 1];
            && chunks[..i] == front[..i]
            && (Boundary(Joined(chunks), |Joined(chunks[..i])|) <==> Boundary(Joined(front), |Joined(front[..i])|))
  {
    var front := chunks[..|chunks| - 1];
    assert front[..i] == chunks[..i];
    JoinedPrefix(front, i);
    BoundaryInPrefix(Joined(front), chunks[|chunks| - 1], |Joined(chunks[..i])|);
  }

  lemma CutsFitInFront(chunks: seq<seq<Byte>>)
    requires chunks != []
    ensures var front := chunks[..|chunks| - 1];
            CutsFit(chunks) <==> Boundary(Joined(chunks), |Joined(front)|) && CutsFit(front)
  {
    var n := |chunks| - 1;
    var front := chunks[..n];
    if CutsFit(chunks) {
      assert Boundary(Joined(chunks), |Joined(chunks[..n])|);
      forall i | 0 <= i <= n
        ensures Boundary(Joined(front), |Joined(front[..i])|)
      {
        CutInFront(chunks, i);
        assert Boundary(Joined(chunks), |Joined(chunks[..i])|);
      }
    }
    if Boundary(Joined(chunks), |Joined(front)|) && CutsFit(front) {
      forall i | 0 <= i <= |chunks|
        ensures Boundary(Joined(chunks), |Joined(chunks[..i])|)
      {
        if i <= n {
          CutInFront(chunks, i);
          assert Boundary(Joined(front), |Joined(front[..i])|);
        } else {
          EndIsBoundary(Joined(chunks));
          assert chunks[..i] == chunks;
        }
      }
    }
  }

  lemma {:induction false} CountEach(chunks: seq<seq<Byte>>)
    ensures |DecodeEach(chunks)| >= |FromBytes(Joined(chunks))|
    ensures |DecodeEach(chunks)| == |FromBytes(Joined(chunks))| <==> CutsFit(chunks)
    ensures CutsFit(chunks) ==> DecodeEach(chunks) == FromBytes(Joined(chunks))
  {
    if chunks != [] {
      var front := chunks[..|chunks| - 1];
      CountEach(front);
      CutsFitInFront(chunks);
      DecodeParts(Joined(front), chunks[|chunks| - 1]);
    } else {
      assert CutsFit(chunks);
    }
  }

  /** Chunk by chunk, a stream decodes to the text of the whole exactly when every cut is on a boundary. */
  lemma {:induction false} DecodesAsWholeExactlyWhenCutsFit(chunks: seq<seq<Byte>>)
    ensures DecodeEach(chunks) == FromBytes(Joined(chunks)) <==> CutsFit(chunks)
  {
    CountEach(chunks);
  }

  /** The chunks of a stream of characters, cut anywhere between characters. */
  function Encoded(texts: seq<seq<Scalar>>): seq<seq<Byte>> {
    seq(|texts|, i requires 0 <= i < |texts| => ToBytes(texts[i]))
  }

  function AllText(texts: seq<seq<Scalar>>): seq<Scalar> {
    if texts == [] then [] else AllText(texts[..|texts| - 1]) + texts[|texts| - 1]
  }

  lemma {:induction false} ToBytesConcat(a: seq<Scalar>, b: seq<Scalar>)
    ensures ToBytes(a + b) == ToBytes(a) + ToBytes(b)
    decreases |a|
  {
    if a == [] {
      assert a + b == b;
    } else {
      assert (a + b)[1..] == a[1..] + b;
      ToBytesConcat(a[1..], b);
    }
  }

  lemma {:induction false} EncodedParts(texts: seq<seq<Scalar>>)
    ensures Joined(Encoded(texts)) == ToBytes(AllText(texts)) && DecodeEach(Encoded(texts)) == AllText(texts)
  {
    if texts != [] {
      var n := |texts| - 1;
      EncodedParts(texts[..n]);
      assert Encoded(texts)[..n] == Encoded(texts[..n]);
      ToBytesConcat(AllText(texts[..n]), texts[n]);
      FromBytesInvertsToBytes(texts[n]);
    }
  }

  /** Cuts between characters always fit, and nothing is lost. */
  lemma CharacterCutsFit(texts: seq<seq<Scalar>>)
    ensures CutsFit(Encoded(texts)) && DecodeEach(Encoded(texts)) == AllText(texts)
  {
    EncodedParts(texts);
    FromBytesInvertsToBytes(AllText(texts));
    CountEach(Encoded(texts));
  }

  /** The failing case: a euro sign cut after its first byte becomes three replacement characters. */
  lemma CutCharacterIsLost()
    ensures FromBytes([0xE2, 0x82, 0xAC]) == [0x20AC]
    ensures DecodeEach([[0xE2], [0x82, 0xAC]]) == [REPLACEMENT, REPLACEMENT, REPLACEMENT]
    ensures !CutsFit([[0xE2], [0x82, 0xAC]])
  {
    var whole: seq<Byte> := [0xE2, 0x82, 0xAC];
    assert DecodeOne(whole) == (0x20AC, 3) && whole[3..] == [];
    var head: seq<Byte> := [0xE2];
    var tail: seq<Byte> := [0x82, 0xAC];
    var last: seq<Byte> := [0xAC];
    assert FromBytes(head) == [REPLACEMENT] by {
      assert head[1..] == [];
    }
    assert FromBytes(tail) == [REPLACEMENT, REPLACEMENT] by {
      assert tail[1..] == last && last[1..] == [];
      assert FromBytes(last) == [REPLACEMENT];
    }
    var chunks := [head, tail];
    assert chunks[..1] == [head] && [head][..0] == [];
    assert DecodeEach([head]) == [] + FromBytes(head);
    assert DecodeEach(chunks) == DecodeEach([head]) + FromBytes(tail);
    assert Joined([head]) == [] + head && Joined(chunks) == Joined([head]) + tail == whole;
    DecodesAsWholeExactlyWhenCutsFit(chunks);
  }
}
