/**
 * The value of a chat component that answers a question: `olq:<request>:<index>:<label>`,
 * the label as base64url of its UTF-8 bytes.
 */
module QuestionCodec {
  import opened Prelude
  import opened JsText
  import opened Utf8
  import Base64Url

  const COLON: Unit := 58
  const OLQ: seq<Unit> := [111, 108, 113]

  datatype Decoded = Decoded(requestId: seq<Unit>, questionIndex: nat, value: seq<Unit>)

  function Decimal(i: nat): seq<Unit> {
    if i < 10 then [48 + i] else Decimal(i / 10) + [48 + i % 10]
  }

  predicate AllDigits(s: seq<Unit>) {
    s != [] && forall i :: 0 <= i < |s| ==> 48 <= s[i] < 58
  }

  function DecimalValue(s: seq<Unit>): nat
    requires forall i :: 0 <= i < |s| ==> 48 <= s[i] < 58
  {
    if s == [] then 0 else DecimalValue(s[..|s| - 1]) * 10 + (s[|s| - 1] - 48)
  }

  /**
   * `Number(s)`, when it is a natural number. What it gives for text that is not plain decimal digits, such as
   * blanks, signs, exponents or hexadecimal, is left to the parameter.
   */
  function NumberOf(s: seq<Unit>, otherwise: seq<Unit> -> Option<nat>): Option<nat> {
    if AllDigits(s) then Some(DecimalValue(s)) else otherwise(s)
  }

  function EncodeQuestionComponentValue(requestId: seq<Unit>, questionIndex: nat, value: seq<Unit>): seq<Unit> {
    OLQ + [COLON] + requestId + [COLON] + Decimal(questionIndex) + [COLON] + Base64Url.Encode(Utf8.Encode(value))
  }

  function DecodeQuestionComponentValue(raw: seq<Unit>, otherwise: seq<Unit> -> Option<nat>): Option<Decoded> {
    var parts := Split(raw, COLON);
    if |parts| != 4 || parts[0] != OLQ then None
    else
      var index := NumberOf(parts[2], otherwise);
      if index.None? then None
      else Some(Decoded(parts[1], index.value, Utf8.Decode(Base64Url.Decode(parts[3]))))
  }

  lemma {:induction false} DecimalRoundTrip(i: nat)
    ensures AllDigits(Decimal(i)) && DecimalValue(Decimal(i)) == i
  {
    if i >= 10 {
      DecimalRoundTrip(i / 10);
      var d := Decimal(i);
      assert d[..|d| - 1] == Decimal(i / 10);
    }
  }

  lemma NoColonInside(questionIndex: nat, value: seq<Unit>)
    ensures COLON !in OLQ && COLON !in Decimal(questionIndex) && COLON !in Base64Url.Encode(Utf8.Encode(value))
  {
    DecimalRoundTrip(questionIndex);
    Base64Url.CharsInAlphabet(Base64Url.ToSixes(Utf8.Encode(value)));
  }

  /** The pieces of an encoded value: the prefix, the pieces of the request id, the index and the label. */
  lemma EncodedParts(requestId: seq<Unit>, questionIndex: nat, value: seq<Unit>)
    ensures Split(EncodeQuestionComponentValue(requestId, questionIndex, value), COLON)
         == [OLQ] + Split(requestId, COLON) + [Decimal(questionIndex)] + [Base64Url.Encode(Utf8.Encode(value))]
  {
    var index := Decimal(questionIndex);
    var text := Base64Url.Encode(Utf8.Encode(value));
    NoColonInside(questionIndex, value);
    SplitWithoutSeparator(OLQ, COLON);
    SplitWithoutSeparator(index, COLON);
    SplitWithoutSeparator(text, COLON);
    SplitFour(OLQ, requestId, index, text, COLON);
  }

  /**
   * The round trip, for every id, index and label: nothing comes back when the id contains a colon, and otherwise
   * everything does, with lone surrogates of the label replaced.
   */
  lemma DecodeOfEncode(requestId: seq<Unit>, questionIndex: nat, value: seq<Unit>, otherwise: seq<Unit> -> Option<nat>)
    ensures DecodeQuestionComponentValue(EncodeQuestionComponentValue(requestId, questionIndex, value), otherwise)
         == if COLON in requestId then None else Some(Decoded(requestId, questionIndex, Scrub(value)))
  {
    var parts := Split(EncodeQuestionComponentValue(requestId, questionIndex, value), COLON);
    EncodedParts(requestId, questionIndex, value);
    SplitPieceCount(requestId, COLON);
    if COLON !in requestId {
      SplitWithoutSeparator(requestId, COLON);
      assert parts == [OLQ, requestId, Decimal(questionIndex), Base64Url.Encode(Utf8.Encode(value))];
      DecimalRoundTrip(questionIndex);
      Base64Url.DecodeInvertsEncode(Utf8.Encode(value));
      Utf8.DecodeInvertsEncode(value);
    }
  }

  /** The exact condition for a faithful round trip. */
  lemma RoundTripsExactlyWhen(
      requestId: seq<Unit>, questionIndex: nat, value: seq<Unit>, otherwise: seq<Unit> -> Option<nat>)
    ensures DecodeQuestionComponentValue(EncodeQuestionComponentValue(requestId, questionIndex, value), otherwise)
         == Some(Decoded(requestId, questionIndex, value))
       <==> COLON !in requestId && WellFormed(value)
  {
    DecodeOfEncode(requestId, questionIndex, value, otherwise);
    ScrubKeepsWellFormed(value);
  }

  lemma RejoinFour(a: seq<Unit>, b: seq<Unit>, c: seq<Unit>, d: seq<Unit>)
    ensures Rejoin([a, b, c, d], COLON) == a + [COLON] + b + [COLON] + c + [COLON] + d
  {
    var three, two, one: seq<seq<Unit>> := [a, b, c], [a, b], [a];
    assert [a, b, c, d][..3] == three && three[..2] == two && two[..1] == one && one[..0] == [];
    assert Ended(one, COLON) == a + [COLON];
    assert Ended(two, COLON) == a + [COLON] + b + [COLON];
    assert Ended(three, COLON) == a + [COLON] + b + [COLON] + c + [COLON];
  }

  /** `raw` is `olq:<id>:<index>:<text>` with no further colon. */
  ghost predicate Spells(raw: seq<Unit>, id: seq<Unit>, index: seq<Unit>, text: seq<Unit>) {
    && raw == OLQ + [COLON] + id + [COLON] + index + [COLON] + text
    && COLON !in id && COLON !in index && COLON !in text
  }

  /** The parts of a text of that shape. */
  lemma {:induction false} SpelledParts(raw: seq<Unit>, id: seq<Unit>, index: seq<Unit>, text: seq<Unit>)
    requires Spells(raw, id, index, text)
    ensures Split(raw, COLON) == [OLQ, id, index, text]
  {
    SplitWithoutSeparator(OLQ, COLON);
    SplitWithoutSeparator(id, COLON);
    SplitWithoutSeparator(index, COLON);
    SplitWithoutSeparator(text, COLON);
    SplitFour(OLQ, id, index, text, COLON);
  }

  /** A text of four parts, the first of them the prefix, has that shape. */
  lemma {:induction false} FourPartsSpell(raw: seq<Unit>)
    requires |Split(raw, COLON)| == 4 && Split(raw, COLON)[0] == OLQ
    ensures var parts := Split(raw, COLON); Spells(raw, parts[1], parts[2], parts[3])
  {
    var parts := Split(raw, COLON);
    assert parts == [parts[0], parts[1], parts[2], parts[3]];
    RejoinSplit(raw, COLON);
    RejoinFour(parts[0], parts[1], parts[2], parts[3]);
    PiecesHaveNoSeparator(raw, COLON);
  }

  /** The text is of that shape, with the decoded id, and its index and label mean what was decoded. */
  ghost predicate Means(
      raw: seq<Unit>, index: seq<Unit>, text: seq<Unit>, otherwise: seq<Unit> -> Option<nat>, d: Decoded) {
    && Spells(raw, d.requestId, index, text)
    && NumberOf(index, otherwise) == Some(d.questionIndex)
    && d.value == Utf8.Decode(Base64Url.Decode(text))
  }

  /**
   * What decodes at all, over every text: exactly the texts of that shape whose index is a natural number, and then
   * the id is taken as it is and the label from base64url and UTF-8.
   */
  lemma {:induction false} DecodesExactly(raw: seq<Unit>, otherwise: seq<Unit> -> Option<nat>, d: Decoded)
    ensures DecodeQuestionComponentValue(raw, otherwise) == Some(d)
            <==> exists index, text :: Means(raw, index, text, otherwise, d)
  {
    var parts := Split(raw, COLON);
    if DecodeQuestionComponentValue(raw, otherwise) == Some(d) {
      FourPartsSpell(raw);
      assert Means(raw, parts[2], parts[3], otherwise, d);
    }
    if index, text :| Means(raw, index, text, otherwise, d) {
      SpelledParts(raw, d.requestId, index, text);
    }
  }
}
