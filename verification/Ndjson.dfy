/**
 * The NDJSON stream reader: bytes arrive in chunks that may end anywhere, each chunk is turned
 * into text on its own, complete lines are parsed as they arrive, and what is left in the
 * buffer is parsed at the end of the stream.
 *
 * `JSON.parse` is a parameter: it gives a value, or nothing when it throws.
 */
module Ndjson {
  import opened Prelude
  import opened JsText
  import opened Utf8
  import opened Utf8Chunks

  /** What one line yields: nothing if it is blank after trimming or does not parse. */
  function Yield<V>(parse: string -> Option<V>, line: string): seq<V> {
    var trimmed := Trim(line);
    if trimmed == "" then []
    else
      var value := parse(trimmed);
      if value.None? then [] else [value.value]
  }

  /** What a list of lines yields, in order. */
  function YieldAll<V>(parse: string -> Option<V>, lines: seq<string>): seq<V> {
    if lines == [] then [] else YieldAll(parse, lines[..|lines| - 1]) + Yield(parse, lines[|lines| - 1])
  }

  /** A text of Unicode characters, as decoding produces it. */
  function Text(cs: seq<Scalar>): string {
    seq(|cs|, i requires 0 <= i < |cs| => cs[i] as char)
  }

  lemma YieldAllAppend<V>(parse: string -> Option<V>, a: seq<string>, b: seq<string>)
    ensures YieldAll(parse, a + b) == YieldAll(parse, a) + YieldAll(parse, b)
    decreases |b|
  {
    if b == [] {
      assert a + b == a;
    } else {
      assert (a + b)[..|a + b| - 1] == a + b[..|b| - 1];
      YieldAllAppend(parse, a, b[..|b| - 1]);
    }
  }

  method YieldLine<V>(parse: string -> Option<V>, line: string) returns (values: seq<V>)
    ensures values == Yield(parse, line)
  {
    values := [];
    var trimmed := Trim(line);
    if trimmed != "" {
      var value := parse(trimmed);
      if value.Some? {
        values := [value.value];
      }
    }
  }

  method YieldLines<V>(parse: string -> Option<V>, lines: seq<string>) returns (values: seq<V>)
    ensures values == YieldAll(parse, lines)
  {
    values := [];
    for k := 0 to |lines|
      invariant values == YieldAll(parse, lines[..k])
    {
      assert lines[..k + 1][..k] == lines[..k];
      var more := YieldLine(parse, lines[k]);
      values := values + more;
    }
    assert lines[..|lines|] == lines;
  }

  /** Of the lines so far, the buffer holds the unfinished last one and the others have been yielded. */
  ghost predicate UpToDate<V>(parse: string -> Option<V>, lines: seq<string>, yielded: seq<V>, buffer: string)
    requires |lines| >= 1
  {
    yielded == YieldAll(parse, lines[..|lines| - 1]) && buffer == lines[|lines| - 1]
  }

  lemma {:induction false} ChunkKeepsUpToDate<V>(
      parse: string -> Option<V>, before: seq<string>, lines: seq<string>, yielded: seq<V>, buffer: string)
    requires |before| >= 1 && |lines| >= 1 && UpToDate(parse, before, yielded, buffer)
    ensures UpToDate(parse, before[..|before| - 1] + lines,
                     yielded + YieldAll(parse, lines[..|lines| - 1]), lines[|lines| - 1])
  {
    var done := before[..|before| - 1];
    var all := done + lines;
    assert all[..|all| - 1] == done + lines[..|lines| - 1];
    YieldAllAppend(parse, done, lines[..|lines| - 1]);
  }

  /** The text of the chunks so far, each decoded on its own. */
  function TextOf(chunks: seq<seq<Byte>>): string {
    Text(DecodeEach(chunks))
  }

  lemma TextOfNext(chunks: seq<seq<Byte>>, c: nat)
    requires c < |chunks|
    ensures TextOf(chunks[..c + 1]) == TextOf(chunks[..c]) + Text(FromBytes(chunks[c]))
  {
    assert chunks[..c + 1][..c] == chunks[..c];
    assert DecodeEach(chunks[..c + 1]) == DecodeEach(chunks[..c]) + FromBytes(chunks[c]);
  }

  lemma {:induction false} NextChunk<V>(
      parse: string -> Option<V>, chunks: seq<seq<Byte>>, c: nat, yielded: seq<V>, buffer: string)
    requires c < |chunks| && UpToDate(parse, Split(TextOf(chunks[..c]), '\n'), yielded, buffer)
    ensures var lines := Split(buffer + Text(FromBytes(chunks[c])), '\n');
            UpToDate(parse, Split(TextOf(chunks[..c + 1]), '\n'),
                     yielded + YieldAll(parse, lines[..|lines| - 1]), lines[|lines| - 1])
  {
    var sofar, text := TextOf(chunks[..c]), Text(FromBytes(chunks[c]));
    TextOfNext(chunks, c);
    SplitConcat(sofar, text, '\n');
    ChunkKeepsUpToDate(parse, Split(sofar, '\n'), Split(buffer + text, '\n'), yielded, buffer);
  }

  /**
   * The reader yields exactly what the lines of the whole text yield, an unterminated last line included, however
   * the stream was cut into chunks. The text is that of the whole stream if no cut splits a character.
   */
  method Stream<V>(parse: string -> Option<V>, chunks: seq<seq<Byte>>) returns (yielded: seq<V>)
    ensures yielded == YieldAll(parse, Split(TextOf(chunks), '\n'))
    ensures CutsFit(chunks) ==> yielded == YieldAll(parse, Split(Text(FromBytes(Joined(chunks))), '\n'))
  {
    yielded := [];
    var buffer := "";
    for c := 0 to |chunks|
      invariant UpToDate(parse, Split(TextOf(chunks[..c]), '\n'), yielded, buffer)
    {
      NextChunk(parse, chunks, c, yielded, buffer);
      buffer := buffer + Text(FromBytes(chunks[c]));
      var lines := Split(buffer, '\n');
      buffer := lines[|lines| - 1];
      var values := YieldLines(parse, lines[..|lines| - 1]);
      yielded := yielded + values;
    }
    assert chunks[..|chunks|] == chunks;
    var rest := YieldLine(parse, buffer);
    yielded := yielded + rest;
    DecodesAsWholeExactlyWhenCutsFit(chunks);
  }

  /** Two ways of cutting the same characters into chunks read the same text, which is all the reader depends on. */
  lemma ChunkInvariance(some: seq<seq<Scalar>>, others: seq<seq<Scalar>>)
    requires AllText(some) == AllText(others)
    ensures Text(DecodeEach(Encoded(some))) == Text(DecodeEach(Encoded(others))) == Text(AllText(some))
  {
    CharacterCutsFit(some);
    CharacterCutsFit(others);
  }

  /** Splitting loses nothing: the lines, joined by newlines, are the stream, and no line contains one. */
  lemma LinesAreTheStream(text: string)
    ensures Rejoin(Split(text, '\n'), '\n') == text
    ensures forall i :: 0 <= i < |Split(text, '\n')| ==> '\n' !in Split(text, '\n')[i]
  {
    PiecesHaveNoSeparator(text, '\n');
    RejoinSplit(text, '\n');
  }

  predicate YieldedBy<V(==)>(parse: string -> Option<V>, line: string, v: V) {
    !IsBlank(line) && parse(Trim(line)) == Some(v)
  }

  /** A value is yielded exactly for the non-blank lines that parse, each with its trimmed text. */
  lemma {:induction false} YieldsEveryParsingLine<V>(parse: string -> Option<V>, lines: seq<string>, v: V)
    ensures v in YieldAll(parse, lines) <==> exists i :: 0 <= i < |lines| && YieldedBy(parse, lines[i], v)
  {
    if lines != [] {
      var front := lines[..|lines| - 1];
      var last := lines[|lines| - 1];
      YieldsEveryParsingLine(parse, front, v);
      assert v in Yield(parse, last) <==> YieldedBy(parse, last, v) by {
        TrimBlank(last);
      }
      assert forall i :: 0 <= i < |front| ==> lines[i] == front[i];
    }
  }

  /** A line yields one value if it is not blank and parses, and nothing otherwise; lines yield one after the other. */
  lemma LinesYieldInOrder<V>(parse: string -> Option<V>, lines: seq<string>, line: string)
    ensures IsBlank(line) || parse(Trim(line)).None? ==> YieldAll(parse, lines + [line]) == YieldAll(parse, lines)
    ensures forall v :: YieldedBy(parse, line, v) ==> YieldAll(parse, lines + [line]) == YieldAll(parse, lines) + [v]
  {
    assert (lines + [line])[..|lines|] == lines;
    TrimBlank(line);
  }
}
