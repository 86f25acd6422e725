/** The parts of JavaScript's string methods that several components use. */
module JsText {

  /** What `trim` removes: white space, the byte order mark and line terminators. */
  predicate IsSpace(c: char) {
    || c in "\t\n\r "
    || c in {'\U{000B}', '\U{000C}', '\U{00A0}', '\U{1680}', '\U{2028}', '\U{2029}', '\U{202F}', '\U{205F}'}
    || c in {'\U{3000}', '\U{FEFF}'}
    || '\U{2000}' <= c <= '\U{200A}'
  }

  function TrimStart(s: string): string {
    if s != [] && IsSpace(s[0]) then TrimStart(s[1..]) else s
  }

  function TrimEnd(s: string): string {
    if s != [] && IsSpace(s[|s| - 1]) then TrimEnd(s[..|s| - 1]) else s
  }

  function Trim(s: string): string {
    TrimEnd(TrimStart(s))
  }

  predicate IsBlank(s: string) {
    forall i :: 0 <= i < |s| ==> IsSpace(s[i])
  }

  /** Trimming leaves nothing exactly of a blank string, and otherwise no white space at either end. */
  lemma {:induction false} TrimBlank(s: string)
    ensures Trim(s) == "" <==> IsBlank(s)
    ensures Trim(s) != "" ==> !IsSpace(Trim(s)[0]) && !IsSpace(Trim(s)[|Trim(s)| - 1])
  {
    TrimStartStops(s);
    TrimEndStops(TrimStart(s));
  }

  lemma {:induction false} TrimStartStops(s: string)
    ensures var t := TrimStart(s);
            && (t == "" <==> IsBlank(s))
            && (t != "" ==> !IsSpace(t[0]))
  {
    if s != [] && IsSpace(s[0]) {
      TrimStartStops(s[1..]);
      assert s == [s[0]] + s[1..];
    }
  }

  lemma {:induction false} TrimEndStops(s: string)
    requires s != "" ==> !IsSpace(s[0])
    ensures var t := TrimEnd(s);
            && (t == "" <==> s == "")
            && (t != "" ==> t[0] == s[0] && !IsSpace(t[|t| - 1]))
  {
    if s != [] && IsSpace(s[|s| - 1]) {
      TrimEndStops(s[..|s| - 1]);
    }
  }

  /** Trimming takes white space from both ends and nothing from the middle. */
  lemma TrimIsMiddle(s: string) returns (i: nat, j: nat)
    ensures i <= j <= |s| && Trim(s) == s[i..j]
    ensures IsBlank(s[..i]) && IsBlank(s[j..])
  {
    i := TrimStartIsSuffix(s);
    var t := s[i..];
    var k := TrimEndIsPrefix(t);
    j := i + k;
    assert s[j..] == t[k..] && s[i..j] == t[..k];
  }

  lemma {:induction false} TrimStartIsSuffix(s: string) returns (i: nat)
    ensures i <= |s| && TrimStart(s) == s[i..] && IsBlank(s[..i])
  {
    if s != [] && IsSpace(s[0]) {
      var k := TrimStartIsSuffix(s[1..]);
      i := k + 1;
      assert s[i..] == s[1..][k..] && s[..i] == [s[0]] + s[1..][..k];
    } else {
      i := 0;
    }
  }

  lemma {:induction false} TrimEndIsPrefix(s: string) returns (k: nat)
    ensures k <= |s| && TrimEnd(s) == s[..k] && IsBlank(s[k..])
  {
    var n := |s| - 1;
    if s != [] && IsSpace(s[n]) {
      k := TrimEndIsPrefix(s[..n]);
      assert s[..k] == s[..n][..k] && s[k..] == s[..n][k..] + [s[n]];
    } else {
      k := |s|;
      assert s[..k] == s;
    }
  }

  // ----- split on one separator -----

  /** The pieces when one more element arrives: a separator opens a new piece, anything else extends the last. */
  function Grow<T(==)>(pieces: seq<seq<T>>, x: T, sep: T): (grown: seq<seq<T>>)
    requires |pieces| >= 1
    ensures |grown| >= 1
  {
    if x == sep then pieces + [[]]
    else pieces[..|pieces| - 1] + [pieces[|pieces| - 1] + [x]]
  }

  /** The pieces between separators; there is always at least one. */
  function Split<T(==)>(s: seq<T>, sep: T): (pieces: seq<seq<T>>)
    ensures |pieces| >= 1
  {
    if s == [] then [[]] else Grow(Split(s[..|s| - 1], sep), s[|s| - 1], sep)
  }

  lemma SplitAppend<T>(s: seq<T>, x: T, sep: T)
    ensures Split(s + [x], sep) == Grow(Split(s, sep), x, sep)
  {
    assert (s + [x])[..|s|] == s;
  }

  /** The pieces after a whole text has arrived. */
  function GrowAll<T(==)>(pieces: seq<seq<T>>, text: seq<T>, sep: T): (grown: seq<seq<T>>)
    requires |pieces| >= 1
    ensures |grown| >= 1
  {
    if text == [] then pieces else Grow(GrowAll(pieces, text[..|text| - 1], sep), text[|text| - 1], sep)
  }

  lemma {:induction false} SplitIsGrowAll<T>(a: seq<T>, b: seq<T>, sep: T)
    ensures Split(a + b, sep) == GrowAll(Split(a, sep), b, sep)
    decreases |b|
  {
    if b == [] {
      assert a + b == a;
    } else {
      var ab := a + b;
      assert ab[..|ab| - 1] == a + b[..|b| - 1] && ab[|ab| - 1] == b[|b| - 1];
      SplitIsGrowAll(a, b[..|b| - 1], sep);
    }
  }

  lemma GrowAfter<T>(done: seq<seq<T>>, pieces: seq<seq<T>>, x: T, sep: T)
    requires |pieces| >= 1
    ensures Grow(done + pieces, x, sep) == done + Grow(pieces, x, sep)
  {
    var all := done + pieces;
    assert all[|all| - 1] == pieces[|pieces| - 1];
    assert all[..|all| - 1] == done + pieces[..|pieces| - 1];
  }

  /** Finished pieces stay as they are. */
  lemma {:induction false} GrowAllAfter<T>(done: seq<seq<T>>, pieces: seq<seq<T>>, text: seq<T>, sep: T)
    requires |pieces| >= 1
    ensures GrowAll(done + pieces, text, sep) == done + GrowAll(pieces, text, sep)
    decreases |text|
  {
    if text != [] {
      var front := text[..|text| - 1];
      GrowAllAfter(done, pieces, front, sep);
      GrowAfter(done, GrowAll(pieces, front, sep), text[|text| - 1], sep);
    }
  }

  /** Splitting a concatenation: the last piece of the first part grows into the first piece of the second. */
  lemma SplitConcat<T>(a: seq<T>, b: seq<T>, sep: T)
    ensures var p := Split(a, sep);
            Split(a + b, sep) == p[..|p| - 1] + Split(p[|p| - 1] + b, sep)
  {
    var p := Split(a, sep);
    var done, last := p[..|p| - 1], p[|p| - 1];
    SplitIsGrowAll(a, b, sep);
    SplitIsGrowAll(last, b, sep);
    PiecesHaveNoSeparator(a, sep);
    SplitWithoutSeparator(last, sep);
    assert p == done + [last];
    GrowAllAfter(done, [last], b, sep);
  }

  lemma {:induction false} PiecesHaveNoSeparator<T>(s: seq<T>, sep: T)
    ensures forall i :: 0 <= i < |Split(s, sep)| ==> sep !in Split(s, sep)[i]
  {
    if s != [] {
      PiecesHaveNoSeparator(s[..|s| - 1], sep);
    }
  }

  /** The pieces with a separator after each. */
  function Ended<T>(pieces: seq<seq<T>>, sep: T): seq<T> {
    if pieces == [] then [] else Ended(pieces[..|pieces| - 1], sep) + pieces[|pieces| - 1] + [sep]
  }

  /** The pieces with a separator between each and the next. */
  function Rejoin<T>(pieces: seq<seq<T>>, sep: T): seq<T>
    requires |pieces| >= 1
  {
    Ended(pieces[..|pieces| - 1], sep) + pieces[|pieces| - 1]
  }

  lemma {:induction false} RejoinGrown<T>(pieces: seq<seq<T>>, x: T, sep: T)
    requires |pieces| >= 1
    ensures Rejoin(Grow(pieces, x, sep), sep) == Rejoin(pieces, sep) + [x]
  {
    var grown := Grow(pieces, x, sep);
    if x == sep {
      assert grown[..|pieces|] == pieces;
    } else {
      assert grown[..|pieces| - 1] == pieces[..|pieces| - 1];
    }
  }

  /** Splitting loses nothing: the pieces, joined by the separator, are the text. */
  lemma {:induction false} RejoinSplit<T>(s: seq<T>, sep: T)
    ensures Rejoin(Split(s, sep), sep) == s
  {
    if s != [] {
      var front, last := s[..|s| - 1], s[|s| - 1];
      RejoinSplit(front, sep);
      RejoinGrown(Split(front, sep), last, sep);
      assert s == front + [last];
    }
  }

  lemma {:induction false} SplitWithoutSeparator<T>(s: seq<T>, sep: T)
    requires sep !in s
    ensures Split(s, sep) == [s]
  {
    if s != [] {
      SplitWithoutSeparator(s[..|s| - 1], sep);
      assert s == s[..|s| - 1] + [s[|s| - 1]];
    }
  }

  lemma {:induction false} SplitPieceCount<T>(s: seq<T>, sep: T)
    ensures |Split(s, sep)| == 1 <==> sep !in s
  {
    if s != [] {
      SplitPieceCount(s[..|s| - 1], sep);
      assert s == s[..|s| - 1] + [s[|s| - 1]];
    }
  }

  /** A separator between two parts separates their pieces. */
  lemma SplitAtSeparator<T>(a: seq<T>, b: seq<T>, sep: T)
    ensures Split(a + [sep] + b, sep) == Split(a, sep) + Split(b, sep)
  {
    SplitAppend(a, sep, sep);
    SplitConcat(a + [sep], b, sep);
    var p := Split(a + [sep], sep);
    assert p == Split(a, sep) + [[]];
    assert p[..|p| - 1] == Split(a, sep);
    assert p[|p| - 1] + b == b;
  }

  /** Four parts joined by the separator. */
  lemma SplitFour<T>(a: seq<T>, b: seq<T>, c: seq<T>, d: seq<T>, sep: T)
    ensures Split(a + [sep] + b + [sep] + c + [sep] + d, sep)
         == Split(a, sep) + Split(b, sep) + Split(c, sep) + Split(d, sep)
  {
    var ab := a + [sep] + b;
    SplitAtSeparator(a, b, sep);
    var abc := ab + [sep] + c;
    SplitAtSeparator(ab, c, sep);
    SplitAtSeparator(abc, d, sep);
  }
}
