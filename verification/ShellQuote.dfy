/**
 * Shell quoting, judged by a tokenizer that follows section 2.2 "Quoting" and section 2.3
 * "Token Recognition" of the POSIX Shell Command Language. The tokenizer gives the words of
 * a command, or nothing when a quote is left open or an unquoted character would start an
 * expansion, a comment, a redirection or another command.
 */
module ShellQuote {
  import opened Prelude

  // ----- the source -----

  const SSH_CONNECT_TIMEOUT_SECONDS := "15"

  /** `value.replaceAll("'", "'\\''")`. */
  function EscapeQuotes(value: string): string {
    if value == "" then ""
    else (if value[0] == '\'' then "'\\''" else [value[0]]) + EscapeQuotes(value[1..])
  }

  function ShellQuote(value: string): string {
    "'" + EscapeQuotes(value) + "'"
  }

  function Join(texts: seq<string>): string {
    if texts == [] then "" else if |texts| == 1 then texts[0] else texts[0] + " " + Join(texts[1..])
  }

  function CommandTexts(keyPath: string, knownHostsPath: string): seq<string> {
    ["ssh", "-F", "/dev/null", "-i", ShellQuote(keyPath),
     "-o", "BatchMode=yes", "-o", "IdentitiesOnly=yes", "-o", "IPQoS=none",
     "-o", "ConnectTimeout=" + SSH_CONNECT_TIMEOUT_SECONDS, "-o", "ConnectionAttempts=1",
     "-o", "StrictHostKeyChecking=yes", "-o", "UserKnownHostsFile=" + ShellQuote(knownHostsPath)]
  }

  function BuildGitSshCommand(keyPath: string, knownHostsPath: string): string {
    Join(CommandTexts(keyPath, knownHostsPath))
  }

  /** The argument list the command is meant to stand for. */
  function IntendedArguments(keyPath: string, knownHostsPath: string): seq<string> {
    ["ssh", "-F", "/dev/null", "-i", keyPath,
     "-o", "BatchMode=yes", "-o", "IdentitiesOnly=yes", "-o", "IPQoS=none",
     "-o", "ConnectTimeout=" + SSH_CONNECT_TIMEOUT_SECONDS, "-o", "ConnectionAttempts=1",
     "-o", "StrictHostKeyChecking=yes", "-o", "UserKnownHostsFile=" + knownHostsPath]
  }

  // ----- the shell's tokenizer -----

  datatype Mode = Between | Bare(word: string) | Single(word: string) | Double(word: string)

  predicate IsBlank(c: char) {
    c == ' ' || c == '\t'
  }

  /** Characters that are never plain text outside quotes. */
  predicate IsSpecial(c: char) {
    || c == '|' || c == '&' || c == ';' || c == '<' || c == '>' || c == '(' || c == ')'
    || c == '$' || c == '`' || c == '\n' || c == '*' || c == '?' || c == '['
  }

  predicate IsSpecialAtStart(c: char) {
    c == '#' || c == '~'
  }

  function Lex(s: string, mode: Mode, words: seq<string>): Option<seq<string>>
    decreases |s|, 0
  {
    if s == "" then
      match mode
      case Between => Some(words)
      case Bare(word) => Some(words + [word])
      case Single(_) => None
      case Double(_) => None
    else
      var c := s[0];
      var rest := s[1..];
      match mode
      case Single(word) => if c == '\'' then Lex(rest, Bare(word), words) else Lex(rest, Single(word + [c]), words)
      case Double(word) =>
        if c == '"' then Lex(rest, Bare(word), words)
        else if c == '$' || c == '`' then None
        else if c == '\\' && rest != "" && rest[0] in "$`\"\\" then Lex(rest[1..], Double(word + [rest[0]]), words)
        else if c == '\\' && rest != "" && rest[0] == '\n' then Lex(rest[1..], mode, words)
        else Lex(rest, Double(word + [c]), words)
      case Between =>
        if IsBlank(c) then Lex(rest, Between, words)
        else if IsSpecialAtStart(c) then None
        else LexUnquoted(c, rest, "", words)
      case Bare(word) =>
        if IsBlank(c) then Lex(rest, Between, words + [word]) else LexUnquoted(c, rest, word, words)
  }

  function LexUnquoted(c: char, rest: string, word: string, words: seq<string>): Option<seq<string>>
    requires !IsBlank(c)
    decreases |rest|, 1
  {
    if IsSpecial(c) then None
    else if c == '\'' then Lex(rest, Single(word), words)
    else if c == '"' then Lex(rest, Double(word), words)
    else if c == '\\' then
      if rest == "" then None
      else if rest[0] == '\n' then Lex(rest[1..], Bare(word), words)
      else Lex(rest[1..], Bare(word + [rest[0]]), words)
    else Lex(rest, Bare(word + [c]), words)
  }

  function Tokenize(command: string): Option<seq<string>> {
    Lex(command, Between, [])
  }

  // ----- texts that spell one word -----

  /** Inside a word, reading `text` adds exactly `meaning` to the word and leaves nothing open. */
  ghost predicate Spells(text: string, meaning: string) {
    forall word, rest, words :: Lex(text + rest, Bare(word), words) == Lex(rest, Bare(word + meaning), words)
  }

  predicate StartsWord(text: string) {
    text != "" && !IsBlank(text[0]) && !IsSpecialAtStart(text[0])
  }

  predicate IsPlain(c: char) {
    !IsBlank(c) && !IsSpecial(c) && c != '\'' && c != '"' && c != '\\'
  }

  lemma {:induction false} PlainReads(text: string, word: string, rest: string, words: seq<string>)
    requires forall i :: 0 <= i < |text| ==> IsPlain(text[i])
    ensures Lex(text + rest, Bare(word), words) == Lex(rest, Bare(word + text), words)
    decreases |text|
  {
    if text == "" {
      assert text + rest == rest && word + text == word;
    } else {
      var s := text + rest;
      assert s[0] == text[0] && s[1..] == text[1..] + rest;
      PlainReads(text[1..], word + [text[0]], rest, words);
      assert word + [text[0]] + text[1..] == word + text;
    }
  }

  lemma PlainSpellsItself(text: string)
    requires forall i :: 0 <= i < |text| ==> IsPlain(text[i])
    ensures Spells(text, text)
  {
    forall word, rest, words
      ensures Lex(text + rest, Bare(word), words) == Lex(rest, Bare(word + text), words)
    {
      PlainReads(text, word, rest, words);
    }
  }

  /** The escaped apostrophe closes the quote, reads one apostrophe and opens the quote again. */
  lemma EscapedApostrophe(word: string, rest: string, words: seq<string>)
    ensures Lex("'\\''" + rest, Single(word), words) == Lex(rest, Single(word + "'"), words)
  {
    var s := "'\\''" + rest;
    var s1 := "\\''" + rest;
    var s2 := "'" + rest;
    assert s[0] == '\'' && s[1..] == s1;
    assert Lex(s, Single(word), words) == Lex(s1, Bare(word), words);
    assert s1[0] == '\\' && s1[1..][0] == '\'' && s1[1..][1..] == s2;
    assert Lex(s1, Bare(word), words) == Lex(s2, Bare(word + ['\'']), words);
    assert s2[0] == '\'' && s2[1..] == rest;
    assert Lex(s2, Bare(word + ['\'']), words) == Lex(rest, Single(word + ['\'']), words);
  }

  lemma {:induction false} QuotedBodyReads(value: string, word: string, rest: string, words: seq<string>)
    ensures Lex(EscapeQuotes(value) + "'" + rest, Single(word), words) == Lex(rest, Bare(word + value), words)
    decreases |value|
  {
    if value == "" {
      var s := EscapeQuotes(value) + "'" + rest;
      assert s[0] == '\'' && s[1..] == rest;
      assert word + value == word;
    } else {
      var tail := EscapeQuotes(value[1..]) + "'" + rest;
      assert word + [value[0]] + value[1..] == word + value;
      QuotedBodyReads(value[1..], word + [value[0]], rest, words);
      if value[0] == '\'' {
        assert EscapeQuotes(value) + "'" + rest == "'\\''" + tail;
        EscapedApostrophe(word, tail, words);
        assert word + "'" == word + [value[0]];
      } else {
        var s := EscapeQuotes(value) + "'" + rest;
        assert s == [value[0]] + tail;
        assert s[0] == value[0] && s[1..] == tail;
      }
    }
  }

  lemma QuoteSpells(value: string)
    ensures Spells(ShellQuote(value), value)
  {
    forall word, rest, words
      ensures Lex(ShellQuote(value) + rest, Bare(word), words) == Lex(rest, Bare(word + value), words)
    {
      var s := ShellQuote(value) + rest;
      assert s[0] == '\'' && s[1..] == EscapeQuotes(value) + "'" + rest;
      QuotedBodyReads(value, word, rest, words);
    }
  }

  lemma SpellsConcat(a: string, x: string, b: string, y: string)
    requires Spells(a, x) && Spells(b, y)
    ensures Spells(a + b, x + y)
  {
    forall word, rest, words
      ensures Lex(a + b + rest, Bare(word), words) == Lex(rest, Bare(word + (x + y)), words)
    {
      assert a + b + rest == a + (b + rest);
      assert word + (x + y) == (word + x) + y;
    }
  }

  /** Reading such a text from between two words is reading it into a new word. */
  lemma WordReads(text: string, meaning: string, rest: string, words: seq<string>)
    requires Spells(text, meaning) && StartsWord(text)
    ensures Lex(text + rest, Between, words) == Lex(rest, Bare(meaning), words)
  {
    var s := text + rest;
    assert s[0] == text[0];
    assert Lex(s, Between, words) == Lex(s, Bare(""), words);
    assert "" + meaning == meaning;
  }

  ghost predicate SpellsAll(texts: seq<string>, args: seq<string>) {
    |texts| == |args| && forall i :: 0 <= i < |texts| ==> Spells(texts[i], args[i]) && StartsWord(texts[i])
  }

  /** Texts joined by spaces tokenize to exactly the words they spell. */
  lemma {:induction false} JoinedWordsRead(texts: seq<string>, args: seq<string>, words: seq<string>)
    requires SpellsAll(texts, args)
    ensures Lex(Join(texts), Between, words) == Some(words + args)
    decreases |texts|
  {
    if texts == [] {
      assert words + args == words;
    } else if |texts| == 1 {
      WordReads(texts[0], args[0], "", words);
      assert texts[0] + "" == texts[0];
      assert words + args == words + [args[0]];
    } else {
      var rest := " " + Join(texts[1..]);
      assert Join(texts) == texts[0] + rest;
      WordReads(texts[0], args[0], rest, words);
      assert rest[0] == ' ' && rest[1..] == Join(texts[1..]);
      assert Lex(rest, Bare(args[0]), words) == Lex(Join(texts[1..]), Between, words + [args[0]]);
      JoinedWordsRead(texts[1..], args[1..], words + [args[0]]);
      assert words + [args[0]] + args[1..] == words + args;
    }
  }

  /** Tokenizing a quoted string gives exactly one word, the string itself, whatever it contains. */
  lemma QuoteRoundTrip(value: string)
    ensures Tokenize(ShellQuote(value)) == Some([value])
  {
    QuoteSpells(value);
    WordReads(ShellQuote(value), value, "", []);
    assert ShellQuote(value) + "" == ShellQuote(value);
    assert [] + [value] == [value];
  }

  lemma SpellsAllConcat(a: seq<string>, x: seq<string>, b: seq<string>, y: seq<string>)
    requires SpellsAll(a, x) && SpellsAll(b, y)
    ensures SpellsAll(a + b, x + y)
  {
  }

  /** The options that need no quoting. */
  const SESSION_OPTIONS: seq<string> := ["-o", "BatchMode=yes"] + ["-o", "IdentitiesOnly=yes"] + ["-o", "IPQoS=none"]

  const CONNECTION_OPTIONS: seq<string> :=
    ["-o", "ConnectTimeout=15"] + ["-o", "ConnectionAttempts=1"] + ["-o", "StrictHostKeyChecking=yes"]

  lemma OptionSpells(option: string)
    requires option != "" && !IsSpecialAtStart(option[0]) && forall i :: 0 <= i < |option| ==> IsPlain(option[i])
    ensures SpellsAll(["-o", option], ["-o", option])
  {
    PlainSpellsItself("-o");
    PlainSpellsItself(option);
  }

  lemma ThreeOptionsSpell(a: string, b: string, c: string)
    requires SpellsAll(["-o", a], ["-o", a]) && SpellsAll(["-o", b], ["-o", b]) && SpellsAll(["-o", c], ["-o", c])
    ensures var options := ["-o", a] + ["-o", b] + ["-o", c]; SpellsAll(options, options)
  {
    SpellsAllConcat(["-o", a], ["-o", a], ["-o", b], ["-o", b]);
    SpellsAllConcat(["-o", a] + ["-o", b], ["-o", a] + ["-o", b], ["-o", c], ["-o", c]);
  }

  lemma SessionOptionsSpell()
    ensures SpellsAll(SESSION_OPTIONS, SESSION_OPTIONS)
  {
    OptionSpells("BatchMode=yes");
    OptionSpells("IdentitiesOnly=yes");
    OptionSpells("IPQoS=none");
    ThreeOptionsSpell("BatchMode=yes", "IdentitiesOnly=yes", "IPQoS=none");
  }

  lemma ConnectionOptionsSpell()
    ensures SpellsAll(CONNECTION_OPTIONS, CONNECTION_OPTIONS)
  {
    OptionSpells("ConnectTimeout=15");
    OptionSpells("ConnectionAttempts=1");
    OptionSpells("StrictHostKeyChecking=yes");
    ThreeOptionsSpell("ConnectTimeout=15", "ConnectionAttempts=1", "StrictHostKeyChecking=yes");
  }

  lemma HeadSpells(keyPath: string)
    ensures SpellsAll(["ssh", "-F", "/dev/null", "-i", ShellQuote(keyPath)], ["ssh", "-F", "/dev/null", "-i", keyPath])
  {
    PlainSpellsItself("ssh");
    PlainSpellsItself("-F");
    PlainSpellsItself("/dev/null");
    PlainSpellsItself("-i");
    QuoteSpells(keyPath);
  }

  lemma KnownHostsSpells(knownHostsPath: string)
    ensures SpellsAll(["-o", "UserKnownHostsFile=" + ShellQuote(knownHostsPath)],
                      ["-o", "UserKnownHostsFile=" + knownHostsPath])
  {
    PlainSpellsItself("-o");
    PlainSpellsItself("UserKnownHostsFile=");
    QuoteSpells(knownHostsPath);
    SpellsConcat("UserKnownHostsFile=", "UserKnownHostsFile=", ShellQuote(knownHostsPath), knownHostsPath);
  }

  lemma CommandSpells(keyPath: string, knownHostsPath: string)
    ensures SpellsAll(CommandTexts(keyPath, knownHostsPath), IntendedArguments(keyPath, knownHostsPath))
  {
    var headText := ["ssh", "-F", "/dev/null", "-i", ShellQuote(keyPath)];
    var headArg := ["ssh", "-F", "/dev/null", "-i", keyPath];
    var lastText := ["-o", "UserKnownHostsFile=" + ShellQuote(knownHostsPath)];
    var lastArg := ["-o", "UserKnownHostsFile=" + knownHostsPath];
    HeadSpells(keyPath);
    SessionOptionsSpell();
    ConnectionOptionsSpell();
    KnownHostsSpells(knownHostsPath);
    FourPartsSpell(headText, headArg, SESSION_OPTIONS, CONNECTION_OPTIONS, lastText, lastArg);
    assert "ConnectTimeout=" + SSH_CONNECT_TIMEOUT_SECONDS == "ConnectTimeout=15";
    assert CommandTexts(keyPath, knownHostsPath) == headText + SESSION_OPTIONS + CONNECTION_OPTIONS + lastText;
    assert IntendedArguments(keyPath, knownHostsPath) == headArg + SESSION_OPTIONS + CONNECTION_OPTIONS + lastArg;
  }

  lemma FourPartsSpell(a: seq<string>, x: seq<string>, b: seq<string>, c: seq<string>, d: seq<string>, y: seq<string>)
    requires SpellsAll(a, x) && SpellsAll(b, b) && SpellsAll(c, c) && SpellsAll(d, y)
    ensures SpellsAll(a + b + c + d, x + b + c + y)
  {
    SpellsAllConcat(a, x, b, b);
    SpellsAllConcat(a + b, x + b, c, c);
    SpellsAllConcat(a + b + c, x + b + c, d, y);
  }

  /** The SSH command tokenizes to the intended argument list for all key and known-hosts paths. */
  lemma {:induction false} CommandRoundTrip(keyPath: string, knownHostsPath: string)
    ensures Tokenize(BuildGitSshCommand(keyPath, knownHostsPath)) == Some(IntendedArguments(keyPath, knownHostsPath))
  {
    var texts := CommandTexts(keyPath, knownHostsPath);
    var args := IntendedArguments(keyPath, knownHostsPath);
    CommandSpells(keyPath, knownHostsPath);
    JoinedWordsRead(texts, args, []);
    assert [] + args == args;
  }
}
