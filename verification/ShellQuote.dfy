/** Shell quoting (packages/paratix/src/sshHelpers.ts, packages/paratix/src/ssh.ts) against a lexer of
    sections 2.2.1 (escape character), 2.2.2 (single quotes) and 2.3 (token recognition, blanks only) of
    the XCU Shell Command Language. */
module ShellQuoting {
  import opened Text
  import opened Wrappers

  const NUL := '\0'

  // ----- The lexer

  /** A character of a word, and whether a quote or a backslash protected it. */
  datatype Unit = Unit(c: char, quoted: bool)
  type Word = seq<Unit>

  /** The words up to the end, or up to `rest`, which starts with something outside the subset:
      an operator, an expansion, a double quote, a comment, NUL, or a quote that is never closed. */
  datatype Lexing = Complete(words: seq<Word>) | Stopped(words: seq<Word>, pending: Option<Word>, rest: string)

  predicate Blank(c: char) { c == ' ' || c == '\t' }

  /** Unquoted characters with a meaning of their own that this lexer does not go into. */
  predicate Special(c: char) {
    || c == '|' || c == '&' || c == ';' || c == '<' || c == '>' || c == '(' || c == ')' || c == '$' || c == '`'
    || c == '"' || c == '*' || c == '?' || c == '[' || c == '#' || c == '~' || c == '\n' || c == NUL
  }

  predicate Bare(c: char) { !Blank(c) && !Special(c) && c != '\'' && c != '\\' }

  function Begun(word: Option<Word>): Word {
    if word.Some? then word.value else []
  }

  function Ended(words: seq<Word>, word: Option<Word>): seq<Word> {
    if word.Some? then words + [word.value] else words
  }

  function Lex(text: string, words: seq<Word>, word: Option<Word>, inQuotes: bool): Lexing
    decreases |text|
  {
    if text == "" then
      if inQuotes then Stopped(words, word, text) else Complete(Ended(words, word))
    else if text[0] == NUL then Stopped(words, word, text)
    else if inQuotes then
      if text[0] == '\'' then Lex(text[1..], words, word, false)
      else Lex(text[1..], words, Some(Begun(word) + [Unit(text[0], true)]), true)
    else if text[0] == '\'' then Lex(text[1..], words, Some(Begun(word)), true)
    else if text[0] == '\\' then
      if |text| == 1 || text[1] == NUL then Stopped(words, word, text)
      else if text[1] == '\n' then Lex(text[2..], words, word, false)
      else Lex(text[2..], words, Some(Begun(word) + [Unit(text[1], true)]), false)
    else if Blank(text[0]) then Lex(text[1..], Ended(words, word), None, false)
    else if Special(text[0]) then Stopped(words, word, text)
    else Lex(text[1..], words, Some(Begun(word) + [Unit(text[0], false)]), false)
  }

  function Words(text: string): Lexing {
    Lex(text, [], None, false)
  }

  function Protected(s: string): Word {
    seq(|s|, i requires 0 <= i < |s| => Unit(s[i], true))
  }

  function Unprotected(s: string): Word {
    seq(|s|, i requires 0 <= i < |s| => Unit(s[i], false))
  }

  /** Quote removal. */
  function Content(w: Word): string {
    seq(|w|, i requires 0 <= i < |w| => w[i].c)
  }

  // ----- shellQuote

  function ShellQuote(s: string): string {
    "'" + ReplaceAll(s, "'", "'\\''") + "'"
  }

  /** A quoted text inside a longer one: wherever the lexer stands outside quotes, it appends exactly the
      characters of `s`, all protected, to the current word, and goes on behind the text. */
  lemma QuoteLexes(s: string, rest: string, words: seq<Word>, word: Option<Word>)
    requires NUL !in s
    ensures Lex(ShellQuote(s) + rest, words, word, false)
         == Lex(rest, words, Some(Begun(word) + Protected(s)), false)
  {
    var inner := ReplaceAll(s, "'", "'\\''") + "'" + rest;
    assert ShellQuote(s) + rest == ['\''] + inner;
    assert (['\''] + inner)[1..] == inner;
    InnerLexes(s, rest, words, Begun(word));
  }

  lemma {:induction false} InnerLexes(s: string, rest: string, words: seq<Word>, w: Word)
    requires NUL !in s
    ensures Lex(ReplaceAll(s, "'", "'\\''") + "'" + rest, words, Some(w), true)
         == Lex(rest, words, Some(w + Protected(s)), false)
    decreases |s|
  {
    if s == "" {
      assert ReplaceAll(s, "'", "'\\''") + "'" + rest == ['\''] + rest;
      assert (['\''] + rest)[1..] == rest && w + Protected(s) == w;
    } else {
      var c, tail := s[0], s[1..];
      var after := ReplaceAll(tail, "'", "'\\''") + "'" + rest;
      assert s == [c] + tail && c in s;
      InnerLexes(tail, rest, words, w + [Unit(c, true)]);
      assert w + [Unit(c, true)] + Protected(tail) == w + Protected(s);
      if c == '\'' {
        ReplaceHere("'", tail, "'\\''");
        assert ReplaceAll(s, "'", "'\\''") + "'" + rest == "'\\''" + after;
        EscapedQuoteLexes(after, words, w);
      } else {
        ReplacePasses(c, tail, "'", "'\\''");
        assert ReplaceAll(s, "'", "'\\''") + "'" + rest == [c] + after;
        assert ([c] + after)[1..] == after;
      }
    }
  }

  /** Close, escape, open again: one protected quote. */
  lemma EscapedQuoteLexes(after: string, words: seq<Word>, w: Word)
    ensures Lex("'\\''" + after, words, Some(w), true) == Lex(after, words, Some(w + [Unit('\'', true)]), true)
  {
    var t0 := "'\\''" + after;
    var t1 := "\\''" + after;
    var t2 := "'" + after;
    assert t0[1..] == t1 && t1[2..] == t2 && t2[1..] == after;
    assert Lex(t0, words, Some(w), true) == Lex(t1, words, Some(w), false);
    assert Lex(t1, words, Some(w), false) == Lex(t2, words, Some(w + [Unit('\'', true)]), false);
  }

  lemma {:induction false} InnerStops(s: string, words: seq<Word>, w: Word)
    requires NUL in s
    ensures Lex(ReplaceAll(s, "'", "'\\''") + "'", words, Some(w), true).Stopped?
    decreases |s|
  {
    var c, tail := s[0], s[1..];
    var after := ReplaceAll(tail, "'", "'\\''") + "'";
    assert s == [c] + tail;
    if c == '\'' {
      ReplaceHere("'", tail, "'\\''");
      assert ReplaceAll(s, "'", "'\\''") + "'" == "'\\''" + after;
      EscapedQuoteLexes(after, words, w);
      InnerStops(tail, words, w + [Unit(c, true)]);
    } else {
      ReplacePasses(c, tail, "'", "'\\''");
      assert ReplaceAll(s, "'", "'\\''") + "'" == [c] + after;
      assert ([c] + after)[1..] == after;
      if c != NUL { InnerStops(tail, words, w + [Unit(c, true)]); }
    }
  }

  /** The shell reads `shellQuote(s)` as the one word `s` exactly when `s` contains no NUL. */
  lemma QuoteIsOneWord(s: string)
    ensures Words(ShellQuote(s)) == Complete([Protected(s)]) <==> NUL !in s
    ensures Content(Protected(s)) == s
  {
    if NUL !in s {
      QuoteLexes(s, "", [], None);
      assert ShellQuote(s) + "" == ShellQuote(s) && [] + Protected(s) == Protected(s);
    } else {
      var inner := ReplaceAll(s, "'", "'\\''") + "'";
      assert ShellQuote(s) == ['\''] + inner && (['\''] + inner)[1..] == inner;
      InnerStops(s, [], []);
    }
  }

  // ----- Assignments in front of a command

  predicate NameStart(c: char) { 'A' <= c <= 'Z' || 'a' <= c <= 'z' || c == '_' }

  predicate NameChar(c: char) { NameStart(c) || '0' <= c <= '9' }

  predicate ValidName(name: string) {
    name != "" && NameStart(name[0]) && forall i | 0 <= i < |name| :: NameChar(name[i])
  }

  datatype Entry = Entry(name: string, value: string)

  datatype Result<T> = Ok(value: T) | InvalidName(name: string) | InputUnsupported

  function Pair(e: Entry): string {
    e.name + "=" + ShellQuote(e.value)
  }

  function JoinPairs(entries: seq<Entry>): string {
    if entries == [] then ""
    else if |entries| == 1 then Pair(entries[0])
    else Pair(entries[0]) + " " + JoinPairs(entries[1..])
  }

  function FirstInvalid(entries: seq<Entry>): Option<string> {
    if entries == [] then None
    else if !ValidName(entries[0].name) then Some(entries[0].name)
    else FirstInvalid(entries[1..])
  }

  /** No environment, no prefix; an empty one gives a single blank. */
  function BuildEnvPrefix(environment: Option<seq<Entry>>): Result<string> {
    match environment
    case None => Ok("")
    case Some(entries) =>
      match FirstInvalid(entries)
      case Some(name) => InvalidName(name)
      case None => Ok(JoinPairs(entries) + " ")
  }

  /** Where the name of an assignment word would end. */
  function EqualsAt(w: Word): (n: nat)
    ensures n <= |w|
  {
    if w == [] || w[0] == Unit('=', false) then 0 else 1 + EqualsAt(w[1..])
  }

  /** How the shell takes a word in front of a command: an unquoted name, an unquoted `=`, a value. */
  function AsAssignment(w: Word): Option<Entry> {
    var n := EqualsAt(w);
    if n < |w| && w[..n] == Unprotected(Content(w[..n])) && ValidName(Content(w[..n]))
    then Some(Entry(Content(w[..n]), Content(w[n + 1..])))
    else None
  }

  function AssignmentWord(e: Entry): Word {
    Unprotected(e.name) + [Unit('=', false)] + Protected(e.value)
  }

  lemma {:induction false} EqualsAfterName(name: string, rest: Word)
    requires '=' !in name
    ensures EqualsAt(Unprotected(name) + [Unit('=', false)] + rest) == |name|
    decreases |name|
  {
    var w := Unprotected(name) + [Unit('=', false)] + rest;
    if name != "" {
      assert w[0].c in name;
      assert w[1..] == Unprotected(name[1..]) + [Unit('=', false)] + rest;
      EqualsAfterName(name[1..], rest);
    }
  }

  lemma AssignmentReadBack(e: Entry)
    requires ValidName(e.name)
    ensures AsAssignment(AssignmentWord(e)) == Some(e)
  {
    var w, n := AssignmentWord(e), |e.name|;
    assert '=' !in e.name by { assert forall i :: 0 <= i < |e.name| ==> NameChar(e.name[i]); }
    EqualsAfterName(e.name, Protected(e.value));
    assert w[..n] == Unprotected(e.name) && w[n + 1..] == Protected(e.value);
    assert Content(Unprotected(e.name)) == e.name && Content(Protected(e.value)) == e.value;
  }

  lemma {:induction false} BareLexes(s: string, rest: string, words: seq<Word>, word: Option<Word>)
    requires s != "" && forall i :: 0 <= i < |s| ==> Bare(s[i])
    ensures Lex(s + rest, words, word, false) == Lex(rest, words, Some(Begun(word) + Unprotected(s)), false)
    decreases |s|
  {
    var c, tail := s[0], s[1..];
    assert (s + rest)[1..] == tail + rest;
    var w := Begun(word) + [Unit(c, false)];
    assert w + Unprotected(tail) == Begun(word) + Unprotected(s);
    if tail != "" {
      BareLexes(tail, rest, words, Some(w));
    } else {
      assert tail + rest == rest && Bare(c) && (s + rest)[0] == c;
      assert w == Begun(word) + Unprotected(s);
    }
  }

  lemma BlankLexes(rest: string, words: seq<Word>, word: Option<Word>)
    ensures Lex(" " + rest, words, word, false) == Lex(rest, Ended(words, word), None, false)
  {
    assert (" " + rest)[1..] == rest;
  }

  lemma NameIsBare(name: string)
    requires ValidName(name)
    ensures forall i :: 0 <= i < |name + "="| ==> Bare((name + "=")[i])
  {}

  lemma PairLexes(e: Entry, rest: string, words: seq<Word>)
    requires ValidName(e.name) && NUL !in e.value
    ensures Lex(Pair(e) + (" " + rest), words, None, false) == Lex(rest, words + [AssignmentWord(e)], None, false)
  {
    var name, q := e.name + "=", ShellQuote(e.value);
    NameIsBare(e.name);
    assert Pair(e) + (" " + rest) == name + (q + (" " + rest));
    BareLexes(name, q + (" " + rest), words, None);
    QuoteLexes(e.value, " " + rest, words, Some([] + Unprotected(name)));
    assert [] + Unprotected(name) + Protected(e.value) == AssignmentWord(e);
    BlankLexes(rest, words, Some(AssignmentWord(e)));
  }

  function AssignmentWords(entries: seq<Entry>): seq<Word> {
    seq(|entries|, i requires 0 <= i < |entries| => AssignmentWord(entries[i]))
  }

  lemma {:induction false} PairsLex(entries: seq<Entry>, rest: string, words: seq<Word>)
    requires entries != [] && FirstInvalid(entries) == None
    requires forall i :: 0 <= i < |entries| ==> NUL !in entries[i].value
    ensures Lex(JoinPairs(entries) + " " + rest, words, None, false)
         == Lex(rest, words + AssignmentWords(entries), None, false)
    decreases |entries|
  {
    var e, tail := entries[0], entries[1..];
    if tail == [] {
      PairLexes(e, rest, words);
      assert JoinPairs(entries) + " " + rest == Pair(e) + (" " + rest);
      assert AssignmentWords(entries) == [AssignmentWord(e)];
    } else {
      var more := JoinPairs(tail) + " " + rest;
      assert JoinPairs(entries) + " " + rest == Pair(e) + (" " + more);
      PairLexes(e, more, words);
      PairsLex(tail, rest, words + [AssignmentWord(e)]);
      assert words + [AssignmentWord(e)] + AssignmentWords(tail) == words + AssignmentWords(entries);
    }
  }

  lemma {:induction false} ValidNames(entries: seq<Entry>)
    requires FirstInvalid(entries) == None
    ensures forall i :: 0 <= i < |entries| ==> ValidName(entries[i].name)
    decreases |entries|
  {
    if entries != [] { ValidNames(entries[1..]); }
  }

  /** The prefix in front of any command, whatever that is, lexes to one assignment word per entry, each
      of which the shell reads back as exactly that name and value, and then to the command as it is. */
  lemma PrefixAssigns(entries: seq<Entry>, prefix: string, command: string)
    requires BuildEnvPrefix(Some(entries)) == Ok(prefix)
    requires forall i :: 0 <= i < |entries| ==> NUL !in entries[i].value
    ensures Words(prefix + command) == Lex(command, AssignmentWords(entries), None, false)
    ensures forall i :: 0 <= i < |entries| ==> AsAssignment(AssignmentWords(entries)[i]) == Some(entries[i])
  {
    if entries == [] {
      assert prefix == " ";
      BlankLexes(command, [], None);
    } else {
      PairsLex(entries, command, []);
      assert [] + AssignmentWords(entries) == AssignmentWords(entries);
    }
    ValidNames(entries);
    forall i | 0 <= i < |entries| ensures AsAssignment(AssignmentWords(entries)[i]) == Some(entries[i]) {
      AssignmentReadBack(entries[i]);
    }
  }

  // ----- The sudo wrapper

  datatype SudoMode = NoSudo | NonInteractive | Password

  /** What the connection knows: the login user is root, a sudo password is cached, sudo needs none, or
      an earlier authentication still counts. */
  datatype SudoState = SudoState(root: bool, cached: bool, passwordless: bool, primed: bool)

  function SudoCommand(st: SudoState, command: string, prefix: string, hasInput: bool): Result<(string, SudoMode)> {
    if st.root then Ok((prefix + command, NoSudo))
    else
      var quoted := ShellQuote(prefix + command);
      if st.cached && hasInput then
        if !st.passwordless && !st.primed then InputUnsupported
        else Ok(("sudo -n bash -c " + quoted, NonInteractive))
      else if st.cached then Ok(("SUDO_PROMPT='' sudo -S bash -c " + quoted, Password))
      else Ok(("sudo -n bash -c " + quoted, NonInteractive))
  }

  function SudoWords(flag: string, payload: string): seq<Word> {
    [Unprotected("sudo"), Unprotected(flag), Unprotected("bash"), Unprotected("-c"), Protected(payload)]
  }

  lemma WordThenBlank(s: string, rest: string, words: seq<Word>)
    requires s != "" && forall i :: 0 <= i < |s| ==> Bare(s[i])
    ensures Lex(s + (" " + rest), words, None, false) == Lex(rest, words + [Unprotected(s)], None, false)
  {
    BareLexes(s, " " + rest, words, None);
    assert [] + Unprotected(s) == Unprotected(s);
    BlankLexes(rest, words, Some(Unprotected(s)));
  }

  predicate BareWord(s: string) {
    s != "" && forall i | 0 <= i < |s| :: Bare(s[i])
  }

  lemma TwoWords(a: string, b: string, rest: string, words: seq<Word>)
    requires BareWord(a) && BareWord(b)
    ensures Lex(a + (" " + (b + (" " + rest))), words, None, false)
         == Lex(rest, words + [Unprotected(a), Unprotected(b)], None, false)
  {
    WordThenBlank(a, b + (" " + rest), words);
    WordThenBlank(b, rest, words + [Unprotected(a)]);
    assert words + [Unprotected(a)] + [Unprotected(b)] == words + [Unprotected(a), Unprotected(b)];
  }

  lemma FourWordsAndQuote(a: string, b: string, c: string, d: string, payload: string, words: seq<Word>)
    requires BareWord(a) && BareWord(b) && BareWord(c) && BareWord(d) && NUL !in payload
    ensures Lex(a + (" " + (b + (" " + (c + (" " + (d + (" " + ShellQuote(payload)))))))), words, None, false)
         == Complete(words + [Unprotected(a), Unprotected(b), Unprotected(c), Unprotected(d), Protected(payload)])
  {
    var q := ShellQuote(payload);
    var w2 := words + [Unprotected(a), Unprotected(b)];
    var w4 := w2 + [Unprotected(c), Unprotected(d)];
    TwoWords(a, b, c + (" " + (d + (" " + q))), words);
    TwoWords(c, d, q, w2);
    QuoteLexes(payload, "", w4, None);
    assert q + "" == q && [] + Protected(payload) == Protected(payload);
    assert w4 + [Protected(payload)]
        == words + [Unprotected(a), Unprotected(b), Unprotected(c), Unprotected(d), Protected(payload)];
  }

  function SudoLine(flag: string, payload: string): string {
    "sudo " + flag + " bash -c " + ShellQuote(payload)
  }

  lemma SudoLineWords(flag: string, q: string)
    ensures "sudo " + flag + " bash -c " + q
         == "sudo" + (" " + (flag + (" " + ("bash" + (" " + ("-c" + (" " + q)))))))
  {}

  lemma SudoLexes(flag: string, payload: string, words: seq<Word>)
    requires NUL !in payload && BareWord(flag)
    ensures Lex(SudoLine(flag, payload), words, None, false) == Complete(words + SudoWords(flag, payload))
  {
    var q := ShellQuote(payload);
    FourWordsAndQuote("sudo", flag, "bash", "-c", payload, words);
    SudoLineWords(flag, q);
  }

  lemma PlainSudo(payload: string)
    requires NUL !in payload
    ensures Words("sudo -n bash -c " + ShellQuote(payload)) == Complete(SudoWords("-n", payload))
  {
    SudoLexes("-n", payload, []);
    assert SudoLine("-n", payload) == "sudo -n bash -c " + ShellQuote(payload);
    assert [] + SudoWords("-n", payload) == SudoWords("-n", payload);
  }

  const EMPTY_PROMPT := Entry("SUDO_PROMPT", "")

  lemma EmptyPrompt(rest: string)
    ensures ValidName(EMPTY_PROMPT.name)
    ensures "SUDO_PROMPT='' " + rest == Pair(EMPTY_PROMPT) + (" " + rest)
  {
    assert ShellQuote("") == "''";
    assert "SUDO_PROMPT='' " == Pair(EMPTY_PROMPT) + " ";
    assert "SUDO_PROMPT='' " + rest == Pair(EMPTY_PROMPT) + " " + rest;
  }

  lemma PasswordSudo(payload: string)
    requires NUL !in payload
    ensures Words("SUDO_PROMPT='' sudo -S bash -c " + ShellQuote(payload))
         == Complete([AssignmentWord(EMPTY_PROMPT)] + SudoWords("-S", payload))
  {
    var line := SudoLine("-S", payload);
    EmptyPrompt(line);
    assert "SUDO_PROMPT='' sudo -S bash -c " + ShellQuote(payload) == "SUDO_PROMPT='' " + line;
    PairLexes(EMPTY_PROMPT, line, []);
    assert [] + [AssignmentWord(EMPTY_PROMPT)] == [AssignmentWord(EMPTY_PROMPT)];
    SudoLexes("-S", payload, [AssignmentWord(EMPTY_PROMPT)]);
  }

  /** Which state gives which call: root needs no sudo and gets prefix and command as they are; a cached
      password is handed over on standard input, which must then be free unless sudo asks for none. */
  lemma SudoModes(st: SudoState, command: string, prefix: string, hasInput: bool)
    ensures var r := SudoCommand(st, command, prefix, hasInput);
            var occupied := st.cached && hasInput;
            && (st.root <==> r.Ok? && r.value.1 == NoSudo)
            && (st.root ==> r.value.0 == prefix + command)
            && (!st.root && occupied && !(st.passwordless || st.primed) <==> r == InputUnsupported)
            && (!st.root && st.cached && !hasInput <==> r.Ok? && r.value.1 == Password)
            && (!st.root && (!st.cached || (hasInput && (st.passwordless || st.primed)))
                <==> r.Ok? && r.value.1 == NonInteractive)
  {}

  /** Without root, whichever way sudo is called, the shell passes `bash -c` one argument, and that is the
      environment prefix followed by the command, character for character; only the password mode puts an
      assignment in front, of the empty prompt. */
  lemma SudoHandsOverTheCommand(st: SudoState, command: string, prefix: string, hasInput: bool)
    requires !st.root && NUL !in prefix && NUL !in command
    ensures match SudoCommand(st, command, prefix, hasInput)
            case Ok((line, NonInteractive)) => Words(line) == Complete(SudoWords("-n", prefix + command))
            case Ok((line, Password)) =>
              Words(line) == Complete([AssignmentWord(EMPTY_PROMPT)] + SudoWords("-S", prefix + command))
            case Ok((_, NoSudo)) => false
            case _ => st.cached && hasInput && !st.passwordless && !st.primed
    ensures AsAssignment(AssignmentWord(EMPTY_PROMPT)) == Some(EMPTY_PROMPT)
  {
    if st.cached && !hasInput { PasswordSudo(prefix + command); } else { PlainSudo(prefix + command); }
    EmptyPrompt("");
    AssignmentReadBack(EMPTY_PROMPT);
  }
}
