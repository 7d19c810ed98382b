/** Templates (packages/paratix/src/template.ts): the tokenizer loses nothing, and the phased renderer,
    which reads per-access values late and once, gives what the simple renderer gives. */
module Template {
  import opened Text

  datatype Token =
    | Escaped
    | Literal(text: string)
    | Placeholder(varName: string, modifiers: seq<string>)

  datatype Outcome<T> = Ok(value: T) | Failed

  // ----- Placeholders

  predicate WordChar(c: char) {
    'A' <= c <= 'Z' || 'a' <= c <= 'z' || '0' <= c <= '9' || c == '_'
  }

  /** Words joined by single separators; `expectWord` says that the next character must be one. */
  predicate Joined(text: string, sep: char, expectWord: bool) {
    if text == "" then !expectWord
    else if WordChar(text[0]) then Joined(text[1..], sep, false)
    else text[0] == sep && !expectWord && Joined(text[1..], sep, true)
  }

  /** `\w+(\.\w+)*` */
  predicate ValidName(name: string) { Joined(name, '.', true) }

  /** `\|` or `(\|\w+)*` */
  predicate ValidModifiers(raw: string) {
    raw == "" || raw == "|" || (raw[0] == '|' && Joined(raw[1..], '|', true))
  }

  function RunLength(text: string, sep: char): (n: nat)
    ensures n <= |text|
  {
    if text != "" && (WordChar(text[0]) || text[0] == sep) then 1 + RunLength(text[1..], sep) else 0
  }

  /** The text between the braces of a placeholder that starts here. */
  datatype Match = NoMatch | Match(name: string, raw: string)

  function PlaceholderText(name: string, raw: string): string {
    "{{" + (name + (raw + "}}"))
  }

  predicate Closes(text: string) { |text| >= 2 && text[0] == '}' && text[1] == '}' }

  predicate Opens(text: string) { |text| >= 2 && text[0] == '{' && text[1] == '{' }

  predicate OpensEscaped(text: string) { |text| >= 3 && text[0] == '\\' && Opens(text[1..]) }

  /** The sticky pattern at the start of `text`: no alternative has to be tried, since what follows the
      longest name can be neither part of it nor of a shorter one's continuation. */
  function MatchPlaceholder(text: string): Match {
    if Opens(text) then MatchName(text[2..]) else NoMatch
  }

  function MatchName(text: string): Match {
    var n := RunLength(text, '.');
    if ValidName(text[..n]) then MatchModifiers(text[..n], text[n..]) else NoMatch
  }

  function MatchModifiers(name: string, text: string): Match {
    var n := RunLength(text, '|');
    if ValidModifiers(text[..n]) && Closes(text[n..]) then Match(name, text[..n]) else NoMatch
  }

  lemma {:induction false} RunOfJoined(text: string, sep: char, expectWord: bool, rest: string)
    requires Joined(text, sep, expectWord) && (rest == "" || !(WordChar(rest[0]) || rest[0] == sep))
    ensures RunLength(text + rest, sep) == |text|
    decreases |text|
  {
    if text == "" {
      assert text + rest == rest;
    } else {
      assert (text + rest)[1..] == text[1..] + rest;
      RunOfJoined(text[1..], sep, !WordChar(text[0]), rest);
    }
  }

  lemma RunOfModifiers(raw: string, rest: string)
    requires ValidModifiers(raw) && Closes(rest)
    ensures RunLength(raw + rest, '|') == |raw|
  {
    if raw == "" {
      assert raw + rest == rest;
    } else {
      assert (raw + rest)[1..] == raw[1..] + rest;
      if raw == "|" { assert raw[1..] + rest == rest; } else { RunOfJoined(raw[1..], '|', true, rest); }
    }
  }

  lemma ModifiersMatch(name: string, raw: string, rest: string)
    requires ValidModifiers(raw) && Closes(rest)
    ensures MatchModifiers(name, raw + rest) == Match(name, raw)
  {
    RunOfModifiers(raw, rest);
    assert (raw + rest)[..|raw|] == raw && (raw + rest)[|raw|..] == rest;
  }

  lemma NameMatches(name: string, raw: string, rest: string)
    requires ValidName(name) && ValidModifiers(raw) && Closes(rest)
    ensures MatchName(name + (raw + rest)) == Match(name, raw)
  {
    var after := raw + rest;
    assert after[0] == if raw == "" then '}' else '|';
    RunOfJoined(name, '.', true, after);
    assert (name + after)[..|name|] == name && (name + after)[|name|..] == after;
    ModifiersMatch(name, raw, rest);
  }

  lemma PlaceholderMatches(name: string, raw: string, rest: string)
    requires ValidName(name) && ValidModifiers(raw)
    ensures MatchPlaceholder(PlaceholderText(name, raw) + rest) == Match(name, raw)
  {
    var text, tail := PlaceholderText(name, raw) + rest, "}}" + rest;
    assert text[2..] == name + (raw + tail);
    NameMatches(name, raw, tail);
  }

  lemma ModifiersMatched(name: string, text: string, raw: string)
    requires MatchModifiers(name, text) == Match(name, raw)
    ensures ValidModifiers(raw) && |raw| + 2 <= |text| && text[..|raw| + 2] == raw + "}}"
  {
    assert text[|raw|..][..2] == "}}";
  }

  lemma NameMatched(text: string, name: string, raw: string)
    requires MatchName(text) == Match(name, raw)
    ensures ValidName(name) && ValidModifiers(raw)
    ensures |name| + |raw| + 2 <= |text| && text[..|name| + |raw| + 2] == name + (raw + "}}")
  {
    var after := text[|name|..];
    ModifiersMatched(name, after, raw);
    assert text == name + after;
  }

  lemma MatchIsPlaceholder(text: string, name: string, raw: string)
    requires MatchPlaceholder(text) == Match(name, raw)
    ensures ValidName(name) && ValidModifiers(raw)
    ensures |PlaceholderText(name, raw)| <= |text| && text[..|PlaceholderText(name, raw)|] == PlaceholderText(name, raw)
  {
    NameMatched(text[2..], name, raw);
    assert text == "{{" + text[2..];
  }

  /** The matcher finds a placeholder exactly when the text starts with one in the grammar, and then it
      finds that one. */
  lemma MatchesGrammar(text: string, name: string, raw: string)
    ensures MatchPlaceholder(text) == Match(name, raw)
       <==> ValidName(name) && ValidModifiers(raw) && PlaceholderText(name, raw) <= text
  {
    if MatchPlaceholder(text) == Match(name, raw) { MatchIsPlaceholder(text, name, raw); }
    var placeholder := PlaceholderText(name, raw);
    if ValidName(name) && ValidModifiers(raw) && placeholder <= text {
      PlaceholderMatches(name, raw, text[|placeholder|..]);
      assert text == placeholder + text[|placeholder|..];
    }
  }

  /** "" is no modifier, "|" the empty one, "|a|b" a chain. */
  function ModifierNames(raw: string): seq<string> {
    if raw == "" then [] else SplitAt(raw[1..], '|')
  }

  // ----- Tokens

  function Flushed(buffer: string): seq<Token> {
    if buffer == "" then [] else [Literal(buffer)]
  }

  /** What stands at the start of a non-empty text. */
  datatype Piece = Whole(token: Token, length: nat) | Character | Malformed

  function FirstPiece(text: string, strict: bool): (piece: Piece)
    requires text != ""
    ensures piece.Whole? ==> 0 < piece.length <= |text|
  {
    if OpensEscaped(text) then Whole(Escaped, 3)
    else
      var m := MatchPlaceholder(text);
      if m.Match? then
        MatchIsPlaceholder(text, m.name, m.raw);
        Whole(Placeholder(m.name, ModifierNames(m.raw)), |PlaceholderText(m.name, m.raw)|)
      else if Opens(text) && strict then Malformed
      else Character
  }

  /** What the tokenizer does with the rest of the template, `buffer` being the pending literal. */
  function Scan(text: string, buffer: string, strict: bool): Outcome<seq<Token>>
    decreases |text|
  {
    if text == "" then Ok(Flushed(buffer))
    else
      match FirstPiece(text, strict)
      case Whole(token, n) => Behind(Flushed(buffer) + [token], Scan(text[n..], "", strict))
      case Character => Scan(text[1..], buffer + [text[0]], strict)
      case Malformed => Failed
  }

  function Behind(front: seq<Token>, rest: Outcome<seq<Token>>): Outcome<seq<Token>> {
    if rest.Ok? then Ok(front + rest.value) else Failed
  }

  class TemplateTokenizer {
    const template: string
    const strict: bool
    var cursor: nat
    var literalBuffer: string
    var tokens: seq<Token>

    constructor (template: string, strict: bool)
      ensures this.template == template && this.strict == strict
      ensures cursor == 0 && literalBuffer == "" && tokens == []
    {
      this.template, this.strict := template, strict;
      cursor, literalBuffer, tokens := 0, "", [];
    }

    /** What is still to come, put behind the tokens so far. */
    ghost function Remaining(): Outcome<seq<Token>>
      requires cursor <= |template|
      reads this
    {
      Behind(tokens, Scan(template[cursor..], literalBuffer, strict))
    }

    method Tokenize() returns (ok: bool)
      requires cursor <= |template|
      modifies this
      ensures ok == old(Remaining()).Ok?
      ensures ok ==> tokens == old(Remaining()).value
    {
      while cursor < |template|
        invariant cursor <= |template|
        invariant Remaining() == old(Remaining())
        decreases |template| - cursor
      {
        var escaped := ConsumeEscapedBrace();
        if escaped { continue; }
        var consumed, malformed := ConsumePlaceholder();
        if malformed { return false; }
        if consumed { continue; }
        assert template[cursor..][1..] == template[cursor + 1..];
        literalBuffer := literalBuffer + [template[cursor]];
        cursor := cursor + 1;
      }
      assert template[cursor..] == "";
      FlushLiteral();
      ok := true;
    }

    method ConsumeEscapedBrace() returns (consumed: bool)
      requires cursor < |template|
      modifies this
      ensures consumed == OpensEscaped(template[old(cursor)..])
      ensures cursor <= |template| && (consumed ==> cursor > old(cursor))
      ensures Remaining() == old(Remaining())
      ensures !consumed ==> cursor == old(cursor) && literalBuffer == old(literalBuffer) && tokens == old(tokens)
    {
      if !OpensEscaped(template[cursor..]) { return false; }
      Emit(Escaped, 3);
      consumed := true;
    }

    method ConsumePlaceholder() returns (consumed: bool, malformed: bool)
      requires cursor < |template| && !OpensEscaped(template[cursor..])
      modifies this
      ensures consumed == MatchPlaceholder(template[old(cursor)..]).Match?
      ensures malformed == (!consumed && Opens(template[old(cursor)..]) && strict)
      ensures cursor <= |template| && (consumed ==> cursor > old(cursor))
      ensures Remaining() == old(Remaining())
      ensures !consumed ==> cursor == old(cursor) && literalBuffer == old(literalBuffer) && tokens == old(tokens)
    {
      var rest := template[cursor..];
      if !Opens(rest) { return false, false; }
      var m := MatchPlaceholder(rest);
      if m.NoMatch? { return false, strict; }
      MatchIsPlaceholder(rest, m.name, m.raw);
      Emit(Placeholder(m.name, ModifierNames(m.raw)), |PlaceholderText(m.name, m.raw)|);
      return true, false;
    }

    /** The pending literal and then the token go out, and the cursor moves past the token's text. */
    method Emit(token: Token, length: nat)
      requires cursor < |template| && FirstPiece(template[cursor..], strict) == Whole(token, length)
      modifies this
      ensures old(cursor) < cursor <= |template|
      ensures Remaining() == old(Remaining())
    {
      ScanEmits(template, cursor, literalBuffer, strict, tokens, token, length);
      FlushLiteral();
      tokens := tokens + [token];
      cursor := cursor + length;
    }

    method FlushLiteral()
      modifies `literalBuffer, `tokens
      ensures literalBuffer == "" && tokens == old(tokens) + Flushed(old(literalBuffer))
    {
      if |literalBuffer| > 0 {
        tokens := tokens + [Literal(literalBuffer)];
        literalBuffer := "";
      }
    }
  }

  lemma ScanEmits(template: string, cursor: nat, buffer: string, strict: bool, tokens: seq<Token>, token: Token, length: nat)
    requires cursor < |template| && FirstPiece(template[cursor..], strict) == Whole(token, length)
    ensures Behind(tokens, Scan(template[cursor..], buffer, strict))
         == Behind(tokens + Flushed(buffer) + [token], Scan(template[cursor + length..], "", strict))
  {
    var rest := Scan(template[cursor + length..], "", strict);
    assert template[cursor..][length..] == template[cursor + length..];
    assert Scan(template[cursor..], buffer, strict) == Behind(Flushed(buffer) + [token], rest);
    AssociativeBehind(tokens, Flushed(buffer) + [token], rest);
    assert tokens + Flushed(buffer) + [token] == tokens + (Flushed(buffer) + [token]);
  }

  lemma AssociativeBehind(a: seq<Token>, b: seq<Token>, rest: Outcome<seq<Token>>)
    ensures Behind(a, Behind(b, rest)) == Behind(a + b, rest)
  {
    if rest.Ok? { assert a + (b + rest.value) == a + b + rest.value; }
  }

  // ----- Printing gives the template back

  function JoinModifiers(names: seq<string>): string
    decreases |names|, 1
  {
    if names == [] then "" else "|" + JoinBars(names)
  }

  function JoinBars(names: seq<string>): string
    requires names != []
    decreases |names|, 0
  {
    names[0] + JoinModifiers(names[1..])
  }

  function PrintToken(t: Token): string {
    match t
    case Escaped => "\\{{"
    case Literal(text) => text
    case Placeholder(name, modifiers) => PlaceholderText(name, JoinModifiers(modifiers))
  }

  function Print(tokens: seq<Token>): string {
    if tokens == [] then "" else PrintToken(tokens[0]) + Print(tokens[1..])
  }

  lemma JoinCons(first: string, rest: seq<string>)
    ensures JoinBars([first] + rest) == first + JoinModifiers(rest)
  {
    assert ([first] + rest)[1..] == rest;
  }

  lemma JoinLonger(c: char, first: string, rest: seq<string>)
    ensures JoinBars([[c] + first] + rest) == [c] + JoinBars([first] + rest)
  {
    JoinCons([c] + first, rest);
    JoinCons(first, rest);
  }

  lemma {:induction false} JoinSplit(text: string)
    ensures JoinBars(SplitAt(text, '|')) == text
    decreases |text|
  {
    if text != "" {
      var c, rest := text[0], SplitAt(text[1..], '|');
      JoinSplit(text[1..]);
      assert text == [c] + text[1..];
      if c == '|' {
        JoinCons("", rest);
      } else {
        assert rest == [rest[0]] + rest[1..];
        JoinLonger(c, rest[0], rest[1..]);
      }
    }
  }

  lemma ModifiersPrintBack(raw: string)
    requires ValidModifiers(raw)
    ensures JoinModifiers(ModifierNames(raw)) == raw
  {
    if raw != "" {
      JoinSplit(raw[1..]);
      assert raw == "|" + raw[1..];
    }
  }

  lemma {:induction false} PrintConcat(a: seq<Token>, b: seq<Token>)
    ensures Print(a + b) == Print(a) + Print(b)
    decreases |a|
  {
    if a == [] {
      assert a + b == b;
    } else {
      assert (a + b)[1..] == a[1..] + b;
      PrintConcat(a[1..], b);
    }
  }

  lemma PrintFlushed(buffer: string, token: Token)
    ensures Print(Flushed(buffer)) == buffer && Print(Flushed(buffer) + [token]) == buffer + PrintToken(token)
  {
    assert Print([token]) == PrintToken(token) + Print([]) == PrintToken(token);
    if buffer != "" { assert [Literal(buffer)][1..] == []; }
    PrintConcat(Flushed(buffer), [token]);
  }

  lemma PiecePrintsBack(text: string, strict: bool)
    requires text != "" && FirstPiece(text, strict).Whole?
    ensures PrintToken(FirstPiece(text, strict).token) == text[..FirstPiece(text, strict).length]
  {
    if OpensEscaped(text) {
      assert text[1..][0] == text[1] && text[1..][1] == text[2];
      assert text[..3] == "\\{{";
    } else {
      var m := MatchPlaceholder(text);
      MatchIsPlaceholder(text, m.name, m.raw);
      ModifiersPrintBack(m.raw);
    }
  }

  lemma PrintBehind(text: string, n: nat, buffer: string, token: Token, rest: seq<Token>)
    requires n <= |text| && PrintToken(token) == text[..n] && Print(rest) == text[n..]
    ensures Print(Flushed(buffer) + [token] + rest) == buffer + text
  {
    PrintFlushed(buffer, token);
    PrintConcat(Flushed(buffer) + [token], rest);
    assert text == text[..n] + text[n..];
  }

  /** For every template that the tokenizer accepts, in either mode, printing the tokens gives back the
      template. */
  lemma {:induction false} TokensPrintBack(text: string, buffer: string, strict: bool)
    requires Scan(text, buffer, strict).Ok?
    ensures Print(Scan(text, buffer, strict).value) == buffer + text
    decreases |text|
  {
    if text == "" {
      PrintFlushed(buffer, Escaped);
    } else {
      var piece := FirstPiece(text, strict);
      if piece.Whole? {
        var rest := text[piece.length..];
        TokensPrintBack(rest, "", strict);
        assert "" + rest == rest;
        PiecePrintsBack(text, strict);
        PrintBehind(text, piece.length, buffer, piece.token, Scan(rest, "", strict).value);
      } else {
        TokensPrintBack(text[1..], buffer + [text[0]], strict);
        assert buffer + [text[0]] + text[1..] == buffer + text;
      }
    }
  }

  /** No literal is empty, and no two stand next to each other. */
  predicate WellShaped(tokens: seq<Token>) {
    && (forall i | 0 <= i < |tokens| :: tokens[i].Literal? ==> tokens[i].text != "")
    && (forall i | 0 <= i < |tokens| - 1 :: !(tokens[i].Literal? && tokens[i + 1].Literal?))
  }

  lemma ShapedBehind(buffer: string, token: Token, rest: seq<Token>)
    requires !token.Literal? && WellShaped(rest)
    ensures WellShaped(Flushed(buffer) + [token] + rest)
  {}

  lemma {:induction false} TokensWellShaped(text: string, buffer: string, strict: bool)
    requires Scan(text, buffer, strict).Ok?
    ensures WellShaped(Scan(text, buffer, strict).value)
    decreases |text|
  {
    if text != "" {
      match FirstPiece(text, strict)
      case Whole(token, n) =>
        TokensWellShaped(text[n..], "", strict);
        ShapedBehind(buffer, token, Scan(text[n..], "", strict).value);
      case Character => TokensWellShaped(text[1..], buffer + [text[0]], strict);
    }
  }

  // ----- The tokens are the only ones of their kind

  /** Nothing that the tokenizer looks for begins at the start of `text`. */
  predicate Plain(text: string, strict: bool) {
    !OpensEscaped(text) && MatchPlaceholder(text).NoMatch? && (strict ==> !Opens(text))
  }

  /** Nothing of that begins in the first `n` characters of `text`. */
  ghost predicate Inert(text: string, n: nat, strict: bool) {
    forall i: nat | i < n && i <= |text| :: Plain(text[i..], strict)
  }

  /** A placeholder token is one of the grammar. */
  predicate Grammatical(token: Token) {
    token.Placeholder? ==>
      && ValidName(token.varName)
      && ValidModifiers(JoinModifiers(token.modifiers))
      && ModifierNames(JoinModifiers(token.modifiers)) == token.modifiers
  }

  /** Every placeholder is one of the grammar, and inside a literal nothing begins that is no literal. */
  ghost predicate Greedy(tokens: seq<Token>, strict: bool) {
    forall k | 0 <= k < |tokens| ::
      Grammatical(tokens[k]) && (tokens[k].Literal? ==> Inert(Print(tokens[k..]), |tokens[k].text|, strict))
  }

  lemma GreedyTail(tokens: seq<Token>, strict: bool)
    requires tokens != [] && Greedy(tokens, strict)
    ensures Greedy(tokens[1..], strict)
  {
    var rest := tokens[1..];
    forall k | 0 <= k < |rest|
      ensures Grammatical(rest[k]) && (rest[k].Literal? ==> Inert(Print(rest[k..]), |rest[k].text|, strict))
    {
      assert rest[k..] == tokens[k + 1..];
    }
  }

  lemma GreedyCons(token: Token, rest: seq<Token>, strict: bool)
    requires Greedy(rest, strict) && Grammatical(token)
    requires token.Literal? ==> Inert(Print([token] + rest), |token.text|, strict)
    ensures Greedy([token] + rest, strict)
  {
    var tokens := [token] + rest;
    forall k | 0 <= k < |tokens|
      ensures Grammatical(tokens[k]) && (tokens[k].Literal? ==> Inert(Print(tokens[k..]), |tokens[k].text|, strict))
    {
      if k == 0 { assert tokens[0..] == tokens; } else { assert tokens[k..] == rest[k - 1..]; }
    }
  }

  lemma FlushedGreedy(buffer: string, rest: seq<Token>, strict: bool)
    requires Greedy(rest, strict) && Inert(buffer + Print(rest), |buffer|, strict)
    ensures Greedy(Flushed(buffer) + rest, strict)
  {
    if buffer == "" {
      assert Flushed(buffer) + rest == rest;
    } else {
      assert ([Literal(buffer)] + rest)[1..] == rest;
      GreedyCons(Literal(buffer), rest, strict);
    }
  }

  lemma PieceGrammatical(text: string, strict: bool)
    requires text != "" && FirstPiece(text, strict).Whole?
    ensures !FirstPiece(text, strict).token.Literal? && Grammatical(FirstPiece(text, strict).token)
  {
    var m := MatchPlaceholder(text);
    if !OpensEscaped(text) {
      MatchIsPlaceholder(text, m.name, m.raw);
      ModifiersPrintBack(m.raw);
    }
  }

  lemma InertSnoc(text: string, buffer: string, strict: bool)
    requires text != "" && FirstPiece(text, strict).Character? && Inert(buffer + text, |buffer|, strict)
    ensures buffer + [text[0]] + text[1..] == buffer + text
    ensures Inert(buffer + text, |buffer| + 1, strict)
  {
    assert (buffer + text)[|buffer|..] == text;
  }

  lemma PieceGreedy(text: string, buffer: string, rest: seq<Token>, strict: bool)
    requires text != "" && FirstPiece(text, strict).Whole? && Inert(buffer + text, |buffer|, strict)
    requires Greedy(rest, strict) && Print(rest) == text[FirstPiece(text, strict).length..]
    ensures Greedy(Flushed(buffer) + [FirstPiece(text, strict).token] + rest, strict)
  {
    var token := FirstPiece(text, strict).token;
    PieceGrammatical(text, strict);
    PiecePrintsBack(text, strict);
    GreedyCons(token, rest, strict);
    TokenPrints(token, rest);
    assert Print([token] + rest) == text;
    FlushedGreedy(buffer, [token] + rest, strict);
    assert Flushed(buffer) + [token] + rest == Flushed(buffer) + ([token] + rest);
  }

  lemma {:induction false} TokensGreedy(text: string, buffer: string, strict: bool)
    requires Scan(text, buffer, strict).Ok? && Inert(buffer + text, |buffer|, strict)
    ensures Greedy(Scan(text, buffer, strict).value, strict)
    decreases |text|
  {
    if text == "" {
      assert Flushed(buffer) + [] == Flushed(buffer);
      FlushedGreedy(buffer, [], strict);
    } else {
      var piece := FirstPiece(text, strict);
      if piece.Whole? {
        var rest := text[piece.length..];
        TokensGreedy(rest, "", strict);
        TokensPrintBack(rest, "", strict);
        assert "" + rest == rest;
        PieceGreedy(text, buffer, Scan(rest, "", strict).value, strict);
      } else {
        InertSnoc(text, buffer, strict);
        TokensGreedy(text[1..], buffer + [text[0]], strict);
      }
    }
  }

  lemma TokenPrints(token: Token, rest: seq<Token>)
    ensures Print([token] + rest) == PrintToken(token) + Print(rest)
  {
    assert ([token] + rest)[1..] == rest;
  }

  lemma {:induction false} ScanInert(front: string, rest: string, buffer: string, strict: bool)
    requires Inert(front + rest, |front|, strict)
    ensures Scan(front + rest, buffer, strict) == Scan(rest, buffer + front, strict)
    decreases |front|
  {
    if front == "" {
      assert front + rest == rest && buffer + front == buffer;
    } else {
      var text := front + rest;
      assert text[0..] == text && Plain(text[0..], strict);
      assert text[1..] == front[1..] + rest && buffer + [front[0]] + front[1..] == buffer + front;
      assert forall i: nat | i <= |text[1..]| :: text[1..][i..] == text[i + 1..];
      ScanInert(front[1..], rest, buffer + [front[0]], strict);
    }
  }

  lemma PieceOfPrinted(token: Token, rest: string, strict: bool)
    requires !token.Literal? && Grammatical(token)
    ensures PrintToken(token) != "" && FirstPiece(PrintToken(token) + rest, strict) == Whole(token, |PrintToken(token)|)
  {
    var text := PrintToken(token) + rest;
    if token.Placeholder? {
      PlaceholderMatches(token.varName, JoinModifiers(token.modifiers), rest);
    } else {
      assert text[1..][0] == text[1] && text[1..][1] == text[2];
    }
  }

  lemma LiteralScanned(text: string, rest: seq<Token>, strict: bool)
    requires Inert(Print([Literal(text)] + rest), |text|, strict)
    ensures Scan(Print([Literal(text)] + rest), "", strict) == Scan(Print(rest), text, strict)
  {
    TokenPrints(Literal(text), rest);
    ScanInert(text, Print(rest), "", strict);
    assert "" + text == text;
  }

  lemma PieceScanned(token: Token, rest: seq<Token>, buffer: string, strict: bool)
    requires !token.Literal? && Grammatical(token) && Scan(Print(rest), "", strict) == Ok(rest)
    ensures Scan(Print([token] + rest), buffer, strict) == Ok(Flushed(buffer) + ([token] + rest))
  {
    TokenPrints(token, rest);
    PieceOfPrinted(token, Print(rest), strict);
    assert Flushed(buffer) + [token] + rest == Flushed(buffer) + ([token] + rest);
  }

  lemma {:induction false} GreedyScanned(tokens: seq<Token>, buffer: string, strict: bool)
    requires Greedy(tokens, strict) && WellShaped(tokens)
    requires buffer != "" && tokens != [] ==> !tokens[0].Literal?
    ensures Scan(Print(tokens), buffer, strict) == Ok(Flushed(buffer) + tokens)
    decreases |tokens|
  {
    if tokens == [] {
      assert Flushed(buffer) + tokens == Flushed(buffer);
    } else {
      var token, rest := tokens[0], tokens[1..];
      assert tokens == [token] + rest && tokens[0..] == tokens;
      GreedyTail(tokens, strict);
      ShapedTail(tokens);
      if token.Literal? {
        GreedyScanned(rest, token.text, strict);
        LiteralScanned(token.text, rest, strict);
        assert Flushed(buffer) + tokens == Flushed(token.text) + rest;
      } else {
        GreedyScanned(rest, "", strict);
        assert Flushed("") + rest == rest;
        PieceScanned(token, rest, buffer, strict);
      }
    }
  }

  lemma ShapedTail(tokens: seq<Token>)
    requires tokens != [] && WellShaped(tokens)
    ensures WellShaped(tokens[1..])
    ensures tokens[0].Literal? ==> tokens[0].text != "" && (|tokens| > 1 ==> !tokens[1].Literal?)
  {
    var rest := tokens[1..];
    assert forall k | 0 <= k < |rest| :: rest[k] == tokens[k + 1];
  }

  /** A template is tokenized to exactly the one list of tokens that prints as the template, has no empty and
      no adjacent literals, and no literal in which an escaped brace or a placeholder begins, nor in strict
      mode any double brace. It is refused exactly when there is no such list. */
  lemma TokensExactly(text: string, tokens: seq<Token>, strict: bool)
    ensures Scan(text, "", strict) == Ok(tokens)
       <==> Print(tokens) == text && WellShaped(tokens) && Greedy(tokens, strict)
  {
    if Scan(text, "", strict) == Ok(tokens) {
      TokensPrintBack(text, "", strict);
      assert "" + text == text;
      TokensWellShaped(text, "", strict);
      TokensGreedy(text, "", strict);
    }
    if Print(tokens) == text && WellShaped(tokens) && Greedy(tokens, strict) {
      GreedyScanned(tokens, "", strict);
      assert Flushed("") + tokens == tokens;
    }
  }
}
