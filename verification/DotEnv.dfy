/** Values of dotenv files (packages/paratix/src/environment.ts): the four replacement passes over a
    double-quoted value, with NUL as a stand-in for an escaped backslash, are one left-to-right decoder. */
module DotEnv {
  import opened Text

  const NUL := '\0'

  datatype Result<T> = Ok(value: T) | Rejected

  /** The four passes. */
  function Unescape(text: string): string {
    ReplaceAll(ReplaceAll(ReplaceAll(ReplaceAll(text, "\\\\", [NUL]), "\\n", "\n"), "\\\"", "\""), [NUL], "\\")
  }

  /** The decoder: an escape is read where it starts, an unknown one stands for itself. */
  function Decode(text: string): string {
    if text == "" then ""
    else if text[0] == '\\' && |text| > 1 && text[1] == '\\' then "\\" + Decode(text[2..])
    else if text[0] == '\\' && |text| > 1 && text[1] == 'n' then "\n" + Decode(text[2..])
    else if text[0] == '\\' && |text| > 1 && text[1] == '"' then "\"" + Decode(text[2..])
    else [text[0]] + Decode(text[1..])
  }

  function Encode(value: string): string {
    if value == "" then "" else EncodeChar(value[0]) + Encode(value[1..])
  }

  function EncodeChar(c: char): string {
    if c == '\\' then "\\\\" else if c == '\n' then "\\n" else if c == '"' then "\\\"" else [c]
  }

  /** `processValue`; what white space is comes from Unicode tables and is a parameter. */
  function ProcessValue(raw: string, isSpace: char -> bool): Result<string> {
    if NUL in raw || '\r' in raw then Rejected
    else if |raw| >= 2 && raw[0] == '"' && raw[|raw| - 1] == '"' then Ok(Unescape(raw[1..|raw| - 1]))
    else if |raw| >= 2 && raw[0] == '\'' && raw[|raw| - 1] == '\'' then Ok(raw[1..|raw| - 1])
    else
      var comment := CommentIndex(raw, 0, isSpace);
      Ok(if comment == -1 then raw else TrimEnd(raw[..comment], isSpace))
  }

  /** The first white space in front of a `#`, from `i` on. */
  function CommentIndex(raw: string, i: nat, isSpace: char -> bool): (r: int)
    ensures r == -1 || i <= r < |raw|
    decreases |raw| - i
  {
    if i + 1 >= |raw| then -1
    else if isSpace(raw[i]) && raw[i + 1] == '#' then i
    else CommentIndex(raw, i + 1, isSpace)
  }

  // ----- Pass by pass

  predicate Plain(c: char) { c != '\\' && c != NUL }

  /** A character that no pass looks at goes through all four. */
  lemma PlainPasses(c: char, rest: string)
    requires Plain(c)
    ensures Unescape([c] + rest) == [c] + Unescape(rest)
  {
    var r1 := ReplaceAll(rest, "\\\\", [NUL]);
    var r2 := ReplaceAll(r1, "\\n", "\n");
    var r3 := ReplaceAll(r2, "\\\"", "\"");
    ReplacePasses(c, rest, "\\\\", [NUL]);
    ReplacePasses(c, r1, "\\n", "\n");
    ReplacePasses(c, r2, "\\\"", "\"");
    ReplacePasses(c, r3, [NUL], "\\");
  }

  lemma EscapedBackslash(rest: string)
    ensures Unescape("\\\\" + rest) == "\\" + Unescape(rest)
  {
    var r1 := ReplaceAll(rest, "\\\\", [NUL]);
    var r2 := ReplaceAll(r1, "\\n", "\n");
    var r3 := ReplaceAll(r2, "\\\"", "\"");
    ReplaceHere("\\\\", rest, [NUL]);
    ReplacePasses(NUL, r1, "\\n", "\n");
    ReplacePasses(NUL, r2, "\\\"", "\"");
    ReplaceHere([NUL], r3, "\\");
  }

  /** A backslash before another character: what the first pass leaves of the two. */
  lemma BackslashFirstPass(d: char, rest: string)
    requires Plain(d)
    ensures ReplaceAll(['\\', d] + rest, "\\\\", [NUL]) == ['\\', d] + ReplaceAll(rest, "\\\\", [NUL])
  {
    assert ['\\', d] + rest == ['\\'] + ([d] + rest);
    assert (['\\'] + ([d] + rest))[1] == d;
    ReplaceLater('\\', [d] + rest, "\\\\", [NUL]);
    ReplacePasses(d, rest, "\\\\", [NUL]);
    assert ['\\'] + ([d] + ReplaceAll(rest, "\\\\", [NUL])) == ['\\', d] + ReplaceAll(rest, "\\\\", [NUL]);
  }

  lemma EscapedNewline(rest: string)
    ensures Unescape("\\n" + rest) == "\n" + Unescape(rest)
  {
    var r1 := ReplaceAll(rest, "\\\\", [NUL]);
    var r2 := ReplaceAll(r1, "\\n", "\n");
    var r3 := ReplaceAll(r2, "\\\"", "\"");
    BackslashFirstPass('n', rest);
    ReplaceHere("\\n", r1, "\n");
    ReplacePasses('\n', r2, "\\\"", "\"");
    ReplacePasses('\n', r3, [NUL], "\\");
  }

  /** A pass over a backslash and a character that are not its pattern. */
  lemma PairPasses(d: char, rest: string, pattern: string, replacement: string)
    requires d != '\\' && |pattern| == 2 && pattern[0] == '\\' && pattern[1] != d
    ensures ReplaceAll(['\\', d] + rest, pattern, replacement) == ['\\', d] + ReplaceAll(rest, pattern, replacement)
  {
    assert ['\\', d] + rest == ['\\'] + ([d] + rest);
    assert (['\\'] + ([d] + rest))[1] == d;
    ReplaceLater('\\', [d] + rest, pattern, replacement);
    ReplacePasses(d, rest, pattern, replacement);
    assert ['\\'] + ([d] + ReplaceAll(rest, pattern, replacement)) == ['\\', d] + ReplaceAll(rest, pattern, replacement);
  }

  lemma EscapedQuote(rest: string)
    ensures Unescape("\\\"" + rest) == "\"" + Unescape(rest)
  {
    var r1 := ReplaceAll(rest, "\\\\", [NUL]);
    var r2 := ReplaceAll(r1, "\\n", "\n");
    var r3 := ReplaceAll(r2, "\\\"", "\"");
    BackslashFirstPass('"', rest);
    PairPasses('"', r1, "\\n", "\n");
    ReplaceHere("\\\"", r2, "\"");
    ReplacePasses('"', r3, [NUL], "\\");
  }

  lemma OtherEscape(d: char, rest: string)
    requires Plain(d) && d != 'n' && d != '"'
    ensures Unescape(['\\', d] + rest) == ['\\', d] + Unescape(rest)
  {
    var r1 := ReplaceAll(rest, "\\\\", [NUL]);
    var r2 := ReplaceAll(r1, "\\n", "\n");
    var r3 := ReplaceAll(r2, "\\\"", "\"");
    BackslashFirstPass(d, rest);
    PairPasses(d, r1, "\\n", "\n");
    PairPasses(d, r2, "\\\"", "\"");
    assert ['\\', d] + r3 == ['\\'] + ([d] + r3);
    ReplacePasses('\\', [d] + r3, [NUL], "\\");
    ReplacePasses(d, r3, [NUL], "\\");
    assert ['\\'] + ([d] + Unescape(rest)) == ['\\', d] + Unescape(rest);
  }

  lemma LoneBackslash()
    ensures Unescape("\\") == "\\"
  {
    ReplaceLater('\\', "", "\\\\", [NUL]);
    ReplaceLater('\\', "", "\\n", "\n");
    ReplaceLater('\\', "", "\\\"", "\"");
    ReplaceLater('\\', "", [NUL], "\\");
    assert ['\\'] + "" == "\\";
  }

  lemma DecodeOther(d: char, rest: string)
    requires Plain(d) && d != 'n' && d != '"'
    ensures Decode(['\\', d] + rest) == ['\\', d] + Decode(rest)
  {
    var text := ['\\', d] + rest;
    assert text[1..] == [d] + rest && ([d] + rest)[1..] == rest;
  }

  /** The four passes equal the decoder on every text without NUL. */
  lemma {:induction false} PassesAreOneDecoder(text: string)
    requires NUL !in text
    ensures Unescape(text) == Decode(text)
    decreases |text|
  {
    if text == "" {
    } else if text[0] != '\\' {
      assert text == [text[0]] + text[1..] && text[0] in text;
      PlainPasses(text[0], text[1..]);
      PassesAreOneDecoder(text[1..]);
    } else if |text| == 1 {
      assert text == "\\";
      LoneBackslash();
    } else {
      var d, rest := text[1], text[2..];
      assert text == ['\\', d] + rest && d in text;
      PassesAreOneDecoder(rest);
      if d == '\\' { EscapedBackslash(rest); }
      else if d == 'n' { EscapedNewline(rest); }
      else if d == '"' { EscapedQuote(rest); }
      else { OtherEscape(d, rest); DecodeOther(d, rest); }
    }
  }

  // ----- Round trip

  lemma {:induction false} DecodeInvertsEncode(value: string)
    ensures Decode(Encode(value)) == value
    ensures NUL in Encode(value) <==> NUL in value
    ensures '\r' in Encode(value) <==> '\r' in value
    ensures '\n' !in Encode(value)
    decreases |value|
  {
    if value != "" {
      var c, rest := value[0], Encode(value[1..]);
      DecodeInvertsEncode(value[1..]);
      DecodeEncodedChar(c, rest);
      assert value == [c] + value[1..];
    }
  }

  lemma DecodeEncodedChar(c: char, rest: string)
    ensures Decode(EncodeChar(c) + rest) == [c] + Decode(rest)
  {
    var text := EncodeChar(c) + rest;
    assert text[|EncodeChar(c)|..] == rest;
  }

  /** Quoting and escaping a value gives a line-safe text that is read back as the value if and only if it
      contains neither NUL nor a carriage return; otherwise the file is rejected. */
  lemma QuotedRoundTrip(value: string, isSpace: char -> bool)
    ensures '\n' !in "\"" + Encode(value) + "\""
    ensures ProcessValue("\"" + Encode(value) + "\"", isSpace)
         == if NUL in value || '\r' in value then Rejected else Ok(value)
  {
    var raw := "\"" + Encode(value) + "\"";
    DecodeInvertsEncode(value);
    assert raw[1..|raw| - 1] == Encode(value);
    assert forall c :: c in raw <==> c == '"' || c in Encode(value);
    if NUL !in value { PassesAreOneDecoder(Encode(value)); }
  }

  /** Between single quotes nothing is an escape. */
  lemma SingleQuoted(value: string, isSpace: char -> bool)
    ensures ProcessValue("'" + value + "'", isSpace)
         == if NUL in value || '\r' in value then Rejected else Ok(value)
  {
    var raw := "'" + value + "'";
    assert raw[1..|raw| - 1] == value;
    assert forall c :: c in raw <==> c == '\'' || c in value;
  }

  predicate Quoted(raw: string) {
    |raw| >= 2 && (raw[0] == '"' || raw[0] == '\'') && raw[|raw| - 1] == raw[0]
  }

  /** A comment begins at `i`: white space with a hash behind it. */
  predicate CommentAt(raw: string, i: int, isSpace: char -> bool) {
    0 <= i < |raw| - 1 && isSpace(raw[i]) && raw[i + 1] == '#'
  }

  /** The search finds the first comment. */
  lemma {:induction false} FirstComment(raw: string, i: nat, isSpace: char -> bool)
    ensures var r := CommentIndex(raw, i, isSpace);
            && (r == -1 <==> forall k | i <= k < |raw| :: !CommentAt(raw, k, isSpace))
            && (r != -1 ==> i <= r && CommentAt(raw, r, isSpace) && forall k | i <= k < r :: !CommentAt(raw, k, isSpace))
    decreases |raw| - i
  {
    if i + 1 < |raw| && !CommentAt(raw, i, isSpace) { FirstComment(raw, i + 1, isSpace); }
  }

  /** An unquoted value without a comment stands for itself; with a comment it ends before it, and before the
      white space in front of it. */
  lemma Unquoted(value: string, gap: string, comment: string, isSpace: char -> bool)
    requires !Quoted(value) && !Quoted(value + gap + comment)
    requires NUL !in value + gap + comment && '\r' !in value + gap + comment
    requires forall k | 0 <= k < |value| :: !CommentAt(value, k, isSpace)
    requires value != "" && !isSpace(value[|value| - 1])
    requires gap != "" && (forall k | 0 <= k < |gap| :: isSpace(gap[k]) && gap[k] != '#')
    requires comment != "" && comment[0] == '#'
    ensures ProcessValue(value + gap + comment, isSpace) == Ok(value)
  {
    var raw, at := value + gap + comment, |value| + |gap| - 1;
    assert CommentAt(raw, at, isSpace);
    forall k | 0 <= k < at ensures !CommentAt(raw, k, isSpace) {
      if k < |value| - 1 { assert !CommentAt(value, k, isSpace); }
    }
    FirstComment(raw, 0, isSpace);
    assert raw[..at] == value + gap[..|gap| - 1];
    TrimsGap(value, gap[..|gap| - 1], isSpace);
  }

  lemma {:induction false} TrimsGap(value: string, gap: string, isSpace: char -> bool)
    requires value != "" && !isSpace(value[|value| - 1]) && forall k | 0 <= k < |gap| :: isSpace(gap[k])
    ensures TrimEnd(value + gap, isSpace) == value
    decreases |gap|
  {
    if gap == "" {
      assert value + gap == value;
    } else {
      assert (value + gap)[..|value + gap| - 1] == value + gap[..|gap| - 1];
      TrimsGap(value, gap[..|gap| - 1], isSpace);
    }
  }

  lemma UnquotedAsIs(raw: string, isSpace: char -> bool)
    requires !Quoted(raw) && forall k | 0 <= k < |raw| :: !CommentAt(raw, k, isSpace)
    ensures ProcessValue(raw, isSpace) == if NUL in raw || '\r' in raw then Rejected else Ok(raw)
  {
    FirstComment(raw, 0, isSpace);
  }
}
