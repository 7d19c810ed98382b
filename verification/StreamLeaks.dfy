/** Leaks out of the stream (packages/paratix/src/sshHelpers.ts): what the batch masker leaves, a session can
    be made to write; and for a secret without a quote, exactly which secrets a session can write. */
module StreamLeaks {
  import opened Text
  import opened Wrappers
  import opened Redaction
  import opened StreamMasking
  import opened Preemption
  import opened StreamExactness
  import opened PlaceholderLeaks
  import opened UriComponent
  import opened SecretVariants
  import opened SecretLeaks

  // ----- From the batch masker to the stream

  function Filler(f: CodeUnit, m: nat): (s: Str)
    ensures |s| == m
  {
    seq(m, _ => f)
  }

  ghost predicate EndsNone(variants: seq<Str>, f: CodeUnit)
    requires NoneEmpty(variants)
  {
    forall i | 0 <= i < |variants| :: variants[i][|variants[i]| - 1] != f
  }

  lemma EndsInFiller(v: Str, f: CodeUnit, m: nat, text: Str)
    requires v <= text + Filler(f, m) && |v| > |text|
    ensures v[|v| - 1] == f
  {
    assert v[|v| - 1] == (text + Filler(f, m))[|v| - 1];
  }

  lemma StartsBeforeFiller(v: Str, f: CodeUnit, m: nat, text: Str)
    requires v != [] && v[|v| - 1] != f
    ensures v <= text + Filler(f, m) <==> v <= text
  {
    if v <= text + Filler(f, m) && |v| > |text| { EndsInFiller(v, f, m, text); }
  }

  lemma {:induction false} PassBeforeFiller(v: Str, red: Str, f: CodeUnit, m: nat, text: Str)
    requires v != [] && v[|v| - 1] != f
    ensures ReplaceAll(text + Filler(f, m), v, red) == ReplaceAll(text, v, red) + Filler(f, m)
    decreases |text|
  {
    var t := text + Filler(f, m);
    if text == [] {
      assert t == Filler(f, m);
      if Contains(v, t) { UnitOfFiller(v, f, m); }
      AbsentUnchanged(v, red, t);
    } else {
      StartsBeforeFiller(v, f, m, text);
      if v <= text {
        assert t[|v|..] == text[|v|..] + Filler(f, m);
        PassBeforeFiller(v, red, f, m, text[|v|..]);
      } else {
        assert t[1..] == text[1..] + Filler(f, m);
        PassBeforeFiller(v, red, f, m, text[1..]);
      }
    }
  }

  lemma UnitOfFiller(v: Str, f: CodeUnit, m: nat)
    requires v != [] && Contains(v, Filler(f, m))
    ensures v[|v| - 1] == f
  {
    var i :| OccursAt(v, Filler(f, m), i);
    assert v[|v| - 1] == Filler(f, m)[i..i + |v|][|v| - 1];
  }

  lemma {:induction false} MaskBeforeFiller(variants: seq<Str>, red: Str, f: CodeUnit, m: nat, text: Str)
    requires NoneEmpty(variants) && EndsNone(variants, f)
    ensures Mask(variants, red, text + Filler(f, m)) == Mask(variants, red, text) + Filler(f, m)
  {
    if variants != [] {
      PassBeforeFiller(variants[0], red, f, m, text);
      MaskBeforeFiller(variants[1..], red, f, m, ReplaceAll(text, variants[0], red));
    }
  }

  lemma FillerUnmasked(variants: seq<Str>, f: CodeUnit, m: nat)
    requires NoneEmpty(variants) && EndsNone(variants, f)
    ensures Mask(variants, REDACTED, Filler(f, m)) == Filler(f, m)
  {
    assert [] + Filler(f, m) == Filler(f, m);
    MaskBeforeFiller(variants, REDACTED, f, m, []);
    MaskOfEmpty(variants, REDACTED);
  }

  /** Filler behind the text pushes it out of the window: it is masked once, and written. */
  lemma FilledPush(variants: seq<Str>, st: MaskerState, chunk: Str, text: Str, f: CodeUnit)
    requires NoneEmpty(variants) && EndsNone(variants, f) && (Overlap(variants) == 0 ==> st.pending == [])
    requires st.pending + chunk == text + Filler(f, Overlap(variants) + 1)
    ensures Flush(variants, Push(variants, st, chunk)).Written()
         == st.Written() + (Mask(variants, REDACTED, text) + Filler(f, Overlap(variants) + 1))
  {
    var keep := Overlap(variants);
    var masked := Mask(variants, REDACTED, st.pending + chunk);
    MaskBeforeFiller(variants, REDACTED, f, keep + 1, text);
    PushSplits(variants, st, chunk);
    assert masked[|masked| - keep..] == Filler(f, keep);
    FillerUnmasked(variants, f, keep);
    FlushWrites(variants, Push(variants, st, chunk));
    SplitKeepsAll(st, masked, |masked| - keep);
  }

  /** What the batch masker leaves, a session can be made to write. */
  lemma BatchLeakReachesStream(variants: seq<Str>, v: Str, text: Str, f: CodeUnit)
    requires NoneEmpty(variants) && EndsNone(variants, f) && Contains(v, Mask(variants, REDACTED, text))
    ensures Contains(v, Session(variants, [text + Filler(f, Overlap(variants) + 1)]).Written())
  {
    var filler := Filler(f, Overlap(variants) + 1);
    var chunk, st0 := text + filler, MaskerState([], []);
    assert [] + chunk == chunk && [chunk][..0] == [];
    assert Pushed(variants, [chunk]) == Push(variants, Pushed(variants, [chunk][..0]), chunk);
    FilledPush(variants, st0, chunk, text, f);
    var masked := Mask(variants, REDACTED, text);
    assert [] + (masked + filler) == masked + filler && (masked + filler)[..|masked|] == masked;
    ContainsPrefix(v, masked + filler, |masked|);
  }

  // ----- The stream: clash-free secrets are safe in it

  const ESCAPED_QUOTE: Str := [QUOTE, BACKSLASH, QUOTE, QUOTE]

  /** What has neither quotes nor backslashes was not made by quoting. */
  lemma {:induction false} StartUnquoted(v: Str, s: Str)
    requires QUOTE !in v && v <= ReplaceAll(s, [QUOTE], ESCAPED_QUOTE)
    ensures v <= s
    decreases |v|
  {
    if v != [] {
      assert v[0] in v;
      assert s != [] && !([QUOTE] <= s);
      var r := ReplaceAll(s[1..], [QUOTE], ESCAPED_QUOTE);
      assert v == [v[0]] + v[1..] && s == [s[0]] + s[1..];
      assert v[1..] == ([s[0]] + r)[1..|v|] == r[..|v| - 1];
      StartUnquoted(v[1..], s[1..]);
    }
  }

  lemma {:induction false} InsideUnquoted(v: Str, s: Str, i: nat)
    requires v != [] && QUOTE !in v && OccursAt(v, ReplaceAll(s, [QUOTE], ESCAPED_QUOTE), i) && BACKSLASH !in v
    ensures Contains(v, s)
    decreases |s|
  {
    if s != [] {
      var r := ReplaceAll(s[1..], [QUOTE], ESCAPED_QUOTE);
      if [QUOTE] <= s {
        var t := ESCAPED_QUOTE + r;
        AvoidsUnit(QUOTE, v, t, i, 0);
        AvoidsUnit(BACKSLASH, v, t, i, 1);
        AvoidsUnit(QUOTE, v, t, i, 2);
        AvoidsUnit(QUOTE, v, t, i, 3);
        OccursBehind(v, ESCAPED_QUOTE, r, i);
        InsideUnquoted(v, s[1..], i - 4);
        ContainsBehind(v, s);
      } else if i > 0 {
        OccursBehind(v, [s[0]], r, i);
        InsideUnquoted(v, s[1..], i - 1);
        ContainsBehind(v, s);
      } else {
        StartUnquoted(v, s);
        assert OccursAt(v, s, 0);
      }
    }
  }

  lemma ContainsBehind(v: Str, s: Str)
    requires s != [] && Contains(v, s[1..])
    ensures Contains(v, s)
  {
    var k :| OccursAt(v, s[1..], k);
    assert s == [s[0]] + s[1..];
    OccursBehind(v, [s[0]], s[1..], k + 1);
  }

  lemma QuotedClashFree(s: Str)
    requires ClashFree(s, REDACTED)
    ensures ClashFree(ShellQuoted(s), REDACTED)
  {
    var r := ReplaceAll(s, [QUOTE], ESCAPED_QUOTE);
    var v := [QUOTE] + r + [QUOTE];
    assert QUOTE !in REDACTED && BACKSLASH !in REDACTED;
    if Contains(v, REDACTED) { FirstUnitInside(v, REDACTED); }
    if Contains(REDACTED, v) {
      InsideQuotes(REDACTED, r);
      var i :| OccursAt(REDACTED, r, i);
      InsideUnquoted(REDACTED, s, i);
    }
    forall n | 0 < n < |v| && n < 10 ensures REDACTED[10 - n..] != v[..n] && REDACTED[..n] != v[|v| - n..] {
      assert v[..n][0] == QUOTE && v[|v| - n..][n - 1] == QUOTE;
      assert REDACTED[10 - n..][0] == REDACTED[10 - n] && REDACTED[..n][n - 1] == REDACTED[n - 1];
    }
  }

  lemma FirstUnitInside(v: Str, text: Str)
    requires v != [] && Contains(v, text)
    ensures v[0] in text
  {
    var i :| OccursAt(v, text, i);
    CoversUnit(v, text, i, i);
    assert v[0] == text[i..i + |v|][0];
  }

  lemma InsideQuotes(v: Str, s: Str)
    requires v != [] && QUOTE !in v && Contains(v, [QUOTE] + s + [QUOTE])
    ensures Contains(v, s)
  {
    var text := [QUOTE] + s + [QUOTE];
    var i :| OccursAt(v, text, i);
    AvoidsUnit(QUOTE, v, text, i, 0);
    AvoidsUnit(QUOTE, v, text, i, |s| + 1);
    OccursInMiddle(v, [QUOTE], s, [QUOTE], i);
  }

  lemma EncodedClashFree(s: Str)
    requires EncodeUriComponent(s).Some? && s != [] && EncodeUriComponent(s).value != s
    ensures ClashFree(EncodeUriComponent(s).value, REDACTED)
  {
    var v := EncodeUriComponent(s).value;
    EncodedLength(s);
    EncodedEscapes(s);
    BracketNotEncoded(s, OPEN);
    BracketNotEncoded(s, CLOSE);
    if Contains(v, REDACTED) { UnitsInside(v, REDACTED, PERCENT); }
    if Contains(REDACTED, v) { FirstUnitInside(REDACTED, v); }
    forall n | 0 < n < |v| && n < 10 ensures REDACTED[10 - n..] != v[..n] && REDACTED[..n] != v[|v| - n..] {
      assert REDACTED[10 - n..][n - 1] == CLOSE && REDACTED[..n][0] == OPEN;
      assert v[..n][n - 1] in v && v[|v| - n..][0] in v;
    }
  }

  lemma UnitsInside(v: Str, text: Str, u: CodeUnit)
    requires Contains(v, text) && u in v
    ensures u in text
  {
    var i :| OccursAt(v, text, i);
    var k :| 0 <= k < |v| && v[k] == u;
    assert text[i + k] == text[i..i + |v|][k];
  }

  lemma FormClashFree(s: Str, v: Str)
    requires ClashFree(s, REDACTED) && FormOf(v, s)
    ensures ClashFree(v, REDACTED)
  {
    QuotedClashFree(s);
    if v != s && EncodeUriComponent(s) == Some(v) { EncodedClashFree(s); }
  }

  /** The list of clash-free secrets is clash-free: what the theorems about the stream ask of the list can be
      checked on the secrets. */
  lemma FormsClashFree(secrets: seq<Str>)
    requires GetVariants(secrets).Variants?
    requires forall i | 0 <= i < |secrets| && secrets[i] != [] :: ClashFree(secrets[i], REDACTED)
    ensures AllClashFree(GetVariants(secrets).variants, REDACTED)
  {
    var vs := GetVariants(secrets).variants;
    forall i | 0 <= i < |vs| ensures ClashFree(vs[i], REDACTED) {
      GetVariantsGives(secrets, vs[i]);
      assert vs[i] in vs;
      var k :| 0 <= k < |secrets| && secrets[k] != [] && FormOf(vs[i], secrets[k]);
      FormClashFree(secrets[k], vs[i]);
    }
  }

  // ----- A clash is enough to leak

  /** However the output is chunked, the secret is not written. */
  ghost predicate SafeInStream(s: Str)
    requires Accepted(s)
  {
    forall chunks: seq<Str> :: !Contains(s, Session(ListOf(s), chunks).Written())
  }

  lemma LastUnitOfEncoded(s: Str)
    requires s != [] && EncodeUriComponent(s).Some?
    ensures EncodeUriComponent(s).value != []
    ensures EncodeUriComponent(s).value[|EncodeUriComponent(s).value| - 1] >= 0x20
  {
    EncodedIsPlain(s);
    EncodedLength(s);
  }

  lemma LastUnitOfQuoted(s: Str)
    ensures ShellQuoted(s)[|ShellQuoted(s)| - 1] == QUOTE
  {}

  lemma LastUnitOfForm(s: Str, v: Str, f: CodeUnit)
    requires Accepted(s) && v in ListOf(s) && f < 0x20 && f != s[|s| - 1]
    ensures v != [] && v[|v| - 1] != f
  {
    ListElements(s, v);
    if v == ShellQuoted(s) { LastUnitOfQuoted(s); } else if v != s { LastUnitOfEncoded(s); }
  }

  /** Some unit ends none of the forms. */
  lemma SomeFiller(s: Str) returns (f: CodeUnit)
    requires Accepted(s)
    ensures EndsNone(ListOf(s), f)
  {
    f := if s[|s| - 1] == 0 then 1 else 0;
    var vs := ListOf(s);
    forall i | 0 <= i < |vs| ensures vs[i][|vs[i]| - 1] != f {
      assert vs[i] in vs;
      LastUnitOfForm(s, vs[i], f);
    }
  }

  lemma {:induction false} MaxLengthAtMost(variants: seq<Str>, k: nat)
    requires forall i | 0 <= i < |variants| :: |variants[i]| <= k
    ensures MaxLength(variants) <= k
  {
    if variants != [] { MaxLengthAtMost(variants[1..], k); }
  }

  /** With a bracket in the secret, its encoding is the longest form. */
  lemma EncodedIsLongest(s: Str)
    requires Accepted(s) && QUOTE !in s && OPEN in s
    ensures EncodeUriComponent(s).Some? && EncodeUriComponent(s).value in ListOf(s)
    ensures EncodeUriComponent(s).value != s && Overlap(ListOf(s)) == |EncodeUriComponent(s).value| - 1
  {
    var vs := ListOf(s);
    ListElements(s, s);
    var e := EncodeUriComponent(s).value;
    ListElements(s, e);
    BracketNotEncoded(s, OPEN);
    EncodedLength(s);
    QuotedPlainly(s);
    forall i | 0 <= i < |vs| ensures |vs[i]| <= |e| {
      assert vs[i] in vs;
      ListElements(s, vs[i]);
    }
    MaxLengthAtMost(vs, |e|);
    var k :| 0 <= k < |vs| && vs[k] == e;
    assert MaxLength(vs) >= |vs[k]|;
  }

  // ----- The text in front of the encoding, which still lacks its last unit, is clean

  /** The front of the secret and its encoding but for the last unit. */
  function Unfinished(y: Str, e: Str): Str
    requires e != []
  {
    y + e[..|e| - 1]
  }

  lemma SecretNotYet(s: Str, y: Str, h: Str, e: Str, i: nat)
    requires s == y + ([OPEN] + h) && e != [] && OccursAt(s, Unfinished(y, e), i)
    ensures OPEN in e
  {
    var text := Unfinished(y, e);
    assert text[i + |y|] == text[i..i + |s|][|y|] == OPEN;
    assert text[i + |y|] == e[i];
  }

  /** An occurrence of the encoding would begin with the end of `y`, and so repeat itself. */
  lemma EncodedRepeats(y: Str, e: Str, i: nat)
    requires |y| < |e| && OccursAt(e, Unfinished(y, e), i)
    ensures i < |y| && Repeats(e, |y| - i) && y[i..] <= e
  {
    var text, d := Unfinished(y, e), |y| - i;
    assert text[i..i + |e|] == e;
    forall k | 0 <= k < |e| - d ensures e[k + d] == e[k] {
      assert e[k + d] == text[i..i + |e|][k + d] == text[i + k + d] == e[k];
    }
    assert y[i..] == text[i..|y|] == text[i..i + |e|][..d];
  }

  /** So would the escape of the bracket, inside the encoding of the end of `y`. */
  lemma MarkInBack(c: int, front: Str, back: Str, h: Str, e: Str, d: nat)
    requires 0x10 <= c < 0x80 && e == front + back + EscapeByte(c) + h && Repeats(e, d) && 0 < d <= |back|
    ensures OccursAt(EscapeByte(c), back, |back| - d)
  {
    var a := front + back;
    MarkHere(c, a, h);
    EscapeShifts(c, d, e, |a|, |a| - d);
    MarkBefore(c, a, h, |a| - d);
    OccursBehind(EscapeByte(c), front, back, |a| - d);
  }

  lemma EncodedEnd(y: Str, i: nat)
    requires EncodeUriComponent(y).Some? && i < |y| && !IsLow(y[i])
    ensures EncodeUriComponent(y[..i]).Some? && EncodeUriComponent(y[i..]).Some?
    ensures EncodeUriComponent(y).value == EncodeUriComponent(y[..i]).value + EncodeUriComponent(y[i..]).value
    ensures |EncodeUriComponent(y[i..]).value| >= |y[i..]|
  {
    assert y == y[..i] + y[i..];
    EncodeConcat(y[..i], y[i..]);
    EncodedLength(y[i..]);
  }

  lemma MarkInEnd(y: Str, h: Str, e: Str, i: nat)
    requires EncodeUriComponent(y).Some? && |y| < |e| && OccursAt(e, Unfinished(y, e), i) && !IsLow(e[0])
    requires e == EncodeUriComponent(y).value + EscapeByte(OPEN as int) + h
    ensures i < |y| && y[i..] <= e && EncodeUriComponent(y[i..]).Some?
    ensures Contains(EscapeByte(OPEN as int), EncodeUriComponent(y[i..]).value)
  {
    EncodedRepeats(y, e, i);
    assert y[i] == y[i..][0] == e[0];
    EncodedEnd(y, i);
    MarkInBack(OPEN as int, EncodeUriComponent(y[..i]).value, EncodeUriComponent(y[i..]).value, h, e, |y| - i);
  }

  lemma EncodedNotYet(y: Str, h: Str, e: Str, i: nat)
    requires EncodeUriComponent(y).Some? && |y| < |e| && OccursAt(e, Unfinished(y, e), i) && !IsLow(e[0])
    requires e == EncodeUriComponent(y).value + EscapeByte(OPEN as int) + h
    ensures OPEN in e
  {
    MarkInEnd(y, h, e, i);
    var k :| OccursAt(EscapeByte(OPEN as int), EncodeUriComponent(y[i..]).value, k);
    EscapeOccurs(OPEN, y[i..], k);
  }

  /** No form of the secret stands in the front of the secret and the unfinished encoding behind it. */
  lemma UnfinishedIsClean(s: Str, n: nat)
    requires Accepted(s) && QUOTE !in s && StartsLikeEnd(s, REDACTED, n)
    ensures EncodeUriComponent(s).Some? && EncodeUriComponent(s).value != []
    ensures var text := Unfinished(s[..|s| - n], EncodeUriComponent(s).value);
            forall i | 0 <= i < |ListOf(s)| :: !Contains(ListOf(s)[i], text)
  {
    ListElements(s, s);
    EncodedLength(s);
    var vs, y, e := ListOf(s), s[..|s| - n], EncodeUriComponent(s).value;
    forall i | 0 <= i < |vs| ensures !Contains(vs[i], Unfinished(y, e)) {
      assert vs[i] in vs;
      ListElements(s, vs[i]);
      if Contains(vs[i], Unfinished(y, e)) { FormNotYet(s, n, vs[i]); }
    }
  }

  lemma FormNotYet(s: Str, n: nat, v: Str)
    requires Accepted(s) && StartsLikeEnd(s, REDACTED, n) && FormOf(v, s)
    requires EncodeUriComponent(s).Some? && EncodeUriComponent(s).value != []
    requires Contains(v, Unfinished(s[..|s| - n], EncodeUriComponent(s).value))
    ensures QUOTE in s
  {
    var y, e := s[..|s| - n], EncodeUriComponent(s).value;
    var i :| OccursAt(v, Unfinished(y, e), i);
    if v == s || v == e {
      PlainFormNotYet(s, n, v, i);
    } else {
      QuotedFormNotYet(s, y, v);
    }
  }

  lemma PlainFormNotYet(s: Str, n: nat, v: Str, i: nat)
    requires Accepted(s) && StartsLikeEnd(s, REDACTED, n)
    requires EncodeUriComponent(s).Some? && EncodeUriComponent(s).value != []
    requires v == s || v == EncodeUriComponent(s).value
    ensures !OccursAt(v, Unfinished(s[..|s| - n], EncodeUriComponent(s).value), i)
  {
    var y, e := s[..|s| - n], EncodeUriComponent(s).value;
    if OccursAt(v, Unfinished(y, e), i) {
      var h := InFrontOfOpen(s, n);
      BracketNotEncoded(s, OPEN);
      EncodedIsPlain(s);
      EncodedLength(s);
      EncodedAround(y, OPEN, h);
      if v == s { SecretNotYet(s, y, h, e, i); } else { EncodedNotYet(y, EncodeUriComponent(h).value, e, i); }
    }
  }

  lemma QuotedFormNotYet(s: Str, y: Str, v: Str)
    requires EncodeUriComponent(s).Some? && EncodeUriComponent(s).value != [] && y <= s
    requires v != [] && v[0] == QUOTE && Contains(v, Unfinished(y, EncodeUriComponent(s).value))
    ensures QUOTE in s
  {
    var e := EncodeUriComponent(s).value;
    FirstUnitInside(v, Unfinished(y, e));
    if QUOTE in e { EncodedMark(QUOTE, s); }
  }

  // ----- The session that leaks

  /** The front of the secret, then its encoding, whose last unit comes in a chunk of its own. */
  function WindowChunks(y: Str, e: Str, filler: Str): seq<Str>
    requires e != []
  {
    [Unfinished(y, e), [e[|e| - 1]] + filler]
  }

  /** If the window holds exactly the unfinished encoding, the front leaves it. */
  lemma FrontLeavesWindow(variants: seq<Str>, y: Str, e: Str)
    requires NoneEmpty(variants) && y != [] && e != [] && Overlap(variants) == |e| - 1
    requires forall i | 0 <= i < |variants| :: !Contains(variants[i], Unfinished(y, e))
    ensures Push(variants, MaskerState([], []), Unfinished(y, e)) == MaskerState(e[..|e| - 1], [] + [y])
  {
    var text := Unfinished(y, e);
    MaskOfClean(variants, REDACTED, text);
    assert [] + text == text;
    PushSplits(variants, MaskerState([], []), text);
    assert text[|y|..] == e[..|e| - 1] && text[..|y|] == y;
  }

  /** Then the encoding becomes a placeholder right behind it. */
  lemma EncodingCompleted(variants: seq<Str>, y: Str, e: Str, f: CodeUnit)
    requires NoneEmpty(variants) && EndsNone(variants, f) && e != [] && Overlap(variants) == |e| - 1
    requires Mask(variants, REDACTED, e) == REDACTED
    ensures Flush(variants, Push(variants, MaskerState(e[..|e| - 1], [] + [y]), [e[|e| - 1]] + Filler(f, |e|))).Written()
         == y + (REDACTED + Filler(f, |e|))
  {
    var last := [e[|e| - 1]] + Filler(f, |e|);
    assert e[..|e| - 1] + last == e + Filler(f, |e|);
    FilledPush(variants, MaskerState(e[..|e| - 1], [] + [y]), last, e, f);
    ConcatSnoc([], y);
  }

  lemma WindowSession(variants: seq<Str>, y: Str, e: Str, f: CodeUnit)
    requires NoneEmpty(variants) && EndsNone(variants, f) && y != [] && e != [] && Overlap(variants) == |e| - 1
    requires forall i | 0 <= i < |variants| :: !Contains(variants[i], Unfinished(y, e))
    requires Mask(variants, REDACTED, e) == REDACTED
    ensures Session(variants, WindowChunks(y, e, Filler(f, |e|))).Written() == y + (REDACTED + Filler(f, |e|))
  {
    PushedTwo(variants, Unfinished(y, e), [e[|e| - 1]] + Filler(f, |e|));
    FrontLeavesWindow(variants, y, e);
    EncodingCompleted(variants, y, e, f);
  }

  lemma MaskOfListed(variants: seq<Str>, red: Str, k: nat)
    requires NoneEmpty(variants) && Ordered(variants) && k < |variants|
    requires forall i | k < i < |variants| :: !Contains(variants[i], red)
    ensures Mask(variants, red, variants[k]) == red
  {
    var v := variants[k];
    EarlierAbsent(variants, k);
    assert v + [] == v && red + [] == red;
    ReplaceHere(v, [], red);
    MaskFromHit(variants, red, k, v);
  }

  lemma OtherFormsNotInside(s: Str, v: Str)
    requires Accepted(s) && QUOTE !in s && !Contains(s, REDACTED)
    requires v in ListOf(s) && EncodeUriComponent(s) != Some(v)
    ensures !Contains(v, REDACTED)
  {
    ListElements(s, v);
    if v != s && Contains(v, REDACTED) { FirstUnitInside(v, REDACTED); }
  }

  lemma EncodedIsMasked(s: Str)
    requires Accepted(s) && QUOTE !in s && !Contains(s, REDACTED)
    ensures EncodeUriComponent(s).Some? && Mask(ListOf(s), REDACTED, EncodeUriComponent(s).value) == REDACTED
  {
    ListElements(s, s);
    var vs, e := ListOf(s), EncodeUriComponent(s).value;
    ListElements(s, e);
    var k :| 0 <= k < |vs| && vs[k] == e;
    forall i | k < i < |vs| ensures !Contains(vs[i], REDACTED) {
      assert vs[i] in vs;
      OtherFormsNotInside(s, vs[i]);
    }
    MaskOfListed(vs, REDACTED, k);
  }

  lemma FrontCompletes(s: Str, n: nat, rest: Str)
    requires StartsLikeEnd(s, REDACTED, n)
    ensures Contains(s, s[..|s| - n] + (REDACTED + rest))
  {
    var text := s[..|s| - n] + (REDACTED + rest);
    assert text[0..|s|] == s[..|s| - n] + REDACTED[..n] == s;
    assert OccursAt(s, text, 0);
  }

  lemma WindowLeaks(s: Str, n: nat) returns (chunks: seq<Str>)
    requires Accepted(s) && QUOTE !in s && StartsLikeEnd(s, REDACTED, n) && !Contains(s, REDACTED)
    ensures Contains(s, Session(ListOf(s), chunks).Written())
  {
    UnfinishedIsClean(s, n);
    var y, e := s[..|s| - n], EncodeUriComponent(s).value;
    var h := InFrontOfOpen(s, n);
    var f := SomeFiller(s);
    EncodedIsLongest(s);
    EncodedIsMasked(s);
    WindowSession(ListOf(s), y, e, f);
    FrontCompletes(s, n, Filler(f, |e|));
    chunks := WindowChunks(y, e, Filler(f, |e|));
  }

  lemma LeakingChunks(variants: seq<Str>, v: Str, text: Str, f: CodeUnit) returns (chunks: seq<Str>)
    requires NoneEmpty(variants) && EndsNone(variants, f) && Contains(v, Mask(variants, REDACTED, text))
    ensures Contains(v, Session(variants, chunks).Written())
  {
    chunks := [text + Filler(f, Overlap(variants) + 1)];
    BatchLeakReachesStream(variants, v, text, f);
  }

  lemma TextLeaks(s: Str, text: Str) returns (chunks: seq<Str>)
    requires Accepted(s) && Contains(s, Mask(ListOf(s), REDACTED, text))
    ensures Contains(s, Session(ListOf(s), chunks).Written())
  {
    var f := SomeFiller(s);
    chunks := LeakingChunks(ListOf(s), s, text, f);
  }

  /** For every accepted secret: clash-free is enough for every session, and leak-free is necessary. */
  lemma SafeInStreamBetween(s: Str)
    requires Accepted(s)
    ensures ClashFree(s, REDACTED) ==> SafeInStream(s)
    ensures SafeInStream(s) ==> LeakFree(s, REDACTED)
  {
    if ClashFree(s, REDACTED) {
      FormsClashFree([s]);
      SecretIsLast(s);
      forall chunks: seq<Str> ensures !Contains(s, Session(ListOf(s), chunks).Written()) {
        StreamIsClean(ListOf(s), chunks, s);
      }
    }
    if !LeakFree(s, REDACTED) {
      var text := LeakyText(s);
      var chunks := TextLeaks(s, text);
    }
  }

  /** A session hides an accepted secret without a quote however its output is chunked, if and only if the
      secret is clash-free: here the window makes harmful what the batch masker never gets to. */
  lemma SafeInStreamExactly(s: Str)
    requires Accepted(s) && QUOTE !in s
    ensures SafeInStream(s) <==> ClashFree(s, REDACTED)
  {
    SafeInStreamBetween(s);
    if LeakFree(s, REDACTED) && !ClashFree(s, REDACTED) {
      ListElements(s, s);
      var n := ClashWithoutLeak(s, REDACTED);
      var chunks := WindowLeaks(s, n);
    }
  }

  const BRACKETS: Str := [OPEN, OPEN]

  lemma BracketsAccepted()
    ensures Accepted(BRACKETS)
  {
    forall i ensures !OccursAt(REDACTED, BRACKETS, i) {}
    assert BRACKETS == [] + ([OPEN] + [OPEN]);
    EncodedBracket(OPEN);
    EncodeConcat([OPEN], [OPEN]);
    assert [OPEN] + [OPEN] == BRACKETS;
    GuardsExactly([], [BRACKETS]);
  }

  lemma BracketsLeakFree()
    ensures LeakFree(BRACKETS, REDACTED) && !ClashFree(BRACKETS, REDACTED)
  {
    forall i ensures !OccursAt(BRACKETS, REDACTED, i) {
      if 0 <= i <= 8 { assert REDACTED[i..i + 2][1] == REDACTED[i + 1]; }
    }
    assert REDACTED[9..][0] == REDACTED[9] && BRACKETS[..1][0] == OPEN;
    assert REDACTED[..1] == [OPEN] && BRACKETS[1..] == [OPEN];
    assert StartsLikeEnd(BRACKETS, REDACTED, 1);
    var d := Doubled(BRACKETS, 1);
    assert d == [OPEN, OPEN, OPEN] && d[0..2] == BRACKETS;
    assert OccursAt(BRACKETS, d, 0);
  }

  /** The two conditions differ: a secret of two brackets never comes out of the batch masker, and a session
      can be made to write it. */
  lemma StreamIsStricter()
    ensures Accepted(BRACKETS) && SafeInBatch(BRACKETS) && !SafeInStream(BRACKETS)
  {
    BracketsAccepted();
    BracketsLeakFree();
    SafeInBatchExactly(BRACKETS);
    SafeInStreamExactly(BRACKETS);
  }
}
