/** Leaks of the lists that getSecretVariants really returns (packages/paratix/src/sshHelpers.ts) out of the
    batch masker: for the list of one secret, exactly which secrets leak. */
module SecretLeaks {
  import opened Text
  import opened Wrappers
  import opened Redaction
  import opened Preemption
  import opened PlaceholderLeaks
  import opened UriComponent
  import opened SecretVariants

  // ----- From a pass to a list

  lemma {:induction false} MaskFromHit(variants: seq<Str>, red: Str, k: nat, text: Str)
    requires NoneEmpty(variants) && k < |variants|
    requires forall i | 0 <= i < k :: !Contains(variants[i], text)
    requires forall i | k < i < |variants| :: !Contains(variants[i], ReplaceAll(text, variants[k], red))
    ensures Mask(variants, red, text) == ReplaceAll(text, variants[k], red)
  {
    var rest := variants[k + 1..];
    MaskFrom(variants, red, k, text);
    assert variants[k..][0] == variants[k] && variants[k..][1..] == rest;
    forall i | 0 <= i < |rest| ensures !Contains(rest[i], ReplaceAll(text, variants[k], red)) {
      assert rest[i] == variants[k + 1 + i];
    }
    MaskOfClean(rest, red, ReplaceAll(text, variants[k], red));
  }

  /** In any list, a text on which a variant leaks and that no other variant touches leaks. */
  lemma ListLeaks(variants: seq<Str>, red: Str, k: nat, text: Str)
    requires NoneEmpty(variants) && k < |variants| && Leaks(variants[k], red, text)
    requires forall i | 0 <= i < k :: !Contains(variants[i], text)
    requires forall i | k < i < |variants| :: !Contains(variants[i], ReplaceAll(text, variants[k], red))
    ensures Contains(variants[k], Mask(variants, red, text))
  {
    MaskFromHit(variants, red, k, text);
  }

  // ----- The list of one secret

  function OneSecret(s: Str): Prepared { GetVariants([s]) }

  /** Accepted by getSecretVariants, and not skipped as empty. */
  predicate Accepted(s: Str) { s != [] && OneSecret(s).Variants? }

  function ListOf(s: Str): (variants: seq<Str>)
    requires Accepted(s)
    ensures Ordered(variants) && NoneEmpty(variants)
  {
    GetVariantsGives([s], s);
    OneSecret(s).variants
  }

  lemma {:induction false} ReplaceAllLonger(s: Str, v: Str, r: Str)
    requires v != [] && |v| <= |r|
    ensures |ReplaceAll(s, v, r)| >= |s|
    decreases |s|
  {
    if s != [] { if v <= s { ReplaceAllLonger(s[|v|..], v, r); } else { ReplaceAllLonger(s[1..], v, r); } }
  }

  lemma ListElements(s: Str, v: Str)
    requires Accepted(s)
    ensures v in ListOf(s) <==> FormOf(v, s)
    ensures !Contains(REDACTED, s) && EncodeUriComponent(s).Some?
  {
    GetVariantsGives([s], v);
    GuardsExactly([], [s]);
    assert [s][0] == s;
    if FormOfSome(v, [s]) {
      var i :| 0 <= i < 1 && [s][i] != [] && FormOf(v, [s][i]);
    }
  }

  lemma OtherFormsLonger(s: Str, v: Str)
    requires Accepted(s) && FormOf(v, s) && v != s
    ensures |v| >= |s| + 2
  {
    ReplaceAllLonger(s, [QUOTE], [QUOTE, BACKSLASH, QUOTE, QUOTE]);
    ListElements(s, v);
    EncodedLength(s);
  }

  /** The secret itself is the shortest of its forms, and comes last. */
  lemma SecretIsLast(s: Str)
    requires Accepted(s)
    ensures ListOf(s) != [] && ListOf(s)[|ListOf(s)| - 1] == s
  {
    var vs := ListOf(s);
    ListElements(s, s);
    var k :| 0 <= k < |vs| && vs[k] == s;
    var last := vs[|vs| - 1];
    assert last in vs;
    ListElements(s, last);
    if last != s { OtherFormsLonger(s, last); }
  }

  lemma {:induction false} MaskLast(variants: seq<Str>, red: Str, text: Str)
    requires NoneEmpty(variants) && variants != []
    ensures Mask(variants, red, text)
         == ReplaceAll(Mask(variants[..|variants| - 1], red, text), variants[|variants| - 1], red)
    decreases |variants|
  {
    var init := variants[..|variants| - 1];
    if |variants| == 1 {
      assert init == [] && variants[1..] == [];
    } else {
      var r := ReplaceAll(text, variants[0], red);
      MaskLast(variants[1..], red, r);
      assert init[1..] == variants[1..][..|variants[1..]| - 1];
    }
  }

  /** A leak-free secret never comes out of the batch masker. */
  lemma LeakFreeIsSafe(s: Str, text: Str)
    requires Accepted(s) && LeakFree(s, REDACTED)
    ensures !Contains(s, Mask(ListOf(s), REDACTED, text))
  {
    var vs := ListOf(s);
    ListElements(s, s);
    SecretIsLast(s);
    MaskLast(vs, REDACTED, text);
    PassIsClean(s, REDACTED, Mask(vs[..|vs| - 1], REDACTED, text));
  }

  // ----- The other forms do not stand in the leaking text: the quoted one has too many quotes

  lemma {:induction false} QuotesTripled(s: Str)
    ensures multiset(ReplaceAll(s, [QUOTE], [QUOTE, BACKSLASH, QUOTE, QUOTE]))[QUOTE] == 3 * multiset(s)[QUOTE]
    decreases |s|
  {
    if s != [] {
      var rest := s[1..];
      QuotesTripled(rest);
      assert s == [s[0]] + rest;
      if [QUOTE] <= s {
        assert s[0] == QUOTE;
        ReplaceHere([QUOTE], rest, [QUOTE, BACKSLASH, QUOTE, QUOTE]);
      } else {
        ReplaceLater(s[0], rest, [QUOTE], [QUOTE, BACKSLASH, QUOTE, QUOTE]);
      }
    }
  }

  lemma CountInside(v: Str, text: Str, u: CodeUnit)
    requires Contains(v, text)
    ensures multiset(v)[u] <= multiset(text)[u]
  {
    var i :| OccursAt(v, text, i);
    assert text == text[..i] + v + text[i + |v|..];
  }

  lemma TooFewQuotes(s: Str, text: Str)
    requires multiset(text)[QUOTE] <= 2 * multiset(s)[QUOTE]
    ensures !Contains(ShellQuoted(s), text)
  {
    QuotesTripled(s);
    if Contains(ShellQuoted(s), text) { CountInside(ShellQuoted(s), text, QUOTE); }
  }

  lemma QuotedAbsentBeside(s: Str, k: nat)
    requires k <= |s|
    ensures !Contains(ShellQuoted(s), s)
    ensures !Contains(ShellQuoted(s), s + s[k..])
    ensures !Contains(ShellQuoted(s), s[..k] + s)
  {
    assert s == s[..k] + s[k..];
    TooFewQuotes(s, s);
    TooFewQuotes(s, s + s[k..]);
    TooFewQuotes(s, s[..k] + s);
  }

  // ----- Nor the encoded one: the bracket of the placeholder that the secret holds would have to be escaped
  // ----- twice in it

  const OPEN: CodeUnit := 0x5B
  const CLOSE: CodeUnit := 0x5D

  /** Every unit comes again after `d` units, as far as the text goes. */
  predicate Repeats(e: Str, d: nat) {
    forall k | 0 <= k < |e| - d :: e[k + d] == e[k]
  }

  lemma SquareRepeats(u: Str, e: Str, i: nat)
    requires OccursAt(e, u + u, i)
    ensures Repeats(e, |u|)
  {
    forall k | 0 <= k < |e| - |u| ensures e[k + |u|] == e[k] {
      assert e[k + |u|] == (u + u)[i..i + |e|][k + |u|] == u[i + k];
      assert e[k] == (u + u)[i..i + |e|][k] == u[i + k];
    }
  }

  /** And a long enough part of it has every unit of `u`. */
  lemma SquareHasAll(u: Str, e: Str, i: nat, c: CodeUnit)
    requires OccursAt(e, u + u, i) && |u| <= |e| && c in u
    ensures c in e
  {
    var x :| 0 <= x < |u| && u[x] == c;
    var k := if i <= x then x - i else x + |u| - i;
    assert e[k] == (u + u)[i..i + |e|][k] == c;
  }

  /** Escapes do not overlap. */
  lemma EscapesApart(c: int, a: Str, b: Str, k: nat)
    requires 0x10 <= c < 0x80 && k != |a|
    requires OccursAt(EscapeByte(c), a + EscapeByte(c) + b, k)
    ensures k + 3 <= |a| || |a| + 3 <= k
  {
    var e := EscapeByte(c);
    var t := a + e + b;
    assert t[k..k + 3] == e;
    assert t[|a|] == PERCENT && t[|a| + 1] == e[1] && t[|a| + 2] == e[2];
    assert t[k] == PERCENT && t[k + 1] == e[1] && t[k + 2] == e[2];
  }

  /** Another escape of the same unit lies entirely behind the first, or entirely before it. */
  lemma MarkBehind(c: int, a: Str, b: Str, k: nat)
    requires 0x10 <= c < 0x80 && |a| < k && OccursAt(EscapeByte(c), a + EscapeByte(c) + b, k)
    ensures |a| + 3 <= k && OccursAt(EscapeByte(c), b, k - |a| - 3)
  {
    EscapesApart(c, a, b, k);
    OccursBehind(EscapeByte(c), a + EscapeByte(c), b, k);
  }

  lemma MarkBefore(c: int, a: Str, b: Str, k: nat)
    requires 0x10 <= c < 0x80 && k < |a| && OccursAt(EscapeByte(c), a + EscapeByte(c) + b, k)
    ensures OccursAt(EscapeByte(c), a, k)
  {
    EscapesApart(c, a, b, k);
    assert (a + EscapeByte(c) + b)[k..k + 3] == a[k..k + 3];
  }

  lemma MarkHere(c: int, a: Str, b: Str)
    requires 0x10 <= c < 0x80
    ensures OccursAt(EscapeByte(c), a + EscapeByte(c) + b, |a|)
  {
    assert (a + EscapeByte(c) + b)[|a|..|a| + 3] == EscapeByte(c);
  }

  lemma EscapeShifts(c: int, d: nat, e: Str, from: nat, to: nat)
    requires 0x10 <= c < 0x80 && Repeats(e, d) && from <= |e| - 3 && to <= |e| - 3
    requires to == from + d || from == to + d
    requires OccursAt(EscapeByte(c), e, from)
    ensures OccursAt(EscapeByte(c), e, to)
  {
    var low := if from < to then from else to;
    assert e[low] == e[low + d] && e[low + 1] == e[low + 1 + d] && e[low + 2] == e[low + 2 + d];
    assert e[from..from + 3] == [e[from], e[from + 1], e[from + 2]];
    assert e[to..to + 3] == [e[to], e[to + 1], e[to + 2]];
  }

  lemma BracketNotEncoded(s: Str, c: CodeUnit)
    requires EncodeUriComponent(s).Some? && (c == OPEN || c == CLOSE)
    ensures c !in EncodeUriComponent(s).value
  {
    EncodedIsPlain(s);
  }

  lemma EncodedBracket(c: CodeUnit)
    requires c == OPEN || c == CLOSE
    ensures EncodeUriComponent([c]) == Some(EscapeByte(c as int))
  {
    assert [c][1..] == [];
    assert EscapeByte(c as int) + [] == EscapeByte(c as int);
  }

  /** The encoding around a bracket. */
  lemma EncodedAround(a: Str, c: CodeUnit, b: Str)
    requires (c == OPEN || c == CLOSE) && EncodeUriComponent(a + ([c] + b)).Some?
    ensures EncodeUriComponent(a).Some? && EncodeUriComponent(b).Some?
    ensures EncodeUriComponent(a + ([c] + b)).value
         == EncodeUriComponent(a).value + EscapeByte(c as int) + EncodeUriComponent(b).value
  {
    EncodeConcat(a, [c] + b);
    EncodeConcat([c], b);
    EncodedBracket(c);
  }

  /** If the encoding of `a`, `c` and `u` stood in `u + u`, the escape of `c` would stand in it again,
      further right. */
  lemma MarkAgain(c: int, a: Str, u: Str, b: Str, e: Str, i: nat)
    requires 0x10 <= c < 0x80 && u != [] && |b| >= |u| && e == a + EscapeByte(c) + b && OccursAt(e, u + u, i)
    ensures |u| >= 3 && OccursAt(EscapeByte(c), b, |u| - 3)
  {
    MarkHere(c, a, b);
    SquareRepeats(u, e, i);
    EscapeShifts(c, |u|, e, |a|, |a| + |u|);
    MarkBehind(c, a, b, |a| + |u|);
  }

  /** A secret that starts with letters and a closing bracket: its encoding does not stand in the rest
      twice over. */
  lemma NotInRestTwice(s: Str, r: Str, u: Str, i: nat)
    requires EncodeUriComponent(s).Some? && s == r + ([CLOSE] + u) && u != []
    requires forall k | 0 <= k < |r| :: Unescaped(r[k])
    ensures !OccursAt(EncodeUriComponent(s).value, u + u, i)
  {
    EncodedAround(r, CLOSE, u);
    EncodeUnescaped(r);
    EncodedLength(u);
    BracketNotEncoded(s, CLOSE);
    if OccursAt(EncodeUriComponent(s).value, u + u, i) {
      MarkAgain(CLOSE as int, r, u, EncodeUriComponent(u).value, EncodeUriComponent(s).value, i);
      EscapeOccurs(CLOSE, u, |u| - 3);
      SquareHasAll(u, EncodeUriComponent(s).value, i, CLOSE);
    }
  }

  /** From the other side, further left. */
  lemma MarkAgainBefore(c: int, a: Str, y: Str, b: Str, e: Str, i: nat)
    requires 0x10 <= c < 0x80 && y != [] && |a| >= |y| && e == a + EscapeByte(c) + b && OccursAt(e, y + y, i)
    ensures OccursAt(EscapeByte(c), a, |a| - |y|)
  {
    MarkHere(c, a, b);
    SquareRepeats(y, e, i);
    EscapeShifts(c, |y|, e, |a|, |a| - |y|);
    MarkBefore(c, a, b, |a| - |y|);
  }

  /** The same for a secret that ends with an opening bracket and letters. */
  lemma NotInFrontTwice(s: Str, y: Str, h: Str, i: nat)
    requires EncodeUriComponent(s).Some? && s == y + ([OPEN] + h) && y != []
    requires forall k | 0 <= k < |h| :: Unescaped(h[k])
    ensures !OccursAt(EncodeUriComponent(s).value, y + y, i)
  {
    EncodedAround(y, OPEN, h);
    EncodeUnescaped(h);
    EncodedLength(y);
    BracketNotEncoded(s, OPEN);
    if OccursAt(EncodeUriComponent(s).value, y + y, i) {
      MarkAgainBefore(OPEN as int, EncodeUriComponent(y).value, y, h, EncodeUriComponent(s).value, i);
      EscapeOccurs(OPEN, y, |EncodeUriComponent(y).value| - |y|);
      SquareHasAll(y, EncodeUriComponent(s).value, i, OPEN);
    }
  }

  lemma CoversUnit(e: Str, text: Str, i: nat, at: nat)
    requires OccursAt(e, text, i) && i <= at < i + |e|
    ensures text[at] in e
  {
    assert e[at - i] == text[i..i + |e|][at - i];
  }

  lemma AvoidsUnit(c: CodeUnit, e: Str, text: Str, i: nat, at: nat)
    requires OccursAt(e, text, i) && c !in e && at < |text| && text[at] == c
    ensures i + |e| <= at || at < i
  {
    if i <= at < i + |e| { CoversUnit(e, text, i, at); }
  }

  lemma EncodedNotBehind(s: Str, r: Str, u: Str, i: nat)
    requires EncodeUriComponent(s).Some? && s == r + ([CLOSE] + u) && u != []
    requires forall k | 0 <= k < |r| :: Unescaped(r[k])
    ensures !OccursAt(EncodeUriComponent(s).value, r + [CLOSE] + (u + u), i)
  {
    var e, text := EncodeUriComponent(s).value, r + [CLOSE] + (u + u);
    BracketNotEncoded(s, CLOSE);
    EncodedLength(s);
    if OccursAt(e, text, i) {
      assert s[|r|] == text[|r|] == CLOSE;
      AvoidsUnit(CLOSE, e, text, i, |r|);
      OccursBehind(e, r + [CLOSE], u + u, i);
      NotInRestTwice(s, r, u, i - |r| - 1);
    }
  }

  lemma EncodedNotInFront(s: Str, y: Str, h: Str, i: nat)
    requires EncodeUriComponent(s).Some? && s == y + ([OPEN] + h) && y != []
    requires forall k | 0 <= k < |h| :: Unescaped(h[k])
    ensures !OccursAt(EncodeUriComponent(s).value, [] + (y + y) + ([OPEN] + h), i)
  {
    var e, text := EncodeUriComponent(s).value, [] + (y + y) + ([OPEN] + h);
    BracketNotEncoded(s, OPEN);
    EncodedLength(s);
    if OccursAt(e, text, i) {
      assert s[|y|] == text[2 * |y|] == OPEN;
      AvoidsUnit(OPEN, e, text, i, 2 * |y|);
      OccursInMiddle(e, [], y + y, [OPEN] + h, i);
      NotInFrontTwice(s, y, h, i);
    }
  }

  lemma EndOfPlaceholder(n: nat) returns (r: Str)
    requires 0 < n < 10
    ensures REDACTED[10 - n..] == r + [CLOSE] && forall k | 0 <= k < |r| :: Unescaped(r[k])
  {
    r := REDACTED[10 - n..9];
    forall k | 0 <= k < |r| ensures Unescaped(r[k]) { assert r[k] == REDACTED[10 - n + k]; }
    assert REDACTED[10 - n..] == REDACTED[10 - n..9] + [REDACTED[9]];
  }

  lemma BehindClose(s: Str, n: nat) returns (r: Str)
    requires EndsLikeStart(s, REDACTED, n)
    ensures s == r + ([CLOSE] + s[n..]) && forall k | 0 <= k < |r| :: Unescaped(r[k])
  {
    r := EndOfPlaceholder(n);
    assert s == s[..n] + s[n..];
  }

  lemma InFrontOfOpen(s: Str, n: nat) returns (h: Str)
    requires StartsLikeEnd(s, REDACTED, n)
    ensures s == s[..|s| - n] + ([OPEN] + h) && forall k | 0 <= k < |h| :: Unescaped(h[k])
  {
    var head := s[|s| - n..];
    h := head[1..];
    assert head[0] == REDACTED[0] == OPEN;
    forall k | 0 <= k < |h| ensures Unescaped(h[k]) { assert h[k] == head[k + 1] == REDACTED[k + 1]; }
    assert head == [OPEN] + h;
  }

  lemma EncodedAbsentEnd(s: Str, n: nat)
    requires EncodeUriComponent(s).Some? && EndsLikeStart(s, REDACTED, n)
    ensures !Contains(EncodeUriComponent(s).value, s + s[n..])
  {
    var u := s[n..];
    var r := BehindClose(s, n);
    assert s + u == r + [CLOSE] + (u + u);
    forall i: nat ensures !OccursAt(EncodeUriComponent(s).value, r + [CLOSE] + (u + u), i) {
      EncodedNotBehind(s, r, u, i);
    }
  }

  lemma EncodedAbsentStart(s: Str, n: nat)
    requires EncodeUriComponent(s).Some? && StartsLikeEnd(s, REDACTED, n)
    ensures !Contains(EncodeUriComponent(s).value, Doubled(s, n))
  {
    var y := s[..|s| - n];
    var h := InFrontOfOpen(s, n);
    assert Doubled(s, n) == [] + (y + y) + ([OPEN] + h);
    forall i: nat ensures !OccursAt(EncodeUriComponent(s).value, [] + (y + y) + ([OPEN] + h), i) {
      EncodedNotInFront(s, y, h, i);
    }
  }

  /** In none of the three texts. */
  lemma EncodedAbsent(s: Str, text: Str)
    requires EncodeUriComponent(s).Some? && LeakShape(s, REDACTED, text) && EncodeUriComponent(s).value != s
    ensures !Contains(EncodeUriComponent(s).value, text)
  {
    if text == s {
      EncodedLength(s);
      if Contains(EncodeUriComponent(s).value, s) { LongerIsWhole(EncodeUriComponent(s).value, s); }
    } else if n :| EndsLikeStart(s, REDACTED, n) && text == s + s[n..] {
      EncodedAbsentEnd(s, n);
    } else {
      var n :| 0 < n < |s| && StartsLikeEnd(s, REDACTED, n) && text == Doubled(s, n);
      EncodedAbsentStart(s, n);
    }
  }

  lemma QuotedAbsent(s: Str, text: Str)
    requires LeakShape(s, REDACTED, text)
    ensures !Contains(ShellQuoted(s), text)
  {
    if text == s {
      QuotedAbsentBeside(s, 0);
    } else if n :| EndsLikeStart(s, REDACTED, n) && text == s + s[n..] {
      QuotedAbsentBeside(s, n);
    } else {
      var n :| 0 < n < |s| && StartsLikeEnd(s, REDACTED, n) && text == Doubled(s, n);
      QuotedAbsentBeside(s, |s| - n);
    }
  }

  lemma OthersAbsent(s: Str, text: Str)
    requires Accepted(s) && LeakShape(s, REDACTED, text)
    ensures forall i | 0 <= i < |ListOf(s)| - 1 :: !Contains(ListOf(s)[i], text)
  {
    var vs := ListOf(s);
    SecretIsLast(s);
    QuotedAbsent(s, text);
    forall i | 0 <= i < |vs| - 1 ensures !Contains(vs[i], text) {
      ListElements(s, vs[i]);
      assert vs[i] in vs;
      if EncodeUriComponent(s) == Some(vs[i]) { EncodedAbsent(s, text); }
    }
  }

  // ----- One secret, exactly

  /** No text whatever is masked to one in which the secret stands. */
  ghost predicate SafeInBatch(s: Str)
    requires Accepted(s)
  {
    forall text: Str :: !Contains(s, Mask(ListOf(s), REDACTED, text))
  }

  lemma LeakyText(s: Str) returns (text: Str)
    requires Accepted(s) && !LeakFree(s, REDACTED)
    ensures Contains(s, Mask(ListOf(s), REDACTED, text))
  {
    text := LeakingText(s, REDACTED);
    SecretIsLast(s);
    OthersAbsent(s, text);
    ListLeaks(ListOf(s), REDACTED, |ListOf(s)| - 1, text);
  }

  /** The batch masker hides an accepted secret in every text if and only if the secret is leak-free. */
  lemma SafeInBatchExactly(s: Str)
    requires Accepted(s)
    ensures SafeInBatch(s) <==> LeakFree(s, REDACTED)
  {
    if LeakFree(s, REDACTED) {
      forall text: Str ensures !Contains(s, Mask(ListOf(s), REDACTED, text)) { LeakFreeIsSafe(s, text); }
    } else {
      var text := LeakyText(s);
    }
  }
}
