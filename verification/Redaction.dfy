/** Secret redaction in command output (packages/paratix/src/sshHelpers.ts): the batch masker, which
    replaces the variants one after the other over a whole text, and the theory that relates it to
    a masker that sees the text one code unit at a time. */
module Redaction {
  import opened Text

  /** JavaScript strings are sequences of UTF-16 code units. */
  newtype CodeUnit = u: int | 0 <= u < 0x1_0000
  type Str = seq<CodeUnit>

  predicate IsHigh(u: CodeUnit) { 0xD800 <= u < 0xDC00 }

  predicate IsLow(u: CodeUnit) { 0xDC00 <= u < 0xE000 }

  predicate StartsWithPair(text: Str) {
    |text| >= 2 && IsHigh(text[0]) && IsLow(text[1])
  }

  /** Code units of the first character, as JavaScript's string iterator delivers it. */
  function CharUnits(text: Str): (n: nat)
    requires text != []
    ensures 1 <= n <= |text|
  {
    if StartsWithPair(text) then 2 else 1
  }

  /** A surrogate pair begins in the one text and ends in the other. */
  predicate SplitsPair(before: Str, after: Str) {
    before != [] && after != [] && IsHigh(before[|before| - 1]) && IsLow(after[0])
  }

  /** "[REDACTED]" */
  const REDACTED: Str := [0x5B, 0x52, 0x45, 0x44, 0x41, 0x43, 0x54, 0x45, 0x44, 0x5D]

  predicate NoneEmpty(variants: seq<Str>) {
    forall i | 0 <= i < |variants| :: variants[i] != []
  }

  /** The batch masker: every variant in turn, over the result of the previous ones. */
  function Mask(variants: seq<Str>, red: Str, text: Str): Str
    requires NoneEmpty(variants)
  {
    if variants == [] then text
    else Mask(variants[1..], red, ReplaceAll(text, variants[0], red))
  }

  method MaskText(variants: seq<Str>, text: Str) returns (masked: Str)
    requires NoneEmpty(variants)
    ensures masked == Mask(variants, REDACTED, text)
  {
    masked := text;
    for i := 0 to |variants|
      invariant Mask(variants[i..], REDACTED, masked) == Mask(variants, REDACTED, text)
    {
      assert variants[i..][0] == variants[i] && variants[i..][1..] == variants[i + 1..];
      masked := ReplaceAll(masked, variants[i], REDACTED);
    }
  }

  /** No occurrence of `v` can share a code unit with an inserted placeholder: neither contains the
      other, and no proper prefix of one is a suffix of the other. Weaker than "no common character". */
  ghost predicate ClashFree(v: Str, red: Str) {
    && v != []
    && !Contains(v, red)
    && !Contains(red, v)
    && (forall n | 0 < n < |v| && n < |red| :: red[|red| - n..] != v[..n] && red[..n] != v[|v| - n..])
  }

  ghost predicate AllClashFree(variants: seq<Str>, red: Str) {
    forall i | 0 <= i < |variants| :: ClashFree(variants[i], red)
  }

  /** `w` cannot be completed while an overlapping `u` is still incomplete. */
  ghost predicate NoPreempt(u: Str, w: Str) {
    forall j | 0 < j < |u| :: !IsSuffix(w, u[..j]) && !IsSuffix(u[..j], w)
  }

  ghost predicate NoPreemption(variants: seq<Str>) {
    forall i, j | 0 <= i < j < |variants| :: NoPreempt(variants[i], variants[j])
  }

  lemma OverlapClashes(v: Str, red: Str, a: Str, b: Str, i: int)
    requires v != [] && OccursAt(v, a + red + b, i)
    requires i < |a| + |red| && |a| < i + |v|
    ensures !ClashFree(v, red)
  {
    var t := a + red + b;
    if |a| <= i && i + |v| <= |a| + |red| {
      OccursInMiddle(v, a, red, b, i);
    } else if i <= |a| && |a| + |red| <= i + |v| {
      assert v[|a| - i..|a| - i + |red|] == t[|a|..|a| + |red|] == red;
      assert OccursAt(red, v, |a| - i);
    } else if i < |a| {
      var n := i + |v| - |a|;
      assert red[..n] == t[|a|..|a| + n] == v[|v| - n..];
    } else {
      var n := |a| + |red| - i;
      assert red[|red| - n..] == t[i..|a| + |red|] == v[..n];
    }
  }

  lemma Apart(v: Str, red: Str, a: Str, b: Str, i: int)
    requires ClashFree(v, red) && OccursAt(v, a + red + b, i)
    ensures i + |v| <= |a| || |a| + |red| <= i
  {
    if i < |a| + |red| && |a| < i + |v| { OverlapClashes(v, red, a, b, i); }
  }

  /** A text that ends in a placeholder does not end in a variant, nor in the start of one. */
  lemma NoSuffixAtPlaceholder(v: Str, red: Str, s: Str, n: nat)
    requires ClashFree(v, red) && red != [] && 0 < n <= |v|
    ensures !IsSuffix(v[..n], s + red)
  {
    if IsSuffix(v[..n], s + red) {
      var t, at := s + red + v[n..], |s| + |red| - n;
      assert t[at..at + |v|] == (s + red)[at..] + v[n..] == v;
      OverlapClashes(v, red, s, v[n..], at);
    }
  }

  // ----- One code unit at a time

  /** The first variant that the text ends in is replaced. */
  function Complete(variants: seq<Str>, red: Str, s: Str): Str {
    if variants == [] then s
    else if IsSuffix(variants[0], s) then s[..|s| - |variants[0]|] + red
    else Complete(variants[1..], red, s)
  }

  /** The unit-by-unit masker, the reference the other two maskers are compared with: it looks only
      at what it has written so far and the next unit. */
  function Online(variants: seq<Str>, red: Str, masked: Str, text: Str): Str
    decreases |text|
  {
    if text == [] then masked
    else Online(variants, red, Complete(variants, red, masked + [text[0]]), text[1..])
  }

  function CompleteOne(v: Str, red: Str, s: Str): Str {
    if IsSuffix(v, s) then s[..|s| - |v|] + red else s
  }

  lemma CompleteUnderPrefix(v: Str, red: Str, before: Str, s: Str)
    requires IsSuffix(v, before + s) <==> IsSuffix(v, s)
    ensures CompleteOne(v, red, before + s) == before + CompleteOne(v, red, s)
  {
    if IsSuffix(v, s) {
      assert (before + s)[..|before| + |s| - |v|] == before + s[..|s| - |v|];
    }
  }

  /** The next unit can only complete a variant inside the text that is left unreplaced. */
  lemma CompletesRawText(v: Str, red: Str, first: CodeUnit, text: Str, c: CodeUnit)
    requires ClashFree(v, red)
    requires v == [first] + ReplaceAll(text, v, red) + [c]
    ensures v == [first] + text + [c]
  {
    var s := ReplaceAll(text, v, red);
    ReplaceAllUnchanged(text, v, red);
    forall i | OccursAt(red, s, i) ensures OccursAt(red, v, i + 1) {
      assert v[i + 1..i + 1 + |red|] == s[i..i + |red|];
    }
  }

  lemma CompleteAfterPlaceholder(v: Str, red: Str, s: Str, c: CodeUnit)
    requires ClashFree(v, red) && red != []
    ensures CompleteOne(v, red, red + s + [c]) == red + CompleteOne(v, red, s + [c])
  {
    SuffixPastPlaceholder(v, red, s, c);
    assert red + s + [c] == red + (s + [c]);
    CompleteUnderPrefix(v, red, red, s + [c]);
  }

  lemma CompleteAfterUnit(v: Str, red: Str, first: CodeUnit, text: Str, c: CodeUnit)
    requires ClashFree(v, red) && v != [first] + text + [c]
    ensures var s := ReplaceAll(text, v, red);
            CompleteOne(v, red, [first] + s + [c]) == [first] + CompleteOne(v, red, s + [c])
  {
    var s := ReplaceAll(text, v, red);
    assert [first] + s + [c] == [first] + (s + [c]);
    if v == [first] + s + [c] { CompletesRawText(v, red, first, text, c); }
    SuffixCons(v, first, s + [c]);
    CompleteUnderPrefix(v, red, [first], s + [c]);
  }

  lemma {:induction false} ReplaceAllSnoc(v: Str, red: Str, text: Str, c: CodeUnit)
    requires ClashFree(v, red) && red != []
    ensures ReplaceAll(text + [c], v, red) == CompleteOne(v, red, ReplaceAll(text, v, red) + [c])
    decreases |text|
  {
    var t := text + [c];
    if text == [] {
      ReplaceAllSingle(v, red, c);
    } else if v <= text {
      assert t[|v|..] == text[|v|..] + [c];
      ReplaceAllSnoc(v, red, text[|v|..], c);
      CompleteAfterPlaceholder(v, red, ReplaceAll(text[|v|..], v, red), c);
    } else if v == t {
      assert t[|v|..] == [];
      ShortUnchanged(v, red, text);
    } else {
      assert !(v <= t);
      assert t[1..] == text[1..] + [c] && t == [text[0]] + text[1..] + [c];
      ReplaceAllSnoc(v, red, text[1..], c);
      CompleteAfterUnit(v, red, text[0], text[1..], c);
    }
  }

  lemma SuffixCons(v: Str, first: CodeUnit, s: Str)
    ensures IsSuffix(v, [first] + s) <==> IsSuffix(v, s) || v == [first] + s
  {
    if |v| <= |s| { assert ([first] + s)[|s| + 1 - |v|..] == s[|s| - |v|..]; }
  }

  lemma ReplaceAllSingle(v: Str, red: Str, c: CodeUnit)
    requires v != []
    ensures ReplaceAll([] + [c], v, red) == CompleteOne(v, red, [] + [c])
  {
    var t := [] + [c];
    if v <= t {
      assert v == t && t[|v|..] == [];
    } else {
      assert t[1..] == [];
    }
  }

  lemma SuffixPastPlaceholder(v: Str, red: Str, s: Str, c: CodeUnit)
    requires ClashFree(v, red) && red != []
    ensures IsSuffix(v, red + s + [c]) <==> IsSuffix(v, s + [c])
  {
    var t := red + s + [c];
    if IsSuffix(v, t) {
      var at := |t| - |v|;
      assert [] + red + (s + [c]) == t;
      assert OccursAt(v, t, at);
      Apart(v, red, [], s + [c], at);
      assert (s + [c])[at - |red|..] == t[at..];
    }
    if IsSuffix(v, s + [c]) {
      assert t[|t| - |v|..] == (s + [c])[|s| + 1 - |v|..];
    }
  }

  lemma {:induction false} ShortUnchanged(v: Str, red: Str, text: Str)
    requires v != [] && |text| < |v|
    ensures ReplaceAll(text, v, red) == text
  {
    if text != [] { ShortUnchanged(v, red, text[1..]); }
  }

  // ----- What one pass does to the end of a text, and to the other variants

  lemma {:induction false} AbsentUnchanged(v: Str, red: Str, text: Str)
    requires v != [] && !Contains(v, text)
    ensures ReplaceAll(text, v, red) == text
    decreases |text|
  {
    if text != [] {
      assert !(v <= text) by { if v <= text { assert OccursAt(v, text, 0); } }
      forall i | OccursAt(v, text[1..], i) ensures OccursAt(v, text, i + 1) {
        assert text[i + 1..i + 1 + |v|] == text[1..][i..i + |v|];
      }
      AbsentUnchanged(v, red, text[1..]);
    }
  }

  /** A text in front of which nothing can be completed is passed over. */
  lemma {:induction false} PassUnderPrefix(v: Str, red: Str, before: Str, text: Str)
    requires v != [] && forall i | 0 <= i < |before| :: !OccursAt(v, before + text, i)
    ensures ReplaceAll(before + text, v, red) == before + ReplaceAll(text, v, red)
    decreases |before|
  {
    var t := before + text;
    if before == [] {
      assert t == text;
    } else {
      assert !OccursAt(v, t, 0);
      assert !(v <= t);
      assert t[1..] == before[1..] + text;
      forall i | 0 <= i < |before| - 1 ensures !OccursAt(v, before[1..] + text, i) {
        assert !OccursAt(v, t, i + 1);
        if i + |v| <= |t| - 1 { assert t[i + 1..i + 1 + |v|] == t[1..][i..i + |v|]; }
      }
      PassUnderPrefix(v, red, before[1..], text);
    }
  }

  lemma PassBehindPlaceholder(v: Str, red: Str, after: Str)
    requires ClashFree(v, red)
    ensures ReplaceAll(red + after, v, red) == red + ReplaceAll(after, v, red)
  {
    assert red + after == [] + red + after;
    forall i | 0 <= i < |red| ensures !OccursAt(v, red + after, i) {
      if OccursAt(v, red + after, i) { Apart(v, red, [], after, i); }
    }
    PassUnderPrefix(v, red, red, after);
  }

  lemma StartsBefore(v: Str, red: Str, before: Str, rest: Str)
    requires ClashFree(v, red) && red <= rest && before != []
    ensures v <= before + rest <==> v <= before
  {
    if v <= before + rest {
      assert before + rest == before + red + rest[|red|..];
      assert OccursAt(v, before + red + rest[|red|..], 0);
      Apart(v, red, before, rest[|red|..], 0);
    }
  }

  lemma {:induction false} PassBefore(v: Str, red: Str, before: Str, rest: Str)
    requires ClashFree(v, red) && red <= rest
    ensures ReplaceAll(before + rest, v, red) == ReplaceAll(before, v, red) + ReplaceAll(rest, v, red)
    decreases |before|
  {
    if before == [] {
      assert before + rest == rest;
    } else {
      StartsBefore(v, red, before, rest);
      if v <= before {
        assert (before + rest)[|v|..] == before[|v|..] + rest;
        PassBefore(v, red, before[|v|..], rest);
      } else {
        assert (before + rest)[1..] == before[1..] + rest;
        PassBefore(v, red, before[1..], rest);
      }
    }
  }

  /** A placeholder splits the text: a pass treats both sides on their own. */
  lemma PassAround(v: Str, red: Str, before: Str, after: Str)
    requires ClashFree(v, red)
    ensures ReplaceAll(before + red + after, v, red) == ReplaceAll(before, v, red) + red + ReplaceAll(after, v, red)
  {
    assert before + red + after == before + (red + after);
    PassBefore(v, red, before, red + after);
    PassBehindPlaceholder(v, red, after);
  }

  lemma {:induction false} MaskAround(variants: seq<Str>, red: Str, before: Str, after: Str)
    requires AllClashFree(variants, red)
    ensures Mask(variants, red, before + red + after) == Mask(variants, red, before) + red + Mask(variants, red, after)
  {
    if variants != [] {
      var v := variants[0];
      PassAround(v, red, before, after);
      MaskAround(variants[1..], red, ReplaceAll(before, v, red), ReplaceAll(after, v, red));
    }
  }

  lemma {:induction false} MaskBehindPlaceholder(variants: seq<Str>, red: Str, after: Str)
    requires AllClashFree(variants, red)
    ensures Mask(variants, red, red + after) == red + Mask(variants, red, after)
  {
    if variants != [] {
      PassBehindPlaceholder(variants[0], red, after);
      MaskBehindPlaceholder(variants[1..], red, ReplaceAll(after, variants[0], red));
    }
  }

  lemma {:induction false} MaskOfEmpty(variants: seq<Str>, red: Str)
    requires NoneEmpty(variants)
    ensures Mask(variants, red, []) == []
  {
    if variants != [] { MaskOfEmpty(variants[1..], red); }
  }

  lemma NotCompletedInside(w: Str, before: Str, u: Str, m: nat)
    requires 0 < m < |u| && NoPreempt(u, w)
    ensures !IsSuffix(w, before + u[..m])
  {
    SuffixComparable(w, before, u[..m]);
  }

  lemma {:induction false} PassOverIncomplete(w: Str, red: Str, text: Str, u: Str, m: nat)
    requires ClashFree(w, red) && red != [] && m < |u| && NoPreempt(u, w)
    ensures ReplaceAll(text + u[..m], w, red) == ReplaceAll(text, w, red) + u[..m]
  {
    if m == 0 {
      assert text + u[..0] == text;
    } else {
      PassOverIncomplete(w, red, text, u, m - 1);
      var s := ReplaceAll(text, w, red);
      var before, c := u[..m - 1], u[m - 1];
      assert text + u[..m] == (text + before) + [c];
      assert s + u[..m] == (s + before) + [c];
      ReplaceAllSnoc(w, red, text + before, c);
      NotCompletedInside(w, s, u, m);
    }
  }

  lemma SuffixComparable(w: Str, before: Str, x: Str)
    ensures IsSuffix(w, before + x) ==> IsSuffix(w, x) || IsSuffix(x, w)
  {
    var t := before + x;
    if IsSuffix(w, t) {
      if |w| <= |x| { assert x[|x| - |w|..] == t[|t| - |w|..]; }
      else { assert w[|w| - |x|..] == t[|t| - |x|..]; }
    }
  }

  lemma {:induction false} MaskOverIncomplete(variants: seq<Str>, red: Str, text: Str, u: Str, m: nat)
    requires AllClashFree(variants, red) && red != [] && m < |u|
    requires forall i | 0 <= i < |variants| :: NoPreempt(u, variants[i])
    ensures Mask(variants, red, text + u[..m]) == Mask(variants, red, text) + u[..m]
  {
    if variants != [] {
      PassOverIncomplete(variants[0], red, text, u, m);
      MaskOverIncomplete(variants[1..], red, ReplaceAll(text, variants[0], red), u, m);
    }
  }

  lemma TailOfCompleted(v: Str, n: nat, w: Str, red: Str, r: Str, c: CodeUnit)
    requires ClashFree(v, red) && red != [] && w != [] && 0 < n <= |v|
    requires IsSuffix(v[..n], CompleteOne(w, red, r + [c]))
    ensures v[n - 1] == c && IsSuffix(v[..n - 1], r)
  {
    if IsSuffix(w, r + [c]) {
      NoSuffixAtPlaceholder(v, red, (r + [c])[..|r| + 1 - |w|], n);
    } else {
      SuffixInit(v[..n], r, c);
      assert v[..n][..n - 1] == v[..n - 1];
    }
  }

  lemma TailWithUnit(v: Str, n: nat, s: Str, c: CodeUnit)
    requires 0 < n <= |v| && v[n - 1] == c && IsSuffix(v[..n - 1], s)
    ensures IsSuffix(v[..n], s + [c])
  {
    SuffixInit(v[..n], s, c);
    assert v[..n][..n - 1] == v[..n - 1];
  }

  /** What stands at the end of the text after a pass, if it can belong to a variant, stood there before. */
  lemma {:induction false} TailBeforePass(v: Str, n: nat, w: Str, red: Str, text: Str)
    requires ClashFree(v, red) && ClashFree(w, red) && red != [] && n <= |v|
    requires IsSuffix(v[..n], ReplaceAll(text, w, red))
    ensures IsSuffix(v[..n], text)
    decreases |text|
  {
    if n > 0 && text != [] {
      var init, c := text[..|text| - 1], text[|text| - 1];
      assert text == init + [c];
      ReplaceAllSnoc(w, red, init, c);
      TailOfCompleted(v, n, w, red, ReplaceAll(init, w, red), c);
      TailBeforePass(v, n - 1, w, red, init);
      TailWithUnit(v, n, init, c);
    }
  }

  /** A nonempty suffix ends in the last unit. */
  lemma SuffixInit(x: Str, s: Str, c: CodeUnit)
    requires x != []
    ensures IsSuffix(x, s + [c]) <==> x[|x| - 1] == c && IsSuffix(x[..|x| - 1], s)
  {
    var k := |x| - 1;
    if IsSuffix(x, s + [c]) {
      assert x[..k] == (s + [c])[|s| - k..|s|] == s[|s| - k..];
    }
    if x[k] == c && IsSuffix(x[..k], s) {
      assert (s + [c])[|s| - k..] == s[|s| - k..] + [c] == x[..k] + [c] == x;
    }
  }

  lemma {:induction false} TailBeforeMask(v: Str, n: nat, variants: seq<Str>, red: Str, text: Str)
    requires ClashFree(v, red) && AllClashFree(variants, red) && red != [] && n <= |v|
    requires IsSuffix(v[..n], Mask(variants, red, text))
    ensures IsSuffix(v[..n], text)
  {
    if variants != [] {
      TailBeforeMask(v, n, variants[1..], red, ReplaceAll(text, variants[0], red));
      TailBeforePass(v, n, variants[0], red, text);
    }
  }

  // ----- Batch masking is online masking

  lemma CompletedShape(u: Str, red: Str, q: Str, c: CodeUnit)
    requires u != [] && c == u[|u| - 1]
    ensures IsSuffix(u, q + u[..|u| - 1] + [c])
    ensures CompleteOne(u, red, q + u[..|u| - 1] + [c]) == q + red
  {
    assert u == u[..|u| - 1] + [c];
    assert q + u[..|u| - 1] + [c] == q + u;
    assert (q + u)[|q|..] == u && (q + u)[..|q|] == q;
  }

  /** The next unit completes the first variant: the others have not touched it. */
  lemma FirstVariantCompleted(u: Str, rest: seq<Str>, red: Str, a: Str, c: CodeUnit)
    requires ClashFree(u, red) && AllClashFree(rest, red) && red != []
    requires forall i | 0 <= i < |rest| :: NoPreempt(u, rest[i])
    requires IsSuffix(u, a + [c])
    ensures IsSuffix(u, Mask(rest, red, a) + [c])
    ensures Mask(rest, red, CompleteOne(u, red, a + [c])) == CompleteOne(u, red, Mask(rest, red, a) + [c])
  {
    var m := |u| - 1;
    var q := a[..|a| - m];
    SuffixInit(u, a, c);
    assert a == q + u[..m];
    MaskOverIncomplete(rest, red, q, u, m);
    MaskAround(rest, red, q, []);
    MaskOfEmpty(rest, red);
    assert q + red + [] == q + red;
    CompletedShape(u, red, q, c);
    CompletedShape(u, red, Mask(rest, red, q), c);
  }

  lemma FirstVariantNotCompleted(u: Str, rest: seq<Str>, red: Str, a: Str, c: CodeUnit)
    requires ClashFree(u, red) && AllClashFree(rest, red) && red != []
    requires IsSuffix(u, Mask(rest, red, a) + [c])
    ensures IsSuffix(u, a + [c])
  {
    SuffixInit(u, Mask(rest, red, a), c);
    TailBeforeMask(u, |u| - 1, rest, red, a);
    SuffixInit(u, a, c);
  }

  lemma {:induction false} MaskSnoc(variants: seq<Str>, red: Str, text: Str, c: CodeUnit)
    requires AllClashFree(variants, red) && NoPreemption(variants) && red != []
    ensures Mask(variants, red, text + [c]) == Complete(variants, red, Mask(variants, red, text) + [c])
  {
    if variants != [] {
      var u, rest := variants[0], variants[1..];
      var a := ReplaceAll(text, u, red);
      ReplaceAllSnoc(u, red, text, c);
      if IsSuffix(u, a + [c]) {
        FirstVariantCompleted(u, rest, red, a, c);
      } else {
        MaskSnoc(rest, red, a, c);
        if IsSuffix(u, Mask(rest, red, a) + [c]) { FirstVariantNotCompleted(u, rest, red, a, c); }
      }
    }
  }

  // ----- Three laws of a list of variants, each implied by the one before

  /** One more unit can only complete a variant at the end of what is masked already. */
  ghost predicate UnitByUnit(variants: seq<Str>, red: Str)
    requires NoneEmpty(variants)
  {
    forall text: Str, c: CodeUnit ::
      Mask(variants, red, text + [c]) == Complete(variants, red, Mask(variants, red, text) + [c])
  }

  /** Masking a whole text at once and masking it unit by unit agree, from any point on. */
  ghost predicate ContinuesOnline(variants: seq<Str>, red: Str)
    requires NoneEmpty(variants)
  {
    forall text: Str, more: Str ::
      Mask(variants, red, text + more) == Online(variants, red, Mask(variants, red, text), more)
  }

  /** Masking a prefix beforehand does not change the result. */
  ghost predicate Absorbs(variants: seq<Str>, red: Str)
    requires NoneEmpty(variants)
  {
    forall text: Str, more: Str ::
      Mask(variants, red, Mask(variants, red, text) + more) == Mask(variants, red, text + more)
  }

  lemma {:induction false} MaskContinuesOnline(variants: seq<Str>, red: Str, text: Str, more: Str)
    requires NoneEmpty(variants) && UnitByUnit(variants, red)
    ensures Mask(variants, red, text + more) == Online(variants, red, Mask(variants, red, text), more)
    decreases |more|
  {
    if more == [] {
      assert text + more == text;
    } else {
      assert text + more == (text + [more[0]]) + more[1..];
      MaskContinuesOnline(variants, red, text + [more[0]], more[1..]);
    }
  }

  // ----- Nothing secret is left

  lemma ContainsSnoc(v: Str, s: Str, c: CodeUnit)
    requires Contains(v, s + [c])
    ensures Contains(v, s) || IsSuffix(v, s + [c])
  {
    var i :| OccursAt(v, s + [c], i);
    if i + |v| <= |s| { assert OccursAt(v, s, i) by { assert (s + [c])[i..i + |v|] == s[i..i + |v|]; } }
  }

  lemma ContainsPrefix(v: Str, s: Str, n: nat)
    requires n <= |s| && Contains(v, s[..n])
    ensures Contains(v, s)
  {
    var i :| OccursAt(v, s[..n], i);
    assert s[i..i + |v|] == s[..n][i..i + |v|];
    assert OccursAt(v, s, i);
  }

  lemma ContainsBeforePlaceholder(v: Str, red: Str, s: Str)
    requires ClashFree(v, red) && Contains(v, s + red)
    ensures Contains(v, s)
  {
    var i :| OccursAt(v, s + red, i);
    assert s + red == s + red + [];
    Apart(v, red, s, [], i);
    assert OccursAt(v, s, i) by { assert (s + red)[i..i + |v|] == s[i..i + |v|]; }
  }

  lemma ContainsMore(v: Str, s: Str, c: CodeUnit)
    requires Contains(v, s)
    ensures Contains(v, s + [c])
  {
    assert (s + [c])[..|s|] == s;
    ContainsPrefix(v, s + [c], |s|);
  }

  /** A variant in the text after the next unit was there before, or ends in that unit. */
  lemma ContainsCompleted(v: Str, w: Str, red: Str, r: Str, c: CodeUnit)
    requires ClashFree(v, red) && red != [] && w != []
    requires Contains(v, CompleteOne(w, red, r + [c]))
    ensures Contains(v, r) || (!IsSuffix(w, r + [c]) && IsSuffix(v, r + [c]))
  {
    if IsSuffix(w, r + [c]) {
      var n := |r| + 1 - |w|;
      assert (r + [c])[..n] == r[..n];
      ContainsBeforePlaceholder(v, red, r[..n]);
      ContainsPrefix(v, r, n);
    } else {
      ContainsSnoc(v, r, c);
    }
  }

  lemma SuffixBeforePass(v: Str, w: Str, red: Str, text: Str)
    requires ClashFree(v, red) && ClashFree(w, red) && red != [] && IsSuffix(v, ReplaceAll(text, w, red))
    ensures Contains(v, text)
  {
    assert v[..|v|] == v;
    TailBeforePass(v, |v|, w, red, text);
    assert OccursAt(v, text, |text| - |v|);
  }

  /** After a pass for `w`, a variant that is there was there before; and `w` itself is gone. */
  lemma {:induction false} PassCreatesNothing(v: Str, w: Str, red: Str, text: Str)
    requires ClashFree(v, red) && ClashFree(w, red) && red != []
    requires Contains(v, ReplaceAll(text, w, red))
    ensures Contains(v, text) && v != w
    decreases |text|
  {
    if text != [] {
      var init, c := text[..|text| - 1], text[|text| - 1];
      assert text == init + [c];
      ReplaceAllSnoc(w, red, init, c);
      var r := ReplaceAll(init, w, red);
      ContainsCompleted(v, w, red, r, c);
      if Contains(v, r) {
        PassCreatesNothing(v, w, red, init);
        ContainsMore(v, init, c);
      } else {
        SuffixBeforePass(v, w, red, text);
      }
    }
  }

  lemma {:induction false} MaskCreatesNothing(v: Str, variants: seq<Str>, red: Str, text: Str)
    requires ClashFree(v, red) && AllClashFree(variants, red) && red != []
    requires Contains(v, Mask(variants, red, text))
    ensures Contains(v, text) && v !in variants
  {
    if variants != [] {
      MaskCreatesNothing(v, variants[1..], red, ReplaceAll(text, variants[0], red));
      PassCreatesNothing(v, variants[0], red, text);
    }
  }

  /** The masked text contains no variant. */
  lemma MaskIsClean(variants: seq<Str>, red: Str, text: Str, v: Str)
    requires AllClashFree(variants, red) && red != [] && v in variants
    ensures !Contains(v, Mask(variants, red, text))
  {
    if Contains(v, Mask(variants, red, text)) { MaskCreatesNothing(v, variants, red, text); }
  }

  lemma {:induction false} MaskOfClean(variants: seq<Str>, red: Str, text: Str)
    requires NoneEmpty(variants) && forall i | 0 <= i < |variants| :: !Contains(variants[i], text)
    ensures Mask(variants, red, text) == text
  {
    if variants != [] {
      AbsentUnchanged(variants[0], red, text);
      MaskOfClean(variants[1..], red, text);
    }
  }

  /** The list takes effect at the first variant that occurs. */
  lemma {:induction false} MaskFrom(variants: seq<Str>, red: Str, i: nat, text: Str)
    requires NoneEmpty(variants) && i <= |variants|
    requires forall k | 0 <= k < i :: !Contains(variants[k], text)
    ensures Mask(variants, red, text) == Mask(variants[i..], red, text)
  {
    if i > 0 {
      AbsentUnchanged(variants[0], red, text);
      MaskFrom(variants[1..], red, i - 1, text);
      assert variants[1..][i - 1..] == variants[i..];
    } else {
      assert variants[0..] == variants;
    }
  }

  /** Masking twice is masking once. */
  lemma MaskTwice(variants: seq<Str>, red: Str, text: Str)
    requires AllClashFree(variants, red) && red != []
    ensures Mask(variants, red, Mask(variants, red, text)) == Mask(variants, red, text)
  {
    forall i | 0 <= i < |variants| ensures !Contains(variants[i], Mask(variants, red, text)) {
      MaskIsClean(variants, red, text, variants[i]);
    }
    MaskOfClean(variants, red, Mask(variants, red, text));
  }

  lemma MaskAbsorbs(variants: seq<Str>, red: Str, text: Str, more: Str)
    requires AllClashFree(variants, red) && red != [] && ContinuesOnline(variants, red)
    ensures Mask(variants, red, Mask(variants, red, text) + more) == Mask(variants, red, text + more)
  {
    var m := Mask(variants, red, text);
    MaskTwice(variants, red, text);
    assert Mask(variants, red, m + more) == Online(variants, red, Mask(variants, red, m), more);
  }
}
