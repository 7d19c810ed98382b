/** When a replacement puts the secret together again (packages/paratix/src/sshHelpers.ts). The guard of
    getSecretVariants, that a secret must not contain the placeholder, leaves three ways: the placeholder
    contains the secret, ends like it begins, or begins like it ends. */
module PlaceholderLeaks {
  import opened Text
  import opened Redaction

  /** `n` units of the placeholder are the start of `v`. */
  predicate EndsLikeStart(v: Str, red: Str, n: int) {
    0 < n < |v| && n < |red| && red[|red| - n..] == v[..n]
  }

  /** `n` units of the placeholder are the end of `v`. */
  predicate StartsLikeEnd(v: Str, red: Str, n: int) {
    0 < n < |v| && n < |red| && red[..n] == v[|v| - n..]
  }

  /** The rest of `v` in front of `v`: the replacement of that occurrence would complete `v`. */
  function Doubled(v: Str, n: nat): Str
    requires n <= |v|
  {
    v[..|v| - n] + v
  }

  /** `v` stands in `text` further left than `at`. */
  predicate OccursBefore(v: Str, text: Str, at: int) {
    exists i | 0 <= i < at :: OccursAt(v, text, i)
  }

  /** The condition on a secret, decidable before it is used: a secret that ends like the placeholder begins
      is harmless only if the pass never gets to that occurrence. */
  predicate LeakFree(v: Str, red: Str) {
    && !Includes(red, v)
    && (forall n | 0 < n < |v| :: !EndsLikeStart(v, red, n))
    && (forall n | 0 < n < |v| :: StartsLikeEnd(v, red, n) ==> OccursBefore(v, Doubled(v, n), |v| - n))
  }

  /** Clash-free secrets are. */
  lemma ClashFreeIsLeakFree(v: Str, red: Str)
    requires ClashFree(v, red)
    ensures LeakFree(v, red)
  {}

  /** What keeps a leak-free secret from being clash-free is an end like the start of the placeholder. */
  lemma ClashWithoutLeak(v: Str, red: Str) returns (n: nat)
    requires v != [] && !Contains(red, v) && LeakFree(v, red) && !ClashFree(v, red)
    ensures StartsLikeEnd(v, red, n)
  {
    n :| 0 < n < |v| && n < |red| && (red[|red| - n..] == v[..n] || red[..n] == v[|v| - n..]);
    assert !EndsLikeStart(v, red, n);
  }

  // ----- Harmless: nothing is put together

  /** The text up to the first occurrence, if there is one. */
  lemma FirstOccurrence(v: Str, text: Str) returns (at: nat)
    requires v != []
    ensures at <= |text|
    ensures at == |text| || OccursAt(v, text, at)
    ensures forall q | 0 <= q < at :: !OccursAt(v, text, q)
  {
    at := 0;
    while at < |text| && !OccursAt(v, text, at)
      invariant at <= |text| && forall q | 0 <= q < at :: !OccursAt(v, text, q)
    {
      at := at + 1;
    }
  }

  /** A pass keeps the text up to the first occurrence and writes the placeholder. */
  lemma PassToFirst(v: Str, red: Str, text: Str, at: nat)
    requires v != [] && OccursAt(v, text, at) && forall q | 0 <= q < at :: !OccursAt(v, text, q)
    ensures text[..at] + red <= ReplaceAll(text, v, red)
  {
    var before, rest := text[..at], text[at..];
    assert before + rest == text;
    PassUnderPrefix(v, red, before, rest);
    assert rest == v + rest[|v|..];
    ReplaceHere(v, rest[|v|..], red);
  }

  /** `v` made of a start that was kept and the start of the placeholder behind it. */
  lemma KeptThenPlaceholder(v: Str, red: Str, text: Str, at: nat, r: Str)
    requires 0 < at < |v| && OccursAt(v, text, at) && text[..at] + red <= r && v <= r
    ensures Contains(red, v)
         || (StartsLikeEnd(v, red, |v| - at) && text[..at + |v|] == Doubled(v, |v| - at))
  {
    var n := |v| - at;
    if n >= |red| {
      assert v[at..at + |red|] == r[at..at + |red|] == (text[..at] + red)[at..];
      assert OccursAt(red, v, at);
    } else {
      assert v[..at] == r[..at] == (text[..at] + red)[..at];
      assert v[at..] == r[at..|v|] == (text[..at] + red)[at..|v|] == red[..n];
      assert text[..at + |v|] == text[..at] + text[at..at + |v|];
    }
  }

  /** If that start was kept in a pass, the occurrence behind it was the first. */
  lemma NotPutTogether(v: Str, red: Str, text: Str, at: nat)
    requires 0 < at < |v| && OccursAt(v, text, at) && forall q | 0 <= q < at :: !OccursAt(v, text, q)
    requires text[..at + |v|] == Doubled(v, |v| - at)
    ensures !OccursBefore(v, Doubled(v, |v| - at), at)
  {
    var head := text[..at + |v|];
    forall q | 0 <= q < at ensures !OccursAt(v, head, q) {
      assert !OccursAt(v, text, q);
      assert head[q..q + |v|] == text[q..q + |v|];
    }
  }

  /** A pass puts nothing together at the start of its result. */
  lemma NotAtStart(v: Str, red: Str, text: Str)
    requires v != [] && red != [] && !Contains(red, v) && LeakFree(v, red) && !(v <= text)
    ensures !(v <= ReplaceAll(text, v, red))
  {
    var r := ReplaceAll(text, v, red);
    var at := FirstOccurrence(v, text);
    if at == |text| {
      forall q ensures !OccursAt(v, text, q) {}
      AbsentUnchanged(v, red, text);
    } else {
      assert text[at..at + |v|] == v;
      PassToFirst(v, red, text, at);
      if at < |v| && v <= r {
        KeptThenPlaceholder(v, red, text, at, r);
        NotPutTogether(v, red, text, at);
      }
      if |v| <= at { assert r[..|v|] == (text[..at] + red)[..|v|] == text[..|v|]; }
    }
  }

  /** What begins inside a placeholder lies inside it, or ends behind it. */
  lemma FromPlaceholder(v: Str, red: Str, rest: Str, i: nat)
    requires v != [] && i < |red| && OccursAt(v, red + rest, i)
    ensures Contains(v, red) || Contains(red, v) || EndsLikeStart(v, red, |red| - i)
  {
    var t, n := red + rest, |red| - i;
    if |v| <= n {
      assert red[i..i + |v|] == t[i..i + |v|];
      assert OccursAt(v, red, i);
    } else if i == 0 {
      assert v[0..|red|] == t[0..|red|] == red;
      assert OccursAt(red, v, 0);
    } else {
      assert red[i..] == t[i..|red|] == v[..n];
    }
  }

  lemma {:induction false} NotPut(v: Str, red: Str, text: Str, i: nat)
    requires v != [] && red != [] && !Contains(red, v) && LeakFree(v, red)
    ensures !OccursAt(v, ReplaceAll(text, v, red), i)
    decreases |text|
  {
    if text == [] {
    } else if v <= text {
      var rest := ReplaceAll(text[|v|..], v, red);
      if i >= |red| {
        NotPut(v, red, text[|v|..], i - |red|);
        OccursBehind(v, red, rest, i);
      } else if OccursAt(v, red + rest, i) {
        FromPlaceholder(v, red, rest, i);
      }
    } else if i > 0 {
      NotPut(v, red, text[1..], i - 1);
      OccursBehind(v, [text[0]], ReplaceAll(text[1..], v, red), i);
    } else {
      NotAtStart(v, red, text);
    }
  }

  /** A leak-free secret is gone after a pass, whatever the text. */
  lemma PassIsClean(v: Str, red: Str, text: Str)
    requires v != [] && red != [] && !Contains(red, v) && LeakFree(v, red)
    ensures !Contains(v, ReplaceAll(text, v, red))
  {
    forall i ensures !OccursAt(v, ReplaceAll(text, v, red), i) {
      if i >= 0 { NotPut(v, red, text, i); }
    }
  }

  lemma OccursBehind(v: Str, before: Str, text: Str, i: nat)
    requires |before| <= i
    ensures OccursAt(v, before + text, i) <==> OccursAt(v, text, i - |before|)
  {
    assert before + text + [] == before + text;
    if i + |v| <= |before| + |text| { OccursInMiddle(v, before, text, [], i); }
  }

  // ----- Harmful: three texts

  /** The pass for `v` leaves `v` in the text. */
  ghost predicate Leaks(v: Str, red: Str, text: Str)
    requires v != []
  {
    Contains(v, ReplaceAll(text, v, red))
  }

  lemma InPlaceholderLeaks(v: Str, red: Str)
    requires v != [] && Contains(v, red)
    ensures Leaks(v, red, v)
  {
    assert v + [] == v && red + [] == red;
    ReplaceHere(v, [], red);
  }

  lemma EndCompletes(v: Str, red: Str, n: nat)
    requires EndsLikeStart(v, red, n)
    ensures Contains(v, red + v[n..])
  {
    var k := |red| - n;
    assert red == red[..k] + red[k..] && v == v[..n] + v[n..];
    assert red + v[n..] == red[..k] + v;
    assert (red[..k] + v)[k..k + |v|] == v;
    assert OccursAt(v, red + v[n..], k);
  }

  lemma PlaceholderEndLeaks(v: Str, red: Str, n: nat)
    requires EndsLikeStart(v, red, n)
    ensures Leaks(v, red, v + v[n..])
  {
    ReplaceHere(v, v[n..], red);
    ShortUnchanged(v, red, v[n..]);
    EndCompletes(v, red, n);
  }

  lemma PlaceholderStartLeaks(v: Str, red: Str, n: nat)
    requires StartsLikeEnd(v, red, n) && !OccursBefore(v, Doubled(v, n), |v| - n)
    ensures Leaks(v, red, Doubled(v, n))
  {
    var before := v[..|v| - n];
    PassUnderPrefix(v, red, before, v);
    assert v + [] == v && red + [] == red;
    ReplaceHere(v, [], red);
    assert (before + red)[0..|v|] == before + v[|v| - n..] == v;
    assert OccursAt(v, before + red, 0);
  }

  /** The three texts. */
  ghost predicate LeakShape(v: Str, red: Str, text: Str) {
    || text == v
    || (exists n :: EndsLikeStart(v, red, n) && text == v + v[n..])
    || (exists n | 0 < n < |v| :: StartsLikeEnd(v, red, n) && text == Doubled(v, n))
  }

  lemma LeakingText(v: Str, red: Str) returns (text: Str)
    requires v != [] && !LeakFree(v, red)
    ensures Leaks(v, red, text) && LeakShape(v, red, text)
  {
    if Contains(v, red) {
      text := v;
      InPlaceholderLeaks(v, red);
    } else if n :| EndsLikeStart(v, red, n) {
      text := v + v[n..];
      PlaceholderEndLeaks(v, red, n);
    } else {
      var n :| 0 < n < |v| && StartsLikeEnd(v, red, n) && !OccursBefore(v, Doubled(v, n), |v| - n);
      text := Doubled(v, n);
      PlaceholderStartLeaks(v, red, n);
    }
  }

  /** Replacing a secret that does not contain the placeholder leaves the secret in no text, if and only if
      it is leak-free. */
  lemma RedactsExactly(v: Str, red: Str)
    requires v != [] && red != [] && !Contains(red, v)
    ensures (forall text: Str :: !Leaks(v, red, text)) <==> LeakFree(v, red)
  {
    if LeakFree(v, red) {
      forall text: Str ensures !Leaks(v, red, text) { PassIsClean(v, red, text); }
    } else {
      var text := LeakingText(v, red);
    }
  }
}
