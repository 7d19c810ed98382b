/** The laws of a list of secret variants (packages/paratix/src/sshHelpers.ts) hold exactly when no
    variant can be completed while an overlapping earlier one is still incomplete. */
module Preemption {
  import opened Text
  import opened Redaction

  ghost predicate Distinct(variants: seq<Str>) {
    forall i, j | 0 <= i < j < |variants| :: variants[i] != variants[j]
  }

  /** The order in which the masker receives them. */
  ghost predicate LongestFirst(variants: seq<Str>) {
    forall i, j | 0 <= i < j < |variants| :: |variants[i]| >= |variants[j]|
  }

  /** What the masker receives: no duplicates, longer variants before shorter ones. */
  ghost predicate Ordered(variants: seq<Str>) {
    Distinct(variants) && LongestFirst(variants)
  }

  /** Only the first unit of the placeholder can start a placeholder inside another text's. */
  ghost predicate OneStart(red: Str) {
    red != [] && forall k | 0 < k < |red| :: red[k] != red[0]
  }

  /** `w` is complete inside a proper head of `u`. */
  predicate EndsInside(u: Str, w: Str, k: int) {
    0 < k < |u| && IsSuffix(w, u[..k])
  }

  /** A proper head of `u` is the end of `w`. */
  predicate BeginsInside(u: Str, w: Str, k: int) {
    0 < k < |u| && IsSuffix(u[..k], w)
  }

  // ----- Occurrences and lengths

  lemma LongerIsWhole(v: Str, text: Str)
    requires |v| >= |text| && Contains(v, text)
    ensures v == text
  {
    var i :| OccursAt(v, text, i);
    assert text[0..|text|] == text;
  }

  lemma EarlierAbsent(variants: seq<Str>, i: nat)
    requires Ordered(variants) && i < |variants|
    ensures forall k | 0 <= k < i :: !Contains(variants[k], variants[i])
  {
    forall k | 0 <= k < i ensures !Contains(variants[k], variants[i]) {
      if Contains(variants[k], variants[i]) { LongerIsWhole(variants[k], variants[i]); }
    }
  }

  /** A placeholder alone is left alone. */
  lemma MaskOfPlaceholder(variants: seq<Str>, red: Str)
    requires AllClashFree(variants, red)
    ensures Mask(variants, red, red) == red
  {
    MaskOfClean(variants, red, red);
  }

  /** A variant itself becomes one placeholder: nothing before it in the list occurs in it. */
  lemma MaskOfVariant(variants: seq<Str>, red: Str, i: nat)
    requires AllClashFree(variants, red) && Ordered(variants) && i < |variants|
    ensures Mask(variants, red, variants[i]) == red
  {
    var v := variants[i];
    EarlierAbsent(variants, i);
    MaskFrom(variants, red, i, v);
    assert variants[i..][0] == v && variants[i..][1..] == variants[i + 1..];
    assert v + [] == v;
    ReplaceHere(v, [], red);
    assert red + [] == red;
    MaskOfPlaceholder(variants[i + 1..], red);
  }

  /** What masking changes, it changes by writing a placeholder, which stays. */
  lemma {:induction false} MaskUnchanged(variants: seq<Str>, red: Str, text: Str)
    requires AllClashFree(variants, red)
    ensures Mask(variants, red, text) == text || Contains(red, Mask(variants, red, text))
  {
    if variants != [] {
      var r := ReplaceAll(text, variants[0], red);
      ReplaceAllUnchanged(text, variants[0], red);
      MaskUnchanged(variants[1..], red, r);
      if Contains(red, r) { PlaceholderStays(variants[1..], red, r); }
    }
  }

  lemma PlaceholderStays(variants: seq<Str>, red: Str, text: Str)
    requires AllClashFree(variants, red) && Contains(red, text)
    ensures Contains(red, Mask(variants, red, text))
  {
    var i :| OccursAt(red, text, i);
    var before, after := text[..i], text[i + |red|..];
    assert text == before + red + after;
    MaskAround(variants, red, before, after);
    var m := Mask(variants, red, before);
    assert OccursAt(red, m + red + Mask(variants, red, after), |m|);
  }

  lemma {:induction false} MaskKeepsSome(variants: seq<Str>, red: Str, text: Str)
    requires NoneEmpty(variants) && red != [] && text != []
    ensures Mask(variants, red, text) != []
  {
    if variants != [] { MaskKeepsSome(variants[1..], red, ReplaceAll(text, variants[0], red)); }
  }

  // ----- A variant that ends inside an earlier one

  lemma MoreThanPlaceholder(variants: seq<Str>, red: Str, text: Str, more: Str)
    requires AllClashFree(variants, red) && red != [] && Contains(red, text) && more != []
    ensures |Mask(variants, red, text + more)| > |red|
  {
    var at :| OccursAt(red, text, at);
    var before, after := text[..at], text[at + |red|..] + more;
    assert text + more == before + red + after;
    MaskAround(variants, red, before, after);
    MaskKeepsSome(variants, red, after);
  }

  /** Masking the head first leaves more than the one placeholder that the whole variant becomes. */
  lemma InsideDiffers(variants: seq<Str>, red: Str, i: nat, j: nat, k: nat)
    requires AllClashFree(variants, red) && Ordered(variants) && red != []
    requires i < j < |variants| && EndsInside(variants[i], variants[j], k)
    ensures var u := variants[i];
            Mask(variants, red, Mask(variants, red, u[..k]) + u[k..]) != Mask(variants, red, u[..k] + u[k..])
  {
    var u, w := variants[i], variants[j];
    var head, more := u[..k], u[k..];
    var m := Mask(variants, red, head);
    assert head + more == u;
    MaskOfVariant(variants, red, i);
    assert OccursAt(w, head, k - |w|);
    MaskIsClean(variants, red, head, w);
    MaskUnchanged(variants, red, head);
    MoreThanPlaceholder(variants, red, m, more);
  }

  // ----- A variant whose end is the start of an earlier one

  /** The first variant of the list that occurs in the text. */
  lemma FirstOccurring(variants: seq<Str>, text: Str, i: nat) returns (h: nat)
    requires i < |variants| && Contains(variants[i], text)
    ensures h <= i && Contains(variants[h], text) && forall k | 0 <= k < h :: !Contains(variants[k], text)
  {
    h := 0;
    while !Contains(variants[h], text)
      invariant h <= i && forall k | 0 <= k < h :: !Contains(variants[k], text)
      decreases i - h
    {
      h := h + 1;
    }
  }

  lemma FirstPlace(v: Str, text: Str) returns (at: nat)
    requires Contains(v, text)
    ensures OccursAt(v, text, at) && forall q | 0 <= q < at :: !OccursAt(v, text, q)
  {
    at := 0;
    var some :| OccursAt(v, text, some);
    while !OccursAt(v, text, at)
      invariant at <= some && forall q | 0 <= q < at :: !OccursAt(v, text, q)
      decreases some - at
    {
      at := at + 1;
    }
  }

  /** The text is `before`, the variant `h` and `after`; nothing earlier in the list occurs in it, and the
      variant nowhere further left. */
  ghost predicate HitsFirst(variants: seq<Str>, text: Str, h: nat, before: Str, after: Str) {
    && h < |variants|
    && text == before + (variants[h] + after)
    && (forall k | 0 <= k < h :: !Contains(variants[k], text))
    && (forall q | 0 <= q < |before| :: !OccursAt(variants[h], text, q))
  }

  lemma FirstHit(variants: seq<Str>, text: Str, i: nat) returns (h: nat, before: Str, after: Str)
    requires i < |variants| && Contains(variants[i], text)
    ensures h <= i && HitsFirst(variants, text, h, before, after)
  {
    h := FirstOccurring(variants, text, i);
    var at := FirstPlace(variants[h], text);
    before, after := text[..at], text[at + |variants[h]|..];
  }

  lemma PassAtFirst(z: Str, red: Str, before: Str, after: Str)
    requires z != [] && forall q | 0 <= q < |before| :: !OccursAt(z, before + (z + after), q)
    ensures ReplaceAll(before + (z + after), z, red) == before + red + ReplaceAll(after, z, red)
  {
    PassUnderPrefix(z, red, before, z + after);
    ReplaceHere(z, after, red);
  }

  lemma MaskKeepsClean(variants: seq<Str>, red: Str, before: Str, after: Str)
    requires AllClashFree(variants, red) && forall k | 0 <= k < |variants| :: !Contains(variants[k], before)
    ensures before + red <= Mask(variants, red, before + red + after)
  {
    MaskAround(variants, red, before, after);
    MaskOfClean(variants, red, before);
  }

  lemma MaskAtHit(variants: seq<Str>, red: Str, text: Str, h: nat, before: Str, after: Str)
    requires NoneEmpty(variants) && HitsFirst(variants, text, h, before, after)
    ensures Mask(variants, red, text)
         == Mask(variants[h + 1..], red, before + red + ReplaceAll(after, variants[h], red))
  {
    MaskFrom(variants, red, h, text);
    assert variants[h..][0] == variants[h] && variants[h..][1..] == variants[h + 1..];
    PassAtFirst(variants[h], red, before, after);
  }

  /** The text up to a first hit, if nothing further down the list occurs in it, is kept, and a
      placeholder follows. */
  lemma MaskToFirstHit(variants: seq<Str>, red: Str, text: Str, h: nat, before: Str, after: Str)
    requires AllClashFree(variants, red) && HitsFirst(variants, text, h, before, after)
    requires forall k | h < k < |variants| :: !Contains(variants[k], before)
    ensures before + red <= Mask(variants, red, text)
  {
    var rest := variants[h + 1..];
    MaskAtHit(variants, red, text, h, before, after);
    forall k | 0 <= k < |rest| ensures !Contains(rest[k], before) { assert rest[k] == variants[h + 1 + k]; }
    MaskKeepsClean(rest, red, before, ReplaceAll(after, variants[h], red));
  }

  /** A proper head of `w` with a placeholder behind it starts with a placeholder only if `w` holds one. */
  lemma PlaceholderBehindHead(w: Str, red: Str, p: nat, text: Str)
    requires 0 < p < |w| && w[..p] + red <= text && red <= text
    ensures Contains(red, w) || (p < |red| && red[p] == red[0])
  {
    if p < |red| {
      assert text[p] == (w[..p] + red)[p] == red[0];
    } else {
      assert w[0..|red|] == (w[..p] + red)[..|red|] == text[..|red|];
      assert OccursAt(red, w, 0);
    }
  }

  /** No variant is complete inside a proper head of an earlier one. */
  ghost predicate NoneEndsInside(variants: seq<Str>) {
    forall a, b, c | 0 <= a < b < |variants| :: !EndsInside(variants[a], variants[b], c)
  }

  lemma OccursInHead(w: Str, v: Str, p: nat) returns (c: nat)
    requires v != [] && p < |w| && Contains(v, w[..p])
    ensures EndsInside(w, v, c) && |v| < |w|
  {
    var q :| OccursAt(v, w[..p], q);
    c := q + |v|;
    assert w[..c][q..] == w[..p][q..c] == v;
  }

  lemma AbsentInHead(variants: seq<Str>, j: nat, p: nat, k: nat)
    requires NoneEmpty(variants) && Ordered(variants) && NoneEndsInside(variants)
    requires j < |variants| && p < |variants[j]| && k < |variants|
    ensures !Contains(variants[k], variants[j][..p])
  {
    if Contains(variants[k], variants[j][..p]) {
      var c := OccursInHead(variants[j], variants[k], p);
    }
  }

  /** The first hit in `x + u`, where `w` is `x` and the start of `u`, lies behind the start and inside `w`. */
  lemma HitInside(variants: seq<Str>, i: nat, j: nat, k: nat, h: nat, before: Str, after: Str)
    requires NoneEmpty(variants) && Ordered(variants) && NoneEndsInside(variants) && h <= i < j < |variants|
    requires BeginsInside(variants[i], variants[j], k)
    requires HitsFirst(variants, variants[j] + variants[i][k..], h, before, after)
    ensures 0 < |before| < |variants[j]| && before == variants[j][..|before|]
  {
    var u, w, z := variants[i], variants[j], variants[h];
    var text := w + u[k..];
    assert |z| >= |u|;
    assert before == text[..|before|];
    if before == [] {
      assert z[..|w|] == text[..|w|] == w;
      assert EndsInside(z, w, |w|);
    }
  }

  lemma LaterOccurs(u: Str, w: Str, k: nat)
    requires BeginsInside(u, w, k)
    ensures Contains(u, w + u[k..])
  {
    assert (w + u[k..])[|w| - k..|w| - k + |u|] == u[..k] + u[k..] == u;
    assert OccursAt(u, w + u[k..], |w| - k);
  }

  /** What the whole text becomes: a proper head of the later variant, then a placeholder. */
  lemma BeginningKeepsHead(variants: seq<Str>, red: Str, i: nat, j: nat, k: nat) returns (at: nat)
    requires AllClashFree(variants, red) && Ordered(variants) && NoneEndsInside(variants)
    requires i < j < |variants| && BeginsInside(variants[i], variants[j], k)
    ensures 0 < at < |variants[j]|
    ensures variants[j][..at] + red <= Mask(variants, red, variants[j] + variants[i][k..])
  {
    var text := variants[j] + variants[i][k..];
    LaterOccurs(variants[i], variants[j], k);
    var h, before, after := FirstHit(variants, text, i);
    HitInside(variants, i, j, k, h, before, after);
    at := |before|;
    forall b | h < b < |variants| ensures !Contains(variants[b], before) { AbsentInHead(variants, j, at, b); }
    MaskToFirstHit(variants, red, text, h, before, after);
  }

  lemma VariantFirst(variants: seq<Str>, red: Str, j: nat, more: Str)
    requires AllClashFree(variants, red) && Ordered(variants) && j < |variants|
    ensures red <= Mask(variants, red, Mask(variants, red, variants[j]) + more)
  {
    MaskOfVariant(variants, red, j);
    MaskBehindPlaceholder(variants, red, more);
  }

  /** Masking the later variant first writes its placeholder at once; masking the whole text keeps a
      head of it. */
  lemma BeginningDiffers(variants: seq<Str>, red: Str, i: nat, j: nat, k: nat)
    requires AllClashFree(variants, red) && Ordered(variants) && OneStart(red) && NoneEndsInside(variants)
    requires i < j < |variants| && BeginsInside(variants[i], variants[j], k)
    ensures var more := variants[i][k..];
            Mask(variants, red, Mask(variants, red, variants[j]) + more) != Mask(variants, red, variants[j] + more)
  {
    var more := variants[i][k..];
    var at := BeginningKeepsHead(variants, red, i, j, k);
    VariantFirst(variants, red, j, more);
    var whole := Mask(variants, red, variants[j] + more);
    if red <= whole { PlaceholderBehindHead(variants[j], red, at, whole); }
  }

  /** Two texts on which the law fails. */
  lemma DoesNotAbsorb(variants: seq<Str>, red: Str, text: Str, more: Str)
    requires NoneEmpty(variants)
    requires Mask(variants, red, Mask(variants, red, text) + more) != Mask(variants, red, text + more)
    ensures !Absorbs(variants, red)
  {}

  lemma PreemptedHow(variants: seq<Str>) returns (i: nat, j: nat, k: nat)
    requires !NoPreemption(variants) && NoneEndsInside(variants)
    ensures i < j < |variants| && BeginsInside(variants[i], variants[j], k)
  {
    i, j :| 0 <= i < j < |variants| && !NoPreempt(variants[i], variants[j]);
    var u, w := variants[i], variants[j];
    k :| 0 < k < |u| && (IsSuffix(w, u[..k]) || IsSuffix(u[..k], w));
    assert !EndsInside(u, w, k);
  }

  /** Where a variant preempts an earlier one `u`, masking a text first shows, if the end of `u` follows. */
  lemma PreemptionShows(variants: seq<Str>, red: Str) returns (i: nat, j: nat, k: nat, text: Str)
    requires AllClashFree(variants, red) && Ordered(variants) && OneStart(red) && !NoPreemption(variants)
    ensures i < j < |variants| && k < |variants[i]| && (text == variants[i][..k] || text == variants[j])
    ensures Mask(variants, red, Mask(variants, red, text) + variants[i][k..])
         != Mask(variants, red, text + variants[i][k..])
  {
    if NoneEndsInside(variants) {
      i, j, k := PreemptedHow(variants);
      BeginningDiffers(variants, red, i, j, k);
      text := variants[j];
    } else {
      i, j, k :| 0 <= i < j < |variants| && EndsInside(variants[i], variants[j], k);
      InsideDiffers(variants, red, i, j, k);
      text := variants[i][..k];
    }
  }

  /** A list in which one variant preempts an earlier one does not absorb. */
  lemma PreemptionDiffers(variants: seq<Str>, red: Str)
    requires AllClashFree(variants, red) && Ordered(variants) && OneStart(red) && !NoPreemption(variants)
    ensures !Absorbs(variants, red)
  {
    var i, j, k, text := PreemptionShows(variants, red);
    DoesNotAbsorb(variants, red, text, variants[i][k..]);
  }

  /** Where nothing preempts, the three laws hold, in whatever order the list is. */
  lemma LawsHold(variants: seq<Str>, red: Str)
    requires AllClashFree(variants, red) && NoPreemption(variants) && red != []
    ensures UnitByUnit(variants, red) && ContinuesOnline(variants, red) && Absorbs(variants, red)
  {
    forall text: Str, c: CodeUnit
      ensures Mask(variants, red, text + [c]) == Complete(variants, red, Mask(variants, red, text) + [c])
    {
      MaskSnoc(variants, red, text, c);
    }
    OnlineFromUnits(variants, red);
    AbsorbsFromOnline(variants, red);
  }

  lemma OnlineFromUnits(variants: seq<Str>, red: Str)
    requires NoneEmpty(variants) && UnitByUnit(variants, red)
    ensures ContinuesOnline(variants, red)
  {
    forall text: Str, more: Str
      ensures Mask(variants, red, text + more) == Online(variants, red, Mask(variants, red, text), more)
    {
      MaskContinuesOnline(variants, red, text, more);
    }
  }

  lemma AbsorbsFromOnline(variants: seq<Str>, red: Str)
    requires AllClashFree(variants, red) && red != [] && ContinuesOnline(variants, red)
    ensures Absorbs(variants, red)
  {
    forall text: Str, more: Str
      ensures Mask(variants, red, Mask(variants, red, text) + more) == Mask(variants, red, text + more)
    {
      MaskAbsorbs(variants, red, text, more);
    }
  }

  /** For a duplicate-free list of clash-free variants, longest first, the three laws and "no variant
      preempts an earlier one" are one and the same. */
  lemma LawsExactly(variants: seq<Str>, red: Str)
    requires AllClashFree(variants, red) && Ordered(variants) && OneStart(red)
    ensures NoPreemption(variants) <==> UnitByUnit(variants, red)
    ensures NoPreemption(variants) <==> ContinuesOnline(variants, red)
    ensures NoPreemption(variants) <==> Absorbs(variants, red)
  {
    if NoPreemption(variants) { LawsHold(variants, red); } else { PreemptionDiffers(variants, red); }
    if UnitByUnit(variants, red) { OnlineFromUnits(variants, red); }
    if ContinuesOnline(variants, red) { AbsorbsFromOnline(variants, red); }
  }
}
