/** The list of variants that the masker receives (packages/paratix/src/sshHelpers.ts): every secret plain,
    percent-encoded and shell-quoted, without duplicates and longest first. */
module SecretVariants {
  import opened Text
  import opened Wrappers
  import opened Redaction
  import opened StreamMasking
  import opened Preemption
  import opened StreamExactness
  import opened UriComponent

  const QUOTE: CodeUnit := 0x27
  const BACKSLASH: CodeUnit := 0x5C

  function ShellQuoted(s: Str): Str {
    [QUOTE] + ReplaceAll(s, [QUOTE], [QUOTE, BACKSLASH, QUOTE, QUOTE]) + [QUOTE]
  }

  // ----- Collecting

  /** Adding to an insertion-ordered set. */
  function Add(variants: seq<Str>, v: Str): seq<Str> {
    if v in variants then variants else variants + [v]
  }

  datatype Prepared = Variants(variants: seq<Str>) | ContainsPlaceholder | MalformedUri

  /** The secret, and its other forms where they differ. */
  function AddForms(variants: seq<Str>, secret: Str, encoded: Str, quoted: Str): seq<Str> {
    var plain := Add(variants, secret);
    var both := if encoded != secret then Add(plain, encoded) else plain;
    if quoted != secret then Add(both, quoted) else both
  }

  function AddSecret(variants: seq<Str>, secret: Str): Prepared {
    if secret == [] then Variants(variants)
    else if Includes(secret, REDACTED) then ContainsPlaceholder
    else if EncodeUriComponent(secret).None? then MalformedUri
    else Variants(AddForms(variants, secret, EncodeUriComponent(secret).value, ShellQuoted(secret)))
  }

  function AddSecrets(variants: seq<Str>, secrets: seq<Str>): Prepared
    decreases |secrets|
  {
    if secrets == [] then Variants(variants)
    else
      var added := AddSecret(variants, secrets[0]);
      if added.Variants? then AddSecrets(added.variants, secrets[1..]) else added
  }

  // ----- Sorting

  /** Behind everything at least as long. */
  function Insert(sorted: seq<Str>, v: Str): seq<Str> {
    if sorted == [] || |sorted[|sorted| - 1]| >= |v| then sorted + [v]
    else Insert(sorted[..|sorted| - 1], v) + [sorted[|sorted| - 1]]
  }

  /** The stable sort by falling length. */
  function ByLength(variants: seq<Str>): seq<Str> {
    if variants == [] then [] else Insert(ByLength(variants[..|variants| - 1]), variants[|variants| - 1])
  }

  function GetVariants(secrets: seq<Str>): Prepared {
    var added := AddSecrets([], secrets);
    if added.Variants? then Variants(ByLength(added.variants)) else added
  }

  method GetSecretVariants(secrets: seq<Str>) returns (prepared: Prepared)
    ensures prepared == GetVariants(secrets)
  {
    var variants: seq<Str> := [];
    for i := 0 to |secrets|
      invariant AddSecrets([], secrets) == AddSecrets(variants, secrets[i..])
    {
      var secret := secrets[i];
      assert secrets[i..][0] == secret && secrets[i..][1..] == secrets[i + 1..];
      if |secret| == 0 { continue; }
      if Includes(secret, REDACTED) { return ContainsPlaceholder; }
      ghost var before := variants;
      variants := Add(variants, secret);
      var encoded := EncodeUriComponent(secret);
      if encoded.None? { return MalformedUri; }
      if encoded.value != secret { variants := Add(variants, encoded.value); }
      var quoted := ShellQuoted(secret);
      if quoted != secret { variants := Add(variants, quoted); }
      assert AddSecret(before, secret) == Variants(variants);
    }
    return Variants(ByLength(variants));
  }

  // ----- The sort is the stable one

  function OfLength(variants: seq<Str>, n: nat): seq<Str> {
    if variants == [] then []
    else
      var last := variants[|variants| - 1];
      OfLength(variants[..|variants| - 1], n) + if |last| == n then [last] else []
  }

  lemma OfLengthSnoc(variants: seq<Str>, v: Str, n: nat)
    ensures OfLength(variants + [v], n) == OfLength(variants, n) + if |v| == n then [v] else []
  {
    assert (variants + [v])[..|variants|] == variants;
  }

  lemma {:induction false} InsertSorts(sorted: seq<Str>, v: Str)
    requires LongestFirst(sorted)
    ensures LongestFirst(Insert(sorted, v))
    ensures forall u :: u in Insert(sorted, v) <==> u in sorted || u == v
    decreases |sorted|
  {
    if sorted != [] {
      var init, last := sorted[..|sorted| - 1], sorted[|sorted| - 1];
      assert sorted == init + [last];
      if |last| < |v| {
        InsertSorts(init, v);
        var r := Insert(init, v);
        forall i | 0 <= i < |r| ensures |r[i]| >= |last| { assert r[i] in r; }
      }
    }
  }

  lemma {:induction false} InsertIsStable(sorted: seq<Str>, v: Str, n: nat)
    ensures OfLength(Insert(sorted, v), n) == OfLength(sorted, n) + if |v| == n then [v] else []
    decreases |sorted|
  {
    if sorted == [] || |sorted[|sorted| - 1]| >= |v| {
      OfLengthSnoc(sorted, v, n);
    } else {
      var init, last := sorted[..|sorted| - 1], sorted[|sorted| - 1];
      InsertIsStable(init, v, n);
      OfLengthSnoc(Insert(init, v), last, n);
    }
  }

  /** Falling length, the same elements, and those of one length in their old order. */
  lemma {:induction false} ByLengthSorts(variants: seq<Str>, n: nat)
    ensures LongestFirst(ByLength(variants))
    ensures forall u :: u in ByLength(variants) <==> u in variants
    ensures OfLength(ByLength(variants), n) == OfLength(variants, n)
    decreases |variants|
  {
    if variants != [] {
      var init, last := variants[..|variants| - 1], variants[|variants| - 1];
      assert variants == init + [last];
      ByLengthSorts(init, n);
      InsertSorts(ByLength(init), last);
      InsertIsStable(ByLength(init), last, n);
    }
  }

  lemma {:induction false} InsertDistinct(sorted: seq<Str>, v: Str)
    requires Distinct(sorted) && v !in sorted && LongestFirst(sorted)
    ensures Distinct(Insert(sorted, v))
    decreases |sorted|
  {
    if sorted != [] {
      var init, last := sorted[..|sorted| - 1], sorted[|sorted| - 1];
      assert sorted == init + [last];
      if |last| < |v| {
        InsertDistinct(init, v);
        InsertSorts(init, v);
        var r := Insert(init, v);
        forall i | 0 <= i < |r| ensures r[i] != last { assert r[i] in r; }
      }
    }
  }

  lemma {:induction false} ByLengthDistinct(variants: seq<Str>)
    requires Distinct(variants)
    ensures Distinct(ByLength(variants))
    decreases |variants|
  {
    if variants != [] {
      var init, last := variants[..|variants| - 1], variants[|variants| - 1];
      ByLengthDistinct(init);
      ByLengthSorts(init, 0);
      InsertDistinct(ByLength(init), last);
    }
  }

  // ----- What the list contains

  /** The three forms of a secret. */
  ghost predicate FormOf(v: Str, secret: Str) {
    v == secret || v == ShellQuoted(secret) || EncodeUriComponent(secret) == Some(v)
  }

  ghost predicate FormOfSome(v: Str, secrets: seq<Str>) {
    exists i | 0 <= i < |secrets| :: secrets[i] != [] && FormOf(v, secrets[i])
  }

  lemma AddFormsAdds(variants: seq<Str>, secret: Str, encoded: Str, quoted: Str, v: Str)
    requires Distinct(variants)
    ensures Distinct(AddForms(variants, secret, encoded, quoted))
    ensures v in AddForms(variants, secret, encoded, quoted)
       <==> v in variants || v == secret || v == encoded || v == quoted
  {}

  /** Exactly the forms of the new secret come in. */
  lemma AddSecretAdds(variants: seq<Str>, secret: Str, v: Str)
    requires Distinct(variants) && AddSecret(variants, secret).Variants?
    ensures Distinct(AddSecret(variants, secret).variants)
    ensures v in AddSecret(variants, secret).variants <==> v in variants || (secret != [] && FormOf(v, secret))
  {
    if secret != [] {
      AddFormsAdds(variants, secret, EncodeUriComponent(secret).value, ShellQuoted(secret), v);
    }
  }

  lemma {:induction false} AddSecretsAdds(variants: seq<Str>, secrets: seq<Str>, v: Str)
    requires Distinct(variants) && AddSecrets(variants, secrets).Variants?
    ensures Distinct(AddSecrets(variants, secrets).variants)
    ensures v in AddSecrets(variants, secrets).variants <==> v in variants || FormOfSome(v, secrets)
    decreases |secrets|
  {
    if secrets != [] {
      AddSecretAdds(variants, secrets[0], v);
      AddSecretsAdds(AddSecret(variants, secrets[0]).variants, secrets[1..], v);
      FormOfFirst(v, secrets);
    }
  }

  lemma FormOfFirst(v: Str, secrets: seq<Str>)
    requires secrets != []
    ensures FormOfSome(v, secrets) <==> (secrets[0] != [] && FormOf(v, secrets[0])) || FormOfSome(v, secrets[1..])
  {
    if FormOfSome(v, secrets) {
      var i :| 0 <= i < |secrets| && secrets[i] != [] && FormOf(v, secrets[i]);
      if i > 0 { assert secrets[1..][i - 1] == secrets[i]; }
    }
    if FormOfSome(v, secrets[1..]) {
      var i :| 0 <= i < |secrets| - 1 && secrets[1..][i] != [] && FormOf(v, secrets[1..][i]);
      assert secrets[i + 1] == secrets[1..][i];
    }
  }

  lemma FormNotEmpty(v: Str, secret: Str)
    requires secret != [] && FormOf(v, secret)
    ensures v != []
  {
    if EncodeUriComponent(secret) == Some(v) { EncodedLength(secret); }
  }

  /** The masker gets the forms of all secrets that are not empty, each once, longer ones first. */
  lemma GetVariantsGives(secrets: seq<Str>, v: Str)
    requires GetVariants(secrets).Variants?
    ensures Ordered(GetVariants(secrets).variants) && NoneEmpty(GetVariants(secrets).variants)
    ensures v in GetVariants(secrets).variants <==> FormOfSome(v, secrets)
  {
    var added := AddSecrets([], secrets).variants;
    AddSecretsAdds([], secrets, v);
    ByLengthSorts(added, 0);
    ByLengthDistinct(added);
    forall i | 0 <= i < |ByLength(added)| ensures ByLength(added)[i] != [] {
      AddSecretsAdds([], secrets, ByLength(added)[i]);
      assert ByLength(added)[i] in added;
      var k :| 0 <= k < |secrets| && secrets[k] != [] && FormOf(ByLength(added)[i], secrets[k]);
      FormNotEmpty(ByLength(added)[i], secrets[k]);
    }
  }

  /** The guards: a list comes out exactly if no secret contains the placeholder or a lone surrogate. */
  lemma {:induction false} GuardsExactly(variants: seq<Str>, secrets: seq<Str>)
    ensures AddSecrets(variants, secrets).Variants?
       <==> forall i | 0 <= i < |secrets| :: !Contains(REDACTED, secrets[i]) && EncodeUriComponent(secrets[i]).Some?
    decreases |secrets|
  {
    if secrets != [] {
      var added := AddSecret(variants, secrets[0]);
      if secrets[0] == [] { assert forall i :: !OccursAt(REDACTED, [], i); }
      assert added.Variants? <==> !Contains(REDACTED, secrets[0]) && EncodeUriComponent(secrets[0]).Some?;
      if added.Variants? { GuardsExactly(added.variants, secrets[1..]); }
      assert forall i | 0 < i < |secrets| :: secrets[i] == secrets[1..][i - 1];
      assert forall i | 0 <= i < |secrets| - 1 :: secrets[1..][i] == secrets[i + 1];
    }
  }

  // ----- Secrets without a quote

  lemma UnitOccurs(u: CodeUnit, s: Str)
    requires Contains([u], s)
    ensures u in s
  {
    var i :| OccursAt([u], s, i);
    assert s[i] == s[i..i + 1][0];
  }

  lemma QuotedPlainly(s: Str)
    requires QUOTE !in s
    ensures ShellQuoted(s) == [QUOTE] + s + [QUOTE]
  {
    if Contains([QUOTE], s) { UnitOccurs(QUOTE, s); }
    AbsentUnchanged([QUOTE], [QUOTE, BACKSLASH, QUOTE, QUOTE], s);
  }

  lemma FormIndex(secrets: seq<Str>, secret: Str, v: Str) returns (i: nat)
    requires GetVariants(secrets).Variants? && secret in secrets && secret != [] && FormOf(v, secret)
    ensures i < |GetVariants(secrets).variants| && GetVariants(secrets).variants[i] == v
  {
    GetVariantsGives(secrets, v);
    i :| 0 <= i < |GetVariants(secrets).variants| && GetVariants(secrets).variants[i] == v;
  }

  /** A list with a secret that has no quote in it never streams like the batch masker: a chunk boundary
      before the closing quote of its quoted form shows. */
  lemma PlainSecretDiffers(secrets: seq<Str>, s: Str)
    requires GetVariants(secrets).Variants? && s in secrets && s != [] && QUOTE !in s
    requires AllClashFree(GetVariants(secrets).variants, REDACTED)
    ensures var variants := GetVariants(secrets).variants;
            var chunks := PaddedCut(variants, [QUOTE] + s, [QUOTE]);
            Session(variants, chunks).Written() != Mask(variants, REDACTED, Concat(chunks))
  {
    var variants, quoted, k := GetVariants(secrets).variants, ShellQuoted(s), |s| + 1;
    QuotedPlainly(s);
    GetVariantsGives(secrets, s);
    var i := FormIndex(secrets, s, quoted);
    var j := FormIndex(secrets, s, s);
    assert i < j;
    assert quoted[..k] == [QUOTE] + s && quoted[k..] == [QUOTE];
    assert ([QUOTE] + s)[1..] == s;
    assert EndsInside(quoted, s, k);
    InsideDiffers(variants, REDACTED, i, j, k);
    BoundaryShows(variants, [QUOTE] + s, [QUOTE]);
  }
}
