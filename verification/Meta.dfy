/** Module meta entries and the environment they build (packages/paratix/src/meta.ts). */
module Meta {
  import opened Text

  datatype MetaEntry =
    | EnvEntry(name: string, resolver: nat, policyValid: bool)
    | SshdPort(port: int)
    | SystemHost(host: string)
    | SystemReboot

  /** A value is what the run started with, or the resolver that a merged entry put there. */
  datatype EnvValue = Given(value: string) | FromEntry(entry: MetaEntry)
  type Environment = map<string, EnvValue>

  datatype Result<T> = Ok(value: T) | Throws

  predicate SegmentStart(c: char) { 'A' <= c <= 'Z' || 'a' <= c <= 'z' || c == '_' }

  predicate SegmentRest(c: char) { SegmentStart(c) || '0' <= c <= '9' }

  /** Dot-separated identifiers, none of them empty. */
  predicate NameFrom(name: string, atSegmentStart: bool) {
    if name == "" then !atSegmentStart
    else if atSegmentStart then SegmentStart(name[0]) && NameFrom(name[1..], false)
    else (SegmentRest(name[0]) && NameFrom(name[1..], false)) || (name[0] == '.' && NameFrom(name[1..], true))
  }

  predicate AllowedName(name: string) {
    NameFrom(name, true) && name !in {"__proto__", "constructor", "prototype"}
  }

  /** A letter or underscore, then letters, digits and underscores. */
  predicate Identifier(segment: string) {
    segment != "" && SegmentStart(segment[0]) && IdentifierRest(segment[1..])
  }

  predicate IdentifierRest(text: string) { forall i | 0 <= i < |text| :: SegmentRest(text[i]) }

  lemma RestCons(c: char, text: string)
    ensures IdentifierRest([c] + text) == (SegmentRest(c) && IdentifierRest(text))
  {
    var whole := [c] + text;
    assert whole[0] == c;
    assert forall i | 0 <= i < |text| :: text[i] == whole[i + 1];
  }

  predicate AllIdentifiers(segments: seq<string>) { forall i | 0 <= i < |segments| :: Identifier(segments[i]) }

  lemma AllIdentifiersCons(first: string, rest: seq<string>)
    ensures AllIdentifiers([first] + rest) == (Identifier(first) && AllIdentifiers(rest))
  {
    var whole := [first] + rest;
    assert whole[0] == first;
    assert forall i | 0 <= i < |rest| :: rest[i] == whole[i + 1];
  }

  lemma {:induction false} NameFromSegments(name: string, atSegmentStart: bool)
    ensures var segments := SplitAt(name, '.');
            NameFrom(name, atSegmentStart)
            == if atSegmentStart then AllIdentifiers(segments) else IdentifierRest(segments[0]) && AllIdentifiers(segments[1..])
    decreases |name|
  {
    if name == "" {
      AllIdentifiersCons("", []);
      assert [""] + [] == [""];
    } else {
      var c, rest := name[0], SplitAt(name[1..], '.');
      NameFromSegments(name[1..], c == '.');
      if c == '.' {
        AllIdentifiersCons("", rest);
        assert ([""] + rest)[1..] == rest;
      } else {
        assert ([c] + rest[0])[1..] == rest[0];
        AllIdentifiersCons([c] + rest[0], rest[1..]);
        RestCons(c, rest[0]);
        assert ([[c] + rest[0]] + rest[1..])[1..] == rest[1..];
      }
    }
  }

  /** The names that a merge accepts: identifiers between single dots, but for three that an object inherits. */
  lemma NamesAllowedExactly(name: string)
    ensures AllowedName(name) <==>
              && AllIdentifiers(SplitAt(name, '.'))
              && name != "__proto__" && name != "constructor" && name != "prototype"
  {
    NameFromSegments(name, true);
  }

  /** Merging the entry does not throw. */
  predicate Mergeable(entry: MetaEntry) {
    entry.EnvEntry? ==> entry.policyValid && AllowedName(entry.name)
  }

  predicate AllMergeable(entries: seq<MetaEntry>) {
    forall i | 0 <= i < |entries| :: Mergeable(entries[i])
  }

  function ControlPlane(entries: seq<MetaEntry>): seq<MetaEntry> {
    if entries == [] then []
    else (if entries[0].EnvEntry? then [] else [entries[0]]) + ControlPlane(entries[1..])
  }

  function EnvironmentOnly(entries: seq<MetaEntry>): seq<MetaEntry> {
    if entries == [] then []
    else (if entries[0].EnvEntry? then [entries[0]] else []) + EnvironmentOnly(entries[1..])
  }

  function MergeEntry(environment: Environment, entry: MetaEntry): Environment {
    if entry.EnvEntry? then environment[entry.name := FromEntry(entry)] else environment
  }

  function Merge(environment: Environment, entries: seq<MetaEntry>): (r: Result<Environment>)
    ensures r.Ok? <==> AllMergeable(entries)
    decreases |entries|
  {
    if entries == [] then Ok(environment)
    else if !Mergeable(entries[0]) then Throws
    else
      assert AllMergeable(entries) <==> AllMergeable(entries[1..]) by {
        assert forall i | 1 <= i < |entries| :: entries[i] == entries[1..][i - 1];
      }
      Merge(MergeEntry(environment, entries[0]), entries[1..])
  }

  method MergeEnvironmentFromMeta(environment: Environment, entries: seq<MetaEntry>) returns (r: Result<Environment>)
    ensures r == Merge(environment, entries)
  {
    var nextEnvironment := environment;
    var i := 0;
    while i < |entries|
      invariant 0 <= i <= |entries|
      invariant Merge(nextEnvironment, entries[i..]) == Merge(environment, entries)
    {
      var rest := entries[i..];
      assert rest[1..] == entries[i + 1..];
      if entries[i].EnvEntry? {
        if !entries[i].policyValid || !AllowedName(entries[i].name) { return Throws; }
        nextEnvironment := nextEnvironment[entries[i].name := FromEntry(entries[i])];
      }
      i := i + 1;
    }
    r := Ok(nextEnvironment);
  }

  /** Merging in two goes is merging once. */
  lemma {:induction false} MergeConcat(environment: Environment, a: seq<MetaEntry>, b: seq<MetaEntry>)
    requires AllMergeable(a)
    ensures Merge(environment, a + b) == Merge(Merge(environment, a).value, b)
    decreases |a|
  {
    if a == [] {
      assert a + b == b;
    } else {
      assert (a + b)[1..] == a[1..] + b;
      assert AllMergeable(a[1..]) by { assert forall i | 1 <= i < |a| :: a[i] == a[1..][i - 1]; }
      MergeConcat(MergeEntry(environment, a[0]), a[1..], b);
    }
  }

  /** Control-plane entries do not take part in the environment. */
  lemma {:induction false} MergeEnvironmentOnly(environment: Environment, entries: seq<MetaEntry>)
    ensures Merge(environment, EnvironmentOnly(entries)) == Merge(environment, entries)
    ensures ControlPlane(EnvironmentOnly(entries)) == []
    decreases |entries|
  {
    if entries != [] {
      var rest := EnvironmentOnly(entries[1..]);
      MergeEnvironmentOnly(environment, entries[1..]);
      MergeEnvironmentOnly(MergeEntry(environment, entries[0]), entries[1..]);
      if entries[0].EnvEntry? {
        assert EnvironmentOnly(entries)[1..] == rest;
      } else {
        assert EnvironmentOnly(entries) == rest;
      }
    }
  }

  lemma {:induction false} ControlPlaneConcat(a: seq<MetaEntry>, b: seq<MetaEntry>)
    ensures ControlPlane(a + b) == ControlPlane(a) + ControlPlane(b)
    decreases |a|
  {
    if a == [] {
      assert a + b == b;
    } else {
      assert (a + b)[1..] == a[1..] + b;
      ControlPlaneConcat(a[1..], b);
    }
  }

  predicate Sets(entry: MetaEntry, name: string) { entry.EnvEntry? && entry.name == name }

  /** The last entry for a name wins; a name without an entry keeps what it had. */
  lemma {:induction false} LastEntryWins(environment: Environment, entries: seq<MetaEntry>, name: string, i: nat)
    requires AllMergeable(entries) && i <= |entries|
    requires i < |entries| ==> Sets(entries[i], name)
    requires forall k | 0 <= k < |entries| && k > i :: !Sets(entries[k], name)
    requires i == |entries| ==> forall k | 0 <= k < |entries| :: !Sets(entries[k], name)
    ensures var merged := Merge(environment, entries).value;
            if i < |entries| then name in merged && merged[name] == FromEntry(entries[i])
            else (name in merged <==> name in environment) && (name in merged ==> merged[name] == environment[name])
    decreases |entries|
  {
    if entries != [] {
      var rest, next := entries[1..], MergeEntry(environment, entries[0]);
      assert forall k | 0 <= k < |rest| :: rest[k] == entries[k + 1];
      LastEntryWins(next, rest, name, if i == 0 then |rest| else i - 1);
    }
  }

  /** Every entry of a list is in one of its two parts as often as in the list, and not in the other one. */
  lemma {:induction false} PartsAreExact(entries: seq<MetaEntry>, entry: MetaEntry)
    ensures multiset(ControlPlane(entries))[entry] == if entry.EnvEntry? then 0 else multiset(entries)[entry]
    ensures multiset(EnvironmentOnly(entries))[entry] == if entry.EnvEntry? then multiset(entries)[entry] else 0
    decreases |entries|
  {
    if entries != [] {
      var first, rest := entries[0], entries[1..];
      PartsAreExact(rest, entry);
      CountOf(entries, entry);
      CountBehind(first, ControlPlane(rest), entry);
      CountBehind(first, EnvironmentOnly(rest), entry);
      if first.EnvEntry? {
        assert ControlPlane(entries) == ControlPlane(rest);
      } else {
        assert EnvironmentOnly(entries) == EnvironmentOnly(rest);
      }
    }
  }

  lemma CountBehind(first: MetaEntry, rest: seq<MetaEntry>, entry: MetaEntry)
    ensures multiset([first] + rest)[entry] == (if entry == first then 1 else 0) + multiset(rest)[entry]
  {}

  lemma CountOf(entries: seq<MetaEntry>, entry: MetaEntry)
    requires entries != []
    ensures multiset(entries)[entry] == (if entry == entries[0] then 1 else 0) + multiset(entries[1..])[entry]
  {
    assert entries == [entries[0]] + entries[1..];
  }
}
