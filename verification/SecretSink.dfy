/** The process-wide secret registry (packages/paratix/src/secretSink.ts): reference counts that concurrent
    scopes, playbook runs and connections share. */
module SecretSink {
  import opened Text
  import opened Redaction
  import opened Wrappers

  const MINIMUM_SECRET_LENGTH := 8

  /** The shared map; a secret whose count falls to zero is deleted. */
  type Counts = map<Str, nat>

  predicate Registrable(secret: Str) {
    |secret| >= MINIMUM_SECRET_LENGTH && !Includes(secret, REDACTED)
  }

  // ----- What each call does

  /** registerSecret: the counts after it, and whether it returned rather than threw. */
  function Register(counts: Counts, secret: Str): (Counts, bool) {
    if |secret| < MINIMUM_SECRET_LENGTH then (counts, true)
    else if Includes(secret, REDACTED) then (counts, false)
    else (counts[secret := 1 + if secret in counts then counts[secret] else 0], true)
  }

  function Unregister(counts: Counts, secret: Str): Counts {
    if |secret| < MINIMUM_SECRET_LENGTH || secret !in counts then counts
    else if counts[secret] <= 1 then counts - {secret}
    else counts[secret := counts[secret] - 1]
  }

  function RegisterAll(counts: Counts, secrets: seq<Str>): Counts {
    if secrets == [] then counts
    else Register(RegisterAll(counts, secrets[..|secrets| - 1]), secrets[|secrets| - 1]).0
  }

  function UnregisterAll(counts: Counts, secrets: seq<Str>): Counts {
    if secrets == [] then counts
    else Unregister(UnregisterAll(counts, secrets[..|secrets| - 1]), secrets[|secrets| - 1])
  }

  /** The secrets a scope registers: those that are long enough. */
  function LongOnes(secrets: seq<Str>): seq<Str> {
    if secrets == [] then []
    else
      var last := secrets[|secrets| - 1];
      LongOnes(secrets[..|secrets| - 1]) + if |last| >= MINIMUM_SECRET_LENGTH then [last] else []
  }

  predicate AllAllowed(secrets: seq<Str>) {
    forall i | 0 <= i < |secrets| :: !Includes(secrets[i], REDACTED)
  }

  /** A run scope's own map, in the insertion order that its release follows. */
  datatype Entry = Entry(secret: Str, count: nat)
  type RunEntries = seq<Entry>

  function AddEntry(entries: RunEntries, secret: Str): RunEntries {
    if entries == [] then [Entry(secret, 1)]
    else if entries[0].secret == secret then [Entry(secret, entries[0].count + 1)] + entries[1..]
    else [entries[0]] + AddEntry(entries[1..], secret)
  }

  function UnregisterTimes(counts: Counts, secret: Str, times: nat): Counts {
    if times == 0 then counts else Unregister(UnregisterTimes(counts, secret, times - 1), secret)
  }

  function ReleaseRun(counts: Counts, entries: RunEntries): Counts {
    if entries == [] then counts
    else
      var last := entries[|entries| - 1];
      UnregisterTimes(ReleaseRun(counts, entries[..|entries| - 1]), last.secret, last.count)
  }

  // ----- The object

  class Sink {
    var counts: Counts

    constructor ()
      ensures counts == map[]
    {
      counts := map[];
    }

    method RegisterSecret(secret: Str) returns (ok: bool)
      modifies this
      ensures (counts, ok) == Register(old(counts), secret)
    {
      if |secret| < MINIMUM_SECRET_LENGTH { return true; }
      if Includes(secret, REDACTED) { return false; }
      counts := counts[secret := (if secret in counts then counts[secret] else 0) + 1];
      ok := true;
    }

    method UnregisterSecret(secret: Str)
      modifies this
      ensures counts == Unregister(old(counts), secret)
    {
      if |secret| < MINIMUM_SECRET_LENGTH { return; }
      if secret !in counts { return; }
      var current := counts[secret];
      if current <= 1 {
        counts := counts - {secret};
        return;
      }
      counts := counts[secret := current - 1];
    }

    /** withRegisteredSecrets up to the await: the registered list, None when the call threw before
        registering anything. */
    method OpenScope(secrets: seq<Str>) returns (registered: Option<seq<Str>>)
      modifies this
      ensures registered == if AllAllowed(secrets) then Some(LongOnes(secrets)) else None
      ensures counts == if AllAllowed(secrets) then RegisterAll(old(counts), LongOnes(secrets)) else old(counts)
      ensures registered.Some? && Sound(old(counts)) ==>
                forall x :: Count(counts, x) == Count(old(counts), x) + if |x| >= 8 then multiset(secrets)[x] else 0
    {
      for i := 0 to |secrets|
        invariant forall j | 0 <= j < i :: !Includes(secrets[j], REDACTED)
        invariant counts == old(counts)
      {
        if Includes(secrets[i], REDACTED) { return None; }
      }
      var list := LongOnes(secrets);
      ghost var before := counts;
      RegisterEach(list);
      registered := Some(list);
      if Sound(before) {
        forall x ensures Count(counts, x) == Count(before, x) + if |x| >= 8 then multiset(secrets)[x] else 0 {
          ScopeRegisters(before, secrets, x);
        }
      }
    }

    method RegisterEach(secrets: seq<Str>)
      modifies this
      ensures counts == RegisterAll(old(counts), secrets)
    {
      for i := 0 to |secrets|
        invariant counts == RegisterAll(old(counts), secrets[..i])
      {
        assert secrets[..i + 1][..i] == secrets[..i];
        var ok := RegisterSecret(secrets[i]);
      }
      assert secrets[..|secrets|] == secrets;
    }

    /** Its finally block. */
    method CloseScope(registered: seq<Str>)
      modifies this
      ensures counts == UnregisterAll(old(counts), registered)
    {
      for i := 0 to |registered|
        invariant counts == UnregisterAll(old(counts), registered[..i])
      {
        assert registered[..i + 1][..i] == registered[..i];
        UnregisterSecret(registered[i]);
      }
      assert registered[..|registered|] == registered;
    }

    /** The finally block of withRunScopedSecrets. */
    method CloseRun(entries: RunEntries)
      modifies this
      ensures counts == ReleaseRun(old(counts), entries)
    {
      for i := 0 to |entries|
        invariant counts == ReleaseRun(old(counts), entries[..i])
      {
        assert entries[..i + 1][..i] == entries[..i];
        ghost var before := counts;
        for k := 0 to entries[i].count
          invariant counts == UnregisterTimes(before, entries[i].secret, k)
        {
          UnregisterSecret(entries[i].secret);
        }
      }
      assert entries[..|entries|] == entries;
    }
  }

  // ----- How the calls change the count of one secret

  function Count(counts: Counts, x: Str): nat {
    if x in counts then counts[x] else 0
  }

  /** What one registration of `secret` adds to the count of `x`. */
  function One(secret: Str, x: Str): nat {
    if secret == x && Registrable(x) then 1 else 0
  }

  /** Only secrets the sink takes are in the map, and none with count zero. */
  ghost predicate Sound(counts: Counts) {
    forall x | x in counts :: Registrable(x) && counts[x] >= 1
  }

  lemma RegisterCount(counts: Counts, secret: Str, x: Str)
    ensures Count(Register(counts, secret).0, x) == Count(counts, x) + One(secret, x)
    ensures Sound(counts) ==> Sound(Register(counts, secret).0)
  {}

  lemma UnregisterCount(counts: Counts, secret: Str, x: Str)
    requires Sound(counts) && One(secret, x) <= Count(counts, x)
    ensures Count(Unregister(counts, secret), x) == Count(counts, x) - One(secret, x)
    ensures Sound(Unregister(counts, secret))
  {}

  function Tally(secrets: seq<Str>, x: Str): nat {
    if secrets == [] then 0 else Tally(secrets[..|secrets| - 1], x) + One(secrets[|secrets| - 1], x)
  }

  /** Occurrences, counted by the multiset. */
  lemma {:induction false} TallyIsMultiplicity(secrets: seq<Str>, x: Str)
    ensures Tally(secrets, x) == if Registrable(x) then multiset(secrets)[x] else 0
    decreases |secrets|
  {
    if secrets != [] {
      TallyIsMultiplicity(secrets[..|secrets| - 1], x);
      assert secrets == secrets[..|secrets| - 1] + [secrets[|secrets| - 1]];
    }
  }

  /** A scope registers every secret of eight units or more as often as it is given, and no other. */
  lemma {:induction false} LongOnesMultiplicity(secrets: seq<Str>, x: Str)
    ensures multiset(LongOnes(secrets))[x] == if |x| >= 8 then multiset(secrets)[x] else 0
    decreases |secrets|
  {
    if secrets != [] {
      LongOnesMultiplicity(secrets[..|secrets| - 1], x);
      assert secrets == secrets[..|secrets| - 1] + [secrets[|secrets| - 1]];
    }
  }

  /** In the order in which they are given. */
  lemma {:induction false} LongOnesInOrder(a: seq<Str>, b: seq<Str>)
    ensures LongOnes(a + b) == LongOnes(a) + LongOnes(b)
    decreases |b|
  {
    if b == [] {
      assert a + b == a;
    } else {
      var init, last := b[..|b| - 1], b[|b| - 1];
      assert a + b == (a + init) + [last];
      assert (a + b)[..|a + b| - 1] == a + init;
      LongOnesInOrder(a, init);
    }
  }

  lemma {:induction false} RegisterAllCount(counts: Counts, secrets: seq<Str>, x: Str)
    requires Sound(counts)
    ensures Count(RegisterAll(counts, secrets), x) == Count(counts, x) + Tally(secrets, x)
    ensures Sound(RegisterAll(counts, secrets))
    decreases |secrets|
  {
    if secrets != [] {
      var init, last := secrets[..|secrets| - 1], secrets[|secrets| - 1];
      RegisterAllCount(counts, init, x);
      RegisterCount(RegisterAll(counts, init), last, x);
    }
  }

  /** What a scope adds to the sink. */
  lemma ScopeRegisters(counts: Counts, secrets: seq<Str>, x: Str)
    requires Sound(counts) && AllAllowed(secrets)
    ensures Count(RegisterAll(counts, LongOnes(secrets)), x)
         == Count(counts, x) + if |x| >= 8 then multiset(secrets)[x] else 0
  {
    RegisterAllCount(counts, LongOnes(secrets), x);
    TallyIsMultiplicity(LongOnes(secrets), x);
    LongOnesMultiplicity(secrets, x);
    if x in secrets { assert !Includes(x, REDACTED); }
  }

  lemma {:induction false} UnregisterAllCount(counts: Counts, secrets: seq<Str>, x: Str)
    requires Sound(counts) && forall y :: Tally(secrets, y) <= Count(counts, y)
    ensures Count(UnregisterAll(counts, secrets), x) == Count(counts, x) - Tally(secrets, x)
    ensures Sound(UnregisterAll(counts, secrets))
    decreases |secrets|
  {
    if secrets != [] {
      var init, last := secrets[..|secrets| - 1], secrets[|secrets| - 1];
      forall y ensures Tally(init, y) <= Count(counts, y) { assert Tally(init, y) <= Tally(secrets, y); }
      UnregisterAllCount(counts, init, x);
      assert One(last, x) <= Count(counts, x) - Tally(init, x) by { assert Tally(secrets, x) <= Count(counts, x); }
      UnregisterCount(UnregisterAll(counts, init), last, x);
    }
  }

  /** The registrations of `x` that a run scope holds. */
  function RunTally(entries: RunEntries, x: Str): nat {
    if entries == [] then 0
    else
      var last := entries[|entries| - 1];
      RunTally(entries[..|entries| - 1], x) + EntryTally(last, x)
  }

  function EntryTally(e: Entry, x: Str): nat {
    if e.secret == x && Registrable(x) then e.count else 0
  }

  lemma {:induction false} RunTallyCons(first: Entry, rest: RunEntries, x: Str)
    ensures RunTally([first] + rest, x) == EntryTally(first, x) + RunTally(rest, x)
    decreases |rest|
  {
    if rest == [] {
      assert ([first] + rest)[..0] == [];
    } else {
      assert ([first] + rest)[..|rest|] == [first] + rest[..|rest| - 1];
      RunTallyCons(first, rest[..|rest| - 1], x);
    }
  }

  lemma {:induction false} AddEntryTally(entries: RunEntries, secret: Str, x: Str)
    ensures RunTally(AddEntry(entries, secret), x) == RunTally(entries, x) + One(secret, x)
    decreases |entries|
  {
    if entries == [] {
      RunTallyCons(Entry(secret, 1), [], x);
      assert [Entry(secret, 1)] + [] == [Entry(secret, 1)];
    } else {
      var first, rest := entries[0], entries[1..];
      assert entries == [first] + rest;
      RunTallyCons(first, rest, x);
      if first.secret == secret {
        RunTallyCons(Entry(secret, first.count + 1), rest, x);
      } else {
        AddEntryTally(rest, secret, x);
        RunTallyCons(first, AddEntry(rest, secret), x);
      }
    }
  }

  lemma {:induction false} UnregisterTimesCount(counts: Counts, secret: Str, times: nat, x: Str)
    requires Sound(counts) && EntryTally(Entry(secret, times), secret) <= Count(counts, secret)
    ensures Count(UnregisterTimes(counts, secret, times), x) == Count(counts, x) - EntryTally(Entry(secret, times), x)
    ensures Sound(UnregisterTimes(counts, secret, times))
    decreases times
  {
    if times > 0 {
      UnregisterTimesCount(counts, secret, times - 1, secret);
      UnregisterTimesCount(counts, secret, times - 1, x);
      UnregisterCount(UnregisterTimes(counts, secret, times - 1), secret, x);
    }
  }

  lemma {:induction false} ReleaseRunCount(counts: Counts, entries: RunEntries, x: Str)
    requires Sound(counts) && forall y :: RunTally(entries, y) <= Count(counts, y)
    ensures Count(ReleaseRun(counts, entries), x) == Count(counts, x) - RunTally(entries, x)
    ensures Sound(ReleaseRun(counts, entries))
    decreases |entries|
  {
    if entries != [] {
      var init, last := entries[..|entries| - 1], entries[|entries| - 1];
      forall y ensures RunTally(init, y) <= Count(counts, y) { assert RunTally(init, y) <= RunTally(entries, y); }
      ReleaseRunCount(counts, init, last.secret);
      ReleaseRunCount(counts, init, x);
      assert RunTally(entries, last.secret) <= Count(counts, last.secret);
      UnregisterTimesCount(ReleaseRun(counts, init), last.secret, last.count, x);
    }
  }
}
