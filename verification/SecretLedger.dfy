/** Conservation of secret registrations over every interleaving of scopes, playbook runs and connections
    (packages/paratix/src/secretSink.ts and the sudo password cache of packages/paratix/src/ssh.ts). */
module SecretLedger {
  import opened Text
  import opened Redaction
  import opened SecretSink
  import opened Wrappers

  // ----- The cached sudo password

  /** What `Buffer.from(text).toString("utf8")` gives back: lone surrogates become U+FFFD. */
  function Stored(text: Str): (r: Str)
    ensures |r| == |text|
    decreases |text|
  {
    if text == [] then []
    else if StartsWithPair(text) then text[..2] + Stored(text[2..])
    else (if IsHigh(text[0]) || IsLow(text[0]) then [0xFFFD] else [text[0]]) + Stored(text[1..])
  }

  /** String.prototype.isWellFormed: no lone surrogate. */
  predicate WellFormed(text: Str)
    decreases |text|
  {
    text == []
    || (if StartsWithPair(text) then WellFormed(text[2..])
        else !IsHigh(text[0]) && !IsLow(text[0]) && WellFormed(text[1..]))
  }

  lemma {:induction false} StoredIffWellFormed(text: Str)
    ensures Stored(text) == text <==> WellFormed(text)
    decreases |text|
  {
    if text != [] {
      if StartsWithPair(text) {
        StoredIffWellFormed(text[2..]);
        assert text == text[..2] + text[2..];
        assert Stored(text)[2..] == Stored(text[2..]);
      } else {
        StoredIffWellFormed(text[1..]);
        assert text == [text[0]] + text[1..];
        assert Stored(text)[1..] == Stored(text[1..]);
        assert Stored(text)[0] == text[0] <==> !IsHigh(text[0]) && !IsLow(text[0]);
      }
    }
  }

  predicate HasNewline(text: Str) {
    0x0A in text || 0x0D in text
  }

  type Cached = Option<Str>

  /** cacheAndValidateSudoPassword up to its probe. */
  function CachePassword(counts: Counts, cached: Cached, password: Str): (Counts, Cached, bool) {
    if HasNewline(password) then (counts, cached, false)
    else
      var r := Register(counts, password);
      if !r.1 then (r.0, Some(Stored(password)), false)
      else (ClearPassword(r.0, cached), Some(Stored(password)), true)
  }

  /** A line break is refused before anything is touched; the placeholder in a long password only after the
      new value has been cached; and nothing else is refused. */
  lemma CacheAnswers(counts: Counts, cached: Cached, password: Str)
    ensures var broken := 0x0A in password || 0x0D in password;
            var (counts', cached', ok) := CachePassword(counts, cached, password);
            && (ok <==> !broken && (|password| >= 8 ==> !Includes(password, REDACTED)))
            && cached' == (if broken then cached else Some(Stored(password)))
            && (!ok ==> counts' == counts)
  {}

  /** clearCachedPassword, as far as the sink sees it. */
  function ClearPassword(counts: Counts, cached: Cached): Counts {
    if cached.Some? then Unregister(counts, cached.value) else counts
  }

  /** The constructor: None when it throws. */
  function Construct(counts: Counts, password: Option<Str>): (Counts, Option<Cached>) {
    match password
    case None => (counts, Some(None))
    case Some(p) =>
      if HasNewline(p) then (counts, None)
      else
        var r := Register(counts, p);
        (r.0, if r.1 then Some(Some(Stored(p))) else None)
  }

  class SudoPasswordCache {
    const sink: Sink
    var cachedSudoPassword: Cached

    constructor (sink: Sink)
      ensures this.sink == sink && cachedSudoPassword == None
    {
      this.sink := sink;
      cachedSudoPassword := None;
    }

    method CacheSudoPassword(password: Str) returns (ok: bool)
      modifies this, sink
      ensures (sink.counts, cachedSudoPassword, ok)
           == CachePassword(old(sink.counts), old(cachedSudoPassword), password)
    {
      if HasNewline(password) { return false; }
      var previousPassword := cachedSudoPassword;
      cachedSudoPassword := Some(Stored(password));
      ok := sink.RegisterSecret(password);
      if !ok { return; }
      if previousPassword.Some? && previousPassword.value != password {
        sink.UnregisterSecret(previousPassword.value);
      } else if previousPassword == Some(password) {
        sink.UnregisterSecret(password);
      }
    }

    method ClearCachedPassword()
      modifies this, sink
      ensures sink.counts == ClearPassword(old(sink.counts), old(cachedSudoPassword))
      ensures cachedSudoPassword == None
    {
      if cachedSudoPassword.Some? {
        var passwordValue := cachedSudoPassword.value;
        cachedSudoPassword := None;
        sink.UnregisterSecret(passwordValue);
      }
    }
  }

  // ----- Every interleaving

  /** Whoever holds registrations: an open scope what it registered, an open playbook run its map, a
      connection the password it caches; and a registration that no scope owns. */
  datatype Holder =
    | Scope(registered: seq<Str>)
    | Run(entries: RunEntries)
    | Connection(cached: Cached)
    | Unscoped(secret: Str)

  datatype State = State(counts: Counts, holders: seq<Holder>)

  /** The code between two awaits, whichever task runs it: opening and closing a scope (a scope closes
      whether its body succeeded or failed, and scopes may close in any order), opening and closing a run,
      registering inside one or outside all, creating a connection, caching a password and clearing it
      (on disconnect or after a failed probe). */
  datatype Step =
    | OpenScope(secrets: seq<Str>)
    | CloseScope(i: nat)
    | OpenRun
    | RegisterInRun(i: nat, secret: Str)
    | RegisterUnscoped(secret: Str)
    | CloseRun(i: nat)
    | Connect(seed: Option<Str>)
    | Cache(i: nat, password: Str)
    | Clear(i: nat)

  predicate Enabled(s: State, step: Step) {
    match step
    case CloseScope(i) => i < |s.holders| && s.holders[i].Scope?
    case RegisterInRun(i, _) => i < |s.holders| && s.holders[i].Run?
    case CloseRun(i) => i < |s.holders| && s.holders[i].Run?
    case Cache(i, _) => i < |s.holders| && s.holders[i].Connection?
    case Clear(i) => i < |s.holders| && s.holders[i].Connection?
    case _ => true
  }

  function Without(holders: seq<Holder>, i: nat): seq<Holder>
    requires i < |holders|
  {
    holders[..i] + holders[i + 1..]
  }

  function Next(s: State, step: Step): State
    requires Enabled(s, step)
  {
    match step
    case OpenScope(secrets) =>
      if AllAllowed(secrets)
      then State(RegisterAll(s.counts, LongOnes(secrets)), s.holders + [Scope(LongOnes(secrets))])
      else s
    case CloseScope(i) =>
      State(UnregisterAll(s.counts, s.holders[i].registered), Without(s.holders, i))
    case OpenRun => State(s.counts, s.holders + [Run([])])
    case RegisterInRun(i, secret) =>
      if Registrable(secret)
      then State(Register(s.counts, secret).0, s.holders[i := Run(AddEntry(s.holders[i].entries, secret))])
      else s
    case RegisterUnscoped(secret) =>
      State(Register(s.counts, secret).0, s.holders + [Unscoped(secret)])
    case CloseRun(i) =>
      State(ReleaseRun(s.counts, s.holders[i].entries), Without(s.holders, i))
    case Connect(seed) =>
      var r := Construct(s.counts, seed);
      State(r.0, if r.1.Some? then s.holders + [Connection(r.1.value)] else s.holders)
    case Cache(i, password) =>
      var r := CachePassword(s.counts, s.holders[i].cached, password);
      State(r.0, s.holders[i := Connection(r.1)])
    case Clear(i) =>
      State(ClearPassword(s.counts, s.holders[i].cached), s.holders[i := Connection(None)])
  }

  predicate IsRun(s: State, steps: seq<Step>)
    decreases |steps|
  {
    steps != [] ==> Enabled(s, steps[0]) && IsRun(Next(s, steps[0]), steps[1..])
  }

  function After(s: State, steps: seq<Step>): State
    requires IsRun(s, steps)
    decreases |steps|
  {
    if steps == [] then s else After(Next(s, steps[0]), steps[1..])
  }

  const INITIAL := State(map[], [])

  // ----- The ledger

  function Holds(h: Holder, x: Str): nat {
    match h
    case Scope(registered) => Tally(registered, x)
    case Run(entries) => RunTally(entries, x)
    case Connection(cached) => CachedTally(cached, x)
    case Unscoped(secret) => One(secret, x)
  }

  function CachedTally(cached: Cached, x: Str): nat {
    if cached.Some? then One(cached.value, x) else 0
  }

  /** The live registrations of `x`. */
  function Live(holders: seq<Holder>, x: Str): nat {
    if holders == [] then 0
    else Live(holders[..|holders| - 1], x) + Holds(holders[|holders| - 1], x)
  }

  /** By how much the sink's count exceeds the live registrations. */
  function Drift(s: State, x: Str): int {
    Count(s.counts, x) - Live(s.holders, x)
  }

  /** No live registration is missing from the sink. */
  ghost predicate Covered(s: State) {
    Sound(s.counts) && forall x :: Drift(s, x) >= 0
  }

  ghost predicate SameDrift(s: State, s': State) {
    forall x :: Drift(s', x) == Drift(s, x)
  }

  /** Which steps keep the balance: all but those that cache a password the sink refuses while the
      connection holds a registered one, and those that cache a long password with a lone surrogate. */
  predicate Conserves(s: State, step: Step)
    requires Enabled(s, step)
  {
    match step
    case Connect(Some(p)) => HasNewline(p) || !Registrable(p) || WellFormed(p)
    case Cache(i, p) =>
      || HasNewline(p)
      || |p| < MINIMUM_SECRET_LENGTH
      || (if Includes(p, REDACTED)
          then s.holders[i].cached.None? || !Registrable(s.holders[i].cached.value)
          else WellFormed(p))
    case _ => true
  }

  lemma LiveAppend(holders: seq<Holder>, h: Holder, x: Str)
    ensures Live(holders + [h], x) == Live(holders, x) + Holds(h, x)
  {
    assert (holders + [h])[..|holders|] == holders;
  }

  lemma {:induction false} LiveWithout(holders: seq<Holder>, i: nat, x: Str)
    requires i < |holders|
    ensures Live(holders, x) == Live(Without(holders, i), x) + Holds(holders[i], x)
    decreases |holders|
  {
    var n := |holders| - 1;
    if i == n {
      assert Without(holders, i) == holders[..n];
    } else {
      LiveWithout(holders[..n], i, x);
      assert Without(holders, i)[..n - 1] == Without(holders[..n], i);
    }
  }

  lemma LiveUpdate(holders: seq<Holder>, i: nat, h: Holder, x: Str)
    requires i < |holders|
    ensures Live(holders[i := h], x) == Live(holders, x) - Holds(holders[i], x) + Holds(h, x)
    ensures Holds(holders[i], x) <= Live(holders, x)
  {
    LiveWithout(holders, i, x);
    LiveWithout(holders[i := h], i, x);
    assert Without(holders[i := h], i) == Without(holders, i);
  }

  // ----- What one step does to the drift of every secret

  lemma OpenScopeDrift(s: State, secrets: seq<Str>)
    requires Covered(s) && AllAllowed(secrets)
    ensures SameDrift(s, Next(s, OpenScope(secrets))) && Sound(Next(s, OpenScope(secrets)).counts)
  {
    RegisterAllCount(s.counts, LongOnes(secrets), []);
    forall x ensures Drift(Next(s, OpenScope(secrets)), x) == Drift(s, x) {
      RegisterAllCount(s.counts, LongOnes(secrets), x);
      LiveAppend(s.holders, Scope(LongOnes(secrets)), x);
    }
  }

  lemma HolderCovered(s: State, i: nat, x: Str)
    requires Covered(s) && i < |s.holders|
    ensures Holds(s.holders[i], x) <= Count(s.counts, x)
  {
    LiveWithout(s.holders, i, x);
    assert Drift(s, x) >= 0;
  }

  lemma CloseScopeDrift(s: State, i: nat)
    requires Covered(s) && Enabled(s, CloseScope(i))
    ensures SameDrift(s, Next(s, CloseScope(i))) && Sound(Next(s, CloseScope(i)).counts)
  {
    var registered := s.holders[i].registered;
    forall y ensures Tally(registered, y) <= Count(s.counts, y) { HolderCovered(s, i, y); }
    UnregisterAllCount(s.counts, registered, []);
    forall x ensures Drift(Next(s, CloseScope(i)), x) == Drift(s, x) {
      UnregisterAllCount(s.counts, registered, x);
      LiveWithout(s.holders, i, x);
    }
  }

  lemma OpenRunDrift(s: State)
    ensures SameDrift(s, Next(s, OpenRun))
  {
    forall x ensures Drift(Next(s, OpenRun), x) == Drift(s, x) { LiveAppend(s.holders, Run([]), x); }
  }

  lemma RegisterInRunDrift(s: State, i: nat, secret: Str)
    requires Covered(s) && Enabled(s, RegisterInRun(i, secret)) && Registrable(secret)
    ensures SameDrift(s, Next(s, RegisterInRun(i, secret))) && Sound(Next(s, RegisterInRun(i, secret)).counts)
  {
    var entries := s.holders[i].entries;
    RegisterCount(s.counts, secret, []);
    forall x ensures Drift(Next(s, RegisterInRun(i, secret)), x) == Drift(s, x) {
      RegisterCount(s.counts, secret, x);
      AddEntryTally(entries, secret, x);
      LiveUpdate(s.holders, i, Run(AddEntry(entries, secret)), x);
    }
  }

  lemma RegisterUnscopedDrift(s: State, secret: Str)
    requires Covered(s)
    ensures SameDrift(s, Next(s, RegisterUnscoped(secret))) && Sound(Next(s, RegisterUnscoped(secret)).counts)
  {
    RegisterCount(s.counts, secret, []);
    forall x ensures Drift(Next(s, RegisterUnscoped(secret)), x) == Drift(s, x) {
      RegisterCount(s.counts, secret, x);
      LiveAppend(s.holders, Unscoped(secret), x);
    }
  }

  lemma CloseRunDrift(s: State, i: nat)
    requires Covered(s) && Enabled(s, CloseRun(i))
    ensures SameDrift(s, Next(s, CloseRun(i))) && Sound(Next(s, CloseRun(i)).counts)
  {
    var entries := s.holders[i].entries;
    forall y ensures RunTally(entries, y) <= Count(s.counts, y) { HolderCovered(s, i, y); }
    ReleaseRunCount(s.counts, entries, []);
    forall x ensures Drift(Next(s, CloseRun(i)), x) == Drift(s, x) {
      ReleaseRunCount(s.counts, entries, x);
      LiveWithout(s.holders, i, x);
    }
  }

  lemma ClearCount(counts: Counts, cached: Cached, x: Str)
    requires Sound(counts) && CachedTally(cached, x) <= Count(counts, x)
    ensures Count(ClearPassword(counts, cached), x) == Count(counts, x) - CachedTally(cached, x)
    ensures Sound(ClearPassword(counts, cached))
  {
    if cached.Some? { UnregisterCount(counts, cached.value, x); }
  }

  lemma ClearDrift(s: State, i: nat)
    requires Covered(s) && Enabled(s, Clear(i))
    ensures SameDrift(s, Next(s, Clear(i))) && Sound(Next(s, Clear(i)).counts)
  {
    var cached := s.holders[i].cached;
    HolderCovered(s, i, []);
    ClearCount(s.counts, cached, []);
    forall x ensures Drift(Next(s, Clear(i)), x) == Drift(s, x) {
      HolderCovered(s, i, x);
      ClearCount(s.counts, cached, x);
      LiveUpdate(s.holders, i, Connection(None), x);
    }
  }

  /** The sink counts the password as it was given, the connection keeps it as it was stored. */
  function StoringDrift(p: Str, x: Str): int {
    One(p, x) - One(Stored(p), x)
  }

  lemma StoringDriftZero(p: Str)
    ensures |p| < MINIMUM_SECRET_LENGTH || WellFormed(p) ==> forall x :: StoringDrift(p, x) == 0
    ensures Registrable(p) && !WellFormed(p) ==> StoringDrift(p, p) == 1
  {
    StoredIffWellFormed(p);
  }

  lemma ConnectDrift(s: State, p: Str, x: Str)
    requires Covered(s) && !HasNewline(p) && Register(s.counts, p).1
    ensures Drift(Next(s, Connect(Some(p))), x) == Drift(s, x) + StoringDrift(p, x)
    ensures Sound(Next(s, Connect(Some(p))).counts)
  {
    RegisterCount(s.counts, p, x);
    LiveAppend(s.holders, Connection(Some(Stored(p))), x);
  }

  /** A password that the sink takes, or one too short for it. */
  lemma CacheAcceptedDrift(s: State, i: nat, p: Str, x: Str)
    requires Covered(s) && Enabled(s, Cache(i, p)) && !HasNewline(p) && Register(s.counts, p).1
    ensures Drift(Next(s, Cache(i, p)), x) == Drift(s, x) + StoringDrift(p, x)
    ensures Sound(Next(s, Cache(i, p)).counts)
  {
    var cached := s.holders[i].cached;
    HolderCovered(s, i, x);
    RegisterCount(s.counts, p, x);
    ClearCount(Register(s.counts, p).0, cached, x);
    LiveUpdate(s.holders, i, Connection(Some(Stored(p))), x);
  }

  /** A password that the sink refuses: the call throws after the cached value was replaced and before
      the previous one was released, so that registration is left behind. */
  lemma CacheRefusedDrift(s: State, i: nat, p: Str, x: Str)
    requires Covered(s) && Enabled(s, Cache(i, p)) && !HasNewline(p) && !Register(s.counts, p).1
    ensures Drift(Next(s, Cache(i, p)), x) == Drift(s, x) + CachedTally(s.holders[i].cached, x)
    ensures Sound(Next(s, Cache(i, p)).counts)
  {
    PlaceholderSurvives(p);
    LiveUpdate(s.holders, i, Connection(Some(Stored(p))), x);
  }

  predicate IsSurrogate(u: CodeUnit) {
    IsHigh(u) || IsLow(u)
  }

  predicate NoSurrogates(text: Str) {
    forall k | 0 <= k < |text| :: !IsSurrogate(text[k])
  }

  lemma PatternSurvives(pattern: Str, p: Str)
    requires Includes(p, pattern) && NoSurrogates(pattern)
    ensures Includes(Stored(p), pattern) && |p| >= |pattern|
  {
    var i :| OccursAt(pattern, p, i);
    StoredUnits(p);
    forall k | 0 <= k < |pattern| ensures Stored(p)[i + k] == pattern[k] {
      assert pattern[k] == p[i..i + |pattern|][k] == p[i + k];
    }
    assert Stored(p)[i..i + |pattern|] == pattern;
    assert OccursAt(pattern, Stored(p), i);
  }

  lemma PlaceholderPlain()
    ensures NoSurrogates(REDACTED) && |REDACTED| == 10
  {}

  /** Storing does not touch the placeholder, which has no surrogates. */
  lemma PlaceholderSurvives(p: Str)
    requires Includes(p, REDACTED)
    ensures !Registrable(Stored(p)) && |p| >= MINIMUM_SECRET_LENGTH
  {
    PlaceholderPlain();
    PatternSurvives(REDACTED, p);
  }

  lemma {:induction false} StoredUnits(p: Str)
    ensures forall k :: 0 <= k < |p| && !IsSurrogate(p[k]) ==> Stored(p)[k] == p[k]
    decreases |p|
  {
    if p != [] {
      if StartsWithPair(p) { StoredUnits(p[2..]); } else { StoredUnits(p[1..]); }
    }
  }

  lemma ConnectConserves(s: State, seed: Option<Str>)
    requires Covered(s)
    ensures Sound(Next(s, Connect(seed)).counts)
    ensures SameDrift(s, Next(s, Connect(seed))) <==> Conserves(s, Connect(seed))
  {
    var s' := Next(s, Connect(seed));
    match seed
    case None =>
      forall x ensures Drift(s', x) == Drift(s, x) { LiveAppend(s.holders, Connection(None), x); }
    case Some(p) =>
      if !HasNewline(p) && Register(s.counts, p).1 {
        StoringDriftZero(p);
        ConnectDrift(s, p, p);
        forall x ensures Drift(s', x) == Drift(s, x) + StoringDrift(p, x) { ConnectDrift(s, p, x); }
      }
  }

  lemma CacheConserves(s: State, i: nat, p: Str)
    requires Covered(s) && Enabled(s, Cache(i, p))
    ensures Sound(Next(s, Cache(i, p)).counts)
    ensures SameDrift(s, Next(s, Cache(i, p))) <==> Conserves(s, Cache(i, p))
  {
    var s' := Next(s, Cache(i, p));
    if HasNewline(p) {
      assert s' == s;
    } else if Register(s.counts, p).1 {
      StoringDriftZero(p);
      CacheAcceptedDrift(s, i, p, p);
      forall x ensures Drift(s', x) == Drift(s, x) + StoringDrift(p, x) { CacheAcceptedDrift(s, i, p, x); }
    } else {
      var cached := s.holders[i].cached;
      CacheRefusedDrift(s, i, p, p);
      forall x ensures Drift(s', x) == Drift(s, x) + CachedTally(cached, x) { CacheRefusedDrift(s, i, p, x); }
      if cached.Some? && Registrable(cached.value) { assert Drift(s', cached.value) == Drift(s, cached.value) + 1; }
    }
  }

  /** Exactly which steps keep the balance, whatever else is open: a step changes no secret's count but by
      what becomes live or ceases to be, if and only if it is one of the conserving ones. */
  lemma StepBalance(s: State, step: Step)
    requires Covered(s) && Enabled(s, step)
    ensures Sound(Next(s, step).counts)
    ensures SameDrift(s, Next(s, step)) <==> Conserves(s, step)
  {
    match step
    case OpenScope(secrets) => if AllAllowed(secrets) { OpenScopeDrift(s, secrets); }
    case CloseScope(i) => CloseScopeDrift(s, i);
    case OpenRun => OpenRunDrift(s);
    case RegisterInRun(i, secret) => if Registrable(secret) { RegisterInRunDrift(s, i, secret); }
    case RegisterUnscoped(secret) => RegisterUnscopedDrift(s, secret);
    case CloseRun(i) => CloseRunDrift(s, i);
    case Connect(seed) => ConnectConserves(s, seed);
    case Cache(i, p) => CacheConserves(s, i, p);
    case Clear(i) => ClearDrift(s, i);
  }

  // ----- Over every run

  predicate AllConserve(s: State, steps: seq<Step>)
    requires IsRun(s, steps)
    decreases |steps|
  {
    steps != [] ==> Conserves(s, steps[0]) && AllConserve(Next(s, steps[0]), steps[1..])
  }

  lemma {:induction false} RunsKeepDrift(s: State, steps: seq<Step>)
    requires Covered(s) && IsRun(s, steps) && AllConserve(s, steps)
    ensures Covered(After(s, steps)) && SameDrift(s, After(s, steps))
    decreases |steps|
  {
    if steps != [] {
      StepBalance(s, steps[0]);
      RunsKeepDrift(Next(s, steps[0]), steps[1..]);
    }
  }

  /** Nothing open, nothing cached, nothing registered outside a scope. */
  predicate AllClosed(s: State) {
    forall i | 0 <= i < |s.holders| :: s.holders[i] == Connection(None)
  }

  lemma {:induction false} NothingLive(holders: seq<Holder>, x: Str)
    requires forall i :: 0 <= i < |holders| ==> holders[i] == Connection(None)
    ensures Live(holders, x) == 0
    decreases |holders|
  {
    if holders != [] { NothingLive(holders[..|holders| - 1], x); }
  }

  /** In every interleaving the count of every secret is the number of its live registrations, and the
      sink is empty once everything is closed. */
  lemma RegistrationsConserved(steps: seq<Step>)
    requires IsRun(INITIAL, steps) && AllConserve(INITIAL, steps)
    ensures var s := After(INITIAL, steps);
            && (forall x :: Count(s.counts, x) == Live(s.holders, x))
            && (AllClosed(s) ==> s.counts == map[])
  {
    RunsKeepDrift(INITIAL, steps);
    var s := After(INITIAL, steps);
    forall x ensures Count(s.counts, x) == Live(s.holders, x) { assert Drift(s, x) == Drift(INITIAL, x) == 0; }
    if AllClosed(s) {
      forall x ensures x !in s.counts { NothingLive(s.holders, x); }
    }
  }

  /** The other side: after a refused rotation the previous password stays in the sink for good, even
      when everything has been closed again. */
  lemma RefusedRotationOrphans(s: State, i: nat, p: Str, steps: seq<Step>)
    requires Covered(s) && Enabled(s, Cache(i, p)) && !HasNewline(p) && Includes(p, REDACTED)
    requires s.holders[i].cached.Some? && Registrable(s.holders[i].cached.value)
    requires IsRun(Next(s, Cache(i, p)), steps) && AllConserve(Next(s, Cache(i, p)), steps)
    ensures s.holders[i].cached.value in After(Next(s, Cache(i, p)), steps).counts
  {
    var previous, s' := s.holders[i].cached.value, Next(s, Cache(i, p));
    PlaceholderSurvives(p);
    forall x ensures Drift(s', x) == Drift(s, x) + One(previous, x) { CacheRefusedDrift(s, i, p, x); }
    StepBalance(s, Cache(i, p));
    RunsKeepDrift(s', steps);
    var end := After(s', steps);
    assert Drift(end, previous) == Drift(s', previous) >= 1;
    assert Count(end.counts, previous) >= 1;
  }
}
