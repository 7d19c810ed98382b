/** The cap on SSH session channels (packages/paratix/src/ssh.ts): a counter and a queue of resolvers,
    with a freed slot handed straight to the next waiter. Resolving a promise only schedules its
    continuation, so a grant and the resumption of the granted caller are separate steps and anything may
    run in between. */
module SessionChannels {
  import opened Wrappers

  const MAX_CONCURRENT_SESSION_CHANNELS := 4

  /** One call of `execPrepared` or `execRaw`; every call is a new caller. */
  type Caller = nat

  // ----- The object

  datatype Slots = Slots(active: int, waiters: seq<Caller>)

  /** The state after a claim, and whether the slot was claimed at once. */
  function Acquire(s: Slots, c: Caller): (Slots, bool) {
    if s.active < MAX_CONCURRENT_SESSION_CHANNELS && |s.waiters| == 0
    then (s.(active := s.active + 1), true)
    else (s.(waiters := s.waiters + [c]), false)
  }

  /** The state after a release, and the waiter that now owns the slot. */
  function Release(s: Slots): (Slots, Option<Caller>) {
    if |s.waiters| > 0 then (s.(waiters := s.waiters[1..]), Some(s.waiters[0]))
    else (s.(active := s.active - 1), None)
  }

  class SessionChannelSlots {
    var activeSessionChannels: int
    var sessionChannelWaiters: seq<Caller>

    function Contents(): Slots
      reads this
    {
      Slots(activeSessionChannels, sessionChannelWaiters)
    }

    constructor ()
      ensures Contents() == Initial().slots
    {
      activeSessionChannels := 0;
      sessionChannelWaiters := [];
    }

    method AcquireSessionChannel(c: Caller) returns (immediate: bool)
      modifies this
      ensures (Contents(), immediate) == Acquire(old(Contents()), c)
    {
      if activeSessionChannels < MAX_CONCURRENT_SESSION_CHANNELS && |sessionChannelWaiters| == 0 {
        activeSessionChannels := activeSessionChannels + 1;
        return true;
      }
      sessionChannelWaiters := sessionChannelWaiters + [c];
      immediate := false;
    }

    method ReleaseSessionChannel() returns (next: Option<Caller>)
      modifies this
      ensures (Contents(), next) == Release(old(Contents()))
    {
      if |sessionChannelWaiters| > 0 {
        next := Some(sessionChannelWaiters[0]);
        sessionChannelWaiters := sessionChannelWaiters[1..];
        return;
      }
      activeSessionChannels := activeSessionChannels - 1;
      next := None;
    }
  }

  // ----- Every interleaving

  /** `granted` holds the callers whose promise is resolved and whose continuation has not run yet;
      `queued` and `handed` record, in order, who ever waited and who was handed a slot. */
  datatype State = State(slots: Slots, granted: set<Caller>, running: set<Caller>, finished: set<Caller>,
                         queued: seq<Caller>, handed: seq<Caller>)

  function Initial(): State {
    State(Slots(0, []), {}, {}, {}, [], [])
  }

  /** Entering `acquireSessionChannel`, resuming after the await, and the `finally` of the call. */
  datatype Step = Arrive(c: Caller) | Resume(c: Caller) | Finish(c: Caller)

  predicate Known(s: State, c: Caller) {
    c in s.granted || c in s.running || c in s.finished || c in s.slots.waiters
  }

  predicate Enabled(s: State, step: Step) {
    match step
    case Arrive(c) => !Known(s, c)
    case Resume(c) => c in s.granted
    case Finish(c) => c in s.running
  }

  function Next(s: State, step: Step): State
    requires Enabled(s, step)
  {
    match step
    case Arrive(c) =>
      var r := Acquire(s.slots, c);
      if r.1 then s.(slots := r.0, running := s.running + {c})
      else s.(slots := r.0, queued := s.queued + [c])
    case Resume(c) =>
      s.(granted := s.granted - {c}, running := s.running + {c})
    case Finish(c) =>
      var r := Release(s.slots);
      var left := s.(slots := r.0, running := s.running - {c}, finished := s.finished + {c});
      match r.1
      case None => left
      case Some(next) => left.(granted := s.granted + {next}, handed := s.handed + [next])
  }

  /** A sequence of steps that can be taken one after the other. */
  predicate IsRun(s: State, steps: seq<Step>)
    decreases |steps|
  {
    steps != [] ==> Enabled(s, steps[0]) && IsRun(Next(s, steps[0]), steps[1..])
  }

  function After(s: State, steps: seq<Step>): State
    requires IsRun(s, steps)
    decreases |steps|
  {
    if steps == [] then s else After(Next(s, steps[0]), steps[1..])
  }

  predicate Distinct(callers: seq<Caller>) {
    forall i, j :: 0 <= i < j < |callers| ==> callers[i] != callers[j]
  }

  /** Claimed slots are the running callers and the granted ones that have not resumed; they never
      exceed the cap; callers wait only while every slot is claimed; nobody is in two places; and the
      callers that waited were handed their slots in the order of arrival. */
  ghost predicate Consistent(s: State) {
    && s.slots.active == |s.running| + |s.granted|
    && 0 <= s.slots.active <= MAX_CONCURRENT_SESSION_CHANNELS
    && (|s.slots.waiters| > 0 ==> s.slots.active == MAX_CONCURRENT_SESSION_CHANNELS)
    && s.running !! s.granted && s.running !! s.finished && s.granted !! s.finished
    && Distinct(s.slots.waiters)
    && (forall c :: c in s.slots.waiters ==> c !in s.running && c !in s.granted && c !in s.finished)
    && s.queued == s.handed + s.slots.waiters
  }

  lemma StepKeepsConsistent(s: State, step: Step)
    requires Consistent(s) && Enabled(s, step)
    ensures Consistent(Next(s, step))
  {
    match step
    case Arrive(c) => ArriveKeeps(s, c);
    case Resume(c) =>
    case Finish(c) => FinishKeeps(s, c);
  }

  lemma ArriveKeeps(s: State, c: Caller)
    requires Consistent(s) && !Known(s, c)
    ensures Consistent(Next(s, Arrive(c)))
  {
    var s' := Next(s, Arrive(c));
    if !Acquire(s.slots, c).1 {
      assert s'.queued == s.handed + (s.slots.waiters + [c]);
    }
  }

  lemma FinishKeeps(s: State, c: Caller)
    requires Consistent(s) && c in s.running
    ensures Consistent(Next(s, Finish(c)))
  {
    var w := s.slots.waiters;
    if |w| > 0 {
      assert w == [w[0]] + w[1..];
      assert s.handed + w == (s.handed + [w[0]]) + w[1..];
      assert forall i :: 0 <= i < |w[1..]| ==> w[1..][i] == w[i + 1];
    }
  }

  /** Safety over every run, whatever the interleaving. */
  lemma {:induction false} EveryRunIsConsistent(s: State, steps: seq<Step>)
    requires Consistent(s) && IsRun(s, steps)
    ensures Consistent(After(s, steps))
    decreases |steps|
  {
    if steps != [] {
      StepKeepsConsistent(s, steps[0]);
      EveryRunIsConsistent(Next(s, steps[0]), steps[1..]);
    }
  }

  /** The cap itself: from the start, never more than four callers between claim and release. */
  lemma CapHolds(steps: seq<Step>)
    requires IsRun(Initial(), steps)
    ensures var s := After(Initial(), steps);
            |s.running| + |s.granted| == s.slots.active <= 4 && s.handed <= s.queued
  {
    EveryRunIsConsistent(Initial(), steps);
  }

  /** No slot is lost: once everybody who came has left, all four slots are free again; and while anyone
      waits some step towards a release is possible. */
  lemma NothingIsLost(steps: seq<Step>)
    requires IsRun(Initial(), steps)
    ensures var s := After(Initial(), steps);
            && (s.running == {} && s.granted == {} ==> s.slots == Slots(0, []))
            && (s.slots.waiters != [] ==> exists c :: c in s.granted || c in s.running)
  {
    EveryRunIsConsistent(Initial(), steps);
    var s := After(Initial(), steps);
    if s.slots.waiters != [] {
      if s.granted == {} { assert s.running != {}; }
      assert s.granted + s.running != {};
      var c :| c in s.granted + s.running;
      assert c in s.granted || c in s.running;
    }
  }

  function Releases(steps: seq<Step>): nat
    decreases |steps|
  {
    if steps == [] then 0 else (if steps[0].Finish? then 1 else 0) + Releases(steps[1..])
  }

  /** Where the caller with `k` before it stands after `n` releases. */
  ghost predicate Advanced(s: State, c: Caller, k: nat, n: nat) {
    if n <= k then k - n < |s.slots.waiters| && s.slots.waiters[k - n] == c
    else c !in s.slots.waiters && c in s.handed
  }

  lemma HeadIsHanded(s: State, step: Step)
    requires Consistent(s) && Enabled(s, step) && step.Finish? && |s.slots.waiters| > 0
    ensures var s', c := Next(s, step), s.slots.waiters[0];
            s'.slots.waiters == s.slots.waiters[1..] && c in s'.handed && c in s'.granted
  {
    assert Next(s, step).handed[|s.handed|] == s.slots.waiters[0];
  }

  /** A waiter's rank falls by one with every release and with nothing else: over every run, the caller
      with `k` before it still waits, `k` less the releases before it, up to the k-th release, and the
      release after that hands it the slot. */
  lemma {:induction false} RankFalls(s: State, steps: seq<Step>, k: nat)
    requires Consistent(s) && IsRun(s, steps) && k < |s.slots.waiters|
    ensures Advanced(After(s, steps), s.slots.waiters[k], k, Releases(steps))
    decreases |steps|
  {
    if steps != [] {
      StepKeepsConsistent(s, steps[0]);
      var s' := Next(s, steps[0]);
      if !steps[0].Finish? {
        RankFalls(s', steps[1..], k);
      } else {
        HeadIsHanded(s, steps[0]);
        if k == 0 { HandedStays(s', steps[1..], s.slots.waiters[0]); } else { RankFalls(s', steps[1..], k - 1); }
      }
    }
  }

  lemma {:induction false} HandedStays(s: State, steps: seq<Step>, c: Caller)
    requires Consistent(s) && IsRun(s, steps) && c in s.handed && (c in s.granted || c in s.running || c in s.finished)
    ensures c in After(s, steps).handed && c !in After(s, steps).slots.waiters
    decreases |steps|
  {
    if steps != [] {
      StepKeepsConsistent(s, steps[0]);
      HandedStays(Next(s, steps[0]), steps[1..], c);
    }
  }

  /** Nobody waits for nothing: while anyone waits, all four slots are claimed; and whoever comes while fewer
      are claimed gets one at once. */
  lemma WaitsOnlyForFour(steps: seq<Step>, c: Caller)
    requires IsRun(Initial(), steps)
    ensures var s := After(Initial(), steps);
            && (s.slots.waiters != [] ==> |s.running| + |s.granted| == 4)
            && (|s.running| + |s.granted| < 4 ==> Acquire(s.slots, c).1)
  {
    EveryRunIsConsistent(Initial(), steps);
  }
}
