/** Serialised playbook imports (packages/paratix/src/cli.ts): a promise chain per playbook in a map whose
    entries are pruned when the last of the chain leaves. Outermost calls only; a call from inside an
    import body bypasses the lock. */
module PlaybookLock {
  import opened Wrappers

  type LockKey = string

  /** One call, which also names the promise it puts into the map. */
  type Caller = nat

  const DEFAULT_KEY: LockKey := "__paratix_default_playbook_lock__"

  function KeyFor(fileUrl: Option<string>): LockKey {
    if fileUrl.Some? then fileUrl.value else DEFAULT_KEY
  }

  // ----- The map

  type Locks = map<LockKey, Caller>

  /** Entering: the promise to wait for, and the map with the caller's own promise. */
  function Entered(locks: Locks, c: Caller, key: LockKey): (Locks, Option<Caller>) {
    (locks[key := c], if key in locks then Some(locks[key]) else None)
  }

  /** Leaving: the entry goes only if nobody has queued behind. */
  function Left(locks: Locks, c: Caller, key: LockKey): Locks {
    if key in locks && locks[key] == c then locks - {key} else locks
  }

  class PlaybookImportLocks {
    var locks: Locks

    constructor ()
      ensures locks == map[]
    {
      locks := map[];
    }

    method Enter(c: Caller, fileUrl: Option<string>) returns (previousImport: Option<Caller>)
      modifies this
      ensures (locks, previousImport) == Entered(old(locks), c, KeyFor(fileUrl))
    {
      var lockKey := if fileUrl.Some? then fileUrl.value else DEFAULT_KEY;
      previousImport := if lockKey in locks then Some(locks[lockKey]) else None;
      locks := locks[lockKey := c];
    }

    method Leave(c: Caller, lockKey: LockKey)
      modifies this
      ensures locks == Left(old(locks), c, lockKey)
    {
      if lockKey in locks && locks[lockKey] == c { locks := locks - {lockKey}; }
    }
  }

  // ----- Every interleaving

  datatype Phase = Waiting | Running | Done(rejected: bool)

  datatype Call = Call(key: LockKey, previous: Option<Caller>, phase: Phase)

  /** `arrivals` and `starts` record the order in which calls entered and bodies began. */
  datatype State = State(locks: Locks, calls: map<Caller, Call>, arrivals: seq<Caller>, starts: seq<Caller>)

  const INITIAL := State(map[], map[], [], [])

  /** A call enters; the promise it waits for has settled and its body begins; its body settles, one way or
      the other, and the finally block runs. */
  datatype Step = Arrive(c: Caller, key: LockKey) | Begin(c: Caller) | Settle(c: Caller, rejected: bool)

  /** A promise in the chain is resolved once its call is done. */
  predicate Resolved(calls: map<Caller, Call>, p: Option<Caller>) {
    p.Some? ==> p.value in calls && calls[p.value].phase.Done?
  }

  predicate Enabled(s: State, step: Step) {
    match step
    case Arrive(c, _) => c !in s.calls
    case Begin(c) => c in s.calls && s.calls[c].phase.Waiting? && Resolved(s.calls, s.calls[c].previous)
    case Settle(c, _) => c in s.calls && s.calls[c].phase.Running?
  }

  function Next(s: State, step: Step): State
    requires Enabled(s, step)
  {
    match step
    case Arrive(c, key) =>
      var entered := Entered(s.locks, c, key);
      State(entered.0, s.calls[c := Call(key, entered.1, Waiting)], s.arrivals + [c], s.starts)
    case Begin(c) =>
      s.(calls := s.calls[c := s.calls[c].(phase := Running)], starts := s.starts + [c])
    case Settle(c, rejected) =>
      s.(calls := s.calls[c := s.calls[c].(phase := Done(rejected))], locks := Left(s.locks, c, s.calls[c].key))
  }

  predicate IsRun(s: State, steps: seq<Step>)
    decreases |steps|
  {
    steps != [] ==> Enabled(s, steps[0]) && IsRun(Next(s, steps[0]), steps[1..])
  }

  function After(s: State, steps: seq<Step>): State
    requires IsRun(s, steps)
    decreases |steps|
  {
    if steps == [] then s else After(Next(s, steps[0]), steps[1..])
  }

  // ----- Queues

  /** Which calls of a key to list: all, those that are not done, those that have not begun. */
  datatype Kind = Every | Unfinished | Unstarted

  predicate Listed(call: Call, key: LockKey, kind: Kind) {
    && call.key == key
    && (kind.Unfinished? ==> !call.phase.Done?)
    && (kind.Unstarted? ==> call.phase.Waiting?)
  }

  function Select(callers: seq<Caller>, calls: map<Caller, Call>, key: LockKey, kind: Kind): seq<Caller> {
    if callers == [] then []
    else
      var last := callers[|callers| - 1];
      Select(callers[..|callers| - 1], calls, key, kind)
      + if last in calls && Listed(calls[last], key, kind) then [last] else []
  }

  function Queue(s: State, key: LockKey): seq<Caller> {
    Select(s.arrivals, s.calls, key, Unfinished)
  }

  lemma {:induction false} SelectMembers(callers: seq<Caller>, calls: map<Caller, Call>, key: LockKey, kind: Kind, c: Caller)
    ensures c in Select(callers, calls, key, kind) <==> c in callers && c in calls && Listed(calls[c], key, kind)
    decreases |callers|
  {
    if callers != [] {
      SelectMembers(callers[..|callers| - 1], calls, key, kind, c);
      assert callers == callers[..|callers| - 1] + [callers[|callers| - 1]];
    }
  }

  /** A change to one call that the list does not look at, or to one that is not in it, changes nothing. */
  lemma {:induction false} SelectFrame(callers: seq<Caller>, calls: map<Caller, Call>, key: LockKey, kind: Kind,
                                       c: Caller, call: Call)
    requires c !in callers
          || (c in calls && (Listed(calls[c], key, kind) <==> Listed(call, key, kind)))
    ensures Select(callers, calls[c := call], key, kind) == Select(callers, calls, key, kind)
    decreases |callers|
  {
    if callers != [] {
      assert callers[..|callers| - 1] + [callers[|callers| - 1]] == callers;
      SelectFrame(callers[..|callers| - 1], calls, key, kind, c, call);
    }
  }

  predicate Distinct(callers: seq<Caller>) {
    forall i, j :: 0 <= i < j < |callers| ==> callers[i] != callers[j]
  }

  /** The head of a list leaves it. */
  lemma {:induction false} SelectHeadLeaves(callers: seq<Caller>, calls: map<Caller, Call>, key: LockKey, kind: Kind,
                                            c: Caller, call: Call)
    requires Distinct(callers) && c in calls && !Listed(call, key, kind)
    requires Select(callers, calls, key, kind) != [] && Select(callers, calls, key, kind)[0] == c
    ensures Select(callers, calls[c := call], key, kind) == Select(callers, calls, key, kind)[1..]
    decreases |callers|
  {
    var init, last := callers[..|callers| - 1], callers[|callers| - 1];
    var front := Select(init, calls, key, kind);
    if front == [] {
      SelectMembers(init, calls, key, kind, c);
      assert last == c;
      SelectFrame(init, calls, key, kind, c, call);
    } else {
      assert front[0] == c;
      SelectMembers(init, calls, key, kind, c);
      assert last != c;
      SelectHeadLeaves(init, calls, key, kind, c, call);
    }
  }

  lemma SelectAppend(callers: seq<Caller>, calls: map<Caller, Call>, key: LockKey, kind: Kind, c: Caller)
    requires c in calls
    ensures Select(callers + [c], calls, key, kind)
         == Select(callers, calls, key, kind) + if Listed(calls[c], key, kind) then [c] else []
  {
    assert (callers + [c])[..|callers|] == callers;
  }

  // ----- The invariant

  /** The unfinished calls of a key form one chain: each waits for the one before it, the head waits for
      nobody, only the head may run, and the map holds the last one. */
  ghost predicate Chain(q: seq<Caller>, calls: map<Caller, Call>, locks: Locks, key: LockKey) {
    && (forall i :: 0 <= i < |q| ==> q[i] in calls)
    && (q == [] ==> key !in locks)
    && (q != [] ==> key in locks && locks[key] == q[|q| - 1] && Resolved(calls, calls[q[0]].previous))
    && (forall i :: 0 < i < |q| ==> calls[q[i]].previous == Some(q[i - 1]) && calls[q[i]].phase == Waiting)
  }

  ghost predicate Chained(s: State, key: LockKey) {
    Chain(Queue(s, key), s.calls, s.locks, key)
  }

  lemma ChainGrows(q: seq<Caller>, calls: map<Caller, Call>, locks: Locks, key: LockKey, c: Caller)
    requires Chain(q, calls, locks, key) && c !in calls
    ensures Chain(q + [c], calls[c := Call(key, Entered(locks, c, key).1, Waiting)], Entered(locks, c, key).0, key)
  {}

  /** A change to a call outside the queue, if it resolves promises rather than the reverse. */
  lemma ChainElsewhere(q: seq<Caller>, calls: map<Caller, Call>, locks: Locks, key: LockKey,
                       c: Caller, call: Call, locks': Locks)
    requires Chain(q, calls, locks, key)
    requires (c in calls && calls[c].phase.Done? ==> call.phase.Done?) && forall i :: 0 <= i < |q| ==> q[i] != c
    requires (key in locks' <==> key in locks) && (key in locks ==> locks'[key] == locks[key])
    ensures Chain(q, calls[c := call], locks', key)
  {}

  lemma ChainHeadBegins(q: seq<Caller>, calls: map<Caller, Call>, locks: Locks, key: LockKey)
    requires Chain(q, calls, locks, key) && q != [] && !calls[q[0]].phase.Done?
    requires forall i :: 0 < i < |q| ==> q[i] != q[0]
    ensures Chain(q, calls[q[0] := calls[q[0]].(phase := Running)], locks, key)
  {}

  lemma ChainHeadSettles(q: seq<Caller>, calls: map<Caller, Call>, locks: Locks, key: LockKey, rejected: bool)
    requires Chain(q, calls, locks, key) && q != [] && Distinct(q)
    ensures Chain(q[1..], calls[q[0] := calls[q[0]].(phase := Done(rejected))], Left(locks, q[0], key), key)
  {
    var tail := q[1..];
    assert forall i :: 0 <= i < |tail| ==> tail[i] == q[i + 1];
  }

  /** Bodies began in the order of arrival, and whoever has not begun comes after them. */
  ghost predicate Fifo(s: State, key: LockKey) {
    Select(s.arrivals, s.calls, key, Every)
    == Select(s.starts, s.calls, key, Every) + Select(s.arrivals, s.calls, key, Unstarted)
  }

  ghost predicate Inv(s: State) {
    && Distinct(s.arrivals)
    && (forall c :: c in s.calls <==> c in s.arrivals)
    && (forall c :: c in s.starts ==> c in s.calls)
    && (forall key :: Chained(s, key) && Fifo(s, key))
  }

  lemma ArriveSelects(s: State, c: Caller, key: LockKey, k: LockKey, kind: Kind)
    requires Inv(s) && c !in s.calls
    ensures var s' := Next(s, Arrive(c, key));
            Select(s'.arrivals, s'.calls, k, kind) == Select(s.arrivals, s.calls, k, kind) + if k == key then [c] else []
    ensures var s' := Next(s, Arrive(c, key));
            Select(s'.starts, s'.calls, k, kind) == Select(s.starts, s.calls, k, kind)
  {
    var s' := Next(s, Arrive(c, key));
    SelectFrame(s.arrivals, s.calls, k, kind, c, s'.calls[c]);
    SelectFrame(s.starts, s.calls, k, kind, c, s'.calls[c]);
    SelectAppend(s.arrivals, s'.calls, k, kind, c);
  }

  lemma ArriveFifo(s: State, c: Caller, key: LockKey, k: LockKey)
    requires Inv(s) && c !in s.calls
    ensures Fifo(Next(s, Arrive(c, key)), k)
  {
    ArriveSelects(s, c, key, k, Every);
    ArriveSelects(s, c, key, k, Unstarted);
    assert Fifo(s, k);
  }

  lemma QueueMember(s: State, k: LockKey, i: nat)
    requires i < |Queue(s, k)|
    ensures var c := Queue(s, k)[i]; c in s.calls && s.calls[c].key == k && !s.calls[c].phase.Done?
  {
    SelectMembers(s.arrivals, s.calls, k, Unfinished, Queue(s, k)[i]);
  }

  lemma ArriveChained(s: State, c: Caller, key: LockKey, k: LockKey)
    requires Inv(s) && c !in s.calls
    ensures Chained(Next(s, Arrive(c, key)), k)
  {
    var q, s' := Queue(s, k), Next(s, Arrive(c, key));
    ArriveSelects(s, c, key, k, Unfinished);
    assert Chained(s, k);
    if k == key {
      ChainGrows(q, s.calls, s.locks, k, c);
    } else {
      ChainElsewhere(q, s.calls, s.locks, k, c, s'.calls[c], s'.locks);
      assert q + [] == q;
    }
  }

  /** Behind the head of a queue nobody's turn has come. */
  lemma NotBehind(s: State, k: LockKey, i: nat)
    requires Chained(s, k) && 0 < i < |Queue(s, k)|
    ensures Queue(s, k)[i] in s.calls && !Resolved(s.calls, s.calls[Queue(s, k)[i]].previous)
    ensures s.calls[Queue(s, k)[i]].phase.Waiting?
  {
    QueueMember(s, k, i - 1);
  }

  /** A call whose turn has come, or that runs, is the head of its queue. */
  lemma AtHead(s: State, c: Caller)
    requires Inv(s) && c in s.calls && !s.calls[c].phase.Done?
    requires s.calls[c].phase.Running? || Resolved(s.calls, s.calls[c].previous)
    ensures var q := Queue(s, s.calls[c].key); q != [] && q[0] == c
  {
    var key := s.calls[c].key;
    assert Chained(s, key);
    SelectMembers(s.arrivals, s.calls, key, Unfinished, c);
    var i :| 0 <= i < |Queue(s, key)| && Queue(s, key)[i] == c;
    if i > 0 { NotBehind(s, key, i); }
  }

  /** If the first unfinished call has not begun, it is the first that has not begun. */
  lemma {:induction false} UnstartedHead(callers: seq<Caller>, calls: map<Caller, Call>, key: LockKey)
    requires var q := Select(callers, calls, key, Unfinished);
             q != [] ==> q[0] in calls && calls[q[0]].phase.Waiting?
    ensures var q, u := Select(callers, calls, key, Unfinished), Select(callers, calls, key, Unstarted);
            if q == [] then u == [] else u != [] && u[0] == q[0]
    decreases |callers|
  {
    if callers != [] { UnstartedHead(callers[..|callers| - 1], calls, key); }
  }

  lemma BeginFifo(s: State, c: Caller, k: LockKey)
    requires Inv(s) && Enabled(s, Begin(c))
    ensures Fifo(Next(s, Begin(c)), k)
  {
    var s' := Next(s, Begin(c));
    var call := s'.calls[c];
    assert Fifo(s, k);
    SelectFrame(s.arrivals, s.calls, k, Every, c, call);
    SelectFrame(s.starts, s.calls, k, Every, c, call);
    SelectAppend(s.starts, s'.calls, k, Every, c);
    if k == call.key {
      AtHead(s, c);
      UnstartedHead(s.arrivals, s.calls, k);
      SelectHeadLeaves(s.arrivals, s.calls, k, Unstarted, c, call);
      var u := Select(s.arrivals, s.calls, k, Unstarted);
      assert u == [c] + u[1..];
    } else {
      SelectFrame(s.arrivals, s.calls, k, Unstarted, c, call);
    }
  }

  lemma BeginChained(s: State, c: Caller, k: LockKey)
    requires Inv(s) && Enabled(s, Begin(c))
    ensures Chained(Next(s, Begin(c)), k)
  {
    var s', q := Next(s, Begin(c)), Queue(s, k);
    assert Chained(s, k);
    SelectFrame(s.arrivals, s.calls, k, Unfinished, c, s'.calls[c]);
    if k == s.calls[c].key {
      AtHead(s, c);
      SelectDistinct(s.arrivals, s.calls, k, Unfinished);
      ChainHeadBegins(q, s.calls, s.locks, k);
    } else {
      forall i | 0 <= i < |q| ensures q[i] != c { QueueMember(s, k, i); }
      ChainElsewhere(q, s.calls, s.locks, k, c, s'.calls[c], s.locks);
    }
  }

  lemma SettleFifo(s: State, c: Caller, rejected: bool, k: LockKey)
    requires Inv(s) && Enabled(s, Settle(c, rejected))
    ensures Fifo(Next(s, Settle(c, rejected)), k)
  {
    var call := Next(s, Settle(c, rejected)).calls[c];
    assert Fifo(s, k);
    SelectFrame(s.arrivals, s.calls, k, Unstarted, c, call);
    SelectFrame(s.arrivals, s.calls, k, Every, c, call);
    SelectFrame(s.starts, s.calls, k, Every, c, call);
  }

  lemma SettleChained(s: State, c: Caller, rejected: bool, k: LockKey)
    requires Inv(s) && Enabled(s, Settle(c, rejected))
    ensures Chained(Next(s, Settle(c, rejected)), k)
  {
    var s', q := Next(s, Settle(c, rejected)), Queue(s, k);
    var call := s'.calls[c];
    assert Chained(s, k);
    if k == call.key {
      AtHead(s, c);
      SelectDistinct(s.arrivals, s.calls, k, Unfinished);
      ChainHeadSettles(q, s.calls, s.locks, k, rejected);
      SelectHeadLeaves(s.arrivals, s.calls, k, Unfinished, c, call);
    } else {
      SelectFrame(s.arrivals, s.calls, k, Unfinished, c, call);
      forall i | 0 <= i < |q| ensures q[i] != c { QueueMember(s, k, i); }
      ChainElsewhere(q, s.calls, s.locks, k, c, call, s'.locks);
    }
  }

  lemma {:induction false} SelectDistinct(callers: seq<Caller>, calls: map<Caller, Call>, key: LockKey, kind: Kind)
    requires Distinct(callers)
    ensures Distinct(Select(callers, calls, key, kind))
    decreases |callers|
  {
    if callers != [] {
      var init, last := callers[..|callers| - 1], callers[|callers| - 1];
      SelectDistinct(init, calls, key, kind);
      SelectMembers(init, calls, key, kind, last);
    }
  }

  lemma StepKeepsInv(s: State, step: Step)
    requires Inv(s) && Enabled(s, step)
    ensures Inv(Next(s, step))
  {
    forall k ensures Chained(Next(s, step), k) && Fifo(Next(s, step), k) {
      match step
      case Arrive(c, key) => ArriveChained(s, c, key, k); ArriveFifo(s, c, key, k);
      case Begin(c) => BeginChained(s, c, k); BeginFifo(s, c, k);
      case Settle(c, rejected) => SettleChained(s, c, rejected, k); SettleFifo(s, c, rejected, k);
    }
  }

  lemma {:induction false} RunsKeepInv(s: State, steps: seq<Step>)
    requires Inv(s) && IsRun(s, steps)
    ensures Inv(After(s, steps))
    decreases |steps|
  {
    if steps != [] {
      StepKeepsInv(s, steps[0]);
      RunsKeepInv(Next(s, steps[0]), steps[1..]);
    }
  }

  // ----- What every run guarantees

  /** Import bodies of one playbook never overlap. */
  lemma BodiesNeverOverlap(steps: seq<Step>, c: Caller, d: Caller)
    requires IsRun(INITIAL, steps)
    requires var s := After(INITIAL, steps);
             c in s.calls && d in s.calls && s.calls[c].phase.Running? && s.calls[d].phase.Running?
             && s.calls[c].key == s.calls[d].key
    ensures c == d
  {
    RunsKeepInv(INITIAL, steps);
    AtHead(After(INITIAL, steps), c);
    AtHead(After(INITIAL, steps), d);
  }

  /** Bodies of one playbook begin in the order in which their calls arrived, also after rejections. */
  lemma BodiesBeginInOrder(steps: seq<Step>, key: LockKey)
    requires IsRun(INITIAL, steps)
    ensures var s := After(INITIAL, steps);
            Select(s.starts, s.calls, key, Every) <= Select(s.arrivals, s.calls, key, Every)
  {
    RunsKeepInv(INITIAL, steps);
    assert Fifo(After(INITIAL, steps), key);
  }

  /** A key is absent from the map exactly when no call for it is queued or running. */
  lemma PruningIsExact(steps: seq<Step>, key: LockKey)
    requires IsRun(INITIAL, steps)
    ensures var s := After(INITIAL, steps);
            key !in s.locks <==> forall c :: c in s.calls && s.calls[c].key == key ==> s.calls[c].phase.Done?
  {
    RunsKeepInv(INITIAL, steps);
    var s := After(INITIAL, steps);
    var q := Queue(s, key);
    assert Chained(s, key);
    forall c | c in s.calls && s.calls[c].key == key ensures q == [] ==> s.calls[c].phase.Done? {
      SelectMembers(s.arrivals, s.calls, key, Unfinished, c);
    }
    if q != [] { SelectMembers(s.arrivals, s.calls, key, Unfinished, q[0]); }
  }

  /** A playbook whose queue is not empty can always go on by a step of its own: calls for other playbooks
      are never waited for. */
  lemma KeysAreIndependent(steps: seq<Step>, c: Caller)
    requires IsRun(INITIAL, steps)
    requires var s := After(INITIAL, steps); c in s.calls && !s.calls[c].phase.Done?
    ensures var s := After(INITIAL, steps);
            exists d :: d in s.calls && s.calls[d].key == s.calls[c].key && (Enabled(s, Begin(d)) || Enabled(s, Settle(d, false)))
  {
    RunsKeepInv(INITIAL, steps);
    var s := After(INITIAL, steps);
    var key := s.calls[c].key;
    assert Chained(s, key);
    SelectMembers(s.arrivals, s.calls, key, Unfinished, c);
    var d := Queue(s, key)[0];
    SelectMembers(s.arrivals, s.calls, key, Unfinished, d);
    assert Enabled(s, Begin(d)) || Enabled(s, Settle(d, false));
  }

  /** Two files share a lock exactly if they are one; calls without a file share that of the default key. */
  lemma KeysTellFilesApart(a: string, b: string)
    ensures KeyFor(Some(a)) == KeyFor(Some(b)) <==> a == b
    ensures KeyFor(None) == KeyFor(Some(a)) <==> a == DEFAULT_KEY
  {}
}
