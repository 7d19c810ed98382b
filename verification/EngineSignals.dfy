/** When signal lists run: never without a changed step since the previous run of the list, after a
    failure only in one exactly described case, and always behind the last changed step of a loop
    that ends well. */
module EngineSignals {
  import opened Meta
  import opened Engine
  import opened EngineLedger

  predicate IsChange(e: LoopEvent) { e.Child? && e.status == Changed }

  predicate IsFailure(e: LoopEvent) {
    (e.Child? && e.status == Failed) || (e.SignalsRan? && e.run.failed)
  }

  /** A step has changed something since the signal list last ran. */
  ghost predicate ChangedSinceRun(h: seq<LoopEvent>, n: nat)
    requires n <= |h|
  {
    exists j | 0 <= j < n :: IsChange(h[j]) && NoRunBetween(h, j, n)
  }

  ghost predicate NoRunBetween(h: seq<LoopEvent>, j: nat, n: nat)
    requires j < n <= |h|
  {
    forall k | j < k < n :: !h[k].SignalsRan?
  }

  ghost predicate NoIdleRun(h: seq<LoopEvent>) {
    forall i | 0 <= i < |h| && h[i].SignalsRan? :: ChangedSinceRun(h, i)
  }

  ghost predicate NoFailure(h: seq<LoopEvent>) {
    forall i | 0 <= i < |h| :: !IsFailure(h[i])
  }

  ghost predicate NoRunAfterFailure(h: seq<LoopEvent>) {
    forall i, j | 0 <= i < j < |h| && IsFailure(h[i]) :: !h[j].SignalsRan?
  }

  ghost predicate EveryChangeSignalled(h: seq<LoopEvent>) {
    forall i | 0 <= i < |h| && IsChange(h[i]) :: exists j | i < j < |h| :: h[j].SignalsRan?
  }

  lemma ChangedSinceRunPrefix(h: seq<LoopEvent>, more: seq<LoopEvent>, n: nat)
    requires n <= |h|
    ensures ChangedSinceRun(h + more, n) <==> ChangedSinceRun(h, n)
  {
    forall j | 0 <= j < n
      ensures IsChange((h + more)[j]) && NoRunBetween(h + more, j, n) <==> IsChange(h[j]) && NoRunBetween(h, j, n)
    {
      assert (h + more)[j] == h[j];
      forall k | j < k < n ensures (h + more)[k] == h[k] {}
    }
  }

  lemma ChangedSinceRunSnoc(h: seq<LoopEvent>, e: LoopEvent)
    ensures var h' := h + [e];
            ChangedSinceRun(h', |h'|) <==> !e.SignalsRan? && (IsChange(e) || ChangedSinceRun(h, |h|))
  {
    var h' := h + [e];
    var n := |h|;
    ChangedSinceRunPrefix(h, [e], n);
    if ChangedSinceRun(h', n + 1) {
      var j :| 0 <= j < n + 1 && IsChange(h'[j]) && NoRunBetween(h', j, n + 1);
      if j < n { assert !h'[n].SignalsRan? && NoRunBetween(h', j, n); }
    }
    if !e.SignalsRan? && IsChange(e) { assert IsChange(h'[n]) && NoRunBetween(h', n, n + 1); }
    if !e.SignalsRan? && ChangedSinceRun(h', n) {
      var j :| 0 <= j < n && IsChange(h'[j]) && NoRunBetween(h', j, n);
      assert NoRunBetween(h', j, n + 1);
    }
  }

  lemma NoIdleRunSnoc(h: seq<LoopEvent>, e: LoopEvent)
    requires NoIdleRun(h) && (e.SignalsRan? ==> ChangedSinceRun(h, |h|))
    ensures NoIdleRun(h + [e])
  {
    var h' := h + [e];
    forall i | 0 <= i < |h'| && h'[i].SignalsRan? ensures ChangedSinceRun(h', i) {
      ChangedSinceRunPrefix(h, [e], i);
    }
  }

  /** Every change is followed by a run exactly when nothing is pending at the end. */
  lemma SignalledIffNothingPending(h: seq<LoopEvent>)
    ensures EveryChangeSignalled(h) <==> !ChangedSinceRun(h, |h|)
  {
    if !EveryChangeSignalled(h) {
      var i :| 0 <= i < |h| && IsChange(h[i]) && !exists j | i < j < |h| :: h[j].SignalsRan?;
      assert NoRunBetween(h, i, |h|);
    }
  }

  // ----- A signal list

  /** A list that neither failed nor was interrupted has started every signal; it stops at the first
      failure, and only a shutdown interrupts it. */
  lemma {:induction false} SignalRunMeaning(w: World, r: Module, k: nat, env: Environment, opts: Options, tr: Trace)
    requires r.Recipe? && r.signals.Signals? && k <= |r.signals.modules|
    ensures var (run, tr') := RunSignals(w, r, k, env, opts, tr);
            && k <= run.started <= |r.signals.modules|
            && (!run.failed && !run.interrupted ==> run.started == |r.signals.modules|)
            && (run.interrupted ==> opts.shutdownSignal && !run.failed)
            && (run.failed && opts.signalHooks ==> StatsFailed(tr'))
    decreases |r.signals.modules| - k
  {
    if k < |r.signals.modules| {
      var (stop, tr1) := Poll(w, opts, tr);
      if !stop {
        var (outcome, tr2) := RunOneSignal(w, r.signals.modules[k], env, opts, tr1);
        if outcome.SignalDone? { SignalRunMeaning(w, r, k + 1, outcome.env, opts, tr2); }
      }
    }
  }

  // ----- Recipes

  /** The loop of a recipe between two children. */
  ghost predicate Running(s: RecipeState) {
    && NoFailure(s.history) && s.status != Failed
    && NoIdleRun(s.history)
    && (s.signalsPending <==> ChangedSinceRun(s.history, |s.history|))
    && (s.signalsPending ==> s.status == Changed)
  }

  predicate FlushingFailure(e: LoopEvent) { e.Child? && e.status == Failed && e.flushSignals }

  /** A failed child asked for a flush while changes were pending: recipe.ts does not look at the
      status before it runs the signals. */
  ghost predicate FailedChildFlushes(h: seq<LoopEvent>, signals: Signals) {
    signals.Signals? && exists i | 0 <= i < |h| :: FlushingFailure(h[i]) && ChangedSinceRun(h, i)
  }

  ghost predicate LoopOver(s: RecipeState, signals: Signals) {
    && NoIdleRun(s.history)
    && (NoRunAfterFailure(s.history) <==> !FailedChildFlushes(s.history, signals))
    && (s.status != Failed ==> Running(s))
  }

  lemma RunningIsOver(s: RecipeState, signals: Signals)
    requires Running(s)
    ensures LoopOver(s, signals)
  {
    if FailedChildFlushes(s.history, signals) { FlushIsFailure(s.history, signals); }
  }

  lemma FlushIsFailure(h: seq<LoopEvent>, signals: Signals)
    requires FailedChildFlushes(h, signals)
    ensures !NoFailure(h)
  {
    var i :| 0 <= i < |h| && FlushingFailure(h[i]) && ChangedSinceRun(h, i);
    assert IsFailure(h[i]);
  }

  /** The failing child ends the loop without a run of the signals. */
  lemma FailedStepIsOver(s: RecipeState, e: LoopEvent, signals: Signals)
    requires Running(s) && e.Child? && e.status == Failed
    requires !(e.flushSignals && s.signalsPending && signals.Signals?)
    ensures var h := s.history + [e];
            NoIdleRun(h) && NoRunAfterFailure(h) && !FailedChildFlushes(h, signals)
  {
    var h, n := s.history, |s.history|;
    NoIdleRunSnoc(h, e);
    ChangedSinceRunPrefix(h, [e], n);
    forall i | 0 <= i < n ensures (h + [e])[i] == h[i] && !IsFailure(h[i]) {}
  }

  /** It asked for a flush with changes pending: the signals run behind the failure. */
  lemma FailedStepFlushes(s: RecipeState, e: LoopEvent, run: SignalRun, signals: Signals)
    requires Running(s) && s.signalsPending && signals.Signals? && FlushingFailure(e)
    ensures var h := s.history + [e] + [SignalsRan(run)];
            NoIdleRun(h) && !NoRunAfterFailure(h) && FailedChildFlushes(h, signals)
  {
    var h, n := s.history, |s.history|;
    NoIdleRunSnoc(h, e);
    ChangedSinceRunSnoc(h, e);
    NoIdleRunSnoc(h + [e], SignalsRan(run));
    var h' := h + [e] + [SignalsRan(run)];
    assert h' == h + [e, SignalsRan(run)];
    ChangedSinceRunPrefix(h, [e, SignalsRan(run)], n);
    assert h'[n] == e && IsFailure(h'[n]) && h'[n + 1].SignalsRan?;
  }

  /** A child that did not fail, and the flush it may have asked for. */
  lemma GoodStepKeepsRunning(s: RecipeState, i: nat, step: Step, preserve: bool)
    requires Running(s) && step.status != Failed
    ensures Running(ApplyStepToState(s, i, step, preserve))
  {
    var e := Child(i, step.status, step.flushSignals, step.stopRun);
    NoIdleRunSnoc(s.history, e);
    ChangedSinceRunSnoc(s.history, e);
  }

  lemma FlushIsOver(s: RecipeState, run: SignalRun, signals: Signals)
    requires Running(s) && s.signalsPending
    ensures LoopOver(ApplySignalRun(s, run), signals)
  {
    var e := SignalsRan(run);
    var h' := s.history + [e];
    NoIdleRunSnoc(s.history, e);
    ChangedSinceRunSnoc(s.history, e);
    forall i | 0 <= i < |s.history| ensures !IsFailure(h'[i]) { assert h'[i] == s.history[i]; }
  }

  lemma ProcessKeepsHistory(w: World, r: Module, i: nat, exec: ChildExecution, s: RecipeState, opts: Options, tr: Trace)
    requires r.Recipe? && Running(s)
    ensures var (over, s', _) := ProcessStep(w, r, i, exec, s, opts, tr);
            LoopOver(s', r.signals) && (!over ==> Running(s'))
  {
    RunningIsOver(s, r.signals);
    match exec
    case NoStep =>
      var s1 := s.(history := s.history + [Passed(i)]);
      NoIdleRunSnoc(s.history, Passed(i));
      ChangedSinceRunSnoc(s.history, Passed(i));
      RunningIsOver(s1, r.signals);
    case Interrupted =>
    case ExecutionFailed =>
      FailedStepIsOver(s, Child(i, Failed, false, false), r.signals);
    case Stepped(step) =>
      var s1 := ApplyStepToState(s, i, step, !opts.onChildStep);
      var e := Child(i, step.status, step.flushSignals, step.stopRun);
      var tr1 := if opts.onChildStep then Then(tr, ChildStep(step)) else tr;
      var flushes := step.flushSignals && s1.signalsPending && r.signals.Signals?;
      var run := if flushes then RunSignals(w, r, 0, s1.env, opts, tr1).0 else SignalRun(false, false, 0);
      if step.status == Failed {
        if flushes { FailedStepFlushes(s, e, run, r.signals); }
        else { FailedStepIsOver(s, e, r.signals); }
      } else {
        GoodStepKeepsRunning(s, i, step, !opts.onChildStep);
        RunningIsOver(s1, r.signals);
        if flushes { FlushIsOver(s1, run, r.signals); }
      }
  }

  lemma {:induction false} RecipeLoopHistory(w: World, r: Module, i: nat, s: RecipeState, opts: Options, tr: Trace)
    requires r.Recipe? && i <= |r.children| && Running(s)
    ensures LoopOver(RecipeLoop(w, r, i, s, opts, tr).0, r.signals)
    decreases |r.children| - i
  {
    RunningIsOver(s, r.signals);
    if i < |r.children| {
      var (stop, tr1) := Poll(w, opts, tr);
      if !stop {
        var (exec, tr2) := ExecuteChild(w, r.children[i], s.env, opts, tr1);
        ProcessKeepsHistory(w, r, i, exec, s, opts, tr2);
        var (over, s', tr3) := ProcessStep(w, r, i, exec, s, opts, tr2);
        if !over { RecipeLoopHistory(w, r, i + 1, s', opts, tr3); }
      }
    }
  }

  /** Every recipe run: no signal list runs without a change since its previous run; none runs after a
      failure, except that of a failed child which asks for a flush; and unless the recipe fails,
      every changed step, including one before a stop-run, is followed by a run of the list. */
  lemma RecipeSignals(w: World, r: Module, env: Environment, opts: Options, tr: Trace)
    requires r.Recipe?
    ensures var s := RunRecipe(w, r, env, opts, tr).0;
            && NoIdleRun(s.history)
            && (NoRunAfterFailure(s.history) <==> !FailedChildFlushes(s.history, r.signals))
            && (s.status != Failed && r.signals.Signals? ==> EveryChangeSignalled(s.history))
  {
    RecipeLoopHistory(w, r, 0, InitialState(env), opts, tr);
    var (s, tr1) := RecipeLoop(w, r, 0, InitialState(env), opts, tr);
    SignalledIffNothingPending(s.history);
    if s.signalsPending && s.status == Changed && r.signals.Signals? {
      var (run, _) := RunSignals(w, r, 0, s.env, opts, tr1);
      FlushIsOver(s, run, r.signals);
      var e := SignalsRan(run);
      ChangedSinceRunSnoc(s.history, e);
      SignalledIffNothingPending(s.history + [e]);
    }
  }

  // ----- That one case does happen

  function FlushingResult(id: nat): ModuleResult {
    if id == 1 then ModuleResult(Failed, [], true, false) else ModuleResult(Changed, [], false, false)
  }

  const FLUSHING_WORLD := World(
    (tr: Trace, id: nat, env: Environment) => NeedsApply,
    (tr: Trace, id: nat, env: Environment) => Returned(FlushingResult(id)),
    (tr: Trace, id: nat, env: Environment) => Holds,
    (tr: Trace) => false,
    (tr: Trace) => false)

  /** A changed child, a child that fails with a flush request, and one signal: the signal runs after
      the failure. The module signals.flush (packages/paratix/src/builtins.ts), the only one in the
      repository that asks for a flush, always returns "ok": only a hand-written module can fail with the
      request. */
  lemma SignalAfterFailedFlush()
    ensures var r := Recipe([Leaf(0), Leaf(1)], Signals([Leaf(2)]));
            var s := RunRecipe(FLUSHING_WORLD, r, map[], Options(false, false, false, false), Start).0;
            !NoRunAfterFailure(s.history)
  {
    var w, opts := FLUSHING_WORLD, Options(false, false, false, false);
    var r := Recipe([Leaf(0), Leaf(1)], Signals([Leaf(2)]));
    var s0 := InitialState(map[]);
    var (exec0, tr0) := ExecuteChild(w, r.children[0], s0.env, opts, Start);
    assert exec0 == Stepped(Step(Changed, [], map[], false, false));
    var (over0, s1, tr1) := ProcessStep(w, r, 0, exec0, s0, opts, tr0);
    assert !over0 && s1.history == [Child(0, Changed, false, false)] && s1.signalsPending;
    var (exec1, tr2) := ExecuteChild(w, r.children[1], s1.env, opts, tr1);
    assert exec1 == Stepped(Step(Failed, [], map[], true, false));
    var (over1, s2, tr3) := ProcessStep(w, r, 1, exec1, s1, opts, tr2);
    assert over1 && s2.status == Failed;
    assert s2.history[1] == Child(1, Failed, true, false) && s2.history[2].SignalsRan?;
    assert RecipeLoop(w, r, 1, s1, opts, tr1) == (s2, tr3);
    assert RecipeLoop(w, r, 0, s0, opts, Start) == (s2, tr3);
    assert IsFailure(s2.history[1]);
  }

  // ----- The top-level loop

  ghost predicate TopInv(s: LoopState, tr: Trace) {
    && NoIdleRun(s.history)
    && NoRunAfterFailure(s.history)
    && (s.signalsPending <==> ChangedSinceRun(s.history, |s.history|))
    && (!StatsFailed(tr) ==> NoFailure(s.history))
  }

  lemma TopStepGrows(w: World, m: Module, env: Environment, tr: Trace)
    ensures Grows(tr, TopStep(w, m, env, tr).1)
  {
    CheckGrows(w, m, env, false, tr);
    var tr1 := CheckModule(w, m, env, false, tr).1;
    var tr2 := if m.Recipe? then tr1 else Then(tr1, Polled);
    ApplyGrows(w, m, env, TopOptions(m), tr2);
  }

  lemma CountedStepKeepsInv(s: LoopState, i: nat, result: StepResult, tr: Trace, tr1: Trace)
    requires TopInv(s, tr) && Grows(tr, tr1)
    ensures TopInv(ApplyLoopResult(s, i, result), CountStats(result, tr1))
  {
    if result.hasStatus {
      var e := Child(i, result.status, result.flushSignals, result.stopRun);
      NoIdleRunSnoc(s.history, e);
      ChangedSinceRunSnoc(s.history, e);
    }
  }

  lemma DefinitionRunKeepsInv(w: World, signals: Signals, s: LoopState, tr: Trace)
    requires TopInv(s, tr) && signals.Signals? && s.signalsPending && !StatsFailed(tr)
    ensures var (s', run, tr') := RunDefinitionSignals(w, signals, s, tr);
            TopInv(s', tr') && !s'.signalsPending && Grows(tr, tr')
  {
    var r := DefinitionSignals(signals);
    SignalRunMeaning(w, r, 0, s.env, SIGNAL_TOP, tr);
    SignalsGrow(w, r, 0, s.env, SIGNAL_TOP, tr);
    var e := SignalsRan(RunSignals(w, r, 0, s.env, SIGNAL_TOP, tr).0);
    NoIdleRunSnoc(s.history, e);
    ChangedSinceRunSnoc(s.history, e);
  }

  lemma TopIterationKeepsInv(w: World, m: Module, i: nat, signals: Signals, s: LoopState, tr: Trace)
    requires TopInv(s, tr)
    ensures var (_, s', tr') := TopIteration(w, m, i, signals, s, tr);
            TopInv(s', tr')
  {
    TopStepGrows(w, m, s.env, tr);
    var (result, tr1) := TopStep(w, m, s.env, tr);
    CountedStepKeepsInv(s, i, result, tr, tr1);
    var s1, tr2 := ApplyLoopResult(s, i, result), CountStats(result, tr1);
    var tr3 := Then(tr2, Polled);
    assert TopInv(s1, tr3);
    if s1.signalsPending && !StatsFailed(tr3) && signals.Signals? {
      DefinitionRunKeepsInv(w, signals, s1, tr3);
    }
  }

  lemma PolledKeepsInv(s: LoopState, tr: Trace)
    requires TopInv(s, tr)
    ensures TopInv(s, Then(tr, Polled))
  {}

  /** What every iteration keeps, and the question in front of it, the loop keeps. */
  lemma {:induction false} TopLoopInduction(w: World, modules: seq<Module>, i: nat, signals: Signals, s: LoopState, tr: Trace,
                                            inv: (LoopState, Trace) -> bool)
    requires i <= |modules| && inv(s, tr)
    requires forall s1, tr1 {:trigger inv(s1, Then(tr1, Polled))} :: inv(s1, tr1) ==> inv(s1, Then(tr1, Polled))
    requires forall k, s1, tr1 {:trigger TopIteration(w, modules[k], k, signals, s1, tr1)} | 0 <= k < |modules| && inv(s1, tr1) ::
               var (_, s2, tr2) := TopIteration(w, modules[k], k, signals, s1, tr1);
               inv(s2, tr2)
    ensures var (s', tr') := TopLoop(w, modules, i, signals, s, tr);
            inv(s', tr')
    decreases |modules| - i
  {
    if i < |modules| && !w.shutdown(tr) {
      assert inv(s, Then(tr, Polled));
      var (over, s', tr') := TopIteration(w, modules[i], i, signals, s, Then(tr, Polled));
      if !over { TopLoopInduction(w, modules, i + 1, signals, s', tr', inv); }
    }
  }

  lemma TopLoopKeepsInv(w: World, modules: seq<Module>, signals: Signals, s: LoopState, tr: Trace)
    requires TopInv(s, tr)
    ensures var (s', tr') := TopLoop(w, modules, 0, signals, s, tr);
            TopInv(s', tr')
  {
    var inv := (s1, tr1) => TopInv(s1, tr1);
    forall s1, tr1 | inv(s1, tr1) ensures inv(s1, Then(tr1, Polled)) { PolledKeepsInv(s1, tr1); }
    forall k, s1, tr1 | 0 <= k < |modules| && inv(s1, tr1)
      ensures var (_, s2, tr2) := TopIteration(w, modules[k], k, signals, s1, tr1);
              inv(s2, tr2)
    {
      TopIterationKeepsInv(w, modules[k], k, signals, s1, tr1);
    }
    TopLoopInduction(w, modules, 0, signals, s, tr, inv);
  }

  /** Every top-level run: here no list runs after a failure at all; and a run that ends without
      failure and without shutdown has signalled every changed step. */
  lemma RunSignalsAtTopLevel(w: World, modules: seq<Module>, signals: Signals, env: Environment)
    ensures var (s, tr, stopped) := ExecuteRun(w, modules, signals, env);
            && NoIdleRun(s.history)
            && NoRunAfterFailure(s.history)
            && (!StatsFailed(tr) && !stopped && signals.Signals? ==> EveryChangeSignalled(s.history))
  {
    var s0 := LoopState(env, false, false, []);
    TopLoopKeepsInv(w, modules, signals, s0, Start);
    var (s, tr) := TopLoop(w, modules, 0, signals, s0, Start);
    var tr1 := Then(tr, Polled);
    assert TopInv(s, tr1);
    SignalledIffNothingPending(s.history);
    if s.signalsPending && !StatsFailed(tr1) && signals.Signals? {
      DefinitionRunKeepsInv(w, signals, s, tr1);
      SignalledIffNothingPending(RunDefinitionSignals(w, signals, s, tr1).0.history);
    }
  }
}
