/** Which children a loop visits: each at most once and in order, none behind one that failed or asked for a
    stop, and all of them unless a child, a signal list or a shutdown ended the loop. */
module EngineVisits {
  import opened Meta
  import opened Engine
  import opened EngineStops

  predicate IsVisit(e: LoopEvent) { e.Child? || e.Passed? }

  /** A child that ends its loop. */
  predicate IsEnd(e: LoopEvent) { e.Child? && (e.status == Failed || e.stopRun) }

  predicate IsFailedRun(e: LoopEvent) { e.SignalsRan? && e.run.failed }

  /** The positions of the children that were visited, in the order of the visits. */
  function Visited(h: seq<LoopEvent>): seq<nat> {
    if h == [] then []
    else
      var last := h[|h| - 1];
      Visited(h[..|h| - 1]) + if IsVisit(last) then [last.index] else []
  }

  function FirstNumbers(n: nat): (numbers: seq<nat>)
    ensures |numbers| == n && forall k | 0 <= k < n :: numbers[k] == k
  {
    seq(n, k => k)
  }

  /** Visited in order from the first, and nothing behind an end. */
  ghost predicate Orderly(h: seq<LoopEvent>, count: nat) {
    && |Visited(h)| <= count
    && Visited(h) == FirstNumbers(|Visited(h)|)
    && forall i, j | 0 <= i < j < |h| :: IsEnd(h[i]) ==> !IsVisit(h[j])
  }

  /** Nothing at the level of the loop has ended it. */
  ghost predicate Open(h: seq<LoopEvent>) {
    forall i | 0 <= i < |h| :: !IsEnd(h[i]) && !IsFailedRun(h[i])
  }

  /** The first `i` of `count` children have been visited, and the loop goes on. */
  ghost predicate Midway(h: seq<LoopEvent>, i: nat, count: nat) {
    i <= count && Visited(h) == FirstNumbers(i) && Open(h)
  }

  /** The loop is over: orderly, and complete unless something ended it. */
  ghost predicate LoopDone(w: World, h: seq<LoopEvent>, count: nat, tr: Trace) {
    Orderly(h, count) && (Open(h) && Undisturbed(w, tr) ==> |Visited(h)| == count)
  }

  lemma VisitedSnoc(h: seq<LoopEvent>, e: LoopEvent)
    ensures Visited(h + [e]) == Visited(h) + if IsVisit(e) then [e.index] else []
  {
    assert (h + [e])[..|h|] == h;
  }

  lemma MidwayIsOrderly(h: seq<LoopEvent>, i: nat, count: nat)
    requires Midway(h, i, count)
    ensures Orderly(h, count)
  {}

  /** The next child, visited. */
  lemma VisitNext(h: seq<LoopEvent>, e: LoopEvent, i: nat, count: nat)
    requires Midway(h, i, count) && i < count && IsVisit(e) && e.index == i
    ensures Orderly(h + [e], count)
    ensures if IsEnd(e) then !Open(h + [e]) else Midway(h + [e], i + 1, count)
  {
    VisitedSnoc(h, e);
    assert FirstNumbers(i) + [i] == FirstNumbers(i + 1);
    assert (h + [e])[|h|] == e;
  }

  /** A run of the signals, behind the visits. */
  lemma SignalsNext(h: seq<LoopEvent>, run: SignalRun, count: nat)
    requires Orderly(h, count)
    ensures Orderly(h + [SignalsRan(run)], count) && Visited(h + [SignalsRan(run)]) == Visited(h)
    ensures Open(h + [SignalsRan(run)]) <==> Open(h) && !run.failed
  {
    var h' := h + [SignalsRan(run)];
    VisitedSnoc(h, SignalsRan(run));
    assert h'[|h|] == SignalsRan(run);
    assert forall i | 0 <= i < |h| :: h'[i] == h[i];
  }

  // ----- Recipes

  /** A step, and the run of the signals that it may have asked for. */
  function SteppedState(s: RecipeState, i: nat, step: Step, preserve: bool, flushed: bool, run: SignalRun): RecipeState {
    var s1 := ApplyStepToState(s, i, step, preserve);
    if flushed then ApplySignalRun(s1, run) else s1
  }

  lemma ProcessStepped(w: World, r: Module, i: nat, step: Step, s: RecipeState, opts: Options, tr: Trace)
      returns (flushed: bool, run: SignalRun)
    requires r.Recipe?
    ensures var (over, s', _) := ProcessStep(w, r, i, Stepped(step), s, opts, tr);
            s' == SteppedState(s, i, step, !opts.onChildStep, flushed, run) && over == (s'.status == Failed || s'.stopRun)
  {
    var tr1 := if opts.onChildStep then Then(tr, ChildStep(step)) else tr;
    var s1 := ApplyStepToState(s, i, step, !opts.onChildStep);
    flushed := step.flushSignals && s1.signalsPending && r.signals.Signals?;
    run := if flushed then RunSignals(w, r, 0, s1.env, opts, tr1).0 else SignalRun(false, false, 0);
  }

  /** The child reported a status. */
  lemma SteppedVisits(s: RecipeState, i: nat, step: Step, preserve: bool, flushed: bool, run: SignalRun, count: nat)
    requires i < count && Midway(s.history, i, count) && s.status != Failed && !s.stopRun
    ensures var s' := SteppedState(s, i, step, preserve, flushed, run);
            && Orderly(s'.history, count)
            && (if s'.status == Failed || s'.stopRun then !Open(s'.history) else Midway(s'.history, i + 1, count))
  {
    var e := Child(i, step.status, step.flushSignals, step.stopRun);
    VisitNext(s.history, e, i, count);
    SignalsNext(s.history + [e], run, count);
  }

  lemma ProcessVisits(w: World, r: Module, i: nat, exec: ChildExecution, s: RecipeState, opts: Options, tr: Trace)
    requires r.Recipe? && i < |r.children| && Midway(s.history, i, |r.children|) && s.status != Failed && !s.stopRun
    requires exec.Interrupted? ==> !Undisturbed(w, tr)
    ensures var (over, s', tr') := ProcessStep(w, r, i, exec, s, opts, tr);
            if over then LoopDone(w, s'.history, |r.children|, tr')
            else Midway(s'.history, i + 1, |r.children|) && s'.status != Failed && !s'.stopRun
  {
    match exec
    case Interrupted => MidwayIsOrderly(s.history, i, |r.children|);
    case NoStep => VisitNext(s.history, Passed(i), i, |r.children|);
    case ExecutionFailed => VisitNext(s.history, Child(i, Failed, false, false), i, |r.children|);
    case Stepped(step) =>
      var flushed, run := ProcessStepped(w, r, i, step, s, opts, tr);
      SteppedVisits(s, i, step, !opts.onChildStep, flushed, run, |r.children|);
  }

  lemma {:induction false} RecipeLoopVisits(w: World, r: Module, i: nat, s: RecipeState, opts: Options, tr: Trace)
    requires r.Recipe? && i <= |r.children| && Midway(s.history, i, |r.children|) && s.status != Failed && !s.stopRun
    ensures var (s', tr') := RecipeLoop(w, r, i, s, opts, tr);
            LoopDone(w, s'.history, |r.children|, tr')
    decreases |r.children| - i
  {
    MidwayIsOrderly(s.history, i, |r.children|);
    if i < |r.children| {
      var (stop, tr1) := Poll(w, opts, tr);
      if !stop {
        ExecuteStops(w, r.children[i], s.env, opts, tr1);
        var (exec, tr2) := ExecuteChild(w, r.children[i], s.env, opts, tr1);
        ProcessVisits(w, r, i, exec, s, opts, tr2);
        var (over, s', tr3) := ProcessStep(w, r, i, exec, s, opts, tr2);
        if !over { RecipeLoopVisits(w, r, i + 1, s', opts, tr3); }
      }
    }
  }

  /** Every recipe: its children are visited in order, none behind one that failed or asked for a stop; and
      all of them, unless a child, a failed signal list or a shutdown ended the recipe. */
  lemma RecipeVisits(w: World, r: Module, env: Environment, opts: Options, tr: Trace)
    requires r.Recipe?
    ensures var (s, tr') := RunRecipe(w, r, env, opts, tr);
            LoopDone(w, s.history, |r.children|, tr')
  {
    RecipeLoopVisits(w, r, 0, InitialState(env), opts, tr);
    var (s, tr1) := RecipeLoop(w, r, 0, InitialState(env), opts, tr);
    if s.signalsPending && s.status == Changed && r.signals.Signals? {
      SignalsStop(w, r, 0, s.env, opts, tr1);
      SignalsNext(s.history, RunSignals(w, r, 0, s.env, opts, tr1).0, |r.children|);
    }
  }

  // ----- `when` blocks

  function HistoryOf(run: GuardedRun): seq<LoopEvent> {
    match run
    case Finished(s) => s.history
    case Left(_, history) => history
  }

  ghost predicate NextVisits(w: World, next: GuardedNext, i: nat, count: nat, tr: Trace) {
    match next
    case Over(run) => LoopDone(w, HistoryOf(run), count, tr)
    case GoOn(s) => Midway(s.history, i + 1, count) && !s.stopRun
  }

  lemma FinishChildVisits(w: World, outcome: Outcome, i: nat, s: GuardedState, opts: Options, tr: Trace, count: nat)
    requires i < count && Midway(s.history, i, count) && !s.stopRun
    ensures var (next, tr') := FinishGuardedChild(outcome, i, s, opts, tr);
            NextVisits(w, next, i, count, tr')
  {
    VisitNext(s.history, Ended(i, Threw), i, count);
    VisitNext(s.history, Ended(i, outcome), i, count);
  }

  lemma GuardedChildVisits(w: World, m: Module, i: nat, s: GuardedState, opts: Options, tr: Trace, count: nat)
    requires i < count && Midway(s.history, i, count) && !s.stopRun
    ensures var (next, tr') := GuardedChild(w, m, i, s, opts, tr);
            NextVisits(w, next, i, count, tr')
  {
    var (answer, tr1) := CheckModule(w, m, s.env, opts.inSignal, tr);
    if answer == CheckThrew {
      VisitNext(s.history, Ended(i, Threw), i, count);
    } else if answer == IsOk {
      VisitNext(s.history, Passed(i), i, count);
    } else {
      var (stop, tr2) := Poll(w, opts, tr1);
      if stop {
        MidwayIsOrderly(s.history, i, count);
      } else {
        var (outcome, tr3) := ApplyModule(w, m, s.env, opts, tr2);
        FinishChildVisits(w, outcome, i, s, opts, tr3, count);
      }
    }
  }

  lemma {:induction false} GuardedVisits(w: World, g: Module, i: nat, s: GuardedState, opts: Options, tr: Trace)
    requires g.Guarded? && i <= |g.children| && Midway(s.history, i, |g.children|) && !s.stopRun
    ensures var (run, tr') := RunGuarded(w, g, i, s, opts, tr);
            LoopDone(w, HistoryOf(run), |g.children|, tr')
    decreases |g.children| - i
  {
    MidwayIsOrderly(s.history, i, |g.children|);
    if i < |g.children| {
      var (stop, tr1) := Poll(w, opts, tr);
      if !stop {
        GuardedChildVisits(w, g.children[i], i, s, opts, tr1, |g.children|);
        var (next, tr2) := GuardedChild(w, g.children[i], i, s, opts, tr1);
        if next.GoOn? { GuardedVisits(w, g, i + 1, next.state, opts, tr2); }
      }
    }
  }

  /** Every `when` block whose guard holds: the same, and a child that throws ends it too. */
  lemma BlockVisits(w: World, g: Module, env: Environment, opts: Options, tr: Trace)
    requires g.Guarded?
    ensures var (run, tr') := RunGuarded(w, g, 0, InitialGuarded(env), opts, tr);
            LoopDone(w, HistoryOf(run), |g.children|, tr')
  {
    GuardedVisits(w, g, 0, InitialGuarded(env), opts, tr);
  }

  // ----- The runner

  lemma CountedVisits(s: LoopState, i: nat, result: StepResult, count: nat)
    requires i < count && Midway(s.history, i, count) && result.hasStatus
    ensures var h := ApplyLoopResult(s, i, result).history;
            && Orderly(h, count)
            && (if result.status == Failed || result.stopRun then !Open(h) else Midway(h, i + 1, count))
  {
    VisitNext(s.history, Child(i, result.status, result.flushSignals, result.stopRun), i, count);
  }

  /** The signals of the definition, run behind the visit. */
  lemma FlushedVisits(w: World, signals: Signals, s: LoopState, tr: Trace, n: nat, count: nat)
    requires signals.Signals? && Orderly(s.history, count)
    ensures var (s', run, _) := RunDefinitionSignals(w, signals, s, tr);
            && Orderly(s'.history, count)
            && (Open(s'.history) <==> Open(s.history) && !run.failed)
            && (Midway(s.history, n, count) && !run.failed ==> Midway(s'.history, n, count))
  {
    SignalsNext(s.history, RunSignals(w, DefinitionSignals(signals), 0, s.env, SIGNAL_TOP, tr).0, count);
  }

  lemma TopIterationVisits(w: World, m: Module, i: nat, signals: Signals, s: LoopState, tr: Trace, count: nat)
    requires i < count && Midway(s.history, i, count)
    ensures var (over, s', tr') := TopIteration(w, m, i, signals, s, tr);
            if over then LoopDone(w, s'.history, count, tr') else Midway(s'.history, i + 1, count)
  {
    TopStepStops(w, m, s.env, tr);
    var (result, tr1) := TopStep(w, m, s.env, tr);
    if result.hasStatus {
      CountedVisits(s, i, result, count);
      var s1, tr2 := ApplyLoopResult(s, i, result), CountStats(result, tr1);
      if signals.Signals? { FlushedVisits(w, signals, s1, Then(tr2, Polled), i + 1, count); }
    } else {
      MidwayIsOrderly(s.history, i, count);
    }
  }

  lemma {:induction false} TopLoopVisits(w: World, modules: seq<Module>, i: nat, signals: Signals, s: LoopState, tr: Trace)
    requires i <= |modules| && Midway(s.history, i, |modules|)
    ensures var (s', tr') := TopLoop(w, modules, i, signals, s, tr);
            LoopDone(w, s'.history, |modules|, tr')
    decreases |modules| - i
  {
    MidwayIsOrderly(s.history, i, |modules|);
    if i < |modules| && !w.shutdown(tr) {
      TopIterationVisits(w, modules[i], i, signals, s, Then(tr, Polled), |modules|);
      var (over, s', tr') := TopIteration(w, modules[i], i, signals, s, Then(tr, Polled));
      if !over { TopLoopVisits(w, modules, i + 1, signals, s', tr'); }
    }
  }

  /** Every run: the modules are visited in order, none behind one that failed or asked for a stop; and all
      of them, unless a module, a failed signal list or a shutdown ended the run. */
  lemma RunVisits(w: World, modules: seq<Module>, signals: Signals, env: Environment)
    ensures var (s, tr, _) := ExecuteRun(w, modules, signals, env);
            LoopDone(w, s.history, |modules|, tr)
  {
    var s0 := LoopState(env, false, false, []);
    TopLoopVisits(w, modules, 0, signals, s0, Start);
    var (s, tr) := TopLoop(w, modules, 0, signals, s0, Start);
    if signals.Signals? {
      var tr1 := Then(tr, Polled);
      SignalsStop(w, DefinitionSignals(signals), 0, s.env, SIGNAL_TOP, tr1);
      SignalsNext(s.history, RunSignals(w, DefinitionSignals(signals), 0, s.env, SIGNAL_TOP, tr1).0, |modules|);
    }
  }

  // ----- What a loop reports

  predicate IsChange(e: LoopEvent) { e.Child? && e.status == Changed }

  predicate IsFailure(e: LoopEvent) { (e.Child? && e.status == Failed) || IsFailedRun(e) }

  ghost predicate AnyFailure(h: seq<LoopEvent>) { exists i | 0 <= i < |h| :: IsFailure(h[i]) }

  ghost predicate AnyChange(h: seq<LoopEvent>) { exists i | 0 <= i < |h| :: IsChange(h[i]) }

  ghost predicate AnyStop(h: seq<LoopEvent>) { exists i | 0 <= i < |h| :: h[i].Child? && h[i].stopRun }

  ghost predicate AnyFlush(h: seq<LoopEvent>) { exists i | 0 <= i < |h| :: h[i].Child? && h[i].flushSignals }

  /** Failed if a child or a signal list failed, else changed if a child changed something, else ok; and a
      stop if a child asked for one. */
  ghost predicate Reports(h: seq<LoopEvent>, status: Status, stopRun: bool) {
    && status == (if AnyFailure(h) then Failed else if AnyChange(h) then Changed else Done)
    && stopRun == AnyStop(h)
  }

  lemma AnySnoc(h: seq<LoopEvent>, e: LoopEvent)
    ensures AnyFailure(h + [e]) == (AnyFailure(h) || IsFailure(e))
    ensures AnyChange(h + [e]) == (AnyChange(h) || IsChange(e))
    ensures AnyStop(h + [e]) == (AnyStop(h) || (e.Child? && e.stopRun))
    ensures AnyFlush(h + [e]) == (AnyFlush(h) || (e.Child? && e.flushSignals))
  {
    var h' := h + [e];
    assert h'[|h|] == e && forall i | 0 <= i < |h| :: h'[i] == h[i];
  }

  lemma SteppedReports(s: RecipeState, i: nat, step: Step, preserve: bool, flushed: bool, run: SignalRun)
    requires Reports(s.history, s.status, s.stopRun) && s.status != Failed
    ensures var s' := SteppedState(s, i, step, preserve, flushed, run);
            Reports(s'.history, s'.status, s'.stopRun)
  {
    var e := Child(i, step.status, step.flushSignals, step.stopRun);
    AnySnoc(s.history, e);
    AnySnoc(s.history + [e], SignalsRan(run));
  }

  lemma ProcessReports(w: World, r: Module, i: nat, exec: ChildExecution, s: RecipeState, opts: Options, tr: Trace)
    requires r.Recipe? && Reports(s.history, s.status, s.stopRun) && s.status != Failed && !s.stopRun
    ensures var (over, s', _) := ProcessStep(w, r, i, exec, s, opts, tr);
            Reports(s'.history, s'.status, s'.stopRun) && (!over ==> s'.status != Failed && !s'.stopRun)
  {
    match exec
    case Interrupted =>
    case NoStep => AnySnoc(s.history, Passed(i));
    case ExecutionFailed => AnySnoc(s.history, Child(i, Failed, false, false));
    case Stepped(step) =>
      var flushed, run := ProcessStepped(w, r, i, step, s, opts, tr);
      SteppedReports(s, i, step, !opts.onChildStep, flushed, run);
  }

  lemma {:induction false} RecipeLoopReports(w: World, r: Module, i: nat, s: RecipeState, opts: Options, tr: Trace)
    requires r.Recipe? && i <= |r.children| && Reports(s.history, s.status, s.stopRun)
    requires s.status != Failed && !s.stopRun
    ensures var s' := RecipeLoop(w, r, i, s, opts, tr).0;
            Reports(s'.history, s'.status, s'.stopRun)
    decreases |r.children| - i
  {
    if i < |r.children| {
      var (stop, tr1) := Poll(w, opts, tr);
      if !stop {
        var (exec, tr2) := ExecuteChild(w, r.children[i], s.env, opts, tr1);
        ProcessReports(w, r, i, exec, s, opts, tr2);
        var (over, s', tr3) := ProcessStep(w, r, i, exec, s, opts, tr2);
        if !over { RecipeLoopReports(w, r, i + 1, s', opts, tr3); }
      }
    }
  }

  /** What a recipe reports follows from what its children and its signal lists did. */
  lemma RecipeReports(w: World, r: Module, env: Environment, opts: Options, tr: Trace)
    requires r.Recipe?
    ensures var s := RunRecipe(w, r, env, opts, tr).0;
            Reports(s.history, s.status, s.stopRun)
  {
    RecipeLoopReports(w, r, 0, InitialState(env), opts, tr);
    var (s, tr1) := RecipeLoop(w, r, 0, InitialState(env), opts, tr);
    if r.signals.Signals? { AnySnoc(s.history, SignalsRan(RunSignals(w, r, 0, s.env, opts, tr1).0)); }
  }

  ghost predicate BlockReported(s: GuardedState) {
    Reports(s.history, s.status, s.stopRun) && s.status != Failed && s.flushSignals == AnyFlush(s.history)
  }

  lemma MergedReports(s: GuardedState, i: nat, result: ModuleResult, preserve: bool)
    requires BlockReported(s) && result.status != Failed && MergeGuarded(s, i, result, preserve).Ok?
    ensures BlockReported(MergeGuarded(s, i, result, preserve).value)
  {
    AnySnoc(s.history, Child(i, result.status, result.flushSignals, result.stopRun));
  }

  lemma GuardedChildReports(w: World, m: Module, i: nat, s: GuardedState, opts: Options, tr: Trace)
    requires BlockReported(s)
    ensures match GuardedChild(w, m, i, s, opts, tr).0
            case GoOn(s') => BlockReported(s')
            case Over(run) => run.Finished? ==> BlockReported(run.state)
  {
    AnySnoc(s.history, Passed(i));
    var (answer, tr1) := CheckModule(w, m, s.env, opts.inSignal, tr);
    if answer == NeedsApply {
      var (stop, tr2) := Poll(w, opts, tr1);
      if !stop {
        var (outcome, tr3) := ApplyModule(w, m, s.env, opts, tr2);
        if outcome.Returned? && outcome.result.status != Failed && MergeGuarded(s, i, outcome.result, !opts.onChildStep).Ok? {
          MergedReports(s, i, outcome.result, !opts.onChildStep);
        }
      }
    }
  }

  lemma {:induction false} GuardedReports(w: World, g: Module, i: nat, s: GuardedState, opts: Options, tr: Trace)
    requires g.Guarded? && i <= |g.children| && BlockReported(s)
    ensures var run := RunGuarded(w, g, i, s, opts, tr).0;
            run.Finished? ==> BlockReported(run.state)
    decreases |g.children| - i
  {
    if i < |g.children| {
      var (stop, tr1) := Poll(w, opts, tr);
      if !stop {
        GuardedChildReports(w, g.children[i], i, s, opts, tr1);
        var (next, tr2) := GuardedChild(w, g.children[i], i, s, opts, tr1);
        if next.GoOn? { GuardedReports(w, g, i + 1, next.state, opts, tr2); }
      }
    }
  }

  /** A `when` block that ran to its end reports what its children did, and hands on a request for signals;
      one that a child has left reports a failure or throws. */
  lemma BlockReports(w: World, g: Module, env: Environment, opts: Options, tr: Trace)
    requires g.Guarded?
    ensures var run := RunGuarded(w, g, 0, InitialGuarded(env), opts, tr).0;
            match run
            case Finished(s) => GuardedResult(run) == Returned(ModuleResult(s.status, s.meta, s.flushSignals, s.stopRun))
                                && Reports(s.history, s.status, s.stopRun) && s.flushSignals == AnyFlush(s.history)
            case Left(outcome, _) => outcome.Threw? || outcome.result.status == Failed
  {
    GuardedReports(w, g, 0, InitialGuarded(env), opts, tr);
    LeftFails(w, g, 0, InitialGuarded(env), opts, tr);
  }

  lemma {:induction false} LeftFails(w: World, g: Module, i: nat, s: GuardedState, opts: Options, tr: Trace)
    requires g.Guarded? && i <= |g.children|
    ensures var run := RunGuarded(w, g, i, s, opts, tr).0;
            run.Left? ==> run.outcome.Threw? || run.outcome.result.status == Failed
    decreases |g.children| - i
  {
    if i < |g.children| {
      var (stop, tr1) := Poll(w, opts, tr);
      if !stop {
        var (next, tr2) := GuardedChild(w, g.children[i], i, s, opts, tr1);
        if next.GoOn? { LeftFails(w, g, i + 1, next.state, opts, tr2); }
      }
    }
  }
}
