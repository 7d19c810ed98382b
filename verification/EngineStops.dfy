/** What ends a run, and what does not: once a leaf has failed or asked for a stop, however deep it sits, no
    other module is checked or applied, signals aside; and a loop that nothing ends visits all its modules,
    each once and in order. */
module EngineStops {
  import opened Meta
  import opened Engine

  // ----- Nothing runs behind the end

  /** A leaf outside signal lists has failed, or has asked for a stop with a result that can be merged. */
  predicate HaltEvent(e: Event) {
    && e.Applied? && !e.inSignal && e.outcome.Returned?
    && (e.outcome.result.status == Failed || (e.outcome.result.stopRun && AllMergeable(e.outcome.result.meta)))
  }

  predicate Halted(tr: Trace) {
    tr.Then? && (HaltEvent(tr.event) || Halted(tr.past))
  }

  /** A module or a guard was asked or applied. */
  predicate Work(e: Event) { e.Checked? || e.GuardChecked? || e.GuardApplied? || e.Applied? }

  /** Work that must not be: any after the runner has counted a failure, and any outside signal lists after a
      leaf that ends the run. */
  predicate OverrunEvent(past: Trace, e: Event) {
    Work(e) && (StatsFailed(past) || (Halted(past) && !e.inSignal))
  }

  predicate Overrun(tr: Trace) {
    tr.Then? && (OverrunEvent(tr.past, tr.event) || Overrun(tr.past))
  }

  /** No question about a shutdown has been answered with yes. */
  predicate Undisturbed(w: World, tr: Trace) {
    tr.Then? ==> (tr.event.Polled? ==> !w.shutdown(tr.past)) && Undisturbed(w, tr.past)
  }

  ghost predicate Ready(inSignal: bool, tr: Trace) {
    (inSignal || !Halted(tr)) && !StatsFailed(tr)
  }

  /** From `tr0` to `tr`: no shutdown is forgotten; and if nothing had ended the run at `tr0`, nothing has run
      that must not, whatever ends the run now shows in the result (`ends`), and a counted failure shows in it
      as one (`fails`). */
  ghost predicate Stops(w: World, inSignal: bool, tr0: Trace, tr: Trace, ends: bool, fails: bool) {
    && (Undisturbed(w, tr) ==> Undisturbed(w, tr0))
    && (Ready(inSignal, tr0) ==>
          && Overrun(tr) == Overrun(tr0)
          && (inSignal ==> Halted(tr) == Halted(tr0))
          && (!inSignal && Halted(tr) ==> ends)
          && (StatsFailed(tr) ==> fails))
  }

  lemma StopsInTwo(w: World, inSignal: bool, tr0: Trace, tr1: Trace, tr2: Trace, ends: bool, fails: bool)
    requires Stops(w, inSignal, tr0, tr1, false, false) && Stops(w, inSignal, tr1, tr2, ends, fails)
    ensures Stops(w, inSignal, tr0, tr2, ends, fails)
  {}

  /** Behind a signal list, whatever had ended the run before it. */
  lemma StopsBehindSignals(w: World, inSignal: bool, tr0: Trace, tr1: Trace, tr2: Trace, ends: bool, fails: bool)
    requires Stops(w, inSignal, tr0, tr1, ends, false) && Stops(w, true, tr1, tr2, false, fails)
    ensures Stops(w, inSignal, tr0, tr2, ends, fails)
  {}

  lemma PollStops(w: World, opts: Options, inSignal: bool, tr0: Trace, tr: Trace, ends: bool, fails: bool)
    requires Stops(w, inSignal, tr0, tr, ends, fails)
    ensures Stops(w, inSignal, tr0, Poll(w, opts, tr).1, ends, fails)
    ensures Poll(w, opts, tr).0 ==> !Undisturbed(w, Poll(w, opts, tr).1)
  {}

  /** An event that is neither work nor a question about a shutdown. */
  lemma EventStops(w: World, inSignal: bool, tr0: Trace, tr: Trace, e: Event, ends: bool, fails: bool)
    requires Stops(w, inSignal, tr0, tr, ends, fails) && !Work(e) && !e.Polled?
    ensures Stops(w, inSignal, tr0, Then(tr, e), ends, fails || e == StatUpdate(Failed))
  {}

  lemma {:induction false} CheckStops(w: World, m: Module, env: Environment, inSignal: bool, tr: Trace)
    ensures Stops(w, inSignal, tr, CheckModule(w, m, env, inSignal, tr).1, false, false)
    decreases m, 1
  {
    match m
    case Leaf(_) =>
    case Recipe(_, _) => CheckChildrenStop(w, m, 0, env, inSignal, tr);
    case Guarded(id, _) =>
      var tr' := Then(tr, GuardChecked(id, w.guard(tr, id, env), inSignal));
      CheckChildrenStop(w, m, 0, env, inSignal, tr');
      StopsInTwo(w, inSignal, tr, tr', CheckChildren(w, m, 0, env, inSignal, tr').1, false, false);
  }

  lemma {:induction false} CheckChildrenStop(w: World, m: Module, i: nat, env: Environment, inSignal: bool, tr: Trace)
    requires !m.Leaf? && i <= |m.children|
    ensures Stops(w, inSignal, tr, CheckChildren(w, m, i, env, inSignal, tr).1, false, false)
    decreases m, 0, |m.children| - i
  {
    if i < |m.children| && !(m.Recipe? && w.aborted(tr)) {
      var tr' := if m.Recipe? then Then(tr, AbortPolled) else tr;
      CheckStops(w, m.children[i], env, inSignal, tr');
      var tr'' := CheckModule(w, m.children[i], env, inSignal, tr').1;
      StopsInTwo(w, inSignal, tr, tr', tr'', false, false);
      CheckChildrenStop(w, m, i + 1, env, inSignal, tr'');
      StopsInTwo(w, inSignal, tr, tr'', CheckChildren(w, m, i + 1, env, inSignal, tr'').1, false, false);
    }
  }

  /** The result ends every loop that it reaches. */
  predicate Halts(outcome: Outcome) {
    && outcome.Returned?
    && (outcome.result.status == Failed || (outcome.result.stopRun && AllMergeable(outcome.result.meta)))
  }

  /** A failure that asks for no signals. */
  predicate FailsQuietly(outcome: Outcome) {
    outcome.Returned? && outcome.result.status == Failed && !outcome.result.flushSignals
  }

  lemma {:induction false} ApplyStops(w: World, m: Module, env: Environment, opts: Options, tr: Trace)
    ensures var (outcome, tr') := ApplyModule(w, m, env, opts, tr);
            Stops(w, opts.inSignal, tr, tr', Halts(outcome), opts.signalHooks && FailsQuietly(outcome))
    decreases m, 3
  {
    match m
    case Leaf(_) =>
    case Recipe(_, _) => RecipeStops(w, m, env, opts, tr);
    case Guarded(id, _) =>
      var stored := StoredGuard(tr, id);
      var tr' := if stored == GuardThrew then Then(tr, GuardApplied(id, w.guard(tr, id, env), opts.inSignal)) else tr;
      GuardedStops(w, m, 0, InitialGuarded(env), opts.(signalHooks := false), tr, tr');
  }

  // ----- Recipes

  predicate ExecHalts(exec: ChildExecution) {
    exec.Stepped? && (exec.step.status == Failed || exec.step.stopRun)
  }

  predicate ExecFailsQuietly(exec: ChildExecution) {
    exec.Stepped? && exec.step.status == Failed && !exec.step.flushSignals
  }

  predicate ExecMergeable(exec: ChildExecution) {
    exec.Stepped? && exec.step.status != Failed ==> AllMergeable(exec.step.meta)
  }

  lemma {:induction false} ExecuteStops(w: World, m: Module, env: Environment, opts: Options, tr: Trace)
    ensures var (exec, tr') := ExecuteChild(w, m, env, opts, tr);
            && Stops(w, opts.inSignal, tr, tr', ExecHalts(exec), opts.signalHooks && ExecFailsQuietly(exec))
            && ExecMergeable(exec)
            && (exec.Interrupted? ==> !Undisturbed(w, tr'))
    decreases m, 4
  {
    CheckStops(w, m, env, opts.inSignal, tr);
    var (answer, tr1) := CheckModule(w, m, env, opts.inSignal, tr);
    PollStops(w, opts, opts.inSignal, tr, tr1, false, false);
    if answer == NeedsApply {
      var (stop, tr2) := Poll(w, opts, tr1);
      if !stop {
        ApplyStops(w, m, env, opts, tr2);
        var (outcome, tr3) := ApplyModule(w, m, env, opts, tr2);
        StopsInTwo(w, opts.inSignal, tr, tr2, tr3, Halts(outcome), opts.signalHooks && FailsQuietly(outcome));
        AppliedStops(w, outcome, env, opts, tr, tr3);
      }
    }
  }

  /** From the outcome of a child to the step that the recipe sees. */
  function StepOf(w: World, outcome: Outcome, env: Environment, opts: Options, tr: Trace): (ChildExecution, Trace) {
    if outcome.Threw? then CaughtInRecipe(w, opts, tr) else BuildChildStep(w, outcome.result, env, opts, tr)
  }

  lemma AppliedStops(w: World, outcome: Outcome, env: Environment, opts: Options, tr0: Trace, tr: Trace)
    requires Stops(w, opts.inSignal, tr0, tr, Halts(outcome), opts.signalHooks && FailsQuietly(outcome))
    ensures var (exec, tr') := StepOf(w, outcome, env, opts, tr);
            && Stops(w, opts.inSignal, tr0, tr', ExecHalts(exec), opts.signalHooks && ExecFailsQuietly(exec))
            && ExecMergeable(exec)
            && (exec.Interrupted? ==> !Undisturbed(w, tr'))
  {
    if outcome.Threw? || (outcome.result.status != Failed && !AllMergeable(outcome.result.meta)) {
      PollStops(w, opts, opts.inSignal, tr0, tr, false, false);
    }
  }

  /** The loop of a recipe between two children. */
  ghost predicate GoesOn(s: RecipeState) { s.status != Failed && !s.stopRun && AllMergeable(s.meta) }

  predicate Ends(s: RecipeState) { s.status == Failed || s.stopRun }

  lemma MetaStaysMergeable(a: seq<MetaEntry>, b: seq<MetaEntry>, whole: bool)
    requires AllMergeable(a) && AllMergeable(b)
    ensures AllMergeable(a + if whole then b else EnvironmentOnly(b))
  {
    MergeEnvironmentOnly(map[], b);
  }

  /** The hook is told, and the step folded into the state. */
  lemma FoldedStops(w: World, i: nat, step: Step, s: RecipeState, opts: Options, tr0: Trace, tr: Trace)
    requires GoesOn(s) && ExecMergeable(Stepped(step))
    requires Stops(w, opts.inSignal, tr0, tr, ExecHalts(Stepped(step)), opts.signalHooks && ExecFailsQuietly(Stepped(step)))
    ensures var tr1 := if opts.onChildStep then Then(tr, ChildStep(step)) else tr;
            var s1 := ApplyStepToState(s, i, step, !opts.onChildStep);
            && Stops(w, opts.inSignal, tr0, tr1, Ends(s1), opts.signalHooks && s1.status == Failed && !step.flushSignals)
            && (s1.status != Failed ==> AllMergeable(s1.meta))
  {
    if step.status != Failed { MetaStaysMergeable(s.meta, step.meta, !opts.onChildStep); }
    EventStops(w, opts.inSignal, tr0, tr, ChildStep(step),
               ExecHalts(Stepped(step)), opts.signalHooks && ExecFailsQuietly(Stepped(step)));
  }

  /** The signals that a step asked for. */
  lemma {:induction false} FlushStops(w: World, r: Module, s: RecipeState, opts: Options, tr0: Trace, tr: Trace)
    requires r.Recipe? && r.signals.Signals? && Stops(w, opts.inSignal, tr0, tr, Ends(s), false)
    ensures var (run, tr') := RunSignals(w, r, 0, s.env, opts, tr);
            Stops(w, opts.inSignal, tr0, tr', Ends(s), opts.signalHooks && run.failed)
    decreases r, 0, |r.signals.modules| + 1
  {
    SignalsStop(w, r, 0, s.env, opts, tr);
    var (run, tr') := RunSignals(w, r, 0, s.env, opts, tr);
    StopsBehindSignals(w, opts.inSignal, tr0, tr, tr', Ends(s), opts.signalHooks && run.failed);
  }

  lemma {:induction false} ProcessStops(w: World, r: Module, i: nat, exec: ChildExecution, s: RecipeState, opts: Options,
                                        tr0: Trace, tr: Trace)
    requires r.Recipe? && GoesOn(s) && ExecMergeable(exec)
    requires Stops(w, opts.inSignal, tr0, tr, ExecHalts(exec), opts.signalHooks && ExecFailsQuietly(exec))
    ensures var (over, s', tr') := ProcessStep(w, r, i, exec, s, opts, tr);
            && Stops(w, opts.inSignal, tr0, tr', over && Ends(s'), opts.signalHooks && over && s'.status == Failed)
            && (!over ==> GoesOn(s'))
            && (s'.status != Failed ==> AllMergeable(s'.meta))
    decreases r, 1, 0
  {
    if exec.Stepped? {
      FoldedStops(w, i, exec.step, s, opts, tr0, tr);
      var tr1 := if opts.onChildStep then Then(tr, ChildStep(exec.step)) else tr;
      var s1 := ApplyStepToState(s, i, exec.step, !opts.onChildStep);
      if exec.step.flushSignals && r.signals.Signals? { FlushStops(w, r, s1, opts, tr0, tr1); }
    }
  }

  lemma {:induction false} RecipeLoopStops(w: World, r: Module, i: nat, s: RecipeState, opts: Options, tr0: Trace, tr: Trace)
    requires r.Recipe? && i <= |r.children| && GoesOn(s) && Stops(w, opts.inSignal, tr0, tr, false, false)
    ensures var (s', tr') := RecipeLoop(w, r, i, s, opts, tr);
            && Stops(w, opts.inSignal, tr0, tr', Ends(s'), opts.signalHooks && s'.status == Failed)
            && (s'.status != Failed ==> AllMergeable(s'.meta))
    decreases r, 1, |r.children| - i
  {
    if i < |r.children| {
      PollStops(w, opts, opts.inSignal, tr0, tr, false, false);
      var (stop, tr1) := Poll(w, opts, tr);
      if !stop {
        ExecuteStops(w, r.children[i], s.env, opts, tr1);
        var (exec, tr2) := ExecuteChild(w, r.children[i], s.env, opts, tr1);
        StopsInTwo(w, opts.inSignal, tr0, tr1, tr2, ExecHalts(exec), opts.signalHooks && ExecFailsQuietly(exec));
        ProcessStops(w, r, i, exec, s, opts, tr0, tr2);
        var (over, s', tr3) := ProcessStep(w, r, i, exec, s, opts, tr2);
        if !over { RecipeLoopStops(w, r, i + 1, s', opts, tr0, tr3); }
      }
    }
  }

  lemma {:induction false} RecipeStops(w: World, r: Module, env: Environment, opts: Options, tr: Trace)
    requires r.Recipe?
    ensures var (s, tr') := RunRecipe(w, r, env, opts, tr);
            && Stops(w, opts.inSignal, tr, tr', Ends(s), opts.signalHooks && s.status == Failed)
            && (s.status != Failed ==> AllMergeable(s.meta))
    decreases r, 2
  {
    RecipeLoopStops(w, r, 0, InitialState(env), opts, tr, tr);
    var (s, tr1) := RecipeLoop(w, r, 0, InitialState(env), opts, tr);
    if s.signalsPending && s.status == Changed && r.signals.Signals? {
      FlushStops(w, r, s, opts, tr, tr1);
    }
  }

  // ----- Signal lists

  lemma {:induction false} SignalsStop(w: World, r: Module, k: nat, env: Environment, opts: Options, tr: Trace)
    requires r.Recipe? && r.signals.Signals? && k <= |r.signals.modules|
    ensures var (run, tr') := RunSignals(w, r, k, env, opts, tr);
            Stops(w, true, tr, tr', false, opts.signalHooks && run.failed)
    decreases r, 0, |r.signals.modules| - k
  {
    if k < |r.signals.modules| {
      PollStops(w, opts, true, tr, tr, false, false);
      var (stop, tr1) := Poll(w, opts, tr);
      if !stop {
        OneSignalStops(w, r.signals.modules[k], env, opts, tr1);
        var (outcome, tr2) := RunOneSignal(w, r.signals.modules[k], env, opts, tr1);
        StopsInTwo(w, true, tr, tr1, tr2, false, opts.signalHooks && outcome.SignalFailed?);
        if outcome.SignalDone? {
          SignalsStop(w, r, k + 1, outcome.env, opts, tr2);
          var (run, tr3) := RunSignals(w, r, k + 1, outcome.env, opts, tr2);
          StopsInTwo(w, true, tr, tr2, tr3, false, opts.signalHooks && run.failed);
        }
      }
    }
  }

  lemma {:induction false} OneSignalStops(w: World, signal: Module, env: Environment, opts: Options, tr: Trace)
    ensures var (outcome, tr') := RunOneSignal(w, signal, env, opts, tr);
            Stops(w, true, tr, tr', false, opts.signalHooks && outcome.SignalFailed?)
    decreases signal, 4
  {
    var tr0 := StartSignal(opts, tr);
    ApplyStops(w, signal, env, SignalOptions(opts), tr0);
    var (outcome, tr1) := ApplyModule(w, signal, env, SignalOptions(opts), tr0);
    StopsInTwo(w, true, tr, tr0, tr1, false, false);
    if outcome.Returned? { FinishSignalStops(w, outcome.result, env, opts, tr, tr1); }
  }

  lemma FinishSignalStops(w: World, result: ModuleResult, env: Environment, opts: Options, tr0: Trace, tr: Trace)
    requires Stops(w, true, tr0, tr, false, false)
    ensures var (outcome, tr') := FinishSignal(result, env, opts, tr);
            Stops(w, true, tr0, tr', false, opts.signalHooks && outcome.SignalFailed?)
  {
    EventStops(w, true, tr0, tr, StatUpdate(Failed), false, false);
    var merged := if result.status == Failed then Ok(env) else Merge(env, result.meta);
    if merged.Ok? {
      var e := SignalStep(Step(result.status, result.meta, merged.value, false, false));
      EventStops(w, true, tr0, tr, e, false, false);
      EventStops(w, true, tr0, Then(tr, e), StatUpdate(result.status), false, false);
    }
  }

  // ----- `when` blocks

  ghost predicate BlockGoesOn(s: GuardedState) { s.status != Failed && !s.stopRun && AllMergeable(s.meta) }

  lemma {:induction false} GuardedStops(w: World, g: Module, i: nat, s: GuardedState, opts: Options, tr0: Trace, tr: Trace)
    requires g.Guarded? && i <= |g.children| && !opts.signalHooks
    requires BlockGoesOn(s) && Stops(w, opts.inSignal, tr0, tr, false, false)
    ensures var (run, tr') := RunGuarded(w, g, i, s, opts, tr);
            Stops(w, opts.inSignal, tr0, tr', Halts(GuardedResult(run)), false)
    decreases g, 1, |g.children| - i
  {
    if i < |g.children| {
      PollStops(w, opts, opts.inSignal, tr0, tr, false, false);
      var (stop, tr1) := Poll(w, opts, tr);
      if !stop {
        GuardedChildStops(w, g.children[i], i, s, opts, tr0, tr1);
        var (next, tr2) := GuardedChild(w, g.children[i], i, s, opts, tr1);
        if next.GoOn? { GuardedStops(w, g, i + 1, next.state, opts, tr0, tr2); }
      }
    }
  }

  ghost predicate NextStops(w: World, opts: Options, tr0: Trace, next: GuardedNext, tr: Trace) {
    match next
    case Over(run) => Stops(w, opts.inSignal, tr0, tr, Halts(GuardedResult(run)), false)
    case GoOn(s) => BlockGoesOn(s) && Stops(w, opts.inSignal, tr0, tr, false, false)
  }

  lemma {:induction false} GuardedChildStops(w: World, m: Module, i: nat, s: GuardedState, opts: Options, tr0: Trace, tr: Trace)
    requires !opts.signalHooks && BlockGoesOn(s) && Stops(w, opts.inSignal, tr0, tr, false, false)
    ensures var (next, tr') := GuardedChild(w, m, i, s, opts, tr);
            NextStops(w, opts, tr0, next, tr')
    decreases m, 4
  {
    CheckStops(w, m, s.env, opts.inSignal, tr);
    var (answer, tr1) := CheckModule(w, m, s.env, opts.inSignal, tr);
    StopsInTwo(w, opts.inSignal, tr0, tr, tr1, false, false);
    if answer == NeedsApply {
      PollStops(w, opts, opts.inSignal, tr0, tr1, false, false);
      var (stop, tr2) := Poll(w, opts, tr1);
      if !stop {
        ApplyStops(w, m, s.env, opts, tr2);
        var (outcome, tr3) := ApplyModule(w, m, s.env, opts, tr2);
        StopsInTwo(w, opts.inSignal, tr0, tr2, tr3, Halts(outcome), false);
        FinishChildStops(w, outcome, i, s, opts, tr0, tr3);
      }
    }
  }

  lemma FinishChildStops(w: World, outcome: Outcome, i: nat, s: GuardedState, opts: Options, tr0: Trace, tr: Trace)
    requires BlockGoesOn(s) && Stops(w, opts.inSignal, tr0, tr, Halts(outcome), false)
    ensures var (next, tr') := FinishGuardedChild(outcome, i, s, opts, tr);
            NextStops(w, opts, tr0, next, tr')
  {
    if outcome.Returned? && outcome.result.status != Failed && AllMergeable(outcome.result.meta) {
      MetaStaysMergeable(s.meta, outcome.result.meta, !opts.onChildStep);
    }
  }

  // ----- The runner

  lemma TopStepStops(w: World, m: Module, env: Environment, tr: Trace)
    ensures var (result, tr') := TopStep(w, m, env, tr);
            && Stops(w, false, tr, tr', result.shouldBreak, result.shouldBreak && !result.flushSignals)
            && (result.hasStatus ==> (result.shouldBreak <==> result.status == Failed || result.stopRun))
            && (!result.hasStatus ==> result.shouldBreak && !result.flushSignals && !result.stopRun && !Undisturbed(w, tr'))
  {
    CheckStops(w, m, env, false, tr);
    var (answer, tr1) := CheckModule(w, m, env, false, tr);
    if answer == NeedsApply && (m.Recipe? || !w.shutdown(tr1)) {
      var tr2 := if m.Recipe? then tr1 else Then(tr1, Polled);
      assert Stops(w, false, tr, tr2, false, false);
      ApplyStops(w, m, env, TopOptions(m), tr2);
      var (outcome, tr3) := ApplyModule(w, m, env, TopOptions(m), tr2);
      StopsInTwo(w, false, tr, tr2, tr3, Halts(outcome), TopOptions(m).signalHooks && FailsQuietly(outcome));
      HandledStops(w, outcome, env, TopOptions(m).signalHooks, tr, tr3);
    }
  }

  lemma HandledStops(w: World, outcome: Outcome, env: Environment, hooks: bool, tr0: Trace, tr: Trace)
    requires Stops(w, false, tr0, tr, Halts(outcome), hooks && FailsQuietly(outcome))
    ensures var (result, tr') := if outcome.Threw? then CaughtInRunner(w, env, tr) else HandleMeta(w, env, outcome.result, tr);
            && Stops(w, false, tr0, tr', result.shouldBreak, result.shouldBreak && !result.flushSignals)
            && (result.hasStatus ==> (result.shouldBreak <==> result.status == Failed || result.stopRun))
            && (!result.hasStatus ==> result.shouldBreak && !result.flushSignals && !result.stopRun && !Undisturbed(w, tr'))
  {}

  lemma TopIterationStops(w: World, m: Module, i: nat, signals: Signals, s: LoopState, tr: Trace)
    ensures var (over, s', tr') := TopIteration(w, m, i, signals, s, tr);
            Stops(w, false, tr, tr', over, over)
  {
    TopStepStops(w, m, s.env, tr);
    var (result, tr1) := TopStep(w, m, s.env, tr);
    var s1, tr2 := ApplyLoopResult(s, i, result), CountStats(result, tr1);
    EventStops(w, false, tr, tr1, StatUpdate(result.status), result.shouldBreak, result.shouldBreak && !result.flushSignals);
    var tr3 := Then(tr2, Polled);
    if result.flushSignals && !StatsFailed(tr3) && signals.Signals? {
      CountedStops(w, signals, s1, tr, tr3, result.shouldBreak);
    }
  }

  /** The signals of the definition, run while the counters show no failure. */
  lemma CountedStops(w: World, signals: Signals, s: LoopState, tr0: Trace, tr: Trace, ends: bool)
    requires signals.Signals? && Stops(w, false, tr0, tr, ends, true) && !StatsFailed(tr)
    ensures var (_, run, tr') := RunDefinitionSignals(w, signals, s, tr);
            Stops(w, false, tr0, tr', ends, run.failed)
  {
    SignalsStop(w, DefinitionSignals(signals), 0, s.env, SIGNAL_TOP, tr);
    var (run, tr') := RunSignals(w, DefinitionSignals(signals), 0, s.env, SIGNAL_TOP, tr);
    StopsBehindSignals(w, false, tr0, tr, tr', ends, run.failed);
  }

  lemma {:induction false} TopLoopStops(w: World, modules: seq<Module>, i: nat, signals: Signals, s: LoopState, tr: Trace)
    requires i <= |modules| && Stops(w, false, Start, tr, false, false)
    ensures Stops(w, false, Start, TopLoop(w, modules, i, signals, s, tr).1, true, true)
    decreases |modules| - i
  {
    if i < |modules| && !w.shutdown(tr) {
      var tr1 := Then(tr, Polled);
      TopIterationStops(w, modules[i], i, signals, s, tr1);
      var (over, s', tr2) := TopIteration(w, modules[i], i, signals, s, tr1);
      assert Stops(w, false, Start, tr1, false, false);
      StopsInTwo(w, false, Start, tr1, tr2, over, over);
      if !over { TopLoopStops(w, modules, i + 1, signals, s', tr2); }
    }
  }

  /** Over every run of every list of module trees: once a leaf outside signal lists has failed, or has
      asked for a stop with a result that can be merged, nothing outside signal lists is checked or applied
      any more; and once the runner has counted a failure, nothing is. */
  lemma NothingRunsBehindTheEnd(w: World, modules: seq<Module>, signals: Signals, env: Environment)
    ensures !Overrun(ExecuteRun(w, modules, signals, env).1)
  {
    var s0 := LoopState(env, false, false, []);
    TopLoopStops(w, modules, 0, signals, s0, Start);
    var (s, tr) := TopLoop(w, modules, 0, signals, s0, Start);
    var tr1 := Then(tr, Polled);
    assert Stops(w, false, Start, tr1, true, true);
    if !StatsFailed(tr1) && signals.Signals? { CountedStops(w, signals, s, Start, tr1, true); }
  }
}
