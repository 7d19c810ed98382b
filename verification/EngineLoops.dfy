/** The four loops of the engine as the source writes them, each a loop that reassigns its state, and
    each proved to compute the function that the theorems are about. */
module EngineLoops {
  import opened Meta
  import opened Engine

  /** executeModules (recipe.ts) */
  method ExecuteModules(w: World, r: Module, env: Environment, opts: Options, tr: Trace)
    returns (state: RecipeState, after: Trace)
    requires r.Recipe?
    ensures (state, after) == RecipeLoop(w, r, 0, InitialState(env), opts, tr)
  {
    state, after := InitialState(env), tr;
    for i := 0 to |r.children|
      invariant RecipeLoop(w, r, i, state, opts, after) == RecipeLoop(w, r, 0, InitialState(env), opts, tr)
    {
      var stop, polled := Poll(w, opts, after).0, Poll(w, opts, after).1;
      if stop {
        after := polled;
        return;
      }
      var (exec, executed) := ExecuteChild(w, r.children[i], state.env, opts, polled);
      var (over, next, processed) := ProcessStep(w, r, i, exec, state, opts, executed);
      state, after := next, processed;
      if over { return; }
    }
  }

  /** applyRecipe (recipe.ts), which overwrites the status with that of the last signal run. */
  method ApplyRecipe(w: World, r: Module, env: Environment, opts: Options, tr: Trace)
    returns (result: ModuleResult, after: Trace)
    requires r.Recipe?
    ensures (Returned(result), after) == ApplyModule(w, r, env, opts, tr)
  {
    var state;
    state, after := ExecuteModules(w, r, env, opts, tr);
    var status := state.status;
    if state.signalsPending && state.status == Changed && r.signals.Signals? {
      var run;
      run, after := RunSignalModules(w, r, state.env, opts, after);
      status := if run.failed then Failed else Changed;
    }
    result := ModuleResult(status, state.meta, false, state.stopRun);
  }

  /** runSignalModules (signalOrchestration.ts) */
  method RunSignalModules(w: World, r: Module, env: Environment, opts: Options, tr: Trace)
    returns (run: SignalRun, after: Trace)
    requires r.Recipe? && r.signals.Signals?
    ensures (run, after) == RunSignals(w, r, 0, env, opts, tr)
  {
    var currentEnvironment := env;
    after := tr;
    for k := 0 to |r.signals.modules|
      invariant RunSignals(w, r, k, currentEnvironment, opts, after) == RunSignals(w, r, 0, env, opts, tr)
    {
      var stop, polled := Poll(w, opts, after).0, Poll(w, opts, after).1;
      if stop { return SignalRun(false, true, k), polled; }
      var (outcome, finished) := RunOneSignal(w, r.signals.modules[k], currentEnvironment, opts, polled);
      if outcome.SignalFailed? { return SignalRun(true, false, k + 1), finished; }
      currentEnvironment, after := outcome.env, finished;
    }
    run := SignalRun(false, false, |r.signals.modules|);
  }

  /** runConditionalModuleLoop (conditionalExecution.ts) */
  method RunConditionalModuleLoop(w: World, g: Module, env: Environment, opts: Options, tr: Trace)
    returns (run: GuardedRun, after: Trace)
    requires g.Guarded?
    ensures (run, after) == RunGuarded(w, g, 0, InitialGuarded(env), opts, tr)
  {
    var state := InitialGuarded(env);
    after := tr;
    for i := 0 to |g.children|
      invariant RunGuarded(w, g, i, state, opts, after) == RunGuarded(w, g, 0, InitialGuarded(env), opts, tr)
    {
      var stop, polled := Poll(w, opts, after).0, Poll(w, opts, after).1;
      if stop {
        after := polled;
        break;
      }
      var (next, finished) := GuardedChild(w, g.children[i], i, state, opts, polled);
      after := finished;
      if next.Over? { return next.run, after; }
      state := next.state;
    }
    run := Finished(state);
  }

  /** runModuleLoop (runner.ts) */
  method RunModuleLoop(w: World, modules: seq<Module>, signals: Signals, env: Environment)
    returns (loopState: LoopState, after: Trace)
    ensures (loopState, after) == TopLoop(w, modules, 0, signals, LoopState(env, false, false, []), Start)
  {
    ghost var start := LoopState(env, false, false, []);
    loopState, after := LoopState(env, false, false, []), Start;
    for i := 0 to |modules|
      invariant TopLoop(w, modules, i, signals, loopState, after) == TopLoop(w, modules, 0, signals, start, Start)
    {
      var stop := w.shutdown(after);
      after := Then(after, Polled);
      if stop { return; }
      var (over, next, finished) := TopIteration(w, modules[i], i, signals, loopState, after);
      loopState, after := next, finished;
      if over { return; }
    }
  }
}
