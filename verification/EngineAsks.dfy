/** What comes before an apply, at whatever depth, in signal lists or outside them: its own check asked for it,
    then the question about a shutdown was answered with no. Once it is answered with yes, nothing is checked
    or applied any more. */
module EngineAsks {
  import opened Meta
  import opened Engine
  import opened EngineStops

  /** The runner never takes a pending signal back. */
  ghost predicate Latched(w: World) {
    forall tr, e :: w.shutdown(tr) ==> w.shutdown(Then(tr, e))
  }

  /** The leaf's own check has just asked for an apply, and then a shutdown was asked for; the members of a
      signal list are not checked. */
  predicate Prepared(tr: Trace, id: nat, inSignal: bool) {
    tr.Then? &&
    if inSignal && tr.event == SignalStarted then tr.past.Then? && tr.past.event == Polled
    else tr.event == Polled && (inSignal || (tr.past.Then? && tr.past.event == Checked(id, NeedsApply, false)))
  }

  /** A module or a guard is asked or applied although a shutdown has been announced to a loop, or a leaf is
      applied without having been asked. */
  predicate Reckless(w: World, past: Trace, e: Event) {
    (Work(e) && !Undisturbed(w, past)) || (e.Applied? && !Prepared(past, e.id, e.inSignal))
  }

  predicate Ignored(w: World, tr: Trace) {
    tr.Then? && (Reckless(w, tr.past, tr.event) || Ignored(w, tr.past))
  }

  ghost predicate Heeds(w: World, tr0: Trace, tr: Trace) { Ignored(w, tr) == Ignored(w, tr0) }

  /** Who is answered no has never been answered yes. */
  lemma {:induction false} NoMeansNever(w: World, tr: Trace)
    requires Latched(w) && !w.shutdown(tr)
    ensures Undisturbed(w, tr)
    decreases tr
  {
    if tr.Then? { NoMeansNever(w, tr.past); }
  }

  lemma PollHeeds(w: World, opts: Options, tr: Trace)
    requires Latched(w) && opts.shutdownSignal
    ensures var (stop, tr') := Poll(w, opts, tr);
            Heeds(w, tr, tr') && tr' == Then(tr, Polled) && (!stop ==> Undisturbed(w, tr'))
  {
    if !w.shutdown(tr) { NoMeansNever(w, tr); }
  }

  lemma {:induction false} CheckHeeds(w: World, m: Module, env: Environment, inSignal: bool, tr: Trace)
    requires Undisturbed(w, tr)
    ensures var tr' := CheckModule(w, m, env, inSignal, tr).1;
            Heeds(w, tr, tr') && Undisturbed(w, tr')
    decreases m, 1
  {
    match m
    case Leaf(_) =>
    case Recipe(_, _) => CheckChildrenHeed(w, m, 0, env, inSignal, tr);
    case Guarded(id, _) =>
      CheckChildrenHeed(w, m, 0, env, inSignal, Then(tr, GuardChecked(id, w.guard(tr, id, env), inSignal)));
  }

  lemma {:induction false} CheckChildrenHeed(w: World, m: Module, i: nat, env: Environment, inSignal: bool, tr: Trace)
    requires !m.Leaf? && i <= |m.children| && Undisturbed(w, tr)
    ensures var tr' := CheckChildren(w, m, i, env, inSignal, tr).1;
            Heeds(w, tr, tr') && Undisturbed(w, tr')
    decreases m, 0, |m.children| - i
  {
    if i < |m.children| && !(m.Recipe? && w.aborted(tr)) {
      var tr' := if m.Recipe? then Then(tr, AbortPolled) else tr;
      CheckHeeds(w, m.children[i], env, inSignal, tr');
      var tr'' := CheckModule(w, m.children[i], env, inSignal, tr').1;
      CheckChildrenHeed(w, m, i + 1, env, inSignal, tr'');
    }
  }

  lemma {:induction false} ApplyHeeds(w: World, m: Module, env: Environment, opts: Options, tr: Trace)
    requires Latched(w) && opts.shutdownSignal && Undisturbed(w, tr)
    requires m.Leaf? ==> Prepared(tr, m.id, opts.inSignal)
    ensures Heeds(w, tr, ApplyModule(w, m, env, opts, tr).1)
    decreases m, 3
  {
    match m
    case Leaf(_) =>
    case Recipe(_, _) => RecipeHeeds(w, m, env, opts, tr);
    case Guarded(id, _) =>
      var stored := StoredGuard(tr, id);
      var tr' := if stored == GuardThrew then Then(tr, GuardApplied(id, w.guard(tr, id, env), opts.inSignal)) else tr;
      GuardedHeeds(w, m, 0, InitialGuarded(env), opts.(signalHooks := false), tr');
  }

  lemma {:induction false} RecipeHeeds(w: World, r: Module, env: Environment, opts: Options, tr: Trace)
    requires r.Recipe? && Latched(w) && opts.shutdownSignal
    ensures Heeds(w, tr, RunRecipe(w, r, env, opts, tr).1)
    decreases r, 2
  {
    RecipeLoopHeeds(w, r, 0, InitialState(env), opts, tr);
    var (s, tr1) := RecipeLoop(w, r, 0, InitialState(env), opts, tr);
    if r.signals.Signals? { SignalsHeed(w, r, 0, s.env, opts, tr1); }
  }

  lemma {:induction false} RecipeLoopHeeds(w: World, r: Module, i: nat, s: RecipeState, opts: Options, tr: Trace)
    requires r.Recipe? && i <= |r.children| && Latched(w) && opts.shutdownSignal
    ensures Heeds(w, tr, RecipeLoop(w, r, i, s, opts, tr).1)
    decreases r, 1, |r.children| - i
  {
    if i < |r.children| {
      PollHeeds(w, opts, tr);
      var (stop, tr1) := Poll(w, opts, tr);
      if !stop {
        ExecuteHeeds(w, r.children[i], s.env, opts, tr1);
        var (exec, tr2) := ExecuteChild(w, r.children[i], s.env, opts, tr1);
        ProcessHeeds(w, r, i, exec, s, opts, tr2);
        var (over, s', tr3) := ProcessStep(w, r, i, exec, s, opts, tr2);
        if !over { RecipeLoopHeeds(w, r, i + 1, s', opts, tr3); }
      }
    }
  }

  lemma {:induction false} ExecuteHeeds(w: World, m: Module, env: Environment, opts: Options, tr: Trace)
    requires Latched(w) && opts.shutdownSignal && Undisturbed(w, tr)
    ensures Heeds(w, tr, ExecuteChild(w, m, env, opts, tr).1)
    decreases m, 4
  {
    CheckHeeds(w, m, env, opts.inSignal, tr);
    var (answer, tr1) := CheckModule(w, m, env, opts.inSignal, tr);
    PollHeeds(w, opts, tr1);
    var (stop, tr2) := Poll(w, opts, tr1);
    if answer == NeedsApply && !stop {
      ApplyHeeds(w, m, env, opts, tr2);
      PollHeeds(w, opts, ApplyModule(w, m, env, opts, tr2).1);
    }
  }

  lemma {:induction false} ProcessHeeds(w: World, r: Module, i: nat, exec: ChildExecution, s: RecipeState, opts: Options, tr: Trace)
    requires r.Recipe? && Latched(w) && opts.shutdownSignal
    ensures Heeds(w, tr, ProcessStep(w, r, i, exec, s, opts, tr).2)
    decreases r, 1, 0
  {
    if exec.Stepped? && r.signals.Signals? {
      var tr1 := if opts.onChildStep then Then(tr, ChildStep(exec.step)) else tr;
      SignalsHeed(w, r, 0, ApplyStepToState(s, i, exec.step, !opts.onChildStep).env, opts, tr1);
    }
  }

  lemma {:induction false} SignalsHeed(w: World, r: Module, k: nat, env: Environment, opts: Options, tr: Trace)
    requires r.Recipe? && r.signals.Signals? && k <= |r.signals.modules| && Latched(w) && opts.shutdownSignal
    ensures Heeds(w, tr, RunSignals(w, r, k, env, opts, tr).1)
    decreases r, 0, |r.signals.modules| - k
  {
    if k < |r.signals.modules| {
      PollHeeds(w, opts, tr);
      var (stop, tr1) := Poll(w, opts, tr);
      if !stop {
        OneSignalHeeds(w, r.signals.modules[k], env, opts, tr1);
        var (outcome, tr2) := RunOneSignal(w, r.signals.modules[k], env, opts, tr1);
        if outcome.SignalDone? { SignalsHeed(w, r, k + 1, outcome.env, opts, tr2); }
      }
    }
  }

  lemma {:induction false} OneSignalHeeds(w: World, signal: Module, env: Environment, opts: Options, tr: Trace)
    requires Latched(w) && opts.shutdownSignal && Undisturbed(w, tr) && tr.Then? && tr.event == Polled
    ensures Heeds(w, tr, RunOneSignal(w, signal, env, opts, tr).1)
    decreases signal, 4
  {
    ApplyHeeds(w, signal, env, SignalOptions(opts), StartSignal(opts, tr));
  }

  lemma {:induction false} GuardedHeeds(w: World, g: Module, i: nat, s: GuardedState, opts: Options, tr: Trace)
    requires g.Guarded? && i <= |g.children| && Latched(w) && opts.shutdownSignal
    ensures Heeds(w, tr, RunGuarded(w, g, i, s, opts, tr).1)
    decreases g, 1, |g.children| - i
  {
    if i < |g.children| {
      PollHeeds(w, opts, tr);
      var (stop, tr1) := Poll(w, opts, tr);
      if !stop {
        GuardedChildHeeds(w, g.children[i], i, s, opts, tr1);
        var (next, tr2) := GuardedChild(w, g.children[i], i, s, opts, tr1);
        if next.GoOn? { GuardedHeeds(w, g, i + 1, next.state, opts, tr2); }
      }
    }
  }

  lemma {:induction false} GuardedChildHeeds(w: World, m: Module, i: nat, s: GuardedState, opts: Options, tr: Trace)
    requires Latched(w) && opts.shutdownSignal && Undisturbed(w, tr)
    ensures Heeds(w, tr, GuardedChild(w, m, i, s, opts, tr).1)
    decreases m, 4
  {
    CheckHeeds(w, m, s.env, opts.inSignal, tr);
    var (answer, tr1) := CheckModule(w, m, s.env, opts.inSignal, tr);
    PollHeeds(w, opts, tr1);
    var (stop, tr2) := Poll(w, opts, tr1);
    if answer == NeedsApply && !stop { ApplyHeeds(w, m, s.env, opts, tr2); }
  }

  lemma TopStepHeeds(w: World, m: Module, env: Environment, tr: Trace)
    requires Latched(w) && Undisturbed(w, tr)
    ensures Heeds(w, tr, TopStep(w, m, env, tr).1)
  {
    CheckHeeds(w, m, env, false, tr);
    var (answer, tr1) := CheckModule(w, m, env, false, tr);
    if answer == NeedsApply && (m.Recipe? || !w.shutdown(tr1)) {
      ApplyHeeds(w, m, env, TopOptions(m), if m.Recipe? then tr1 else Then(tr1, Polled));
    }
  }

  lemma DefinitionHeeds(w: World, signals: Signals, s: LoopState, tr: Trace)
    requires signals.Signals? && Latched(w)
    ensures Heeds(w, tr, RunDefinitionSignals(w, signals, s, tr).2)
  {
    SignalsHeed(w, DefinitionSignals(signals), 0, s.env, SIGNAL_TOP, tr);
  }

  lemma TopIterationHeeds(w: World, m: Module, i: nat, signals: Signals, s: LoopState, tr: Trace)
    requires Latched(w) && Undisturbed(w, tr)
    ensures Heeds(w, tr, TopIteration(w, m, i, signals, s, tr).2)
  {
    TopStepHeeds(w, m, s.env, tr);
    var (result, tr1) := TopStep(w, m, s.env, tr);
    var tr2 := CountStats(result, tr1);
    assert Heeds(w, tr, tr2);
    assert Heeds(w, tr, Then(tr2, Polled));
    if signals.Signals? { DefinitionHeeds(w, signals, ApplyLoopResult(s, i, result), Then(tr2, Polled)); }
  }

  lemma {:induction false} TopLoopHeeds(w: World, modules: seq<Module>, i: nat, signals: Signals, s: LoopState, tr: Trace)
    requires i <= |modules| && Latched(w)
    ensures Heeds(w, tr, TopLoop(w, modules, i, signals, s, tr).1)
    decreases |modules| - i
  {
    if i < |modules| && !w.shutdown(tr) {
      NoMeansNever(w, tr);
      TopIterationHeeds(w, modules[i], i, signals, s, Then(tr, Polled));
      var (over, s', tr') := TopIteration(w, modules[i], i, signals, s, Then(tr, Polled));
      if !over { TopLoopHeeds(w, modules, i + 1, signals, s', tr'); }
    }
  }

  /** Over every run of every list of module trees: a leaf is applied only right behind its own check, which
      asked for that, and a question about a shutdown, answered with no; a member of a signal list needs the
      question alone. Behind the first yes no check, no guard and no apply is started. */
  lemma AppliesAreAskedFor(w: World, modules: seq<Module>, signals: Signals, env: Environment)
    requires Latched(w)
    ensures !Ignored(w, ExecuteRun(w, modules, signals, env).1)
  {
    var s0 := LoopState(env, false, false, []);
    TopLoopHeeds(w, modules, 0, signals, s0, Start);
    var (s, tr) := TopLoop(w, modules, 0, signals, s0, Start);
    if signals.Signals? { DefinitionHeeds(w, signals, s, Then(tr, Polled)); }
  }
}
