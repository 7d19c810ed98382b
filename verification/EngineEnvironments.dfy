/** Which environment a module sees: whatever is asked or applied outside signal lists is given the environment
    that the run started with, after the entries of all leaves applied before, in order and across every
    nesting of recipes and blocks; and a signal sees what its list started with, after the signals before it. */
module EngineEnvironments {
  import opened Meta
  import opened Engine
  import opened EngineLedger
  import opened EngineStops

  /** Where the replay begins, with what, and whether signals are replayed or everything else. */
  datatype Origin = Origin(length: nat, env: Environment, inSignal: bool)

  function Length(tr: Trace): nat { if tr.Start? then 0 else 1 + Length(tr.past) }

  function MergedBy(e: Event, inSignal: bool): seq<MetaEntry> {
    if e.Applied? && e.inSignal == inSignal && e.outcome.Returned? && e.outcome.result.status != Failed
       && AllMergeable(e.outcome.result.meta)
    then e.outcome.result.meta else []
  }

  /** The environment after the entries of all leaves that were applied and have not failed. */
  function Replayed(o: Origin, tr: Trace): Environment {
    if Length(tr) <= o.length then o.env
    else Merge(Replayed(o, tr.past), MergedBy(tr.event, o.inSignal)).value
  }

  /** The answer is the one for the replayed environment. */
  predicate Sees(w: World, o: Origin, past: Trace, e: Event) {
    match e
    case Checked(id, answer, inSignal) => inSignal == o.inSignal ==> answer == w.check(past, id, Replayed(o, past))
    case GuardChecked(id, holds, inSignal) => inSignal == o.inSignal ==> holds == w.guard(past, id, Replayed(o, past))
    case GuardApplied(id, holds, inSignal) => inSignal == o.inSignal ==> holds == w.guard(past, id, Replayed(o, past))
    case Applied(id, outcome, inSignal) => inSignal == o.inSignal ==> outcome == w.apply(past, id, Replayed(o, past))
    case _ => true
  }

  /** Every answer since the origin that was asked for before a shutdown was announced. */
  predicate AllSee(w: World, o: Origin, tr: Trace) {
    Length(tr) > o.length ==> (Undisturbed(w, tr.past) ==> Sees(w, o, tr.past, tr.event)) && AllSee(w, o, tr.past)
  }

  ghost predicate Seen(o: Origin, opts: Options) { opts.inSignal == o.inSignal }

  /** From `tr` to `tr'`, `seen` telling whether what happened between them belongs to the replay. */
  ghost predicate Went(w: World, o: Origin, seen: bool, tr: Trace, tr': Trace) {
    && Length(tr) <= Length(tr')
    && (Undisturbed(w, tr') ==> Undisturbed(w, tr))
    && (AllSee(w, o, tr) ==> AllSee(w, o, tr'))
    && (!seen ==> Replayed(o, tr') == Replayed(o, tr))
  }

  /** `env` is the replayed environment, unless a shutdown was announced. */
  ghost predicate Current(w: World, o: Origin, seen: bool, env: Environment, tr: Trace) {
    && o.length <= Length(tr)
    && (seen && Undisturbed(w, tr) ==> Replayed(o, tr) == env)
  }

  /** In a replay of signals there are no lists within the list. */
  predicate Unnested(m: Module) {
    match m
    case Leaf(_) => true
    case Recipe(children, signals) => signals.NoSignals? && forall i | 0 <= i < |children| :: Unnested(children[i])
    case Guarded(_, children) => forall i | 0 <= i < |children| :: Unnested(children[i])
  }

  lemma PollSees(w: World, o: Origin, seen: bool, env: Environment, opts: Options, tr: Trace)
    requires Current(w, o, seen, env, tr)
    ensures var (stop, tr') := Poll(w, opts, tr);
            && Went(w, o, false, tr, tr') && Current(w, o, seen, env, tr')
            && (stop ==> !Undisturbed(w, tr'))
  {}

  /** An event that is neither work nor an answered question. */
  lemma EventGoes(w: World, o: Origin, tr: Trace, e: Event)
    requires o.length <= Length(tr) && !Work(e)
    ensures Went(w, o, false, tr, Then(tr, e))
  {}

  lemma {:induction false} CheckSees(w: World, o: Origin, m: Module, env: Environment, inSignal: bool, tr: Trace)
    requires Current(w, o, inSignal == o.inSignal, env, tr)
    ensures var tr' := CheckModule(w, m, env, inSignal, tr).1;
            Went(w, o, false, tr, tr')
    decreases m, 1
  {
    match m
    case Leaf(_) =>
    case Recipe(_, _) => CheckChildrenSee(w, o, m, 0, env, inSignal, tr);
    case Guarded(id, _) =>
      CheckChildrenSee(w, o, m, 0, env, inSignal, Then(tr, GuardChecked(id, w.guard(tr, id, env), inSignal)));
  }

  lemma {:induction false} CheckChildrenSee(w: World, o: Origin, m: Module, i: nat, env: Environment, inSignal: bool, tr: Trace)
    requires !m.Leaf? && i <= |m.children| && Current(w, o, inSignal == o.inSignal, env, tr)
    ensures var tr' := CheckChildren(w, m, i, env, inSignal, tr).1;
            Went(w, o, false, tr, tr')
    decreases m, 0, |m.children| - i
  {
    if i < |m.children| && !(m.Recipe? && w.aborted(tr)) {
      var tr' := if m.Recipe? then Then(tr, AbortPolled) else tr;
      assert Went(w, o, false, tr, tr');
      CheckSees(w, o, m.children[i], env, inSignal, tr');
      var tr'' := CheckModule(w, m.children[i], env, inSignal, tr').1;
      CheckChildrenSee(w, o, m, i + 1, env, inSignal, tr'');
    }
  }

  // ----- apply()

  /** A result that is merged brings the environment to the replayed one, and a container's can be merged. */
  ghost predicate ResultSees(w: World, o: Origin, seen: bool, env: Environment, container: bool, outcome: Outcome, tr: Trace) {
    outcome.Returned? && outcome.result.status != Failed ==>
      && (container ==> AllMergeable(outcome.result.meta))
      && (AllMergeable(outcome.result.meta) ==> Current(w, o, seen, Merge(env, outcome.result.meta).value, tr))
  }

  lemma {:induction false} ApplySees(w: World, o: Origin, m: Module, env: Environment, opts: Options, tr: Trace)
    requires Current(w, o, Seen(o, opts), env, tr) && (o.inSignal ==> Unnested(m))
    ensures var (outcome, tr') := ApplyModule(w, m, env, opts, tr);
            && Went(w, o, Seen(o, opts), tr, tr')
            && ResultSees(w, o, Seen(o, opts), env, !m.Leaf?, outcome, tr')
    decreases m, 3, 0
  {
    match m
    case Leaf(id) => LeafSees(w, o, id, env, opts, tr);
    case Recipe(_, _) => RecipeSees(w, o, m, env, opts, tr);
    case Guarded(_, _) => BlockSees(w, o, m, env, opts, tr);
  }

  lemma {:induction false} BlockSees(w: World, o: Origin, m: Module, env: Environment, opts: Options, tr: Trace)
    requires m.Guarded? && Current(w, o, Seen(o, opts), env, tr) && (o.inSignal ==> Unnested(m))
    ensures var (outcome, tr') := ApplyModule(w, m, env, opts, tr);
            && Went(w, o, Seen(o, opts), tr, tr')
            && ResultSees(w, o, Seen(o, opts), env, true, outcome, tr')
    decreases m, 2
  {
    var (answer, tr') := AskedGuard(w, m.guard, env, opts, tr);
    GuardSees(w, o, m.guard, env, opts, tr);
    if answer == Holds {
      GuardedSees(w, o, m, 0, InitialGuarded(env), opts.(signalHooks := false), env, tr');
      var (run, tr'') := RunGuarded(w, m, 0, InitialGuarded(env), opts.(signalHooks := false), tr');
      FinishedSees(w, o, Seen(o, opts), env, run, tr'');
    }
  }

  /** The guard as a block's apply reads it: as its check left it, or asked again. */
  function AskedGuard(w: World, id: nat, env: Environment, opts: Options, tr: Trace): (GuardOutcome, Trace) {
    var stored := StoredGuard(tr, id);
    if stored != GuardThrew then (stored, tr)
    else (w.guard(tr, id, env), Then(tr, GuardApplied(id, w.guard(tr, id, env), opts.inSignal)))
  }

  lemma GuardSees(w: World, o: Origin, id: nat, env: Environment, opts: Options, tr: Trace)
    requires Current(w, o, Seen(o, opts), env, tr)
    ensures var tr' := AskedGuard(w, id, env, opts, tr).1;
            Went(w, o, false, tr, tr') && Current(w, o, Seen(o, opts), env, tr')
  {}

  lemma FinishedSees(w: World, o: Origin, seen: bool, env: Environment, run: GuardedRun, tr: Trace)
    requires RunSees(w, o, seen, env, run, tr)
    ensures ResultSees(w, o, seen, env, true, GuardedResult(run), tr)
  {}

  lemma LeafSees(w: World, o: Origin, id: nat, env: Environment, opts: Options, tr: Trace)
    requires Current(w, o, Seen(o, opts), env, tr)
    ensures var (outcome, tr') := ApplyModule(w, Leaf(id), env, opts, tr);
            && Went(w, o, Seen(o, opts), tr, tr')
            && ResultSees(w, o, Seen(o, opts), env, false, outcome, tr')
  {
    assert Merge(Replayed(o, tr), []) == Ok(Replayed(o, tr));
  }

  // ----- Recipes

  /** A loop that has collected `meta` since it started with `env0`. */
  ghost predicate LoopSees(w: World, o: Origin, seen: bool, env0: Environment, status: Status, meta: seq<MetaEntry>,
                           env: Environment, tr: Trace)
  {
    status != Failed ==> Merge(env0, meta) == Ok(env) && Current(w, o, seen, env, tr)
  }

  lemma {:induction false} RecipeSees(w: World, o: Origin, r: Module, env: Environment, opts: Options, tr: Trace)
    requires r.Recipe? && Current(w, o, Seen(o, opts), env, tr) && (o.inSignal ==> Unnested(r))
    ensures var (s, tr') := RunRecipe(w, r, env, opts, tr);
            && Went(w, o, Seen(o, opts), tr, tr')
            && LoopSees(w, o, Seen(o, opts), env, s.status, s.meta, s.env, tr')
    decreases r, 2
  {
    RecipeLoopSees(w, o, r, 0, InitialState(env), opts, env, tr);
    var (s, tr1) := RecipeLoop(w, r, 0, InitialState(env), opts, tr);
    if s.signalsPending && s.status == Changed && r.signals.Signals? { SignalsSee(w, o, r, 0, s.env, opts, tr1); }
  }

  lemma {:induction false} RecipeLoopSees(w: World, o: Origin, r: Module, i: nat, s: RecipeState, opts: Options,
                                          env0: Environment, tr: Trace)
    requires r.Recipe? && i <= |r.children| && (o.inSignal ==> Unnested(r)) && s.status != Failed
    requires LoopSees(w, o, Seen(o, opts), env0, s.status, s.meta, s.env, tr)
    ensures var (s', tr') := RecipeLoop(w, r, i, s, opts, tr);
            && Went(w, o, Seen(o, opts), tr, tr')
            && LoopSees(w, o, Seen(o, opts), env0, s'.status, s'.meta, s'.env, tr')
    decreases r, 1, |r.children| - i
  {
    if i < |r.children| {
      PollSees(w, o, Seen(o, opts), s.env, opts, tr);
      var (stop, tr1) := Poll(w, opts, tr);
      if !stop {
        ExecuteSees(w, o, r.children[i], s.env, opts, tr1);
        var (exec, tr2) := ExecuteChild(w, r.children[i], s.env, opts, tr1);
        ProcessSees(w, o, r, i, exec, s, opts, env0, tr2);
        var (over, s', tr3) := ProcessStep(w, r, i, exec, s, opts, tr2);
        if !over { RecipeLoopSees(w, o, r, i + 1, s', opts, env0, tr3); }
      }
    }
  }

  ghost predicate ExecSees(w: World, o: Origin, seen: bool, env: Environment, exec: ChildExecution, tr: Trace) {
    && o.length <= Length(tr)
    && (exec.NoStep? ==> Current(w, o, seen, env, tr))
    && (exec.Interrupted? ==> !Undisturbed(w, tr))
    && (exec.Stepped? && exec.step.status != Failed ==>
          Merge(env, exec.step.meta) == Ok(exec.step.env) && Current(w, o, seen, exec.step.env, tr))
  }

  lemma {:induction false} ExecuteSees(w: World, o: Origin, m: Module, env: Environment, opts: Options, tr: Trace)
    requires Current(w, o, Seen(o, opts), env, tr) && (o.inSignal ==> Unnested(m))
    ensures var (exec, tr') := ExecuteChild(w, m, env, opts, tr);
            && Went(w, o, Seen(o, opts), tr, tr')
            && ExecSees(w, o, Seen(o, opts), env, exec, tr')
    decreases m, 4
  {
    CheckedSees(w, o, m, env, opts, tr);
    var (answer, tr1) := CheckModule(w, m, env, opts.inSignal, tr);
    var (stop, tr2) := Poll(w, opts, tr1);
    if answer == CheckThrew {
      CaughtSees(w, o, env, opts, tr1);
    } else if answer == NeedsApply && !stop {
      ApplySees(w, o, m, env, opts, tr2);
      var (outcome, tr3) := ApplyModule(w, m, env, opts, tr2);
      StepSees(w, o, outcome, !m.Leaf?, env, opts, tr3);
    }
  }

  /** A child's check and the question behind it. */
  lemma CheckedSees(w: World, o: Origin, m: Module, env: Environment, opts: Options, tr: Trace)
    requires Current(w, o, Seen(o, opts), env, tr)
    ensures var tr1 := CheckModule(w, m, env, opts.inSignal, tr).1;
            && Went(w, o, false, tr, tr1) && Current(w, o, Seen(o, opts), env, tr1)
            && Went(w, o, false, tr, Poll(w, opts, tr1).1) && Current(w, o, Seen(o, opts), env, Poll(w, opts, tr1).1)
            && (Poll(w, opts, tr1).0 ==> !Undisturbed(w, Poll(w, opts, tr1).1))
  {
    CheckSees(w, o, m, env, opts.inSignal, tr);
    PollSees(w, o, Seen(o, opts), env, opts, CheckModule(w, m, env, opts.inSignal, tr).1);
  }

  lemma CaughtSees(w: World, o: Origin, env: Environment, opts: Options, tr: Trace)
    requires o.length <= Length(tr)
    ensures var (exec, tr') := CaughtInRecipe(w, opts, tr);
            Went(w, o, false, tr, tr') && ExecSees(w, o, Seen(o, opts), env, exec, tr')
  {
    EventGoes(w, o, tr, Polled);
  }

  lemma StepSees(w: World, o: Origin, outcome: Outcome, container: bool, env: Environment, opts: Options, tr: Trace)
    requires o.length <= Length(tr) && ResultSees(w, o, Seen(o, opts), env, container, outcome, tr)
    ensures var (exec, tr') := StepOf(w, outcome, env, opts, tr);
            && Went(w, o, false, tr, tr')
            && ExecSees(w, o, Seen(o, opts), env, exec, tr')
  {
    CaughtSees(w, o, env, opts, tr);
    if outcome.Returned? && outcome.result.status != Failed && AllMergeable(outcome.result.meta) {
      assert Merge(env, outcome.result.meta).Ok?;
    }
  }

  lemma {:induction false} ProcessSees(w: World, o: Origin, r: Module, i: nat, exec: ChildExecution, s: RecipeState,
                                       opts: Options, env0: Environment, tr: Trace)
    requires r.Recipe? && (o.inSignal ==> Unnested(r)) && s.status != Failed
    requires Merge(env0, s.meta) == Ok(s.env) && ExecSees(w, o, Seen(o, opts), s.env, exec, tr)
    ensures var (over, s', tr') := ProcessStep(w, r, i, exec, s, opts, tr);
            && Went(w, o, Seen(o, opts), tr, tr')
            && LoopSees(w, o, Seen(o, opts), env0, s'.status, s'.meta, s'.env, tr')
            && (!over ==> s'.status != Failed)
    decreases r, 1, 0
  {
    if exec.Stepped? {
      var step := exec.step;
      FoldedMeta(env0, s.meta, s.env, step.meta, opts.onChildStep);
      var tr1 := if opts.onChildStep then Then(tr, ChildStep(step)) else tr;
      EventGoes(w, o, tr, ChildStep(step));
      var s1 := ApplyStepToState(s, i, step, !opts.onChildStep);
      if step.flushSignals && s1.signalsPending && r.signals.Signals? { SignalsSee(w, o, r, 0, s1.env, opts, tr1); }
    }
  }

  // ----- Signal lists

  lemma {:induction false} SignalsSee(w: World, o: Origin, r: Module, k: nat, env: Environment, opts: Options, tr: Trace)
    requires r.Recipe? && r.signals.Signals? && k <= |r.signals.modules| && Current(w, o, o.inSignal, env, tr)
    requires o.inSignal ==> forall j | 0 <= j < |r.signals.modules| :: Unnested(r.signals.modules[j])
    ensures Went(w, o, o.inSignal, tr, RunSignals(w, r, k, env, opts, tr).1)
    decreases r, 0, |r.signals.modules| - k
  {
    if k < |r.signals.modules| {
      PollSees(w, o, o.inSignal, env, opts, tr);
      var (stop, tr1) := Poll(w, opts, tr);
      if !stop {
        OneSignalSees(w, o, r.signals.modules[k], env, opts, tr1);
        var (outcome, tr2) := RunOneSignal(w, r.signals.modules[k], env, opts, tr1);
        if outcome.SignalDone? { SignalsSee(w, o, r, k + 1, outcome.env, opts, tr2); }
      }
    }
  }

  lemma {:induction false} OneSignalSees(w: World, o: Origin, signal: Module, env: Environment, opts: Options, tr: Trace)
    requires Current(w, o, o.inSignal, env, tr) && (o.inSignal ==> Unnested(signal))
    ensures var (outcome, tr') := RunOneSignal(w, signal, env, opts, tr);
            && Went(w, o, o.inSignal, tr, tr')
            && (outcome.SignalDone? ==> Current(w, o, o.inSignal, outcome.env, tr'))
    decreases signal, 4
  {
    var tr0 := StartSignal(opts, tr);
    EventGoes(w, o, tr, SignalStarted);
    ApplySees(w, o, signal, env, SignalOptions(opts), tr0);
    var (outcome, tr1) := ApplyModule(w, signal, env, SignalOptions(opts), tr0);
    if outcome.Returned? { FinishSees(w, o, outcome.result, !signal.Leaf?, env, opts, tr1); }
  }

  lemma FinishSees(w: World, o: Origin, result: ModuleResult, container: bool, env: Environment, opts: Options, tr: Trace)
    requires o.length <= Length(tr) && ResultSees(w, o, o.inSignal, env, container, Returned(result), tr)
    ensures var (outcome, tr') := FinishSignal(result, env, opts, tr);
            && Went(w, o, false, tr, tr')
            && (outcome.SignalDone? ==> Current(w, o, o.inSignal, outcome.env, tr'))
  {
    EventGoes(w, o, tr, StatUpdate(Failed));
    var merged := if result.status == Failed then Ok(env) else Merge(env, result.meta);
    if merged.Ok? {
      var step := Step(result.status, result.meta, merged.value, false, false);
      EventGoes(w, o, tr, SignalStep(step));
      EventGoes(w, o, Then(tr, SignalStep(step)), StatUpdate(result.status));
    }
  }

  // ----- `when` blocks

  ghost predicate RunSees(w: World, o: Origin, seen: bool, env0: Environment, run: GuardedRun, tr: Trace) {
    match run
    case Left(outcome, _) => outcome.Threw? || outcome.result.status == Failed
    case Finished(s) => s.status != Failed && LoopSees(w, o, seen, env0, s.status, s.meta, s.env, tr)
  }

  lemma {:induction false} GuardedSees(w: World, o: Origin, g: Module, i: nat, s: GuardedState, opts: Options,
                                       env0: Environment, tr: Trace)
    requires g.Guarded? && i <= |g.children| && (o.inSignal ==> Unnested(g)) && s.status != Failed
    requires LoopSees(w, o, Seen(o, opts), env0, s.status, s.meta, s.env, tr)
    ensures var (run, tr') := RunGuarded(w, g, i, s, opts, tr);
            && Went(w, o, Seen(o, opts), tr, tr')
            && RunSees(w, o, Seen(o, opts), env0, run, tr')
    decreases g, 1, |g.children| - i
  {
    if i < |g.children| {
      PollSees(w, o, Seen(o, opts), s.env, opts, tr);
      var (stop, tr1) := Poll(w, opts, tr);
      if !stop {
        GuardedChildSees(w, o, g.children[i], i, s, opts, env0, tr1);
        var (next, tr2) := GuardedChild(w, g.children[i], i, s, opts, tr1);
        if next.GoOn? { GuardedSees(w, o, g, i + 1, next.state, opts, env0, tr2); }
      }
    }
  }

  ghost predicate NextSees(w: World, o: Origin, seen: bool, env0: Environment, next: GuardedNext, tr: Trace) {
    match next
    case Over(run) => RunSees(w, o, seen, env0, run, tr)
    case GoOn(s) => s.status != Failed && LoopSees(w, o, seen, env0, s.status, s.meta, s.env, tr)
  }

  lemma {:induction false} GuardedChildSees(w: World, o: Origin, m: Module, i: nat, s: GuardedState, opts: Options,
                                            env0: Environment, tr: Trace)
    requires (o.inSignal ==> Unnested(m)) && s.status != Failed
    requires LoopSees(w, o, Seen(o, opts), env0, s.status, s.meta, s.env, tr)
    ensures var (next, tr') := GuardedChild(w, m, i, s, opts, tr);
            && Went(w, o, Seen(o, opts), tr, tr')
            && NextSees(w, o, Seen(o, opts), env0, next, tr')
    decreases m, 4
  {
    CheckedSees(w, o, m, s.env, opts, tr);
    var (answer, tr1) := CheckModule(w, m, s.env, opts.inSignal, tr);
    var (stop, tr2) := Poll(w, opts, tr1);
    if answer == NeedsApply && !stop { AppliedChildSees(w, o, m, i, s, opts, env0, tr2); }
  }

  lemma {:induction false} AppliedChildSees(w: World, o: Origin, m: Module, i: nat, s: GuardedState, opts: Options,
                                            env0: Environment, tr: Trace)
    requires (o.inSignal ==> Unnested(m)) && s.status != Failed
    requires LoopSees(w, o, Seen(o, opts), env0, s.status, s.meta, s.env, tr)
    ensures var (outcome, tr1) := ApplyModule(w, m, s.env, opts, tr);
            var (next, tr') := FinishGuardedChild(outcome, i, s, opts, tr1);
            && Went(w, o, Seen(o, opts), tr, tr')
            && NextSees(w, o, Seen(o, opts), env0, next, tr')
    decreases m, 3, 1
  {
    ApplySees(w, o, m, s.env, opts, tr);
    var (outcome, tr1) := ApplyModule(w, m, s.env, opts, tr);
    FinishChildSees(w, o, outcome, !m.Leaf?, i, s, opts, env0, tr1);
  }

  lemma FinishChildSees(w: World, o: Origin, outcome: Outcome, container: bool, i: nat, s: GuardedState, opts: Options,
                        env0: Environment, tr: Trace)
    requires o.length <= Length(tr) && ResultSees(w, o, Seen(o, opts), s.env, container, outcome, tr)
    requires s.status != Failed && Merge(env0, s.meta) == Ok(s.env)
    ensures var (next, tr') := FinishGuardedChild(outcome, i, s, opts, tr);
            && Went(w, o, false, tr, tr')
            && NextSees(w, o, Seen(o, opts), env0, next, tr')
  {
    if outcome.Returned? && outcome.result.status != Failed && AllMergeable(outcome.result.meta) {
      FoldedMeta(env0, s.meta, s.env, outcome.result.meta, opts.onChildStep);
    }
  }

  // ----- The runner

  lemma TopStepSees(w: World, o: Origin, m: Module, env: Environment, tr: Trace)
    requires !o.inSignal && Current(w, o, true, env, tr)
    ensures var (result, tr') := TopStep(w, m, env, tr);
            && Went(w, o, true, tr, tr')
            && (!result.shouldBreak ==> Current(w, o, true, result.env, tr'))
  {
    CheckSees(w, o, m, env, false, tr);
    var (answer, tr1) := CheckModule(w, m, env, false, tr);
    EventGoes(w, o, tr1, Polled);
    if answer == NeedsApply && (m.Recipe? || !w.shutdown(tr1)) {
      var tr2 := if m.Recipe? then tr1 else Then(tr1, Polled);
      ApplySees(w, o, m, env, TopOptions(m), tr2);
      var (outcome, tr3) := ApplyModule(w, m, env, TopOptions(m), tr2);
      HandledSees(w, o, outcome, !m.Leaf?, env, tr3);
    }
  }

  lemma HandledSees(w: World, o: Origin, outcome: Outcome, container: bool, env: Environment, tr: Trace)
    requires o.length <= Length(tr) && ResultSees(w, o, true, env, container, outcome, tr)
    ensures var (result, tr') := if outcome.Threw? then CaughtInRunner(w, env, tr) else HandleMeta(w, env, outcome.result, tr);
            && Went(w, o, false, tr, tr')
            && (!result.shouldBreak ==> Current(w, o, true, result.env, tr'))
  {
    EventGoes(w, o, tr, Polled);
    if outcome.Returned? { EventGoes(w, o, tr, RunnerMeta(outcome.result)); }
  }

  lemma DefinitionSees(w: World, o: Origin, signals: Signals, s: LoopState, tr: Trace)
    requires signals.Signals? && !o.inSignal && o.length <= Length(tr)
    ensures Went(w, o, false, tr, RunDefinitionSignals(w, signals, s, tr).2)
  {
    SignalsSee(w, o, DefinitionSignals(signals), 0, s.env, SIGNAL_TOP, tr);
  }

  lemma TopIterationSees(w: World, o: Origin, m: Module, i: nat, signals: Signals, s: LoopState, tr: Trace)
    requires !o.inSignal && Current(w, o, true, s.env, tr)
    ensures var (over, s', tr') := TopIteration(w, m, i, signals, s, tr);
            && Went(w, o, true, tr, tr')
            && (!over ==> Current(w, o, true, s'.env, tr'))
  {
    TopStepSees(w, o, m, s.env, tr);
    var (result, tr1) := TopStep(w, m, s.env, tr);
    var tr2 := CountStats(result, tr1);
    EventGoes(w, o, tr1, StatUpdate(result.status));
    EventGoes(w, o, tr2, Polled);
    if signals.Signals? { DefinitionSees(w, o, signals, ApplyLoopResult(s, i, result), Then(tr2, Polled)); }
  }

  lemma {:induction false} TopLoopSees(w: World, o: Origin, modules: seq<Module>, i: nat, signals: Signals, s: LoopState, tr: Trace)
    requires i <= |modules| && !o.inSignal && Current(w, o, true, s.env, tr)
    ensures Went(w, o, true, tr, TopLoop(w, modules, i, signals, s, tr).1)
    decreases |modules| - i
  {
    EventGoes(w, o, tr, Polled);
    if i < |modules| && !w.shutdown(tr) {
      TopIterationSees(w, o, modules[i], i, signals, s, Then(tr, Polled));
      var (over, s', tr') := TopIteration(w, modules[i], i, signals, s, Then(tr, Polled));
      if !over { TopLoopSees(w, o, modules, i + 1, signals, s', tr'); }
    }
  }

  /** Over every run of every list of module trees, whatever is asked or applied outside signal lists, at
      whatever depth, before a shutdown is announced, is given the environment of the run after the entries
      of all leaves applied before it: nested lists, hooks and filtered meta neither lose nor repeat one. */
  lemma EveryCallSeesTheReplay(w: World, modules: seq<Module>, signals: Signals, env: Environment)
    ensures AllSee(w, Origin(0, env, false), ExecuteRun(w, modules, signals, env).1)
  {
    var o, s0 := Origin(0, env, false), LoopState(env, false, false, []);
    TopLoopSees(w, o, modules, 0, signals, s0, Start);
    var (s, tr) := TopLoop(w, modules, 0, signals, s0, Start);
    EventGoes(w, o, tr, Polled);
    if signals.Signals? { DefinitionSees(w, o, signals, s, Then(tr, Polled)); }
  }

  /** And in a list of signals without lists of their own, each sees what the list started with, after the
      signals before it. */
  lemma SignalsSeeTheReplay(w: World, r: Module, env: Environment, opts: Options, tr: Trace)
    requires r.Recipe? && r.signals.Signals?
    requires forall j | 0 <= j < |r.signals.modules| :: Unnested(r.signals.modules[j])
    ensures AllSee(w, Origin(Length(tr), env, true), RunSignals(w, r, 0, env, opts, tr).1)
  {
    SignalsSee(w, Origin(Length(tr), env, true), r, 0, env, opts, tr);
  }
}
