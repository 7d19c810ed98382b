/** Exactly-once handling of control-plane entries: over every run, the entries the runner acts on are
    those of the successfully applied leaves, each once and in order; and the meta a container
    returns replays to the environment its last child left. */
module EngineLedger {
  import opened Meta
  import opened Engine

  // ----- The two ledgers of a trace

  /** What a finished module still owes to the control plane. */
  function Owed(outcome: Outcome): seq<MetaEntry> {
    if outcome.Returned? && outcome.result.status != Failed && AllMergeable(outcome.result.meta)
    then ControlPlane(outcome.result.meta)
    else []
  }

  function LeafEntry(e: Event): seq<MetaEntry> {
    if e.Applied? && !e.inSignal then Owed(e.outcome) else []
  }

  /** The control-plane entries of the successfully applied leaves, signal lists aside. */
  function LeafEntries(tr: Trace): seq<MetaEntry> {
    match tr
    case Start => []
    case Then(past, e) => LeafEntries(past) + LeafEntry(e)
  }

  /** applyRunnerControlPlaneMeta: nothing for a failed step. */
  function ActedEntry(e: Event): seq<MetaEntry> {
    match e
    case ChildStep(step) => if step.status == Failed then [] else ControlPlane(step.meta)
    case RunnerMeta(result) => if result.status == Failed then [] else ControlPlane(result.meta)
    case _ => []
  }

  /** The entries the runner acts on, signal lists aside. */
  function Acted(tr: Trace): seq<MetaEntry> {
    match tr
    case Start => []
    case Then(past, e) => Acted(past) + ActedEntry(e)
  }

  ghost predicate Same(tr: Trace, tr': Trace) {
    LeafEntries(tr') == LeafEntries(tr) && Acted(tr') == Acted(tr)
  }

  predicate CalmEvent(e: Event) {
    match e
    case Checked(_, answer, _) => answer != CheckThrew
    case GuardChecked(_, answer, _) => answer != GuardThrew
    case GuardApplied(_, answer, _) => answer != GuardThrew
    case Applied(_, outcome, _) =>
      outcome.Returned? && outcome.result.status != Failed && AllMergeable(outcome.result.meta)
    case _ => true
  }

  /** No check, guard or leaf has failed or thrown so far. */
  predicate Calm(tr: Trace) {
    tr.Then? ==> CalmEvent(tr.event) && Calm(tr.past)
  }

  // ----- A trace only grows

  /** Nothing that went wrong is forgotten. */
  ghost predicate Grows(tr: Trace, tr': Trace) {
    (Calm(tr') ==> Calm(tr)) && (StatsFailed(tr) ==> StatsFailed(tr'))
  }

  lemma {:induction false} CheckGrows(w: World, m: Module, env: Environment, inSignal: bool, tr: Trace)
    ensures Grows(tr, CheckModule(w, m, env, inSignal, tr).1)
    decreases m, 1
  {
    match m
    case Leaf(_) =>
    case Recipe(_, _) => CheckChildrenGrows(w, m, 0, env, inSignal, tr);
    case Guarded(id, _) => CheckChildrenGrows(w, m, 0, env, inSignal, Then(tr, GuardChecked(id, w.guard(tr, id, env), inSignal)));
  }

  lemma {:induction false} CheckChildrenGrows(w: World, m: Module, i: nat, env: Environment, inSignal: bool, tr: Trace)
    requires !m.Leaf? && i <= |m.children|
    ensures Grows(tr, CheckChildren(w, m, i, env, inSignal, tr).1)
    decreases m, 0, |m.children| - i
  {
    if i < |m.children| && !(m.Recipe? && w.aborted(tr)) {
      var tr' := if m.Recipe? then Then(tr, AbortPolled) else tr;
      CheckGrows(w, m.children[i], env, inSignal, tr');
      var tr'' := CheckModule(w, m.children[i], env, inSignal, tr').1;
      CheckChildrenGrows(w, m, i + 1, env, inSignal, tr'');
    }
  }

  lemma {:induction false} ApplyGrows(w: World, m: Module, env: Environment, opts: Options, tr: Trace)
    ensures Grows(tr, ApplyModule(w, m, env, opts, tr).1)
    decreases m, 3
  {
    match m
    case Leaf(_) =>
    case Recipe(_, _) =>
      RunRecipeGrows(w, m, env, opts, tr);
    case Guarded(id, _) =>
      var stored := StoredGuard(tr, id);
      var tr' := if stored == GuardThrew then Then(tr, GuardApplied(id, w.guard(tr, id, env), opts.inSignal)) else tr;
      GuardedGrows(w, m, 0, InitialGuarded(env), opts.(signalHooks := false), tr');
  }

  lemma {:induction false} RunRecipeGrows(w: World, r: Module, env: Environment, opts: Options, tr: Trace)
    requires r.Recipe?
    ensures Grows(tr, RunRecipe(w, r, env, opts, tr).1)
    decreases r, 2
  {
    RecipeLoopGrows(w, r, 0, InitialState(env), opts, tr);
    var (s, tr1) := RecipeLoop(w, r, 0, InitialState(env), opts, tr);
    if r.signals.Signals? { SignalsGrow(w, r, 0, s.env, opts, tr1); }
  }

  lemma {:induction false} ExecuteChildGrows(w: World, m: Module, env: Environment, opts: Options, tr: Trace)
    ensures Grows(tr, ExecuteChild(w, m, env, opts, tr).1)
    decreases m, 4
  {
    CheckGrows(w, m, env, opts.inSignal, tr);
    var (_, tr1) := CheckModule(w, m, env, opts.inSignal, tr);
    var (_, tr2) := Poll(w, opts, tr1);
    ApplyGrows(w, m, env, opts, tr2);
  }

  lemma {:induction false} RecipeLoopGrows(w: World, r: Module, i: nat, s: RecipeState, opts: Options, tr: Trace)
    requires r.Recipe? && i <= |r.children|
    ensures Grows(tr, RecipeLoop(w, r, i, s, opts, tr).1)
    decreases r, 1, |r.children| - i
  {
    if i < |r.children| {
      var (stop, tr1) := Poll(w, opts, tr);
      ExecuteChildGrows(w, r.children[i], s.env, opts, tr1);
      var (exec, tr2) := ExecuteChild(w, r.children[i], s.env, opts, tr1);
      ProcessGrows(w, r, i, exec, s, opts, tr2);
      var (over, s', tr3) := ProcessStep(w, r, i, exec, s, opts, tr2);
      RecipeLoopGrows(w, r, i + 1, s', opts, tr3);
    }
  }

  lemma {:induction false} ProcessGrows(w: World, r: Module, i: nat, exec: ChildExecution, s: RecipeState, opts: Options, tr: Trace)
    requires r.Recipe?
    ensures Grows(tr, ProcessStep(w, r, i, exec, s, opts, tr).2)
    decreases r, 1, 0
  {
    if exec.Stepped? && r.signals.Signals? {
      var tr1 := if opts.onChildStep then Then(tr, ChildStep(exec.step)) else tr;
      SignalsGrow(w, r, 0, exec.step.env, opts, tr1);
    }
  }

  lemma {:induction false} SignalsGrow(w: World, r: Module, k: nat, env: Environment, opts: Options, tr: Trace)
    requires r.Recipe? && r.signals.Signals? && k <= |r.signals.modules|
    ensures Grows(tr, RunSignals(w, r, k, env, opts, tr).1)
    decreases r, 0, |r.signals.modules| - k
  {
    if k < |r.signals.modules| {
      var signal := r.signals.modules[k];
      var (_, tr1) := Poll(w, opts, tr);
      OneSignalGrows(w, signal, env, opts, tr1);
      var (outcome, tr2) := RunOneSignal(w, signal, env, opts, tr1);
      if outcome.SignalDone? { SignalsGrow(w, r, k + 1, outcome.env, opts, tr2); }
    }
  }

  lemma {:induction false} OneSignalGrows(w: World, signal: Module, env: Environment, opts: Options, tr: Trace)
    ensures Grows(tr, RunOneSignal(w, signal, env, opts, tr).1)
    decreases signal, 4
  {
    var tr0 := StartSignal(opts, tr);
    ApplyGrows(w, signal, env, SignalOptions(opts), tr0);
    var (outcome, tr1) := ApplyModule(w, signal, env, SignalOptions(opts), tr0);
    assert Grows(tr, tr0);
    if outcome.Returned? { FinishGrows(outcome.result, env, opts, tr1); }
  }

  lemma FinishGrows(result: ModuleResult, env: Environment, opts: Options, tr: Trace)
    ensures Grows(tr, FinishSignal(result, env, opts, tr).1)
    ensures Same(tr, FinishSignal(result, env, opts, tr).1)
  {
    forall e: Event | e.SignalStep? || e.StatUpdate?
      ensures Grows(tr, Then(tr, e)) && Same(tr, Then(tr, e))
    {}
    forall tr1: Trace, e: Event | Grows(tr, tr1) && Same(tr, tr1) && e.StatUpdate?
      ensures Grows(tr, Then(tr1, e)) && Same(tr, Then(tr1, e))
    {}
  }

  lemma {:induction false} GuardedGrows(w: World, g: Module, i: nat, s: GuardedState, opts: Options, tr: Trace)
    requires g.Guarded? && i <= |g.children|
    ensures Grows(tr, RunGuarded(w, g, i, s, opts, tr).1)
    decreases g, 1, |g.children| - i
  {
    if i < |g.children| {
      var (_, tr1) := Poll(w, opts, tr);
      GuardedChildGrows(w, g.children[i], i, s, opts, tr1);
      var (next, tr2) := GuardedChild(w, g.children[i], i, s, opts, tr1);
      if next.GoOn? { GuardedGrows(w, g, i + 1, next.state, opts, tr2); }
    }
  }

  lemma {:induction false} GuardedChildGrows(w: World, m: Module, i: nat, s: GuardedState, opts: Options, tr: Trace)
    ensures Grows(tr, GuardedChild(w, m, i, s, opts, tr).1)
    decreases m, 4
  {
    CheckGrows(w, m, s.env, opts.inSignal, tr);
    var (_, tr1) := CheckModule(w, m, s.env, opts.inSignal, tr);
    var (_, tr2) := Poll(w, opts, tr1);
    ApplyGrows(w, m, s.env, opts, tr2);
  }

  // ----- The balance

  /** Without hook, outside signal lists: the container hands everything to its caller. */
  predicate Plain(opts: Options) { !opts.onChildStep && !opts.inSignal }

  predicate Sane(opts: Options) { !(opts.onChildStep && opts.inSignal) }

  /** How the ledgers stand when `owed` is still to be acted on or handed up. Inside a signal list
      they do not move; with the hook they agree up to `owed`; without it, `owed` is what came on top
      of `leaf0` as long as nothing failed. */
  ghost predicate Balanced(opts: Options, leaf0: seq<MetaEntry>, acted0: seq<MetaEntry>, tr: Trace, owed: seq<MetaEntry>) {
    if opts.inSignal then LeafEntries(tr) == leaf0 && Acted(tr) == acted0
    else if opts.onChildStep then LeafEntries(tr) == Acted(tr) + owed
    else Calm(tr) ==> LeafEntries(tr) == leaf0 + owed && Acted(tr) == acted0
  }

  lemma BalancedSame(opts: Options, leaf0: seq<MetaEntry>, acted0: seq<MetaEntry>, tr: Trace, tr': Trace, owed: seq<MetaEntry>)
    requires Balanced(opts, leaf0, acted0, tr, owed) && Same(tr, tr') && Grows(tr, tr')
    ensures Balanced(opts, leaf0, acted0, tr', owed)
  {}

  lemma PollSame(w: World, opts: Options, tr: Trace)
    ensures Same(tr, Poll(w, opts, tr).1) && Grows(tr, Poll(w, opts, tr).1)
  {
  }

  lemma {:induction false} CheckSame(w: World, m: Module, env: Environment, inSignal: bool, tr: Trace)
    ensures Same(tr, CheckModule(w, m, env, inSignal, tr).1)
    decreases m, 1
  {
    match m
    case Leaf(id) =>
    case Recipe(_, _) =>
      CheckChildrenSame(w, m, 0, env, inSignal, tr);
    case Guarded(id, _) =>
      var e := GuardChecked(id, w.guard(tr, id, env), inSignal);
      CheckChildrenSame(w, m, 0, env, inSignal, Then(tr, e));
  }

  lemma {:induction false} CheckChildrenSame(w: World, m: Module, i: nat, env: Environment, inSignal: bool, tr: Trace)
    requires !m.Leaf? && i <= |m.children|
    ensures Same(tr, CheckChildren(w, m, i, env, inSignal, tr).1)
    decreases m, 0, |m.children| - i
  {
    if i < |m.children| && !(m.Recipe? && w.aborted(tr)) {
      var tr' := if m.Recipe? then Then(tr, AbortPolled) else tr;
      CheckSame(w, m.children[i], env, inSignal, tr');
      var tr'' := CheckModule(w, m.children[i], env, inSignal, tr').1;
      CheckChildrenSame(w, m, i + 1, env, inSignal, tr'');
      assert Same(tr, tr'') && Same(tr'', CheckChildren(w, m, i + 1, env, inSignal, tr'').1);
    }
  }

  /** A check throws only where a leaf or a guard does. */
  lemma {:induction false} CheckThrewNotCalm(w: World, m: Module, env: Environment, inSignal: bool, tr: Trace)
    requires CheckModule(w, m, env, inSignal, tr).0 == CheckThrew
    ensures !Calm(CheckModule(w, m, env, inSignal, tr).1)
    decreases m, 1
  {
    match m
    case Leaf(id) =>
    case Recipe(_, _) => CheckChildrenThrewNotCalm(w, m, 0, env, inSignal, tr);
    case Guarded(id, _) =>
      var e := GuardChecked(id, w.guard(tr, id, env), inSignal);
      if e.holds == Holds { CheckChildrenThrewNotCalm(w, m, 0, env, inSignal, Then(tr, e)); }
  }

  lemma {:induction false} CheckChildrenThrewNotCalm(w: World, m: Module, i: nat, env: Environment, inSignal: bool, tr: Trace)
    requires !m.Leaf? && i <= |m.children| && CheckChildren(w, m, i, env, inSignal, tr).0 == CheckThrew
    ensures !Calm(CheckChildren(w, m, i, env, inSignal, tr).1)
    decreases m, 0, |m.children| - i
  {
    var tr' := if m.Recipe? then Then(tr, AbortPolled) else tr;
    var (answer, tr'') := CheckModule(w, m.children[i], env, inSignal, tr');
    if answer == IsOk { CheckChildrenThrewNotCalm(w, m, i + 1, env, inSignal, tr''); }
    else { CheckThrewNotCalm(w, m.children[i], env, inSignal, tr'); }
  }

  /** What is known of a finished module: its result merges, a container with the hook hands up no
      control-plane entry, and the ledgers balance up to what it owes. */
  ghost predicate Settles(opts: Options, leaf0: seq<MetaEntry>, acted0: seq<MetaEntry>, container: bool,
                          outcome: Outcome, tr: Trace)
  {
    && (Plain(opts) && outcome.Threw? ==> !Calm(tr))
    && (Plain(opts) && Calm(tr) && outcome.Returned? && outcome.result.status != Failed ==>
          AllMergeable(outcome.result.meta))
    && (container && outcome.Returned? && outcome.result.status != Failed ==>
          AllMergeable(outcome.result.meta) && (opts.onChildStep ==> ControlPlane(outcome.result.meta) == []))
    && (!(Plain(opts) && outcome.Returned? && outcome.result.status == Failed) ==>
          Balanced(opts, leaf0, acted0, tr, Owed(outcome)))
  }

  lemma {:induction false} ApplySettles(w: World, m: Module, env: Environment, opts: Options, tr: Trace,
                                        leaf0: seq<MetaEntry>, acted0: seq<MetaEntry>)
    requires Sane(opts) && Balanced(opts, leaf0, acted0, tr, [])
    ensures var (outcome, tr') := ApplyModule(w, m, env, opts, tr);
            Settles(opts, leaf0, acted0, !m.Leaf?, outcome, tr')
    decreases m, 3
  {
    match m
    case Leaf(id) =>
      LeafSettles(id, w.apply(tr, id, env), opts, tr, leaf0, acted0);
    case Recipe(_, _) =>
      RecipeSettles(w, m, env, opts, tr, leaf0, acted0);
      var (s, tr') := RunRecipe(w, m, env, opts, tr);
      RecipeResultSettles(s, opts, tr', leaf0, acted0, env);
    case Guarded(id, _) =>
      var stored := StoredGuard(tr, id);
      var tr' := if stored == GuardThrew then Then(tr, GuardApplied(id, w.guard(tr, id, env), opts.inSignal)) else tr;
      BalancedSame(opts, leaf0, acted0, tr, tr', []);
      var opts' := opts.(signalHooks := false);
      GuardedSettles(w, m, 0, InitialGuarded(env), opts', tr', leaf0, acted0, env);
      var (run, tr'') := RunGuarded(w, m, 0, InitialGuarded(env), opts', tr');
      SettlesWithoutHooks(opts, leaf0, acted0, GuardedResult(run), tr'');
  }

  lemma LeafSettles(id: nat, outcome: Outcome, opts: Options, tr: Trace, leaf0: seq<MetaEntry>, acted0: seq<MetaEntry>)
    requires Sane(opts) && Balanced(opts, leaf0, acted0, tr, [])
    ensures Settles(opts, leaf0, acted0, false, outcome, Then(tr, Applied(id, outcome, opts.inSignal)))
  {}

  lemma RecipeResultSettles(s: RecipeState, opts: Options, tr: Trace,
                            leaf0: seq<MetaEntry>, acted0: seq<MetaEntry>, env0: Environment)
    requires Sane(opts) && LoopBalanced(opts, leaf0, acted0, env0, s.status, s.meta, s.env, tr)
    ensures Settles(opts, leaf0, acted0, true, Returned(ModuleResult(s.status, s.meta, false, s.stopRun)), tr)
  {}

  lemma SettlesWithoutHooks(opts: Options, leaf0: seq<MetaEntry>, acted0: seq<MetaEntry>, outcome: Outcome, tr: Trace)
    requires Settles(opts.(signalHooks := false), leaf0, acted0, true, outcome, tr)
    ensures Settles(opts, leaf0, acted0, true, outcome, tr)
  {}

  // ----- Signal lists leave both ledgers alone

  lemma {:induction false} SignalsSame(w: World, r: Module, k: nat, env: Environment, opts: Options, tr: Trace)
    requires r.Recipe? && r.signals.Signals? && k <= |r.signals.modules|
    ensures Same(tr, RunSignals(w, r, k, env, opts, tr).1)
    decreases r, 0, |r.signals.modules| - k
  {
    if k < |r.signals.modules| {
      PollSame(w, opts, tr);
      var (_, tr1) := Poll(w, opts, tr);
      OneSignalSame(w, r.signals.modules[k], env, opts, tr1);
      var (outcome, tr2) := RunOneSignal(w, r.signals.modules[k], env, opts, tr1);
      if outcome.SignalDone? { SignalsSame(w, r, k + 1, outcome.env, opts, tr2); }
    }
  }

  lemma {:induction false} OneSignalSame(w: World, signal: Module, env: Environment, opts: Options, tr: Trace)
    ensures Same(tr, RunOneSignal(w, signal, env, opts, tr).1)
    decreases signal, 4
  {
    var tr0 := StartSignal(opts, tr);
    assert Same(tr, tr0);
    ApplySettles(w, signal, env, SignalOptions(opts), tr0, LeafEntries(tr0), Acted(tr0));
    var (outcome, tr1) := ApplyModule(w, signal, env, SignalOptions(opts), tr0);
    assert Same(tr0, tr1);
    if outcome.Returned? { FinishGrows(outcome.result, env, opts, tr1); }
  }

  // ----- Recipes

  /** What one child leaves to be merged into the state of its container. */
  function Contribution(exec: ChildExecution): seq<MetaEntry> {
    if exec.Stepped? && exec.step.status != Failed then ControlPlane(exec.step.meta) else []
  }

  predicate ChildFailed(exec: ChildExecution) {
    exec.ExecutionFailed? || (exec.Stepped? && exec.step.status == Failed)
  }

  ghost predicate ExecSettles(opts: Options, leaf0: seq<MetaEntry>, acted0: seq<MetaEntry>,
                              env: Environment, exec: ChildExecution, tr: Trace)
  {
    && (exec.Stepped? && exec.step.status != Failed ==> Merge(env, exec.step.meta) == Ok(exec.step.env))
    && ((Plain(opts) && ChildFailed(exec))
        || Balanced(opts, leaf0, acted0, tr, Contribution(exec)))
  }

  lemma CaughtSettles(w: World, opts: Options, tr: Trace, env: Environment, leaf0: seq<MetaEntry>, acted0: seq<MetaEntry>)
    requires Plain(opts) ==> !Calm(tr)
    requires !Plain(opts) ==> Balanced(opts, leaf0, acted0, tr, [])
    ensures var (exec, tr') := CaughtInRecipe(w, opts, tr);
            ExecSettles(opts, leaf0, acted0, env, exec, tr')
  {
    PollSame(w, opts, tr);
  }

  lemma {:induction false} ExecuteChildSettles(w: World, m: Module, env: Environment, opts: Options, tr: Trace,
                                               leaf0: seq<MetaEntry>, acted0: seq<MetaEntry>)
    requires Sane(opts) && Balanced(opts, leaf0, acted0, tr, [])
    ensures var (exec, tr') := ExecuteChild(w, m, env, opts, tr);
            ExecSettles(opts, leaf0, acted0, env, exec, tr')
    decreases m, 4
  {
    CheckSame(w, m, env, opts.inSignal, tr);
    CheckGrows(w, m, env, opts.inSignal, tr);
    var (answer, tr1) := CheckModule(w, m, env, opts.inSignal, tr);
    BalancedSame(opts, leaf0, acted0, tr, tr1, []);
    if answer == CheckThrew {
      CheckThrewNotCalm(w, m, env, opts.inSignal, tr);
      CaughtSettles(w, opts, tr1, env, leaf0, acted0);
    } else if answer == NeedsApply {
      PollSame(w, opts, tr1);
      var (stop, tr2) := Poll(w, opts, tr1);
      BalancedSame(opts, leaf0, acted0, tr1, tr2, []);
      if !stop {
        ApplySettles(w, m, env, opts, tr2, leaf0, acted0);
        var (outcome, tr3) := ApplyModule(w, m, env, opts, tr2);
        if outcome.Threw? { CaughtSettles(w, opts, tr3, env, leaf0, acted0); }
        else { BuildChildStepSettles(w, outcome, env, opts, tr3, !m.Leaf?, leaf0, acted0); }
      }
    }
  }

  lemma BuildChildStepSettles(w: World, outcome: Outcome, env: Environment, opts: Options, tr: Trace, container: bool,
                              leaf0: seq<MetaEntry>, acted0: seq<MetaEntry>)
    requires Sane(opts) && outcome.Returned? && Settles(opts, leaf0, acted0, container, outcome, tr)
    ensures var (exec, tr') := BuildChildStep(w, outcome.result, env, opts, tr);
            ExecSettles(opts, leaf0, acted0, env, exec, tr')
  {
    if outcome.result.status != Failed && !AllMergeable(outcome.result.meta) {
      CaughtSettles(w, opts, tr, env, leaf0, acted0);
    }
  }

  /** The invariant of a container loop: the meta collected so far is what is still owed. */
  ghost predicate LoopBalanced(opts: Options, leaf0: seq<MetaEntry>, acted0: seq<MetaEntry>, env0: Environment,
                               status: Status, meta: seq<MetaEntry>, env: Environment, tr: Trace)
  {
    && (opts.onChildStep ==> ControlPlane(meta) == [])
    && (status != Failed ==> Merge(env0, meta) == Ok(env))
    && ((Plain(opts) && status == Failed) || Balanced(opts, leaf0, acted0, tr, ControlPlane(meta)))
  }

  lemma {:induction false} RecipeSettles(w: World, r: Module, env: Environment, opts: Options, tr: Trace,
                                         leaf0: seq<MetaEntry>, acted0: seq<MetaEntry>)
    requires r.Recipe? && Sane(opts) && Balanced(opts, leaf0, acted0, tr, [])
    ensures var (s, tr') := RunRecipe(w, r, env, opts, tr);
            && LoopBalanced(opts, leaf0, acted0, env, s.status, s.meta, s.env, tr')
    decreases r, 2
  {
    RecipeLoopSettles(w, r, 0, InitialState(env), opts, tr, leaf0, acted0, env);
    var (s, tr1) := RecipeLoop(w, r, 0, InitialState(env), opts, tr);
    if s.signalsPending && s.status == Changed && r.signals.Signals? {
      SignalsSame(w, r, 0, s.env, opts, tr1);
      SignalsGrow(w, r, 0, s.env, opts, tr1);
    }
  }

  lemma {:induction false} RecipeLoopSettles(w: World, r: Module, i: nat, s: RecipeState, opts: Options, tr: Trace,
                                             leaf0: seq<MetaEntry>, acted0: seq<MetaEntry>, env0: Environment)
    requires r.Recipe? && i <= |r.children| && Sane(opts) && s.status != Failed
    requires LoopBalanced(opts, leaf0, acted0, env0, s.status, s.meta, s.env, tr)
    ensures var (s', tr') := RecipeLoop(w, r, i, s, opts, tr);
            LoopBalanced(opts, leaf0, acted0, env0, s'.status, s'.meta, s'.env, tr')
    decreases r, 1, |r.children| - i
  {
    if i < |r.children| {
      PollSame(w, opts, tr);
      var (stop, tr1) := Poll(w, opts, tr);
      BalancedSame(opts, leaf0, acted0, tr, tr1, ControlPlane(s.meta));
      if !stop {
        var leaf1 := leaf0 + (if Plain(opts) then ControlPlane(s.meta) else []);
        ExecuteChildSettles(w, r.children[i], s.env, opts, tr1, leaf1, acted0);
        var (exec, tr2) := ExecuteChild(w, r.children[i], s.env, opts, tr1);
        ProcessSettles(w, r, i, exec, s, opts, tr2, leaf0, acted0, env0);
        var (over, s', tr3) := ProcessStep(w, r, i, exec, s, opts, tr2);
        if !over { RecipeLoopSettles(w, r, i + 1, s', opts, tr3, leaf0, acted0, env0); }
      }
    }
  }

  lemma {:induction false} ProcessSettles(w: World, r: Module, i: nat, exec: ChildExecution, s: RecipeState, opts: Options, tr: Trace,
                                          leaf0: seq<MetaEntry>, acted0: seq<MetaEntry>, env0: Environment)
    requires r.Recipe? && Sane(opts) && s.status != Failed
    requires (opts.onChildStep ==> ControlPlane(s.meta) == []) && Merge(env0, s.meta) == Ok(s.env)
    requires ExecSettles(opts, leaf0 + (if Plain(opts) then ControlPlane(s.meta) else []), acted0, s.env, exec, tr)
    ensures var (over, s', tr') := ProcessStep(w, r, i, exec, s, opts, tr);
            && LoopBalanced(opts, leaf0, acted0, env0, s'.status, s'.meta, s'.env, tr')
            && (!over ==> s'.status != Failed)
    decreases r, 1, 0
  {
    if exec.Stepped? {
      var tr1 := if opts.onChildStep then Then(tr, ChildStep(exec.step)) else tr;
      var s1 := ApplyStepToState(s, i, exec.step, !opts.onChildStep);
      StepSettles(s, i, exec.step, opts, tr, leaf0, acted0, env0);
      if exec.step.flushSignals && s1.signalsPending && r.signals.Signals? {
        SignalsSame(w, r, 0, s1.env, opts, tr1);
        SignalsGrow(w, r, 0, s1.env, opts, tr1);
        var (_, tr2) := RunSignals(w, r, 0, s1.env, opts, tr1);
        if !(Plain(opts) && s1.status == Failed) {
          BalancedSame(opts, leaf0, acted0, tr1, tr2, ControlPlane(s1.meta));
        }
      }
    }
  }

  /** Folding one step into the state, with the hook called or not. */
  lemma StepSettles(s: RecipeState, i: nat, step: Step, opts: Options, tr: Trace,
                    leaf0: seq<MetaEntry>, acted0: seq<MetaEntry>, env0: Environment)
    requires Sane(opts) && s.status != Failed
    requires (opts.onChildStep ==> ControlPlane(s.meta) == []) && Merge(env0, s.meta) == Ok(s.env)
    requires ExecSettles(opts, leaf0 + (if Plain(opts) then ControlPlane(s.meta) else []), acted0, s.env, Stepped(step), tr)
    ensures var tr1 := if opts.onChildStep then Then(tr, ChildStep(step)) else tr;
            var s1 := ApplyStepToState(s, i, step, !opts.onChildStep);
            LoopBalanced(opts, leaf0, acted0, env0, s1.status, s1.meta, s1.env, tr1)
  {
    FoldedMeta(env0, s.meta, s.env, step.meta, opts.onChildStep);
    if !opts.onChildStep {
      PlainStepBalanced(s, step, opts, tr, leaf0, acted0);
    }
  }

  lemma PlainStepBalanced(s: RecipeState, step: Step, opts: Options, tr: Trace, leaf0: seq<MetaEntry>, acted0: seq<MetaEntry>)
    requires !opts.onChildStep
    requires ExecSettles(opts, leaf0 + (if Plain(opts) then ControlPlane(s.meta) else []), acted0, s.env, Stepped(step), tr)
    ensures (Plain(opts) && step.status == Failed) || Balanced(opts, leaf0, acted0, tr, ControlPlane(s.meta + step.meta))
  {
    ControlPlaneConcat(s.meta, step.meta);
    BalancedShift(opts, leaf0, acted0, tr, ControlPlane(s.meta), ControlPlane(step.meta));
  }

  lemma BalancedShift(opts: Options, leaf0: seq<MetaEntry>, acted0: seq<MetaEntry>, tr: Trace,
                      a: seq<MetaEntry>, b: seq<MetaEntry>)
    ensures Balanced(opts, leaf0 + (if Plain(opts) then a else []), acted0, tr, b)
        <==> Balanced(opts, leaf0, acted0, tr, if Plain(opts) then a + b else b)
  {
    assert leaf0 + a + b == leaf0 + (a + b);
    assert leaf0 + [] == leaf0;
  }

  /** Appending a step's meta, filtered or not, to meta that replays to `env`. */
  lemma FoldedMeta(env0: Environment, meta: seq<MetaEntry>, env: Environment, more: seq<MetaEntry>, filtered: bool)
    requires Merge(env0, meta) == Ok(env)
    ensures var kept := if filtered then EnvironmentOnly(more) else more;
            && Merge(env0, meta + kept) == Merge(env, more)
            && ControlPlane(meta + kept) == ControlPlane(meta) + (if filtered then [] else ControlPlane(more))
  {
    var kept := if filtered then EnvironmentOnly(more) else more;
    MergeEnvironmentOnly(env, more);
    MergeConcat(env0, meta, kept);
    ControlPlaneConcat(meta, kept);
  }

  // ----- `when` blocks

  ghost predicate RunSettles(opts: Options, leaf0: seq<MetaEntry>, acted0: seq<MetaEntry>, env0: Environment,
                             run: GuardedRun, tr: Trace)
  {
    && Settles(opts, leaf0, acted0, true, GuardedResult(run), tr)
    && (run.Finished? ==> run.state.status != Failed && Merge(env0, run.state.meta) == Ok(run.state.env))
  }

  ghost predicate GuardedBalanced(opts: Options, leaf0: seq<MetaEntry>, acted0: seq<MetaEntry>, env0: Environment,
                                  s: GuardedState, tr: Trace)
  {
    s.status != Failed && LoopBalanced(opts, leaf0, acted0, env0, s.status, s.meta, s.env, tr)
  }

  lemma FinishedSettles(opts: Options, leaf0: seq<MetaEntry>, acted0: seq<MetaEntry>, env0: Environment,
                        s: GuardedState, tr: Trace)
    requires Sane(opts) && GuardedBalanced(opts, leaf0, acted0, env0, s, tr)
    ensures RunSettles(opts, leaf0, acted0, env0, Finished(s), tr)
  {}

  lemma {:induction false} GuardedSettles(w: World, g: Module, i: nat, s: GuardedState, opts: Options, tr: Trace,
                                          leaf0: seq<MetaEntry>, acted0: seq<MetaEntry>, env0: Environment)
    requires g.Guarded? && i <= |g.children| && Sane(opts)
    requires GuardedBalanced(opts, leaf0, acted0, env0, s, tr)
    ensures var (run, tr') := RunGuarded(w, g, i, s, opts, tr);
            RunSettles(opts, leaf0, acted0, env0, run, tr')
    decreases g, 1, |g.children| - i
  {
    if i == |g.children| {
      FinishedSettles(opts, leaf0, acted0, env0, s, tr);
    } else {
      PollSame(w, opts, tr);
      var (stop, tr1) := Poll(w, opts, tr);
      BalancedSame(opts, leaf0, acted0, tr, tr1, ControlPlane(s.meta));
      if stop {
        FinishedSettles(opts, leaf0, acted0, env0, s, tr1);
      } else {
        GuardedChildSettles(w, g.children[i], i, s, opts, tr1, leaf0, acted0, env0);
        var (next, tr2) := GuardedChild(w, g.children[i], i, s, opts, tr1);
        if next.GoOn? { GuardedSettles(w, g, i + 1, next.state, opts, tr2, leaf0, acted0, env0); }
      }
    }
  }

  ghost predicate NextSettles(opts: Options, leaf0: seq<MetaEntry>, acted0: seq<MetaEntry>, env0: Environment,
                              next: GuardedNext, tr: Trace)
  {
    match next
    case Over(run) => RunSettles(opts, leaf0, acted0, env0, run, tr)
    case GoOn(s) => GuardedBalanced(opts, leaf0, acted0, env0, s, tr)
  }

  lemma {:induction false} GuardedChildSettles(w: World, m: Module, i: nat, s: GuardedState, opts: Options, tr: Trace,
                                               leaf0: seq<MetaEntry>, acted0: seq<MetaEntry>, env0: Environment)
    requires Sane(opts) && GuardedBalanced(opts, leaf0, acted0, env0, s, tr)
    ensures var (next, tr') := GuardedChild(w, m, i, s, opts, tr);
            NextSettles(opts, leaf0, acted0, env0, next, tr')
    decreases m, 4
  {
    CheckSame(w, m, s.env, opts.inSignal, tr);
    CheckGrows(w, m, s.env, opts.inSignal, tr);
    var (answer, tr1) := CheckModule(w, m, s.env, opts.inSignal, tr);
    BalancedSame(opts, leaf0, acted0, tr, tr1, ControlPlane(s.meta));
    if answer == CheckThrew {
      CheckThrewNotCalm(w, m, s.env, opts.inSignal, tr);
    } else if answer == NeedsApply {
      PollSame(w, opts, tr1);
      var (stop, tr2) := Poll(w, opts, tr1);
      BalancedSame(opts, leaf0, acted0, tr1, tr2, ControlPlane(s.meta));
      if stop {
        FinishedSettles(opts, leaf0, acted0, env0, s, tr2);
      } else {
        var leaf1 := leaf0 + (if Plain(opts) then ControlPlane(s.meta) else []);
        ApplySettles(w, m, s.env, opts, tr2, leaf1, acted0);
        var (outcome, tr3) := ApplyModule(w, m, s.env, opts, tr2);
        FinishGuardedSettles(outcome, i, s, opts, tr3, !m.Leaf?, leaf0, acted0, env0);
      }
    }
  }

  /** A child that did not fail, folded into the block, with the hook called or not. */
  lemma MergedSettles(result: ModuleResult, i: nat, s: GuardedState, opts: Options, tr: Trace, container: bool,
                      leaf0: seq<MetaEntry>, acted0: seq<MetaEntry>, env0: Environment)
    requires Sane(opts) && s.status != Failed && result.status != Failed && AllMergeable(result.meta)
    requires (opts.onChildStep ==> ControlPlane(s.meta) == []) && Merge(env0, s.meta) == Ok(s.env)
    requires Settles(opts, leaf0 + (if Plain(opts) then ControlPlane(s.meta) else []), acted0, container,
                     Returned(result), tr)
    ensures MergeGuarded(s, i, result, !opts.onChildStep).Ok?
    ensures var s' := MergeGuarded(s, i, result, !opts.onChildStep).value;
            GuardedBalanced(opts, leaf0, acted0, env0, s',
                            if opts.onChildStep then Then(tr, ChildStep(GuardedStep(s', result))) else tr)
  {
    FoldedMeta(env0, s.meta, s.env, result.meta, opts.onChildStep);
    var s' := MergeGuarded(s, i, result, !opts.onChildStep).value;
    if opts.onChildStep {
      var tr' := Then(tr, ChildStep(GuardedStep(s', result)));
      assert LeafEntries(tr') == Acted(tr');
    } else {
      ControlPlaneConcat(s.meta, result.meta);
      BalancedShift(opts, leaf0, acted0, tr, ControlPlane(s.meta), ControlPlane(result.meta));
    }
  }

  lemma FinishGuardedSettles(outcome: Outcome, i: nat, s: GuardedState, opts: Options, tr: Trace, container: bool,
                             leaf0: seq<MetaEntry>, acted0: seq<MetaEntry>, env0: Environment)
    requires Sane(opts) && s.status != Failed
    requires (opts.onChildStep ==> ControlPlane(s.meta) == []) && Merge(env0, s.meta) == Ok(s.env)
    requires Settles(opts, leaf0 + (if Plain(opts) then ControlPlane(s.meta) else []), acted0, container, outcome, tr)
    ensures var (next, tr') := FinishGuardedChild(outcome, i, s, opts, tr);
            NextSettles(opts, leaf0, acted0, env0, next, tr')
  {
    if outcome.Returned? && outcome.result.status != Failed && AllMergeable(outcome.result.meta) {
      MergedSettles(outcome.result, i, s, opts, tr, container, leaf0, acted0, env0);
      var s' := MergeGuarded(s, i, outcome.result, !opts.onChildStep).value;
      var tr' := if opts.onChildStep then Then(tr, ChildStep(GuardedStep(s', outcome.result))) else tr;
      FinishedSettles(opts, leaf0, acted0, env0, s', tr');
    }
  }

  // ----- Whole runs

  /** Every successfully applied leaf so far has been handled. */
  ghost predicate Settled(tr: Trace) { LeafEntries(tr) == Acted(tr) }

  lemma TopApplySettles(w: World, m: Module, env: Environment, tr: Trace)
    requires Settled(tr)
    ensures var (outcome, tr') := ApplyModule(w, m, env, TopOptions(m), tr);
            if outcome.Returned? then LeafEntries(tr') == Acted(tr') + Owed(outcome) else Settled(tr')
  {
    ApplySettles(w, m, env, TopOptions(m), tr, [], []);
  }

  lemma TopStepSettles(w: World, m: Module, env: Environment, tr: Trace)
    requires Settled(tr)
    ensures Settled(TopStep(w, m, env, tr).1)
  {
    CheckSame(w, m, env, false, tr);
    var (answer, tr1) := CheckModule(w, m, env, false, tr);
    var tr2 := if m.Recipe? then tr1 else Then(tr1, Polled);
    assert Settled(tr2);
    TopApplySettles(w, m, env, tr2);
    var (outcome, tr3) := ApplyModule(w, m, env, TopOptions(m), tr2);
    if outcome.Returned? { HandledMetaSettles(w, env, outcome, tr3); }
  }

  lemma HandledMetaSettles(w: World, env: Environment, outcome: Outcome, tr: Trace)
    requires outcome.Returned? && LeafEntries(tr) == Acted(tr) + Owed(outcome)
    ensures Settled(HandleMeta(w, env, outcome.result, tr).1)
  {}

  lemma TopIterationSettles(w: World, m: Module, i: nat, signals: Signals, s: LoopState, tr: Trace)
    requires Settled(tr)
    ensures Settled(TopIteration(w, m, i, signals, s, tr).2)
  {
    TopStepSettles(w, m, s.env, tr);
    var (result, tr1) := TopStep(w, m, s.env, tr);
    var tr2 := CountStats(result, tr1);
    assert Settled(tr2);
    var tr3 := Then(tr2, Polled);
    assert Settled(tr3);
    if signals.Signals? {
      SignalsSame(w, DefinitionSignals(signals), 0, ApplyLoopResult(s, i, result).env, SIGNAL_TOP, tr3);
    }
  }

  lemma {:induction false} TopLoopSettles(w: World, modules: seq<Module>, i: nat, signals: Signals, s: LoopState, tr: Trace)
    requires i <= |modules| && Settled(tr)
    ensures Settled(TopLoop(w, modules, i, signals, s, tr).1)
    decreases |modules| - i
  {
    if i < |modules| && !w.shutdown(tr) {
      assert Settled(Then(tr, Polled));
      TopIterationSettles(w, modules[i], i, signals, s, Then(tr, Polled));
      var (over, s', tr') := TopIteration(w, modules[i], i, signals, s, Then(tr, Polled));
      if !over { TopLoopSettles(w, modules, i + 1, signals, s', tr'); }
    }
  }

  /** Over every run of every list of module trees, the control-plane entries the runner acts on,
      through the hook or through returned meta, are those of the successfully applied leaves, each
      once and in order. */
  lemma ActsExactlyOnce(w: World, modules: seq<Module>, signals: Signals, env: Environment)
    ensures var tr := ExecuteRun(w, modules, signals, env).1;
            Acted(tr) == LeafEntries(tr)
  {
    var s0 := LoopState(env, false, false, []);
    TopLoopSettles(w, modules, 0, signals, s0, Start);
    var (s, tr) := TopLoop(w, modules, 0, signals, s0, Start);
    assert Settled(Then(tr, Polled));
    if signals.Signals? {
      SignalsSame(w, DefinitionSignals(signals), 0, s.env, SIGNAL_TOP, Then(tr, Polled));
    }
  }

  /** With the hook, a container that has not failed hands up environment entries only, so handling
      its returned meta acts on nothing a second time. */
  lemma HookedContainerHandsUpNoControlPlane(w: World, m: Module, env: Environment, opts: Options, tr: Trace)
    requires !m.Leaf? && opts.onChildStep && !opts.inSignal && Settled(tr)
    ensures var (outcome, tr') := ApplyModule(w, m, env, opts, tr);
            && Settled(tr')
            && (outcome.Returned? && outcome.result.status != Failed ==> ControlPlane(outcome.result.meta) == [])
  {
    ApplySettles(w, m, env, opts, tr, [], []);
  }

  /** Without the hook, as long as nothing fails, a container hands up exactly the entries of its
      successfully applied leaves, in order, and nobody has acted on them. */
  lemma PlainContainerHandsUpEverything(w: World, m: Module, env: Environment, opts: Options, tr: Trace)
    requires !m.Leaf? && Plain(opts)
    ensures var (outcome, tr') := ApplyModule(w, m, env, opts, tr);
            Calm(tr') && !(outcome.Returned? && outcome.result.status == Failed) ==>
              && outcome.Returned?
              && LeafEntries(tr') == LeafEntries(tr) + ControlPlane(outcome.result.meta)
              && Acted(tr') == Acted(tr)
  {
    ApplySettles(w, m, env, opts, tr, LeafEntries(tr), Acted(tr));
  }

  /** The returned meta of a recipe that has not failed replays to the environment its last child left. */
  lemma RecipeMetaReplays(w: World, r: Module, env: Environment, opts: Options, tr: Trace)
    requires r.Recipe? && Sane(opts) && (opts.onChildStep ==> Settled(tr))
    ensures var s := RunRecipe(w, r, env, opts, tr).0;
            s.status != Failed ==> Merge(env, s.meta) == Ok(s.env)
  {
    var leaf0 := if opts.onChildStep then [] else LeafEntries(tr);
    RecipeSettles(w, r, env, opts, tr, leaf0, Acted(tr));
  }

  lemma GuardedMetaReplays(w: World, g: Module, env: Environment, opts: Options, tr: Trace)
    requires g.Guarded? && Sane(opts) && (opts.onChildStep ==> Settled(tr))
    ensures var run := RunGuarded(w, g, 0, InitialGuarded(env), opts, tr).0;
            run.Finished? ==> Merge(env, run.state.meta) == Ok(run.state.env)
  {
    var leaf0 := if opts.onChildStep then [] else LeafEntries(tr);
    GuardedSettles(w, g, 0, InitialGuarded(env), opts, tr, leaf0, Acted(tr), env);
  }

  /** So the run goes on, behind a recipe, with the environment the recipe's last child left. */
  lemma RunnerContinuesWithChildEnvironment(w: World, r: Module, env: Environment, tr: Trace)
    requires r.Recipe? && Settled(tr)
    ensures var (answer, tr1) := CheckModule(w, r, env, false, tr);
            var s := RunRecipe(w, r, env, TopOptions(r), tr1).0;
            answer == NeedsApply && s.status != Failed ==> TopStep(w, r, env, tr).0.env == s.env
  {
    CheckSame(w, r, env, false, tr);
    RecipeMetaReplays(w, r, env, TopOptions(r), CheckModule(w, r, env, false, tr).1);
  }
}
