/** The orchestration engine in apply mode: recipes (packages/paratix/src/recipe.ts), `when` blocks
    (conditionalExecution.ts, conditionalModules.ts), signal lists (signalOrchestration.ts) and the
    top-level loop (runner.ts), as functions that thread a trace of everything that happened.

    Leaves, guards and the shutdown getter are arbitrary functions of the whole trace so far (the
    `World`), so the theorems about this module hold for every behaviour of the remote host, for
    stateful modules, and for a shutdown signal that arrives at any moment. */
module Engine {
  import opened Meta

  datatype Status = Done | Changed | Failed | Skipped  // "ok", "changed", "failed", "skipped"

  datatype ModuleResult =
    ModuleResult(status: Status, meta: seq<MetaEntry>, flushSignals: bool, stopRun: bool)

  datatype Outcome = Returned(result: ModuleResult) | Threw
  datatype CheckOutcome = IsOk | NeedsApply | CheckThrew
  datatype GuardOutcome = Holds | Fails | GuardThrew

  datatype Signals = NoSignals | Signals(modules: seq<Module>)

  datatype Module =
    | Leaf(id: nat)
    | Recipe(children: seq<Module>, signals: Signals)
    | Guarded(guard: nat, children: seq<Module>)

  /** What the surrounding container or the runner is told about a finished child. */
  datatype Step = Step(status: Status, meta: seq<MetaEntry>, env: Environment, flushSignals: bool, stopRun: bool)

  datatype Event =
    | Polled                                          // the shutdown getter was asked
    | AbortPolled                                     // the runner abort signal was asked
    | Checked(id: nat, answer: CheckOutcome, inSignal: bool)
    | GuardChecked(id: nat, holds: GuardOutcome, inSignal: bool)  // by check(): also what apply() will read
    | GuardApplied(id: nat, holds: GuardOutcome, inSignal: bool)  // evaluated by apply() itself
    | Applied(id: nat, outcome: Outcome, inSignal: bool)
    | ChildStep(step: Step)                           // onChildStep called
    | SignalStarted
    | SignalStep(step: Step)                          // onSignalStep called
    | RunnerMeta(result: ModuleResult)                // the runner handles the meta a module returned
    | StatUpdate(status: Status)                      // stats.update(status)

  /** Everything that has happened, the latest event outermost. */
  datatype Trace = Start | Then(past: Trace, event: Event)

  datatype World = World(
    check: (Trace, nat, Environment) -> CheckOutcome,
    apply: (Trace, nat, Environment) -> Outcome,
    guard: (Trace, nat, Environment) -> GuardOutcome,
    shutdown: Trace -> bool,
    aborted: Trace -> bool)

  /** Which options a container was given: the child-step hook, the pair of signal hooks, the
      shutdown getter; and whether it runs as part of a signal list. */
  datatype Options = Options(onChildStep: bool, signalHooks: bool, shutdownSignal: bool, inSignal: bool)

  function Poll(w: World, opts: Options, tr: Trace): (bool, Trace) {
    if opts.shutdownSignal then (w.shutdown(tr), Then(tr, Polled)) else (false, tr)
  }

  // ----- check()

  /** The guard result that the last check() stored. */
  function StoredGuard(tr: Trace, id: nat): (r: GuardOutcome) {
    match tr
    case Start => GuardThrew
    case Then(past, e) =>
      if e.GuardChecked? && e.id == id && e.holds != GuardThrew then e.holds else StoredGuard(past, id)
  }

  function CheckModule(w: World, m: Module, env: Environment, inSignal: bool, tr: Trace): (CheckOutcome, Trace)
    decreases m, 1
  {
    match m
    case Leaf(id) =>
      var answer := w.check(tr, id, env);
      (answer, Then(tr, Checked(id, answer, inSignal)))
    case Recipe(_, _) => CheckChildren(w, m, 0, env, inSignal, tr)
    case Guarded(id, _) =>
      var answer := w.guard(tr, id, env);
      var tr' := Then(tr, GuardChecked(id, answer, inSignal));
      match answer
      case GuardThrew => (CheckThrew, tr')
      case Fails => (NeedsApply, tr')
      case Holds => CheckChildren(w, m, 0, env, inSignal, tr')
  }

  /** The first child that is not ok decides; a recipe also asks for the abort signal before each child. */
  function CheckChildren(w: World, m: Module, i: nat, env: Environment, inSignal: bool, tr: Trace): (CheckOutcome, Trace)
    requires !m.Leaf? && i <= |m.children|
    decreases m, 0, |m.children| - i
  {
    if i == |m.children| then (IsOk, tr)
    else if m.Recipe? && w.aborted(tr) then (NeedsApply, Then(tr, AbortPolled))
    else
      var tr' := if m.Recipe? then Then(tr, AbortPolled) else tr;
      var (answer, tr'') := CheckModule(w, m.children[i], env, inSignal, tr');
      if answer == IsOk then CheckChildren(w, m, i + 1, env, inSignal, tr'') else (answer, tr'')
  }

  // ----- apply()

  function ApplyModule(w: World, m: Module, env: Environment, opts: Options, tr: Trace): (Outcome, Trace)
    decreases m, 3
  {
    match m
    case Leaf(id) =>
      var outcome := w.apply(tr, id, env);
      (outcome, Then(tr, Applied(id, outcome, opts.inSignal)))
    case Recipe(_, _) =>
      var (s, tr') := RunRecipe(w, m, env, opts, tr);
      (Returned(ModuleResult(s.status, s.meta, false, s.stopRun)), tr')
    case Guarded(id, _) =>
      var stored := StoredGuard(tr, id);
      var answer := if stored == GuardThrew then w.guard(tr, id, env) else stored;
      var tr' := if stored == GuardThrew then Then(tr, GuardApplied(id, answer, opts.inSignal)) else tr;
      match answer
      case GuardThrew => (Threw, tr')
      case Fails => (Returned(ModuleResult(Skipped, [], false, false)), tr')
      case Holds =>
        var (run, tr'') := RunGuarded(w, m, 0, InitialGuarded(env), opts.(signalHooks := false), tr');
        (GuardedResult(run), tr'')
  }

  // ----- Recipes

  /** What one loop (a recipe's, a block's or the runner's) did at its own level, in order: the child at
      `index` ran and reported a status, or was left alone because its check said ok. */
  datatype LoopEvent =
    | Child(index: nat, status: Status, flushSignals: bool, stopRun: bool)
    | Passed(index: nat)
    | SignalsRan(run: SignalRun)

  datatype SignalRun = SignalRun(failed: bool, interrupted: bool, started: nat)

  datatype RecipeState =
    RecipeState(env: Environment, meta: seq<MetaEntry>, signalsPending: bool, status: Status, stopRun: bool,
                history: seq<LoopEvent>)

  datatype ChildExecution = NoStep | Interrupted | Stepped(step: Step) | ExecutionFailed

  /** The catch around one recipe child: an error during a shutdown counts as an interruption. */
  function CaughtInRecipe(w: World, opts: Options, tr: Trace): (ChildExecution, Trace) {
    var (stop, tr') := Poll(w, opts, tr);
    (if stop then Interrupted else ExecutionFailed, tr')
  }

  function ExecuteChild(w: World, m: Module, env: Environment, opts: Options, tr: Trace): (ChildExecution, Trace)
    decreases m, 4
  {
    var (answer, tr1) := CheckModule(w, m, env, opts.inSignal, tr);
    if answer == CheckThrew then CaughtInRecipe(w, opts, tr1)
    else if answer == IsOk then (NoStep, tr1)
    else
      var (stop, tr2) := Poll(w, opts, tr1);
      if stop then (Interrupted, tr2)
      else
        var (outcome, tr3) := ApplyModule(w, m, env, opts, tr2);
        if outcome.Threw? then CaughtInRecipe(w, opts, tr3)
        else BuildChildStep(w, outcome.result, env, opts, tr3)
  }

  function BuildChildStep(w: World, result: ModuleResult, env: Environment, opts: Options, tr: Trace)
    : (ChildExecution, Trace)
  {
    if result.status == Failed then
      (Stepped(Step(Failed, result.meta, env, result.flushSignals, result.stopRun)), tr)
    else
      match Merge(env, result.meta)
      case Throws => CaughtInRecipe(w, opts, tr)
      case Ok(merged) =>
        (Stepped(Step(result.status, result.meta, merged, result.flushSignals, result.stopRun)), tr)
  }

  function ApplyStepToState(s: RecipeState, i: nat, step: Step, preserveControlPlaneMeta: bool): RecipeState {
    RecipeState(
      step.env,
      s.meta + (if preserveControlPlaneMeta then step.meta else EnvironmentOnly(step.meta)),
      step.status == Changed || s.signalsPending,
      if step.status == Failed then Failed else if step.status == Changed then Changed else s.status,
      step.stopRun || s.stopRun,
      s.history + [Child(i, step.status, step.flushSignals, step.stopRun)])
  }

  function ApplySignalRun(s: RecipeState, run: SignalRun): RecipeState {
    s.(signalsPending := false,
       status := if run.failed then Failed else s.status,
       history := s.history + [SignalsRan(run)])
  }

  /** One finished child: whether the loop ends, and the new state. */
  function ProcessStep(w: World, r: Module, i: nat, exec: ChildExecution, s: RecipeState, opts: Options, tr: Trace)
    : (bool, RecipeState, Trace)
    requires r.Recipe?
    decreases r, 1, 0
  {
    match exec
    case ExecutionFailed =>
      (true, RecipeState(s.env, [], false, Failed, false, s.history + [Child(i, Failed, false, false)]), tr)
    case Interrupted => (true, s, tr)
    case NoStep => (s.status == Failed || s.stopRun, s.(history := s.history + [Passed(i)]), tr)
    case Stepped(step) =>
      var tr1 := if opts.onChildStep then Then(tr, ChildStep(step)) else tr;
      var s1 := ApplyStepToState(s, i, step, !opts.onChildStep);
      if step.flushSignals && s1.signalsPending && r.signals.Signals? then
        var (run, tr2) := RunSignals(w, r, 0, s1.env, opts, tr1);
        var s2 := ApplySignalRun(s1, run);
        (s2.status == Failed || s2.stopRun, s2, tr2)
      else (s1.status == Failed || s1.stopRun, s1, tr1)
  }

  function RecipeLoop(w: World, r: Module, i: nat, s: RecipeState, opts: Options, tr: Trace): (RecipeState, Trace)
    requires r.Recipe? && i <= |r.children|
    decreases r, 1, |r.children| - i
  {
    if i == |r.children| then (s, tr)
    else
      var (stop, tr1) := Poll(w, opts, tr);
      if stop then (s, tr1)
      else
        var (exec, tr2) := ExecuteChild(w, r.children[i], s.env, opts, tr1);
        var (over, s', tr3) := ProcessStep(w, r, i, exec, s, opts, tr2);
        if over then (s', tr3) else RecipeLoop(w, r, i + 1, s', opts, tr3)
  }

  function InitialState(env: Environment): RecipeState {
    RecipeState(env, [], false, Done, false, [])
  }

  /** The loop, and the signals at the end of the recipe. */
  function RunRecipe(w: World, r: Module, env: Environment, opts: Options, tr: Trace): (RecipeState, Trace)
    requires r.Recipe?
    decreases r, 2
  {
    var (s, tr1) := RecipeLoop(w, r, 0, InitialState(env), opts, tr);
    if s.signalsPending && s.status == Changed && r.signals.Signals? then
      var (run, tr2) := RunSignals(w, r, 0, s.env, opts, tr1);
      (s.(status := if run.failed then Failed else Changed, history := s.history + [SignalsRan(run)]), tr2)
    else (s, tr1)
  }

  // ----- Signal lists

  function SignalOptions(opts: Options): Options {
    Options(false, false, opts.shutdownSignal, true)
  }

  datatype SignalOutcome = SignalDone(env: Environment) | SignalFailed

  predicate ValidHost(host: string) {
    && host != ""
    && (forall c <- host :: ' ' < c && c != 0x7f as char && c !in {'*', ',', '?', '!'})
  }

  /** assertValidModuleMetaEntry */
  predicate ValidEntry(entry: MetaEntry) {
    match entry
    case EnvEntry(name, _, policyValid) => policyValid && name != ""
    case SshdPort(port) => 1 <= port <= 65535
    case SystemHost(host) => ValidHost(host)
    case SystemReboot => true
  }

  /** From the result of one signal to its effect; an invalid entry or a failed merge is an error. */
  function FinishSignal(result: ModuleResult, env: Environment, opts: Options, tr: Trace): (SignalOutcome, Trace) {
    if !(forall i | 0 <= i < |result.meta| :: ValidEntry(result.meta[i])) then SignalError(opts, tr)
    else
      var merged := if result.status == Failed then Ok(env) else Merge(env, result.meta);
      match merged
      case Throws => SignalError(opts, tr)
      case Ok(next) =>
        var step := Step(result.status, result.meta, next, false, false);
        var tr' := if opts.signalHooks then Then(Then(tr, SignalStep(step)), StatUpdate(result.status)) else tr;
        (if result.status == Failed then SignalFailed else SignalDone(next), tr')
  }

  function SignalError(opts: Options, tr: Trace): (SignalOutcome, Trace) {
    (SignalFailed, if opts.signalHooks then Then(tr, StatUpdate(Failed)) else tr)
  }

  function StartSignal(opts: Options, tr: Trace): Trace {
    if opts.signalHooks then Then(tr, SignalStarted) else tr
  }

  function RunOneSignal(w: World, signal: Module, env: Environment, opts: Options, tr: Trace): (SignalOutcome, Trace)
    decreases signal, 4
  {
    var (outcome, tr1) := ApplyModule(w, signal, env, SignalOptions(opts), StartSignal(opts, tr));
    if outcome.Threw? then SignalError(opts, tr1) else FinishSignal(outcome.result, env, opts, tr1)
  }

  /** The signals of recipe `r` from the k-th on; the list stops at the first failure. */
  function RunSignals(w: World, r: Module, k: nat, env: Environment, opts: Options, tr: Trace): (SignalRun, Trace)
    requires r.Recipe? && r.signals.Signals? && k <= |r.signals.modules|
    decreases r, 0, |r.signals.modules| - k
  {
    if k == |r.signals.modules| then (SignalRun(false, false, k), tr)
    else
      var (stop, tr1) := Poll(w, opts, tr);
      if stop then (SignalRun(false, true, k), tr1)
      else
        var (outcome, tr2) := RunOneSignal(w, r.signals.modules[k], env, opts, tr1);
        if outcome.SignalFailed? then (SignalRun(true, false, k + 1), tr2)
        else RunSignals(w, r, k + 1, outcome.env, opts, tr2)
  }

  // ----- `when` blocks

  datatype GuardedState =
    GuardedState(env: Environment, meta: seq<MetaEntry>, status: Status, flushSignals: bool, stopRun: bool,
                 history: seq<LoopEvent>)

  /** The result of a child folded into the block, or an error from the merge. */
  function MergeGuarded(s: GuardedState, i: nat, result: ModuleResult, preserveControlPlaneMeta: bool)
    : Result<GuardedState>
  {
    match Merge(s.env, result.meta)
    case Throws => Throws
    case Ok(env) =>
      Ok(GuardedState(
           env,
           s.meta + (if preserveControlPlaneMeta then result.meta else EnvironmentOnly(result.meta)),
           if result.status == Changed then Changed else s.status,
           result.flushSignals || s.flushSignals,
           result.stopRun || s.stopRun,
           s.history + [Child(i, result.status, result.flushSignals, result.stopRun)]))
  }

  /** The loop finished, or a failed child's result or an error left the block at once. */
  datatype GuardedRun = Finished(state: GuardedState) | Left(outcome: Outcome, history: seq<LoopEvent>)

  function InitialGuarded(env: Environment): GuardedState {
    GuardedState(env, [], Done, false, false, [])
  }

  function GuardedResult(run: GuardedRun): Outcome {
    match run
    case Left(outcome, _) => outcome
    case Finished(s) => Returned(ModuleResult(s.status, s.meta, s.flushSignals, s.stopRun))
  }

  function GuardedStep(s: GuardedState, result: ModuleResult): Step {
    Step(result.status, result.meta, s.env, result.flushSignals, result.stopRun)
  }

  datatype GuardedNext = GoOn(state: GuardedState) | Over(run: GuardedRun)

  /** The child at `i` threw, or returned what it returned. */
  function Ended(i: nat, outcome: Outcome): LoopEvent {
    if outcome.Threw? then Child(i, Failed, false, false)
    else Child(i, outcome.result.status, outcome.result.flushSignals, outcome.result.stopRun)
  }

  /** One child of a block. */
  function GuardedChild(w: World, m: Module, i: nat, s: GuardedState, opts: Options, tr: Trace): (GuardedNext, Trace)
    decreases m, 4
  {
    var (answer, tr1) := CheckModule(w, m, s.env, opts.inSignal, tr);
    if answer == CheckThrew then (Over(Left(Threw, s.history + [Ended(i, Threw)])), tr1)
    else if answer == IsOk then (GoOn(s.(history := s.history + [Passed(i)])), tr1)
    else
      var (stop, tr2) := Poll(w, opts, tr1);
      if stop then (Over(Finished(s)), tr2)
      else
        var (outcome, tr3) := ApplyModule(w, m, s.env, opts, tr2);
        FinishGuardedChild(outcome, i, s, opts, tr3)
  }

  function FinishGuardedChild(outcome: Outcome, i: nat, s: GuardedState, opts: Options, tr: Trace)
    : (GuardedNext, Trace)
  {
    if outcome.Threw? || outcome.result.status == Failed then
      (Over(Left(outcome, s.history + [Ended(i, outcome)])), tr)
    else
      match MergeGuarded(s, i, outcome.result, !opts.onChildStep)
      case Throws => (Over(Left(Threw, s.history + [Ended(i, Threw)])), tr)
      case Ok(s') =>
        (if s'.stopRun then Over(Finished(s')) else GoOn(s'),
         if opts.onChildStep then Then(tr, ChildStep(GuardedStep(s', outcome.result))) else tr)
  }

  /** The block from its i-th child on; a failed child and an error leave the block. */
  function RunGuarded(w: World, g: Module, i: nat, s: GuardedState, opts: Options, tr: Trace): (GuardedRun, Trace)
    requires g.Guarded? && i <= |g.children|
    decreases g, 1, |g.children| - i
  {
    if i == |g.children| then (Finished(s), tr)
    else
      var (stop, tr1) := Poll(w, opts, tr);
      if stop then (Finished(s), tr1)
      else
        var (next, tr2) := GuardedChild(w, g.children[i], i, s, opts, tr1);
        match next
        case Over(run) => (run, tr2)
        case GoOn(s') => RunGuarded(w, g, i + 1, s', opts, tr2)
  }

  // ----- The runner

  /** No status: the step was interrupted. */
  datatype StepResult =
    StepResult(env: Environment, shouldBreak: bool, hasStatus: bool, status: Status, flushSignals: bool, stopRun: bool)

  function TopOptions(m: Module): Options {
    Options(true, m.Recipe?, true, false)
  }

  function CaughtInRunner(w: World, env: Environment, tr: Trace): (StepResult, Trace) {
    (StepResult(env, true, !w.shutdown(tr), Failed, false, false), Then(tr, Polled))
  }

  /** handleMetaAndBuildResult: the environment is merged, and the control plane acts on the rest. */
  function HandleMeta(w: World, env: Environment, result: ModuleResult, tr: Trace): (StepResult, Trace) {
    match Merge(env, result.meta)
    case Throws => CaughtInRunner(w, env, tr)
    case Ok(merged) =>
      (StepResult(merged, result.status == Failed || result.stopRun, true, result.status,
                  result.flushSignals, result.stopRun),
       Then(tr, RunnerMeta(result)))
  }

  /** One top-level module. A plain module is not applied when a shutdown arrived after its check. */
  function TopStep(w: World, m: Module, env: Environment, tr: Trace): (StepResult, Trace) {
    var (answer, tr1) := CheckModule(w, m, env, false, tr);
    if answer == CheckThrew then CaughtInRunner(w, env, tr1)
    else if answer == IsOk then (StepResult(env, false, true, Done, false, false), tr1)
    else
      var (stop, tr2) := if m.Recipe? then (false, tr1) else (w.shutdown(tr1), Then(tr1, Polled));
      if stop then (StepResult(env, true, false, Done, false, false), tr2)
      else
        var (outcome, tr3) := ApplyModule(w, m, env, TopOptions(m), tr2);
        if outcome.Threw? then CaughtInRunner(w, env, tr3) else HandleMeta(w, env, outcome.result, tr3)
  }

  predicate StatsFailed(tr: Trace) {
    tr.Then? && (tr.event == StatUpdate(Failed) || StatsFailed(tr.past))
  }

  datatype LoopState =
    LoopState(env: Environment, signalsPending: bool, stopRun: bool, history: seq<LoopEvent>)

  function ApplyLoopResult(s: LoopState, i: nat, result: StepResult): LoopState {
    LoopState(
      result.env,
      s.signalsPending || (result.hasStatus && result.status == Changed),
      s.stopRun || result.stopRun,
      if result.hasStatus then s.history + [Child(i, result.status, result.flushSignals, result.stopRun)] else s.history)
  }

  function CountStats(result: StepResult, tr: Trace): Trace {
    if result.hasStatus then Then(tr, StatUpdate(result.status)) else tr
  }

  /** The signals of the definition, run as those of a recipe, with the hooks of the runner. */
  function DefinitionSignals(signals: Signals): Module { Recipe([], signals) }

  const SIGNAL_TOP := Options(true, true, true, false)

  function RunDefinitionSignals(w: World, signals: Signals, s: LoopState, tr: Trace): (LoopState, SignalRun, Trace)
    requires signals.Signals?
  {
    var (run, tr') := RunSignals(w, DefinitionSignals(signals), 0, s.env, SIGNAL_TOP, tr);
    (s.(signalsPending := false, history := s.history + [SignalsRan(run)]), run, tr')
  }

  /** One iteration of the top-level loop: whether the loop ends, and the new state. */
  function TopIteration(w: World, m: Module, i: nat, signals: Signals, s: LoopState, tr: Trace)
    : (bool, LoopState, Trace)
  {
    var (result, tr1) := TopStep(w, m, s.env, tr);
    var s1 := ApplyLoopResult(s, i, result);
    var tr2 := CountStats(result, tr1);
    if !result.flushSignals then (result.shouldBreak, s1, tr2)
    else
      var tr3 := Then(tr2, Polled);
      if !w.shutdown(tr2) && s1.signalsPending && !StatsFailed(tr3) && signals.Signals? then
        var (s2, run, tr4) := RunDefinitionSignals(w, signals, s1, tr3);
        (run.failed || result.shouldBreak, s2, tr4)
      else (result.shouldBreak, s1, tr3)
  }

  function TopLoop(w: World, modules: seq<Module>, i: nat, signals: Signals, s: LoopState, tr: Trace): (LoopState, Trace)
    requires i <= |modules|
    decreases |modules| - i
  {
    if i == |modules| then (s, tr)
    else if w.shutdown(tr) then (s, Then(tr, Polled))
    else
      var (over, s', tr') := TopIteration(w, modules[i], i, signals, s, Then(tr, Polled));
      if over then (s', tr') else TopLoop(w, modules, i + 1, signals, s', tr')
  }

  /** A whole run, with the signals at its end; the last component tells whether that end was
      reached under a shutdown. */
  function ExecuteRun(w: World, modules: seq<Module>, signals: Signals, env: Environment): (LoopState, Trace, bool) {
    var (s, tr) := TopLoop(w, modules, 0, signals, LoopState(env, false, false, []), Start);
    var stop, tr1 := w.shutdown(tr), Then(tr, Polled);
    if !stop && s.signalsPending && !StatsFailed(tr1) && signals.Signals? then
      var (s', _, tr2) := RunDefinitionSignals(w, signals, s, tr1);
      (s', tr2, stop)
    else (s, tr1, stop)
  }
}
