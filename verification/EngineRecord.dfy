/** What the entries of a loop's history stand for: a check asks the leaves, guards and abort signals of a tree
    one after the other and stops at the first that is not ok; a child is passed over exactly when all are ok,
    and else it is applied, there and then, and reported as it ended. */
module EngineRecord {
  import opened Meta
  import opened Engine
  import opened EngineEnvironments
  import opened EngineVisits

  // ----- A check is a survey

  datatype Question = AskLeaf(id: nat) | AskGuard(id: nat) | AskAbort

  /** All there is to ask, depth first. */
  function Questions(m: Module): seq<Question>
    decreases m, 1
  {
    match m
    case Leaf(id) => [AskLeaf(id)]
    case Recipe(_, _) => ChildQuestions(m, 0)
    case Guarded(id, _) => [AskGuard(id)] + ChildQuestions(m, 0)
  }

  function ChildQuestions(m: Module, i: nat): seq<Question>
    requires !m.Leaf? && i <= |m.children|
    decreases m, 0, |m.children| - i
  {
    if i == |m.children| then []
    else (if m.Recipe? then [AskAbort] else []) + Questions(m.children[i]) + ChildQuestions(m, i + 1)
  }

  function Ask(w: World, q: Question, env: Environment, inSignal: bool, tr: Trace): (CheckOutcome, Event) {
    match q
    case AskLeaf(id) => (w.check(tr, id, env), Checked(id, w.check(tr, id, env), inSignal))
    case AskGuard(id) =>
      var holds := w.guard(tr, id, env);
      (match holds case Holds => IsOk case Fails => NeedsApply case GuardThrew => CheckThrew,
       GuardChecked(id, holds, inSignal))
    case AskAbort => (if w.aborted(tr) then NeedsApply else IsOk, AbortPolled)
  }

  /** One question after the other, up to the first answer that is not ok. */
  function Survey(w: World, questions: seq<Question>, env: Environment, inSignal: bool, tr: Trace): (CheckOutcome, Trace) {
    if questions == [] then (IsOk, tr)
    else
      var (answer, e) := Ask(w, questions[0], env, inSignal, tr);
      if answer == IsOk then Survey(w, questions[1..], env, inSignal, Then(tr, e)) else (answer, Then(tr, e))
  }

  lemma {:induction false} SurveyConcat(w: World, a: seq<Question>, b: seq<Question>, env: Environment, inSignal: bool, tr: Trace)
    ensures var (answer, tr') := Survey(w, a, env, inSignal, tr);
            Survey(w, a + b, env, inSignal, tr)
            == if answer == IsOk then Survey(w, b, env, inSignal, tr') else (answer, tr')
    decreases |a|
  {
    if a == [] {
      assert a + b == b;
    } else {
      assert (a + b)[1..] == a[1..] + b;
      var (answer, e) := Ask(w, a[0], env, inSignal, tr);
      SurveyConcat(w, a[1..], b, env, inSignal, Then(tr, e));
    }
  }

  lemma SurveyOne(w: World, q: Question, env: Environment, inSignal: bool, tr: Trace)
    ensures Survey(w, [q], env, inSignal, tr)
         == (Ask(w, q, env, inSignal, tr).0, Then(tr, Ask(w, q, env, inSignal, tr).1))
  {
    assert [q][1..] == [];
  }

  /** Checking a tree is asking all that there is to ask in it, up to the first answer that is not ok. */
  lemma {:induction false} CheckIsSurvey(w: World, m: Module, env: Environment, inSignal: bool, tr: Trace)
    ensures CheckModule(w, m, env, inSignal, tr) == Survey(w, Questions(m), env, inSignal, tr)
    decreases m, 1
  {
    match m
    case Leaf(id) => SurveyOne(w, AskLeaf(id), env, inSignal, tr);
    case Recipe(_, _) => CheckChildrenIsSurvey(w, m, 0, env, inSignal, tr);
    case Guarded(id, _) =>
      SurveyOne(w, AskGuard(id), env, inSignal, tr);
      SurveyConcat(w, [AskGuard(id)], ChildQuestions(m, 0), env, inSignal, tr);
      CheckChildrenIsSurvey(w, m, 0, env, inSignal, Then(tr, GuardChecked(id, w.guard(tr, id, env), inSignal)));
  }

  lemma {:induction false} CheckChildrenIsSurvey(w: World, m: Module, i: nat, env: Environment, inSignal: bool, tr: Trace)
    requires !m.Leaf? && i <= |m.children|
    ensures CheckChildren(w, m, i, env, inSignal, tr) == Survey(w, ChildQuestions(m, i), env, inSignal, tr)
    decreases m, 0, |m.children| - i
  {
    if i < |m.children| {
      var child, rest := Questions(m.children[i]), ChildQuestions(m, i + 1);
      var tr1 := if m.Recipe? then Then(tr, AbortPolled) else tr;
      if m.Recipe? {
        SurveyOne(w, AskAbort, env, inSignal, tr);
        SurveyConcat(w, [AskAbort], child + rest, env, inSignal, tr);
        assert [AskAbort] + child + rest == [AskAbort] + (child + rest);
      } else {
        assert [] + child + rest == child + rest;
      }
      CheckIsSurvey(w, m.children[i], env, inSignal, tr1);
      SurveyConcat(w, child, rest, env, inSignal, tr1);
      CheckChildrenIsSurvey(w, m, i + 1, env, inSignal, Survey(w, child, env, inSignal, tr1).1);
    }
  }

  // ----- A trace only grows

  /** `tr` is `tr'` at an earlier moment, or now. */
  predicate Extends(tr: Trace, tr': Trace) {
    tr == tr' || (tr'.Then? && Extends(tr, tr'.past))
  }

  lemma {:induction false} ExtendsInTwo(a: Trace, b: Trace, c: Trace)
    requires Extends(a, b) && Extends(b, c)
    ensures Extends(a, c)
    decreases c
  {
    if b != c { ExtendsInTwo(a, b, c.past); }
  }

  lemma PollExtends(w: World, opts: Options, tr: Trace)
    ensures Extends(tr, Poll(w, opts, tr).1)
  {}

  lemma {:induction false} SurveyExtends(w: World, questions: seq<Question>, env: Environment, inSignal: bool, tr: Trace)
    ensures Extends(tr, Survey(w, questions, env, inSignal, tr).1)
    decreases |questions|
  {
    if questions != [] {
      var e := Ask(w, questions[0], env, inSignal, tr).1;
      SurveyExtends(w, questions[1..], env, inSignal, Then(tr, e));
      ExtendsInTwo(tr, Then(tr, e), Survey(w, questions[1..], env, inSignal, Then(tr, e)).1);
    }
  }

  lemma CheckExtends(w: World, m: Module, env: Environment, inSignal: bool, tr: Trace)
    ensures Extends(tr, CheckModule(w, m, env, inSignal, tr).1)
  {
    CheckIsSurvey(w, m, env, inSignal, tr);
    SurveyExtends(w, Questions(m), env, inSignal, tr);
  }

  lemma {:induction false} ApplyExtends(w: World, m: Module, env: Environment, opts: Options, tr: Trace)
    ensures Extends(tr, ApplyModule(w, m, env, opts, tr).1)
    decreases m, 3
  {
    match m
    case Leaf(_) =>
    case Recipe(_, _) => RecipeExtends(w, m, env, opts, tr);
    case Guarded(id, _) =>
      var tr' := AskedGuard(w, id, env, opts, tr).1;
      GuardedExtends(w, m, 0, InitialGuarded(env), opts.(signalHooks := false), tr');
      ExtendsInTwo(tr, tr', RunGuarded(w, m, 0, InitialGuarded(env), opts.(signalHooks := false), tr').1);
  }

  lemma {:induction false} RecipeExtends(w: World, r: Module, env: Environment, opts: Options, tr: Trace)
    requires r.Recipe?
    ensures Extends(tr, RunRecipe(w, r, env, opts, tr).1)
    decreases r, 2
  {
    RecipeLoopExtends(w, r, 0, InitialState(env), opts, tr);
    var (s, tr1) := RecipeLoop(w, r, 0, InitialState(env), opts, tr);
    if r.signals.Signals? {
      SignalsExtend(w, r, 0, s.env, opts, tr1);
      ExtendsInTwo(tr, tr1, RunSignals(w, r, 0, s.env, opts, tr1).1);
    }
  }

  lemma {:induction false} RecipeLoopExtends(w: World, r: Module, i: nat, s: RecipeState, opts: Options, tr: Trace)
    requires r.Recipe? && i <= |r.children|
    ensures Extends(tr, RecipeLoop(w, r, i, s, opts, tr).1)
    decreases r, 1, |r.children| - i
  {
    if i < |r.children| {
      var (stop, tr1) := Poll(w, opts, tr);
      ExecuteExtends(w, r.children[i], s.env, opts, tr1);
      var (exec, tr2) := ExecuteChild(w, r.children[i], s.env, opts, tr1);
      ExtendsInTwo(tr, tr1, tr2);
      ProcessExtends(w, r, i, exec, s, opts, tr2);
      var (over, s', tr3) := ProcessStep(w, r, i, exec, s, opts, tr2);
      ExtendsInTwo(tr, tr2, tr3);
      if !over {
        RecipeLoopExtends(w, r, i + 1, s', opts, tr3);
        ExtendsInTwo(tr, tr3, RecipeLoop(w, r, i + 1, s', opts, tr3).1);
      }
    }
  }

  lemma {:induction false} ExecuteExtends(w: World, m: Module, env: Environment, opts: Options, tr: Trace)
    ensures Extends(tr, ExecuteChild(w, m, env, opts, tr).1)
    decreases m, 4
  {
    CheckExtends(w, m, env, opts.inSignal, tr);
    var tr1 := CheckModule(w, m, env, opts.inSignal, tr).1;
    ExtendsInTwo(tr, tr1, Poll(w, opts, tr1).1);
    var tr2 := Poll(w, opts, tr1).1;
    ApplyExtends(w, m, env, opts, tr2);
    var tr3 := ApplyModule(w, m, env, opts, tr2).1;
    ExtendsInTwo(tr, tr2, tr3);
    ExtendsInTwo(tr, tr3, Poll(w, opts, tr3).1);
  }

  lemma {:induction false} ProcessExtends(w: World, r: Module, i: nat, exec: ChildExecution, s: RecipeState, opts: Options, tr: Trace)
    requires r.Recipe?
    ensures Extends(tr, ProcessStep(w, r, i, exec, s, opts, tr).2)
    decreases r, 1, 0
  {
    if exec.Stepped? && r.signals.Signals? {
      var tr1 := if opts.onChildStep then Then(tr, ChildStep(exec.step)) else tr;
      var s1 := ApplyStepToState(s, i, exec.step, !opts.onChildStep);
      SignalsExtend(w, r, 0, s1.env, opts, tr1);
      ExtendsInTwo(tr, tr1, RunSignals(w, r, 0, s1.env, opts, tr1).1);
    }
  }

  lemma {:induction false} SignalsExtend(w: World, r: Module, k: nat, env: Environment, opts: Options, tr: Trace)
    requires r.Recipe? && r.signals.Signals? && k <= |r.signals.modules|
    ensures Extends(tr, RunSignals(w, r, k, env, opts, tr).1)
    decreases r, 0, |r.signals.modules| - k
  {
    if k < |r.signals.modules| {
      var (stop, tr1) := Poll(w, opts, tr);
      OneSignalExtends(w, r.signals.modules[k], env, opts, tr1);
      var (outcome, tr2) := RunOneSignal(w, r.signals.modules[k], env, opts, tr1);
      ExtendsInTwo(tr, tr1, tr2);
      if outcome.SignalDone? {
        SignalsExtend(w, r, k + 1, outcome.env, opts, tr2);
        ExtendsInTwo(tr, tr2, RunSignals(w, r, k + 1, outcome.env, opts, tr2).1);
      }
    }
  }

  lemma {:induction false} OneSignalExtends(w: World, signal: Module, env: Environment, opts: Options, tr: Trace)
    ensures Extends(tr, RunOneSignal(w, signal, env, opts, tr).1)
    decreases signal, 4
  {
    var tr0 := StartSignal(opts, tr);
    ApplyExtends(w, signal, env, SignalOptions(opts), tr0);
    var (outcome, tr1) := ApplyModule(w, signal, env, SignalOptions(opts), tr0);
    ExtendsInTwo(tr, tr0, tr1);
    if outcome.Returned? { FinishExtends(outcome.result, env, opts, tr1); }
    ExtendsInTwo(tr, tr1, RunOneSignal(w, signal, env, opts, tr).1);
  }

  lemma FinishExtends(result: ModuleResult, env: Environment, opts: Options, tr: Trace)
    ensures Extends(tr, FinishSignal(result, env, opts, tr).1)
  {}

  lemma {:induction false} GuardedExtends(w: World, g: Module, i: nat, s: GuardedState, opts: Options, tr: Trace)
    requires g.Guarded? && i <= |g.children|
    ensures Extends(tr, RunGuarded(w, g, i, s, opts, tr).1)
    decreases g, 1, |g.children| - i
  {
    if i < |g.children| {
      var (stop, tr1) := Poll(w, opts, tr);
      GuardedChildExtends(w, g.children[i], i, s, opts, tr1);
      var (next, tr2) := GuardedChild(w, g.children[i], i, s, opts, tr1);
      ExtendsInTwo(tr, tr1, tr2);
      if next.GoOn? {
        GuardedExtends(w, g, i + 1, next.state, opts, tr2);
        ExtendsInTwo(tr, tr2, RunGuarded(w, g, i + 1, next.state, opts, tr2).1);
      }
    }
  }

  lemma {:induction false} GuardedChildExtends(w: World, m: Module, i: nat, s: GuardedState, opts: Options, tr: Trace)
    ensures Extends(tr, GuardedChild(w, m, i, s, opts, tr).1)
    decreases m, 4
  {
    CheckExtends(w, m, s.env, opts.inSignal, tr);
    var tr1 := CheckModule(w, m, s.env, opts.inSignal, tr).1;
    ExtendsInTwo(tr, tr1, Poll(w, opts, tr1).1);
    var tr2 := Poll(w, opts, tr1).1;
    ApplyExtends(w, m, s.env, opts, tr2);
    var (outcome, tr3) := ApplyModule(w, m, s.env, opts, tr2);
    ExtendsInTwo(tr, tr2, tr3);
    ExtendsInTwo(tr, tr3, FinishGuardedChild(outcome, i, s, opts, tr3).1);
  }

  lemma TopStepExtends(w: World, m: Module, env: Environment, tr: Trace)
    ensures Extends(tr, TopStep(w, m, env, tr).1)
  {
    CheckExtends(w, m, env, false, tr);
    var tr1 := CheckModule(w, m, env, false, tr).1;
    ExtendsInTwo(tr, tr1, Then(tr1, Polled));
    var tr2 := if m.Recipe? then tr1 else Then(tr1, Polled);
    ApplyExtends(w, m, env, TopOptions(m), tr2);
    var (outcome, tr3) := ApplyModule(w, m, env, TopOptions(m), tr2);
    ExtendsInTwo(tr, tr2, tr3);
    ExtendsInTwo(tr, tr3, Then(tr3, Polled));
    if outcome.Returned? { ExtendsInTwo(tr, tr3, Then(tr3, RunnerMeta(outcome.result))); }
  }

  lemma TopIterationExtends(w: World, m: Module, i: nat, signals: Signals, s: LoopState, tr: Trace)
    ensures Extends(tr, TopIteration(w, m, i, signals, s, tr).2)
    ensures Extends(TopStep(w, m, s.env, tr).1, TopIteration(w, m, i, signals, s, tr).2)
  {
    TopStepExtends(w, m, s.env, tr);
    var (result, tr1) := TopStep(w, m, s.env, tr);
    var tr2 := Then(CountStats(result, tr1), Polled);
    ExtendsInTwo(tr1, CountStats(result, tr1), tr2);
    if signals.Signals? {
      var s1 := ApplyLoopResult(s, i, result);
      SignalsExtend(w, DefinitionSignals(signals), 0, s1.env, SIGNAL_TOP, tr2);
      ExtendsInTwo(tr1, tr2, RunDefinitionSignals(w, signals, s1, tr2).2);
    }
    ExtendsInTwo(tr, tr1, TopIteration(w, m, i, signals, s, tr).2);
  }

  /** How many signals the runner was told of, and how many results it has counted. */
  function Started(tr: Trace): nat {
    if tr.Start? then 0 else Started(tr.past) + if tr.event.SignalStarted? then 1 else 0
  }

  function Counted(tr: Trace): nat {
    if tr.Start? then 0 else Counted(tr.past) + if tr.event.StatUpdate? then 1 else 0
  }

  lemma {:induction false} CountsGrow(tr: Trace, tr': Trace)
    requires Extends(tr, tr')
    ensures Started(tr) <= Started(tr') && Counted(tr) <= Counted(tr')
    decreases tr'
  {
    if tr != tr' { CountsGrow(tr, tr'.past); }
  }

  lemma FinishCounts(result: ModuleResult, env: Environment, opts: Options, tr: Trace)
    requires opts.signalHooks
    ensures Counted(FinishSignal(result, env, opts, tr).1) == Counted(tr) + 1
    ensures Started(FinishSignal(result, env, opts, tr).1) == Started(tr)
  {
    var merged := if result.status == Failed then Ok(env) else Merge(env, result.meta);
    if merged.Ok? {
      var tr1 := Then(tr, SignalStep(Step(result.status, result.meta, merged.value, false, false)));
      assert Counted(Then(tr1, StatUpdate(result.status))) == Counted(tr) + 1;
    }
  }

  lemma OneSignalCounts(w: World, signal: Module, env: Environment, opts: Options, tr: Trace)
    requires opts.signalHooks
    ensures var tr' := RunOneSignal(w, signal, env, opts, tr).1;
            Started(tr') >= Started(tr) + 1 && Counted(tr') >= Counted(tr) + 1
  {
    var tr0 := StartSignal(opts, tr);
    assert tr0 == Then(tr, SignalStarted);
    var (outcome, tr1) := ApplyModule(w, signal, env, SignalOptions(opts), tr0);
    ApplyExtends(w, signal, env, SignalOptions(opts), tr0);
    CountsGrow(tr0, tr1);
    if outcome.Returned? { FinishCounts(outcome.result, env, opts, tr1); }
  }

  /** With the runner's hooks, every signal that a list starts is announced, and its result counted. */
  lemma {:induction false} SignalsAreCounted(w: World, r: Module, k: nat, env: Environment, opts: Options, tr: Trace)
    requires r.Recipe? && r.signals.Signals? && k <= |r.signals.modules| && opts.signalHooks
    ensures var (run, tr') := RunSignals(w, r, k, env, opts, tr);
            && run.started >= k
            && Started(tr') >= Started(tr) + (run.started - k)
            && Counted(tr') >= Counted(tr) + (run.started - k)
    decreases |r.signals.modules| - k
  {
    if k < |r.signals.modules| {
      var (stop, tr1) := Poll(w, opts, tr);
      if !stop {
        OneSignalCounts(w, r.signals.modules[k], env, opts, tr1);
        var (outcome, tr2) := RunOneSignal(w, r.signals.modules[k], env, opts, tr1);
        if outcome.SignalDone? { SignalsAreCounted(w, r, k + 1, outcome.env, opts, tr2); }
      }
    }
  }

  // ----- What an entry of a history stands for

  /** The visit to one child: what it was given, the trace when it began and ended, whether a shutdown was asked
      for between check and apply, and how an apply ended. */
  datatype Visit = Visit(env: Environment, opts: Options, from: Trace, asked: bool, outcome: Outcome, till: Trace)

  /** How a child that ended so is reported; one whose result cannot be merged counts as failed. */
  predicate ReportedAs(e: LoopEvent, outcome: Outcome) {
    && e.Child?
    && (e == Ended(e.index, outcome)
        || (outcome.Returned? && !AllMergeable(outcome.result.meta) && e == Ended(e.index, Threw)))
  }

  /** From `tr` on, the module ran as the visit says: a leaf was applied; a recipe or block ran its loop; a block
      whose guard fails was skipped without another word. */
  predicate Ran(w: World, m: Module, v: Visit, tr: Trace) {
    match m
    case Leaf(id) => v.outcome == w.apply(tr, id, v.env) && v.till == Then(tr, Applied(id, v.outcome, v.opts.inSignal))
    case Recipe(_, _) =>
      var (s, tr') := RunRecipe(w, m, v.env, v.opts, tr);
      v.outcome == Returned(ModuleResult(s.status, s.meta, false, s.stopRun)) && v.till == tr'
    case Guarded(id, _) =>
      if w.guard(v.from, id, v.env) == Fails then
        v.outcome == Returned(ModuleResult(Skipped, [], false, false)) && v.till == tr
      else RanGuarded(w, m, v, tr)
  }

  predicate RanGuarded(w: World, m: Module, v: Visit, tr: Trace)
    requires m.Guarded?
  {
    var (holds, tr1) := AskedGuard(w, m.guard, v.env, v.opts, tr);
    var (run, tr2) := RunGuarded(w, m, 0, InitialGuarded(v.env), v.opts.(signalHooks := false), tr1);
    match holds
    case Holds => v.outcome == GuardedResult(run) && v.till == tr2
    case Fails => v.outcome == Returned(ModuleResult(Skipped, [], false, false)) && v.till == tr1
    case GuardThrew => v.outcome == Threw && v.till == tr1
  }

  /** All is ok: the child was passed over. A question threw: it failed. Else it ran, there and then. */
  predicate Backs(w: World, m: Module, e: LoopEvent, v: Visit)
    requires IsVisit(e)
  {
    var (answer, tr) := Survey(w, Questions(m), v.env, v.opts.inSignal, v.from);
    match answer
    case IsOk => (e.Passed? || e == Child(e.index, Done, false, false)) && v.till == tr
    case CheckThrew => e == Ended(e.index, Threw) && v.till == tr
    case NeedsApply => ReportedAs(e, v.outcome) && Ran(w, m, v, if v.asked then Then(tr, Polled) else tr)
  }

  /** Some stretch of the trace is the visit that the entry reports. */
  ghost predicate Backed(w: World, m: Module, e: LoopEvent, inSignal: bool, tr: Trace)
    requires IsVisit(e)
  {
    exists v: Visit :: Backs(w, m, e, v) && v.opts.inSignal == inSignal && Extends(v.till, tr)
  }

  ghost predicate AllBacked(w: World, modules: seq<Module>, h: seq<LoopEvent>, inSignal: bool, tr: Trace) {
    forall k | 0 <= k < |h| && IsVisit(h[k]) ::
      h[k].index < |modules| && Backed(w, modules[h[k].index], h[k], inSignal, tr)
  }

  lemma BackedLater(w: World, m: Module, e: LoopEvent, inSignal: bool, tr: Trace, tr': Trace)
    requires IsVisit(e) && Backed(w, m, e, inSignal, tr) && Extends(tr, tr')
    ensures Backed(w, m, e, inSignal, tr')
  {
    var v: Visit :| Backs(w, m, e, v) && v.opts.inSignal == inSignal && Extends(v.till, tr);
    ExtendsInTwo(v.till, tr, tr');
  }

  lemma AllBackedLater(w: World, modules: seq<Module>, h: seq<LoopEvent>, inSignal: bool, tr: Trace, tr': Trace)
    requires AllBacked(w, modules, h, inSignal, tr) && Extends(tr, tr')
    ensures AllBacked(w, modules, h, inSignal, tr')
  {
    forall k | 0 <= k < |h| && IsVisit(h[k])
      ensures h[k].index < |modules| && Backed(w, modules[h[k].index], h[k], inSignal, tr')
    {
      BackedLater(w, modules[h[k].index], h[k], inSignal, tr, tr');
    }
  }

  lemma AllBackedSnoc(w: World, modules: seq<Module>, h: seq<LoopEvent>, e: LoopEvent, inSignal: bool, tr: Trace)
    requires AllBacked(w, modules, h, inSignal, tr)
    requires IsVisit(e) ==> e.index < |modules| && Backed(w, modules[e.index], e, inSignal, tr)
    ensures AllBacked(w, modules, h + [e], inSignal, tr)
  {
    var h' := h + [e];
    forall k | 0 <= k < |h'| && IsVisit(h'[k])
      ensures h'[k].index < |modules| && Backed(w, modules[h'[k].index], h'[k], inSignal, tr)
    {
      if k < |h| { assert h'[k] == h[k]; }
    }
  }

  /** A guard that fails is all that its block's check asks. */
  lemma FailedGuardStored(w: World, m: Module, env: Environment, inSignal: bool, tr: Trace)
    requires m.Guarded? && w.guard(tr, m.guard, env) == Fails
    ensures var tr' := CheckModule(w, m, env, inSignal, tr).1;
            StoredGuard(tr', m.guard) == Fails && StoredGuard(Then(tr', Polled), m.guard) == Fails
  {}

  /** Behind a check that asked for it, applying the module is running it. */
  lemma ApplyRan(w: World, m: Module, v: Visit)
    requires var tr := CheckModule(w, m, v.env, v.opts.inSignal, v.from).1;
             (v.outcome, v.till) == ApplyModule(w, m, v.env, v.opts, if v.asked then Then(tr, Polled) else tr)
    ensures var tr := CheckModule(w, m, v.env, v.opts.inSignal, v.from).1;
            Ran(w, m, v, if v.asked then Then(tr, Polled) else tr)
  {
    if m.Guarded? && w.guard(v.from, m.guard, v.env) == Fails {
      FailedGuardStored(w, m, v.env, v.opts.inSignal, v.from);
    }
  }

  // ----- Recipes

  /** The entry that a child leaves in the history of its recipe. */
  function EntryOf(i: nat, exec: ChildExecution): LoopEvent
    requires !exec.Interrupted?
  {
    match exec
    case NoStep => Passed(i)
    case ExecutionFailed => Child(i, Failed, false, false)
    case Stepped(step) => Child(i, step.status, step.flushSignals, step.stopRun)
  }

  lemma ExecuteBacked(w: World, m: Module, i: nat, env: Environment, opts: Options, tr: Trace)
    ensures var (exec, tr') := ExecuteChild(w, m, env, opts, tr);
            !exec.Interrupted? ==> Backed(w, m, EntryOf(i, exec), opts.inSignal, tr')
  {
    var (exec, tr') := ExecuteChild(w, m, env, opts, tr);
    CheckIsSurvey(w, m, env, opts.inSignal, tr);
    var (answer, tr1) := CheckModule(w, m, env, opts.inSignal, tr);
    var v := Visit(env, opts, tr, false, Threw, tr1);
    if answer == NeedsApply {
      var tr2 := Poll(w, opts, tr1).1;
      var (outcome, tr3) := ApplyModule(w, m, env, opts, tr2);
      v := Visit(env, opts, tr, opts.shutdownSignal, outcome, tr3);
      ApplyRan(w, m, v);
    }
    if !exec.Interrupted? { assert Backs(w, m, EntryOf(i, exec), v) && Extends(v.till, tr'); }
  }

  lemma ProcessBacked(w: World, r: Module, i: nat, exec: ChildExecution, s: RecipeState, opts: Options, tr: Trace)
    requires r.Recipe? && i < |r.children| && AllBacked(w, r.children, s.history, opts.inSignal, tr)
    requires !exec.Interrupted? ==> Backed(w, r.children[i], EntryOf(i, exec), opts.inSignal, tr)
    ensures var (_, s', tr') := ProcessStep(w, r, i, exec, s, opts, tr);
            AllBacked(w, r.children, s'.history, opts.inSignal, tr')
  {
    var tr' := ProcessStep(w, r, i, exec, s, opts, tr).2;
    if !exec.Interrupted? {
      var h := s.history + [EntryOf(i, exec)];
      AllBackedSnoc(w, r.children, s.history, EntryOf(i, exec), opts.inSignal, tr);
      ProcessExtends(w, r, i, exec, s, opts, tr);
      AllBackedLater(w, r.children, h, opts.inSignal, tr, tr');
      if exec.Stepped? {
        var flushed, run := ProcessStepped(w, r, i, exec.step, s, opts, tr);
        AllBackedSnoc(w, r.children, h, SignalsRan(run), opts.inSignal, tr');
      }
    }
  }

  lemma {:induction false} RecipeLoopBacked(w: World, r: Module, i: nat, s: RecipeState, opts: Options, tr: Trace)
    requires r.Recipe? && i <= |r.children| && AllBacked(w, r.children, s.history, opts.inSignal, tr)
    ensures var (s', tr') := RecipeLoop(w, r, i, s, opts, tr);
            AllBacked(w, r.children, s'.history, opts.inSignal, tr')
    decreases |r.children| - i
  {
    if i < |r.children| {
      var (stop, tr1) := Poll(w, opts, tr);
      AllBackedLater(w, r.children, s.history, opts.inSignal, tr, tr1);
      if !stop {
        ExecuteBacked(w, r.children[i], i, s.env, opts, tr1);
        ExecuteExtends(w, r.children[i], s.env, opts, tr1);
        var (exec, tr2) := ExecuteChild(w, r.children[i], s.env, opts, tr1);
        AllBackedLater(w, r.children, s.history, opts.inSignal, tr1, tr2);
        ProcessBacked(w, r, i, exec, s, opts, tr2);
        var (over, s', tr3) := ProcessStep(w, r, i, exec, s, opts, tr2);
        if !over { RecipeLoopBacked(w, r, i + 1, s', opts, tr3); }
      }
    }
  }

  /** Every child that a recipe passed over was ok, and every one that it reports ran as reported. */
  lemma RecipeRecord(w: World, r: Module, env: Environment, opts: Options, tr: Trace)
    requires r.Recipe?
    ensures var (s, tr') := RunRecipe(w, r, env, opts, tr);
            AllBacked(w, r.children, s.history, opts.inSignal, tr')
  {
    RecipeLoopBacked(w, r, 0, InitialState(env), opts, tr);
    var (s, tr1) := RecipeLoop(w, r, 0, InitialState(env), opts, tr);
    if r.signals.Signals? {
      var (run, tr2) := RunSignals(w, r, 0, s.env, opts, tr1);
      SignalsExtend(w, r, 0, s.env, opts, tr1);
      AllBackedLater(w, r.children, s.history, opts.inSignal, tr1, tr2);
      AllBackedSnoc(w, r.children, s.history, SignalsRan(run), opts.inSignal, tr2);
    }
  }

  // ----- `when` blocks

  function HistoryOf(run: GuardedRun): seq<LoopEvent> {
    match run case Finished(s) => s.history case Left(_, history) => history
  }

  function NextHistory(next: GuardedNext): seq<LoopEvent> {
    match next case GoOn(s) => s.history case Over(run) => HistoryOf(run)
  }

  /** How a block reports a child that was applied. */
  function EntryFor(i: nat, outcome: Outcome): LoopEvent {
    if outcome.Returned? && outcome.result.status != Failed && !AllMergeable(outcome.result.meta) then Ended(i, Threw)
    else Ended(i, outcome)
  }

  lemma FinishedEntry(outcome: Outcome, i: nat, s: GuardedState, opts: Options, tr: Trace)
    ensures var (next, tr') := FinishGuardedChild(outcome, i, s, opts, tr);
            NextHistory(next) == s.history + [EntryFor(i, outcome)] && Extends(tr, tr')
    ensures ReportedAs(EntryFor(i, outcome), outcome)
  {}

  /** What the loop of a block adds for one child: nothing when a shutdown cut it short. */
  lemma GuardedChildBacked(w: World, m: Module, i: nat, s: GuardedState, opts: Options, tr: Trace)
    ensures var (next, tr') := GuardedChild(w, m, i, s, opts, tr);
            || NextHistory(next) == s.history
            || (exists e :: NextHistory(next) == s.history + [e]
                            && IsVisit(e) && e.index == i && Backed(w, m, e, opts.inSignal, tr'))
  {
    var (answer, tr1) := CheckModule(w, m, s.env, opts.inSignal, tr);
    var (next, tr') := GuardedChild(w, m, i, s, opts, tr);
    if answer != NeedsApply {
      CheckIsSurvey(w, m, s.env, opts.inSignal, tr);
      var e := if answer == IsOk then Passed(i) else Ended(i, Threw);
      assert Backs(w, m, e, Visit(s.env, opts, tr, false, Threw, tr1));
      assert NextHistory(next) == s.history + [e];
    } else if !Poll(w, opts, tr1).0 {
      GuardedChildRan(w, m, i, s, opts, tr);
    }
  }

  lemma GuardedChildRan(w: World, m: Module, i: nat, s: GuardedState, opts: Options, tr: Trace)
    requires var (answer, tr1) := CheckModule(w, m, s.env, opts.inSignal, tr);
             answer == NeedsApply && !Poll(w, opts, tr1).0
    ensures var (next, tr') := GuardedChild(w, m, i, s, opts, tr);
            exists e :: NextHistory(next) == s.history + [e]
                        && IsVisit(e) && e.index == i && Backed(w, m, e, opts.inSignal, tr')
  {
    CheckIsSurvey(w, m, s.env, opts.inSignal, tr);
    var tr2 := Poll(w, opts, CheckModule(w, m, s.env, opts.inSignal, tr).1).1;
    var (outcome, tr3) := ApplyModule(w, m, s.env, opts, tr2);
    var v, e := Visit(s.env, opts, tr, opts.shutdownSignal, outcome, tr3), EntryFor(i, outcome);
    ApplyRan(w, m, v);
    FinishedEntry(outcome, i, s, opts, tr3);
    assert Backs(w, m, e, v);
  }

  lemma {:induction false} GuardedLoopBacked(w: World, g: Module, i: nat, s: GuardedState, opts: Options, tr: Trace)
    requires g.Guarded? && i <= |g.children| && AllBacked(w, g.children, s.history, opts.inSignal, tr)
    ensures var (run, tr') := RunGuarded(w, g, i, s, opts, tr);
            AllBacked(w, g.children, HistoryOf(run), opts.inSignal, tr')
    decreases |g.children| - i
  {
    if i < |g.children| {
      var (stop, tr1) := Poll(w, opts, tr);
      AllBackedLater(w, g.children, s.history, opts.inSignal, tr, tr1);
      if !stop {
        GuardedChildBacked(w, g.children[i], i, s, opts, tr1);
        GuardedChildExtends(w, g.children[i], i, s, opts, tr1);
        var (next, tr2) := GuardedChild(w, g.children[i], i, s, opts, tr1);
        AllBackedLater(w, g.children, s.history, opts.inSignal, tr1, tr2);
        if NextHistory(next) != s.history {
          var e :| NextHistory(next) == s.history + [e] && IsVisit(e) && e.index == i
                   && Backed(w, g.children[i], e, opts.inSignal, tr2);
          AllBackedSnoc(w, g.children, s.history, e, opts.inSignal, tr2);
        }
        if next.GoOn? { GuardedLoopBacked(w, g, i + 1, next.state, opts, tr2); }
      }
    }
  }

  lemma BlockRecord(w: World, g: Module, env: Environment, opts: Options, tr: Trace)
    requires g.Guarded?
    ensures var (run, tr') := RunGuarded(w, g, 0, InitialGuarded(env), opts, tr);
            AllBacked(w, g.children, HistoryOf(run), opts.inSignal, tr')
  {
    GuardedLoopBacked(w, g, 0, InitialGuarded(env), opts, tr);
  }

  // ----- The runner

  lemma TopStepBacked(w: World, m: Module, i: nat, env: Environment, tr: Trace)
    ensures var (result, tr') := TopStep(w, m, env, tr);
            result.hasStatus ==>
              Backed(w, m, Child(i, result.status, result.flushSignals, result.stopRun), false, tr')
  {
    CheckIsSurvey(w, m, env, false, tr);
    var (answer, tr1) := CheckModule(w, m, env, false, tr);
    var (result, tr') := TopStep(w, m, env, tr);
    var e := Child(i, result.status, result.flushSignals, result.stopRun);
    var v := Visit(env, TopOptions(m), tr, false, Threw, tr1);
    if answer == NeedsApply {
      var tr2 := if m.Recipe? then tr1 else Then(tr1, Polled);
      var (outcome, tr3) := ApplyModule(w, m, env, TopOptions(m), tr2);
      v := Visit(env, TopOptions(m), tr, !m.Recipe?, outcome, tr3);
      ApplyRan(w, m, v);
    }
    if result.hasStatus { assert Backs(w, m, e, v) && Extends(v.till, tr'); }
  }

  lemma TopIterationBacked(w: World, modules: seq<Module>, i: nat, signals: Signals, s: LoopState, tr: Trace)
    requires i < |modules| && AllBacked(w, modules, s.history, false, tr)
    ensures var (_, s', tr') := TopIteration(w, modules[i], i, signals, s, tr);
            AllBacked(w, modules, s'.history, false, tr')
  {
    var m := modules[i];
    TopStepBacked(w, m, i, s.env, tr);
    TopStepExtends(w, m, s.env, tr);
    TopIterationExtends(w, m, i, signals, s, tr);
    var (result, tr1) := TopStep(w, m, s.env, tr);
    var s1, e := ApplyLoopResult(s, i, result), Child(i, result.status, result.flushSignals, result.stopRun);
    AllBackedLater(w, modules, s.history, false, tr, tr1);
    if result.hasStatus { AllBackedSnoc(w, modules, s.history, e, false, tr1); }
    var (_, s', tr') := TopIteration(w, m, i, signals, s, tr);
    AllBackedLater(w, modules, s1.history, false, tr1, tr');
    if s'.history != s1.history { AllBackedSnoc(w, modules, s1.history, s'.history[|s1.history|], false, tr'); }
  }

  lemma {:induction false} TopLoopBacked(w: World, modules: seq<Module>, i: nat, signals: Signals, s: LoopState, tr: Trace)
    requires i <= |modules| && AllBacked(w, modules, s.history, false, tr)
    ensures var (s', tr') := TopLoop(w, modules, i, signals, s, tr);
            AllBacked(w, modules, s'.history, false, tr')
    decreases |modules| - i
  {
    AllBackedLater(w, modules, s.history, false, tr, Then(tr, Polled));
    if i < |modules| && !w.shutdown(tr) {
      TopIterationBacked(w, modules, i, signals, s, Then(tr, Polled));
      var (over, s', tr') := TopIteration(w, modules[i], i, signals, s, Then(tr, Polled));
      if !over { TopLoopBacked(w, modules, i + 1, signals, s', tr'); }
    }
  }

  /** Over every run of every list of module trees: each entry of the runner's history is backed by a stretch
      of the trace in which that module was asked all that its check asks, up to the first answer that is not
      ok; it was left alone exactly when there was none, and else it was applied there and then and is
      reported as it ended. The same holds of every recipe and every block (`RecipeRecord`, `BlockRecord`). */
  lemma RunRecord(w: World, modules: seq<Module>, signals: Signals, env: Environment)
    ensures var (s, tr, _) := ExecuteRun(w, modules, signals, env);
            AllBacked(w, modules, s.history, false, tr)
  {
    var s0 := LoopState(env, false, false, []);
    TopLoopBacked(w, modules, 0, signals, s0, Start);
    var (s, tr) := TopLoop(w, modules, 0, signals, s0, Start);
    AllBackedLater(w, modules, s.history, false, tr, Then(tr, Polled));
    if signals.Signals? {
      var (s', run, tr') := RunDefinitionSignals(w, signals, s, Then(tr, Polled));
      SignalsExtend(w, DefinitionSignals(signals), 0, s.env, SIGNAL_TOP, Then(tr, Polled));
      AllBackedLater(w, modules, s.history, false, Then(tr, Polled), tr');
      AllBackedSnoc(w, modules, s.history, SignalsRan(run), false, tr');
    }
  }
}
