/** The lock in front of the trust store (packages/paratix/src/knownHosts.ts): a module variable that holds
    the last promise of a chain. Every read and every acceptance enters it; what the chain guarantees, and
    what that guarantees of the store, over every interleaving. */
module KnownHostsLocking {
  import opened Text
  import opened KnownHosts
  import opened KnownHostsStore
  import opened Wrappers

  /** One call of withKnownHostsLock, by its place in the order of arrival. */
  type Caller = nat

  /** The module variable: the promise of the last call, settled from the start if there was none. */
  class KnownHostsLock {
    var last: Option<Caller>

    constructor ()
      ensures last == None
    {
      last := None;
    }

    /** The caller waits for the promise it finds and leaves its own. */
    method Enter(c: Caller) returns (previous: Option<Caller>)
      modifies this
      ensures previous == old(last) && last == Some(c)
    {
      previous := last;
      last := Some(c);
    }
  }

  // ----- Every interleaving

  /** What runs under the lock: an acceptance, or a load of the entries. */
  datatype Job = Accept(r: Request) | Load

  datatype Result = Decided(outcome: Outcome) | Loaded(entries: seq<Entry>)

  /** Between Begin and Settled a call is anywhere between two awaits of its own: before the read, holding
      what it read, or with so many characters of its line in the file. */
  datatype Phase = Waiting | Begun | Holding(entries: seq<Entry>) | Writing(written: nat) | Settled(result: Result)

  datatype Call = Call(job: Job, previous: Option<Caller>, phase: Phase)

  datatype State = State(content: string, last: Option<Caller>, calls: seq<Call>)

  function Initial(content: string): State { State(content, None, []) }

  datatype Step =
    | Arrive(job: Job)
    | Begin(c: Caller)
    | Read(c: Caller)
    | Check(c: Caller)
    | Write(c: Caller, upTo: nat)
    | Finish(c: Caller)
    | Fail(c: Caller)

  /** The promise in the variable has had its rejection caught: it fulfils once its call has settled,
      either way. */
  predicate Fulfilled(calls: seq<Call>, promise: Option<Caller>) {
    promise.Some? ==> promise.value < |calls| && calls[promise.value].phase.Settled?
  }

  predicate Legal(p: Platform, job: Job) { job.Accept? ==> Acceptable(p, job.r) }

  /** The line that an acceptance appends. */
  function LineOf(p: Platform, job: Job): string {
    if job.Accept? && Acceptable(p, job.r) then NewLine(p, job.r) else ""
  }

  predicate Enabled(p: Platform, s: State, step: Step) {
    match step
    case Arrive(job) => Legal(p, job)
    case Begin(c) => c < |s.calls| && s.calls[c].phase.Waiting? && Fulfilled(s.calls, s.calls[c].previous)
    case Read(c) => c < |s.calls| && s.calls[c].phase.Begun?
    case Check(c) => c < |s.calls| && s.calls[c].phase.Holding? && s.calls[c].job.Accept? && Legal(p, s.calls[c].job)
    case Write(c, upTo) =>
      c < |s.calls| && s.calls[c].phase.Writing? && s.calls[c].phase.written < upTo <= |LineOf(p, s.calls[c].job)|
    case Finish(c) =>
      c < |s.calls| && s.calls[c].phase.Writing? && s.calls[c].phase.written == |LineOf(p, s.calls[c].job)|
    case Fail(c) =>
      c < |s.calls| && (s.calls[c].phase.Begun? || s.calls[c].phase.Holding? || s.calls[c].phase == Writing(0))
  }

  function In(s: State, c: Caller, phase: Phase): State
    requires c < |s.calls|
  {
    s.(calls := s.calls[c := s.calls[c].(phase := phase)])
  }

  function Next(p: Platform, s: State, step: Step): State
    requires Enabled(p, s, step)
  {
    match step
    case Arrive(job) => State(s.content, Some(|s.calls|), s.calls + [Call(job, s.last, Waiting)])
    case Begin(c) => In(s, c, Begun)
    case Read(c) =>
      var entries := Parse(p, s.content);
      In(s, c, if s.calls[c].job.Load? then Settled(Loaded(entries)) else Holding(entries))
    case Check(c) =>
      var outcome := Decide(p, s.calls[c].phase.entries, s.calls[c].job.r);
      In(s, c, if outcome == Appended then Writing(0) else Settled(Decided(outcome)))
    case Write(c, upTo) =>
      var line := LineOf(p, s.calls[c].job);
      In(s.(content := s.content + line[s.calls[c].phase.written..upTo]), c, Writing(upTo))
    case Finish(c) => In(s, c, Settled(Decided(Appended)))
    case Fail(c) => In(s, c, Settled(Decided(StoreFailure)))
  }

  predicate IsRun(p: Platform, s: State, steps: seq<Step>)
    decreases |steps|
  {
    steps != [] ==> Enabled(p, s, steps[0]) && IsRun(p, Next(p, s, steps[0]), steps[1..])
  }

  function After(p: Platform, s: State, steps: seq<Step>): State
    requires IsRun(p, s, steps)
    decreases |steps|
  {
    if steps == [] then s else After(p, Next(p, s, steps[0]), steps[1..])
  }

  // ----- The chain

  predicate Active(call: Call) { call.phase.Begun? || call.phase.Holding? || call.phase.Writing? }

  /** Every call waits for the one that arrived before it. */
  ghost predicate Chained(s: State) {
    && s.last == (if s.calls == [] then None else Some(|s.calls| - 1))
    && forall i | 0 <= i < |s.calls| :: s.calls[i].previous == (if i == 0 then None else Some(i - 1))
  }

  /** Whoever has begun, everybody before it has settled. */
  ghost predicate InOrder(s: State) {
    forall i, j | 0 <= i < j < |s.calls| :: !s.calls[j].phase.Waiting? ==> s.calls[i].phase.Settled?
  }

  lemma StepKeepsOrder(p: Platform, s: State, step: Step)
    requires Chained(s) && InOrder(s) && Enabled(p, s, step)
    ensures Chained(Next(p, s, step)) && InOrder(Next(p, s, step))
  {
    if step.Begin? {
      var c := step.c;
      forall i | 0 <= i < c ensures s.calls[i].phase.Settled? {
        if i < c - 1 { assert !s.calls[c - 1].phase.Waiting?; }
      }
    }
  }

  lemma {:induction false} RunKeepsOrder(p: Platform, s: State, steps: seq<Step>)
    requires Chained(s) && InOrder(s) && IsRun(p, s, steps)
    ensures Chained(After(p, s, steps)) && InOrder(After(p, s, steps))
    decreases |steps|
  {
    if steps != [] {
      StepKeepsOrder(p, s, steps[0]);
      RunKeepsOrder(p, Next(p, s, steps[0]), steps[1..]);
    }
  }

  /** Two calls are never between their first and their last step together. */
  lemma OneAtATime(p: Platform, content: string, steps: seq<Step>, i: Caller, j: Caller)
    requires IsRun(p, Initial(content), steps)
    requires var s := After(p, Initial(content), steps);
             i < |s.calls| && j < |s.calls| && Active(s.calls[i]) && Active(s.calls[j])
    ensures i == j
  {
    RunKeepsOrder(p, Initial(content), steps);
  }

  /** A call begins only when everybody who arrived before it has settled, also by a rejection. */
  lemma FirstComeFirstServed(p: Platform, content: string, steps: seq<Step>, i: Caller, j: Caller)
    requires IsRun(p, Initial(content), steps)
    requires var s := After(p, Initial(content), steps);
             i < j < |s.calls| && !s.calls[j].phase.Waiting?
    ensures After(p, Initial(content), steps).calls[i].phase.Settled?
  {
    RunKeepsOrder(p, Initial(content), steps);
  }

  // ----- The store behind it

  ghost predicate Sound(p: Platform, content: string) {
    Terminated(content) && Good(p, Parse(p, content))
  }

  /** What is in the file but for the last `written` characters. */
  function Base(content: string, written: nat): string {
    if written <= |content| then content[..|content| - written] else ""
  }

  /** The file without the line that is just being written. */
  ghost function Whole(s: State): string {
    if w :| 0 <= w < |s.calls| && s.calls[w].phase.Writing? then Base(s.content, s.calls[w].phase.written)
    else s.content
  }

  lemma OnlyActive(s: State, c: Caller)
    requires InOrder(s) && c < |s.calls| && Active(s.calls[c])
    ensures forall i | 0 <= i < |s.calls| :: Active(s.calls[i]) ==> i == c
  {}

  lemma WholeWithWriter(s: State, c: Caller)
    requires InOrder(s) && c < |s.calls| && s.calls[c].phase.Writing?
    ensures Whole(s) == Base(s.content, s.calls[c].phase.written)
  {
    OnlyActive(s, c);
  }

  /** The call is where it can be, given the file, and the file without an unfinished line and its entries. */
  ghost predicate CallSound(p: Platform, content: string, whole: string, entries: seq<Entry>, call: Call) {
    && Legal(p, call.job)
    && (call.phase.Holding? ==> call.job.Accept? && call.phase.entries == entries)
    && (call.phase.Writing? ==>
          && call.job.Accept? && call.phase.written <= |LineOf(p, call.job)|
          && content == whole + LineOf(p, call.job)[..call.phase.written]
          && Decide(p, entries, call.job.r) == Appended)
    && (call.phase.Settled? && call.phase.result.Loaded? ==> Good(p, call.phase.result.entries))
  }

  ghost predicate AllSound(p: Platform, content: string, whole: string, entries: seq<Entry>, calls: seq<Call>) {
    forall c | 0 <= c < |calls| :: CallSound(p, content, whole, entries, calls[c])
  }

  /** The call has appended its key, under a label that the parser does not take for something else. */
  predicate HasAppended(p: Platform, call: Call) {
    && call.job.Accept? && Acceptable(p, call.job.r) && call.phase == Settled(Decided(Appended))
    && !IsComment(FormatHostNeedle(call.job.r.host, call.job.r.port))
    && !IsMarker(FormatHostNeedle(call.job.r.host, call.job.r.port))
  }

  /** What a call has read, if it has. */
  predicate HasRead(call: Call) {
    call.phase.Holding? || (call.phase.Settled? && call.phase.result.Loaded?)
  }

  function EntriesRead(call: Call): seq<Entry>
    requires HasRead(call)
  {
    if call.phase.Holding? then call.phase.entries else call.phase.result.entries
  }

  /** Appended keys are among the entries of the store, and of whatever a later call has read. */
  ghost predicate Visible(p: Platform, entries: seq<Entry>, calls: seq<Call>) {
    && (forall i | 0 <= i < |calls| && HasAppended(p, calls[i]) :: NewEntry(p, calls[i].job.r) in entries)
    && (forall i, j | 0 <= i < j < |calls| && HasAppended(p, calls[i]) && HasRead(calls[j]) ::
          NewEntry(p, calls[i].job.r) in EntriesRead(calls[j]))
  }

  /** Whoever was told that its key is trusted, or that another one is, was told so for an entry of the store. */
  ghost predicate AnswerHolds(p: Platform, entries: seq<Entry>, call: Call) {
    call.job.Accept? && Acceptable(p, call.job.r) ==>
      && (call.phase == Settled(Decided(AlreadyTrusted)) ==> HasKey(p, entries, call.job.r))
      && (call.phase == Settled(Decided(Mismatch)) ==> HasOtherKey(p, entries, call.job.r))
  }

  ghost predicate Answered(p: Platform, entries: seq<Entry>, calls: seq<Call>) {
    forall c | 0 <= c < |calls| :: AnswerHolds(p, entries, calls[c])
  }

  ghost predicate Inv(p: Platform, s: State) {
    && Chained(s) && InOrder(s)
    && Sound(p, Whole(s))
    && AllSound(p, s.content, Whole(s), Parse(p, Whole(s)), s.calls)
    && Visible(p, Parse(p, Whole(s)), s.calls)
    && Answered(p, Parse(p, Whole(s)), s.calls)
  }

  // ----- One call more, one call changed

  lemma CallArrives(p: Platform, content: string, whole: string, entries: seq<Entry>, calls: seq<Call>, call: Call)
    requires AllSound(p, content, whole, entries, calls) && Visible(p, entries, calls)
    requires Legal(p, call.job) && call.phase.Waiting?
    ensures AllSound(p, content, whole, entries, calls + [call]) && Visible(p, entries, calls + [call])
  {}

  lemma ArrivalAnswered(p: Platform, entries: seq<Entry>, calls: seq<Call>, call: Call)
    requires Answered(p, entries, calls) && call.phase.Waiting?
    ensures Answered(p, entries, calls + [call])
  {}

  /** Only a call that is writing depends on the file. */
  lemma CallChanges(p: Platform, content: string, content': string, whole: string, entries: seq<Entry>,
                    calls: seq<Call>, c: Caller, call: Call)
    requires AllSound(p, content, whole, entries, calls) && c < |calls|
    requires content' == content || forall i | 0 <= i < |calls| && i != c :: !calls[i].phase.Writing?
    requires CallSound(p, content', whole, entries, call)
    ensures AllSound(p, content', whole, entries, calls[c := call])
  {}

  lemma CallStaysVisible(p: Platform, entries: seq<Entry>, calls: seq<Call>, c: Caller, call: Call)
    requires Visible(p, entries, calls) && c < |calls| && !HasAppended(p, call)
    requires HasRead(call) ==> EntriesRead(call) == entries
    ensures Visible(p, entries, calls[c := call])
  {}

  /** Calls that are not active depend neither on the file nor on what is in it. */
  lemma CallEnds(p: Platform, content: string, whole: string, entries: seq<Entry>,
                 content': string, entries': seq<Entry>, calls: seq<Call>, c: Caller, call: Call)
    requires AllSound(p, content, whole, entries, calls) && c < |calls|
    requires forall i | 0 <= i < |calls| && i != c :: !Active(calls[i])
    requires CallSound(p, content', content', entries', call)
    ensures AllSound(p, content', content', entries', calls[c := call])
  {}

  lemma EndBecomesVisible(p: Platform, entries: seq<Entry>, entries': seq<Entry>, calls: seq<Call>, c: Caller, call: Call)
    requires Visible(p, entries, calls) && c < |calls| && entries <= entries'
    requires HasAppended(p, call) ==> NewEntry(p, call.job.r) in entries'
    requires !HasRead(call) && forall j | c < j < |calls| :: !HasRead(calls[j])
    ensures Visible(p, entries', calls[c := call])
  {
    var calls' := calls[c := call];
    forall i | 0 <= i < |calls'| && HasAppended(p, calls'[i]) ensures NewEntry(p, calls'[i].job.r) in entries' {
      if i != c { assert NewEntry(p, calls[i].job.r) in entries; }
    }
  }

  lemma AnswerStays(p: Platform, entries: seq<Entry>, entries': seq<Entry>, call: Call)
    requires AnswerHolds(p, entries, call) && entries <= entries'
    ensures AnswerHolds(p, entries', call)
  {
    assert forall e :: e in entries ==> e in entries';
  }

  lemma AnswersStay(p: Platform, entries: seq<Entry>, entries': seq<Entry>, calls: seq<Call>, c: Caller, call: Call)
    requires Answered(p, entries, calls) && entries <= entries' && c < |calls| && AnswerHolds(p, entries', call)
    ensures Answered(p, entries', calls[c := call])
  {
    forall i | 0 <= i < |calls| && i != c ensures AnswerHolds(p, entries', calls[i]) {
      AnswerStays(p, entries, entries', calls[i]);
    }
  }

  /** A step of one call that leaves the file and the finished part of it as they are. */
  lemma QuietStep(p: Platform, s: State, c: Caller, phase: Phase)
    requires Inv(p, s) && c < |s.calls| && InOrder(In(s, c, phase)) && Chained(In(s, c, phase))
    requires Whole(In(s, c, phase)) == Whole(s)
    requires CallSound(p, s.content, Whole(s), Parse(p, Whole(s)), s.calls[c].(phase := phase))
    requires !HasAppended(p, s.calls[c].(phase := phase))
    requires AnswerHolds(p, Parse(p, Whole(s)), s.calls[c].(phase := phase))
    requires HasRead(s.calls[c].(phase := phase)) ==>
               EntriesRead(s.calls[c].(phase := phase)) == Parse(p, Whole(s))
    ensures Inv(p, In(s, c, phase))
  {
    var entries, call := Parse(p, Whole(s)), s.calls[c].(phase := phase);
    CallChanges(p, s.content, s.content, Whole(s), entries, s.calls, c, call);
    CallStaysVisible(p, entries, s.calls, c, call);
    AnswersStay(p, entries, entries, s.calls, c, call);
  }

  lemma WholeWithoutWriter(s: State)
    requires forall i | 0 <= i < |s.calls| :: !s.calls[i].phase.Writing?
    ensures Whole(s) == s.content
  {}

  /** If the active call is not writing, nobody is. */
  lemma WholeWithActive(s: State, c: Caller)
    requires InOrder(s) && c < |s.calls| && Active(s.calls[c]) && !s.calls[c].phase.Writing?
    ensures Whole(s) == s.content
  {
    OnlyActive(s, c);
  }

  lemma SameWriters(s: State, s': State)
    requires s'.content == s.content && |s.calls| <= |s'.calls|
    requires forall i | 0 <= i < |s.calls| && (s.calls[i].phase.Writing? || s'.calls[i].phase.Writing?) ::
               s'.calls[i].phase == s.calls[i].phase
    requires forall i | |s.calls| <= i < |s'.calls| :: !s'.calls[i].phase.Writing?
    requires InOrder(s) && InOrder(s')
    ensures Whole(s') == Whole(s)
  {
    if w :| 0 <= w < |s.calls| && s.calls[w].phase.Writing? {
      WholeWithWriter(s, w);
      WholeWithWriter(s', w);
    }
  }

  // ----- The steps

  lemma ArriveKeepsInv(p: Platform, s: State, job: Job)
    requires Inv(p, s) && Enabled(p, s, Arrive(job))
    ensures Inv(p, Next(p, s, Arrive(job)))
  {
    StepKeepsOrder(p, s, Arrive(job));
    SameWriters(s, Next(p, s, Arrive(job)));
    CallArrives(p, s.content, Whole(s), Parse(p, Whole(s)), s.calls, Call(job, s.last, Waiting));
    ArrivalAnswered(p, Parse(p, Whole(s)), s.calls, Call(job, s.last, Waiting));
  }

  lemma BeginKeepsInv(p: Platform, s: State, c: Caller)
    requires Inv(p, s) && Enabled(p, s, Begin(c))
    ensures Inv(p, Next(p, s, Begin(c)))
  {
    StepKeepsOrder(p, s, Begin(c));
    SameWriters(s, Next(p, s, Begin(c)));
    QuietStep(p, s, c, Begun);
  }

  lemma ReadKeepsInv(p: Platform, s: State, c: Caller)
    requires Inv(p, s) && Enabled(p, s, Read(c))
    ensures Inv(p, Next(p, s, Read(c)))
  {
    var entries := Parse(p, s.content);
    WholeWithActive(s, c);
    StepKeepsOrder(p, s, Read(c));
    SameWriters(s, Next(p, s, Read(c)));
    QuietStep(p, s, c, if s.calls[c].job.Load? then Settled(Loaded(entries)) else Holding(entries));
  }

  lemma CheckKeepsInv(p: Platform, s: State, c: Caller)
    requires Inv(p, s) && Enabled(p, s, Check(c))
    ensures Inv(p, Next(p, s, Check(c)))
  {
    var outcome := Decide(p, s.calls[c].phase.entries, s.calls[c].job.r);
    var s' := Next(p, s, Check(c));
    WholeWithActive(s, c);
    StepKeepsOrder(p, s, Check(c));
    assert s.content[..|s.content| - 0] == s.content;
    if outcome == Appended {
      WholeWithWriter(s', c);
      assert s.content + LineOf(p, s.calls[c].job)[..0] == s.content;
      QuietStep(p, s, c, Writing(0));
    } else {
      SameWriters(s, s');
      DecideMeaning(p, s.calls[c].phase.entries, s.calls[c].job.r);
      QuietStep(p, s, c, Settled(Decided(outcome)));
    }
  }

  lemma FailKeepsInv(p: Platform, s: State, c: Caller)
    requires Inv(p, s) && Enabled(p, s, Fail(c))
    ensures Inv(p, Next(p, s, Fail(c)))
  {
    var s' := Next(p, s, Fail(c));
    StepKeepsOrder(p, s, Fail(c));
    OnlyActive(s, c);
    WholeWithoutWriter(s');
    if s.calls[c].phase.Writing? {
      WholeWithWriter(s, c);
      assert s.content[..|s.content| - 0] == s.content;
    } else {
      WholeWithActive(s, c);
    }
    QuietStep(p, s, c, Settled(Decided(StoreFailure)));
  }

  lemma BaseOfAppended(whole: string, line: string, n: nat, upTo: nat)
    requires n <= upTo <= |line|
    ensures whole + line[..n] + line[n..upTo] == whole + line[..upTo]
    ensures Base(whole + line[..n] + line[n..upTo], upTo) == whole
  {
    assert line[..upTo] == line[..n] + line[n..upTo];
    assert (whole + line[..upTo])[..|whole|] == whole;
  }

  lemma WriteKeepsInv(p: Platform, s: State, c: Caller, upTo: nat)
    requires Inv(p, s) && Enabled(p, s, Write(c, upTo))
    ensures Inv(p, Next(p, s, Write(c, upTo)))
  {
    var s', whole, call := Next(p, s, Write(c, upTo)), Whole(s), s.calls[c].(phase := Writing(upTo));
    StepKeepsOrder(p, s, Write(c, upTo));
    OnlyActive(s, c);
    assert CallSound(p, s.content, whole, Parse(p, whole), s.calls[c]);
    BaseOfAppended(whole, LineOf(p, s.calls[c].job), s.calls[c].phase.written, upTo);
    WholeWithWriter(s', c);
    CallChanges(p, s.content, s'.content, whole, Parse(p, whole), s.calls, c, call);
    CallStaysVisible(p, Parse(p, whole), s.calls, c, call);
    AnswersStay(p, Parse(p, whole), Parse(p, whole), s.calls, c, call);
  }

  /** The finished line: one entry more, or none if the label reads as a comment or a marker. */
  lemma LineFinished(p: Platform, whole: string, r: Request)
    requires Lawful(p) && Acceptable(p, r) && Sound(p, whole) && Decide(p, Parse(p, whole), r) == Appended
    ensures Sound(p, whole + NewLine(p, r)) && Parse(p, whole) <= Parse(p, whole + NewLine(p, r))
    ensures var needle := FormatHostNeedle(r.host, r.port);
            !IsComment(needle) && !IsMarker(needle) ==> NewEntry(p, r) in Parse(p, whole + NewLine(p, r))
  {
    var entries := Parse(p, whole);
    AppendParses(p, whole, r);
    AppendKeepsOneKey(p, entries, r);
    AppendKeepsNoDuplicates(p, entries, r);
    assert entries + [] == entries;
  }

  /** The writer has its whole line in the file. */
  lemma FinishedContent(p: Platform, s: State, c: Caller)
    requires Inv(p, s) && Enabled(p, s, Finish(c))
    ensures s.calls[c].job.Accept? && Acceptable(p, s.calls[c].job.r)
    ensures s.content == Whole(s) + NewLine(p, s.calls[c].job.r)
    ensures Decide(p, Parse(p, Whole(s)), s.calls[c].job.r) == Appended
  {
    assert CallSound(p, s.content, Whole(s), Parse(p, Whole(s)), s.calls[c]);
    var line := LineOf(p, s.calls[c].job);
    assert line[..|line|] == line;
  }

  lemma FinishKeepsInv(p: Platform, s: State, c: Caller)
    requires Lawful(p) && Inv(p, s) && Enabled(p, s, Finish(c))
    ensures Inv(p, Next(p, s, Finish(c)))
  {
    var s', whole, call := Next(p, s, Finish(c)), Whole(s), s.calls[c].(phase := Settled(Decided(Appended)));
    StepKeepsOrder(p, s, Finish(c));
    OnlyActive(s, c);
    WholeWithoutWriter(s');
    FinishedContent(p, s, c);
    LineFinished(p, whole, s.calls[c].job.r);
    CallEnds(p, s.content, whole, Parse(p, whole), s.content, Parse(p, s.content), s.calls, c, call);
    EndBecomesVisible(p, Parse(p, whole), Parse(p, s.content), s.calls, c, call);
    AnswersStay(p, Parse(p, whole), Parse(p, s.content), s.calls, c, call);
  }

  lemma StepKeepsInv(p: Platform, s: State, step: Step)
    requires Lawful(p) && Inv(p, s) && Enabled(p, s, step)
    ensures Inv(p, Next(p, s, step))
  {
    match step
    case Arrive(job) => ArriveKeepsInv(p, s, job);
    case Begin(c) => BeginKeepsInv(p, s, c);
    case Read(c) => ReadKeepsInv(p, s, c);
    case Check(c) => CheckKeepsInv(p, s, c);
    case Write(c, upTo) => WriteKeepsInv(p, s, c, upTo);
    case Finish(c) => FinishKeepsInv(p, s, c);
    case Fail(c) => FailKeepsInv(p, s, c);
  }

  lemma {:induction false} RunKeepsInv(p: Platform, s: State, steps: seq<Step>)
    requires Lawful(p) && Inv(p, s) && IsRun(p, s, steps)
    ensures Inv(p, After(p, s, steps))
    decreases |steps|
  {
    if steps != [] {
      StepKeepsInv(p, s, steps[0]);
      RunKeepsInv(p, Next(p, s, steps[0]), steps[1..]);
    }
  }

  // ----- What every run guarantees

  /** Whatever the interleaving: but for a line that is just being written, the store has one key per label
      and no duplicate lines; and so has every list of entries that a load returned. */
  lemma RunsKeepStoreGood(p: Platform, content: string, steps: seq<Step>)
    requires Lawful(p) && Sound(p, content) && IsRun(p, Initial(content), steps)
    ensures var s := After(p, Initial(content), steps);
            && Sound(p, Whole(s))
            && (forall c | 0 <= c < |s.calls| && s.calls[c].phase.Writing? ::
                  s.calls[c].phase.written <= |LineOf(p, s.calls[c].job)|
                  && s.content == Whole(s) + LineOf(p, s.calls[c].job)[..s.calls[c].phase.written])
            && ((forall c | 0 <= c < |s.calls| :: !s.calls[c].phase.Writing?) ==> s.content == Whole(s))
            && (forall c | 0 <= c < |s.calls| && HasRead(s.calls[c]) :: Good(p, EntriesRead(s.calls[c])))
  {
    RunKeepsInv(p, Initial(content), steps);
    var s := After(p, Initial(content), steps);
    forall c | 0 <= c < |s.calls| && HasRead(s.calls[c]) ensures Good(p, EntriesRead(s.calls[c])) {
      assert CallSound(p, s.content, Whole(s), Parse(p, Whole(s)), s.calls[c]);
    }
  }

  /** A call that reads after an acceptance has arrived and appended sees the appended key, whole. */
  lemma LaterReadsSeeTheKey(p: Platform, content: string, steps: seq<Step>, i: Caller, j: Caller)
    requires Lawful(p) && Sound(p, content) && IsRun(p, Initial(content), steps)
    requires var s := After(p, Initial(content), steps);
             i < j < |s.calls| && HasAppended(p, s.calls[i]) && HasRead(s.calls[j])
    ensures var s := After(p, Initial(content), steps);
            NewEntry(p, s.calls[i].job.r) in EntriesRead(s.calls[j])
  {
    RunKeepsInv(p, Initial(content), steps);
  }

  /** What a call that has not settled does next, unless it fails. */
  function OwnStep(p: Platform, c: Caller, call: Call): Step {
    match call.phase
    case Waiting => Begin(c)
    case Begun => Read(c)
    case Holding(_) => Check(c)
    case Writing(n) => if n < |LineOf(p, call.job)| then Write(c, |LineOf(p, call.job)|) else Finish(c)
    case Settled(_) => Fail(c)
  }

  lemma FirstCanGoOn(p: Platform, s: State, c: Caller)
    requires Chained(s) && c < |s.calls| && !s.calls[c].phase.Settled?
    requires CallSound(p, s.content, Whole(s), Parse(p, Whole(s)), s.calls[c])
    requires forall i | 0 <= i < c :: s.calls[i].phase.Settled?
    ensures Enabled(p, s, OwnStep(p, c, s.calls[c]))
  {
    match s.calls[c].phase
    case Waiting => assert Fulfilled(s.calls, s.calls[c].previous);
    case Begun =>
    case Holding(_) =>
    case Writing(_) =>
  }

  /** A call that was told that its key is trusted was told so rightly: an unmarked entry of the store that matches its
      label has its algorithm and key; and a mismatch was reported because of another key under its label. */
  lemma AnswersAreRight(p: Platform, content: string, steps: seq<Step>, c: Caller)
    requires Lawful(p) && Sound(p, content) && IsRun(p, Initial(content), steps)
    requires var s := After(p, Initial(content), steps);
             c < |s.calls| && s.calls[c].job.Accept? && Acceptable(p, s.calls[c].job.r)
    ensures var s := After(p, Initial(content), steps);
            && (s.calls[c].phase == Settled(Decided(AlreadyTrusted)) ==> HasKey(p, Parse(p, Whole(s)), s.calls[c].job.r))
            && (s.calls[c].phase == Settled(Decided(Mismatch)) ==> HasOtherKey(p, Parse(p, Whole(s)), s.calls[c].job.r))
  {
    RunKeepsInv(p, Initial(content), steps);
    var s := After(p, Initial(content), steps);
    assert AnswerHolds(p, Parse(p, Whole(s)), s.calls[c]);
  }

  /** The first call that has not settled can go on, whatever became of those before it. */
  lemma NobodyIsStuck(p: Platform, content: string, steps: seq<Step>, c: Caller)
    requires Lawful(p) && Sound(p, content) && IsRun(p, Initial(content), steps)
    requires var s := After(p, Initial(content), steps);
             c < |s.calls| && !s.calls[c].phase.Settled? && forall i | 0 <= i < c :: s.calls[i].phase.Settled?
    ensures var s := After(p, Initial(content), steps);
            Enabled(p, s, OwnStep(p, c, s.calls[c]))
  {
    RunKeepsInv(p, Initial(content), steps);
    FirstCanGoOn(p, After(p, Initial(content), steps), c);
  }
}
