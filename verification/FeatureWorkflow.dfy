/** The feature workflow reducer (packages/core/src/feature-workflow.ts) and its histories. */
module FeatureWorkflow {
  import opened Wrappers
  import opened Numbers
  import opened EventWindow

  datatype Phase =
    | Specification | SpecificationApproval | Planning | Implementation | Testing
    | Review | Fixing | PolicyValidation | DraftPublication

  datatype Status = Running | AwaitingApproval | Blocked | Succeeded | Failed | Cancelled | BudgetExhausted

  datatype Publication = Publication(id: string, draft: bool, attestation: string)

  datatype Binding = Binding(scopeHash: string, actionHash: string, baseSha: string, patchHash: string)

  datatype Claims = Claims(source: string, binding: Binding)

  datatype Workflow = Workflow(
    phase: Phase,
    status: Status,
    maxRetries: nat,
    retryCount: nat,
    publication: Option<Publication>,
    failureReason: Option<string>,
    blockedFromStatus: Option<Status>,
    publicationBinding: Option<Binding>)

  datatype Kind =
    | SpecificationCompleted
    | SpecificationApproved
    | SpecificationRejected(reason: Option<string>)
    | PlanCompleted
    | ImplementationCompleted
    | TestsPassed
    | TestsFailed
    | ReviewPassed
    | ReviewChangesRequested
    | FixCompleted
    | PolicyPassed
    | PolicyFailed
    | DraftPublished(publication: Publication)
    | Crashed(reason: Option<string>)
    | Resume
    | Cancel(reason: Option<string>)
    | ExhaustBudget

  datatype Event = Event(id: string, kind: Kind)

  // The verifier of publisher attestations; None where it throws, or where there is none.
  type Verifier = Publication -> Option<Claims>

  function Create(maxRetries: int, binding: Option<Binding>): Option<Workflow> {
    if 0 <= maxRetries <= MAX_SAFE_INTEGER
    then Some(Workflow(Specification, Running, maxRetries, 0, None, None, None, binding))
    else None
  }

  predicate Terminal(status: Status) {
    status in {Succeeded, Failed, Cancelled, BudgetExhausted}
  }

  function OrElse<T>(a: Option<T>, b: Option<T>): Option<T> {
    if a.Some? then a else b
  }

  function RetryOrFail(w: Workflow, phase: Phase): Workflow {
    if w.retryCount + 1 > w.maxRetries
    then w.(status := Failed, retryCount := w.retryCount + 1, failureReason := Some("retry_limit"))
    else w.(phase := phase, status := Running, retryCount := w.retryCount + 1)
  }

  predicate BoundTo(w: Workflow, publication: Publication, verify: Verifier) {
    && publication.draft
    && verify(publication).Some?
    && w.publicationBinding.Some?
    && verify(publication).value == Claims("repository-publisher", w.publicationBinding.value)
  }

  // What a new event does; None where the source throws.
  function StepWorkflow(verify: Verifier, w: Workflow, kind: Kind): Option<Workflow> {
    if Terminal(w.status) then None
    else match kind
      case Cancel(reason) => Some(w.(status := Cancelled, failureReason := OrElse(reason, w.failureReason)))
      case ExhaustBudget => Some(w.(status := BudgetExhausted, failureReason := Some("budget_exhausted")))
      case Crashed(reason) =>
        if w.status == Blocked then Some(w)
        else if w.retryCount + 1 > w.maxRetries then
          Some(w.(status := Failed, retryCount := w.retryCount + 1, failureReason := Some("retry_limit")))
        else
          Some(w.(status := Blocked, retryCount := w.retryCount + 1,
                  blockedFromStatus := Some(if w.status == AwaitingApproval then AwaitingApproval else Running),
                  failureReason := OrElse(reason, w.failureReason)))
      case Resume =>
        if w.status != Blocked then None
        else
          Some(w.(status := if w.blockedFromStatus.Some? then w.blockedFromStatus.value else Running,
                  failureReason := None, blockedFromStatus := None))
      case _ => if w.status == Blocked then None else Advance(verify, w, kind)
  }

  function Advance(verify: Verifier, w: Workflow, kind: Kind): Option<Workflow> {
    match kind
    case SpecificationCompleted =>
      if w.phase == Specification then Some(w.(phase := SpecificationApproval, status := AwaitingApproval)) else None
    case SpecificationApproved =>
      if w.phase == SpecificationApproval && w.status == AwaitingApproval
      then Some(w.(phase := Planning, status := Running)) else None
    case SpecificationRejected(reason) =>
      if w.phase == SpecificationApproval && w.status == AwaitingApproval
      then Some(w.(status := Failed, failureReason := OrElse(reason, Some("specification_rejected")))) else None
    case PlanCompleted => if w.phase == Planning then Some(w.(phase := Implementation)) else None
    case ImplementationCompleted => if w.phase == Implementation then Some(w.(phase := Testing)) else None
    case TestsPassed => if w.phase == Testing then Some(w.(phase := Review)) else None
    case TestsFailed => if w.phase == Testing then Some(RetryOrFail(w, Fixing)) else None
    case ReviewPassed => if w.phase == Review then Some(w.(phase := PolicyValidation)) else None
    case ReviewChangesRequested => if w.phase == Review then Some(RetryOrFail(w, Fixing)) else None
    case FixCompleted => if w.phase == Fixing then Some(w.(phase := Testing)) else None
    case PolicyPassed => if w.phase == PolicyValidation then Some(w.(phase := DraftPublication)) else None
    case PolicyFailed => if w.phase == PolicyValidation then Some(RetryOrFail(w, Fixing)) else None
    case DraftPublished(publication) =>
      if w.phase == DraftPublication && BoundTo(w, publication, verify)
      then Some(w.(status := Succeeded, publication := Some(publication))) else None
    case _ => None
  }

  // The reducer, behind the shared window.
  function FeatureReducer<F>(verify: Verifier, fingerprint: Event -> F): Reducer<Workflow, Event, F> {
    Reducer((e: Event) => e.id, fingerprint, (e: Event) => ValidEventId(e.id),
            (w: Workflow, e: Event) => StepWorkflow(verify, w, e.kind))
  }

  // ----- a workflow cannot go on for ever -----

  ghost predicate Sound(w: Workflow) {
    && w.retryCount <= w.maxRetries + 1
    && (w.retryCount == w.maxRetries + 1 ==> w.status == Failed && w.failureReason == Some("retry_limit"))
    && (w.status == AwaitingApproval ==> w.phase == SpecificationApproval)
    && (w.status == Running ==> w.phase != SpecificationApproval)
    && (w.status == Blocked ==>
          w.blockedFromStatus == Some(if w.phase == SpecificationApproval then AwaitingApproval else Running))
  }

  function PhasesLeft(phase: Phase): nat {
    match phase
    case Specification => 8
    case SpecificationApproval => 7
    case Planning => 6
    case Implementation => 5
    case Fixing => 5
    case Testing => 4
    case Review => 3
    case PolicyValidation => 2
    case DraftPublication => 1
  }

  // How much can still happen: five units for every retry left, and the phases ahead.
  function Measure(w: Workflow): nat
    requires w.retryCount <= w.maxRetries + 1
  {
    if Terminal(w.status) || w.retryCount > w.maxRetries then 0
    else 5 * (w.maxRetries - w.retryCount) + PhasesLeft(w.phase) + if w.status == Blocked then 1 else 0
  }

  predicate IdleCrash(w: Workflow, kind: Kind) {
    kind.Crashed? && w.status == Blocked
  }

  // Every new event the workflow takes lowers the measure, but for a crash while already blocked.
  lemma StepLowersMeasure(verify: Verifier, w: Workflow, kind: Kind)
    requires Sound(w) && StepWorkflow(verify, w, kind).Some?
    ensures var w' := StepWorkflow(verify, w, kind).value;
            && Sound(w') && w'.maxRetries == w.maxRetries
            && (if IdleCrash(w, kind) then w' == w else Measure(w') < Measure(w))
  {
  }

  function CountIdleCrashes(verify: Verifier, w: Workflow, events: seq<Event>): nat
    decreases |events|
  {
    if events == [] || StepWorkflow(verify, w, events[0].kind).None? then 0
    else (if IdleCrash(w, events[0].kind) then 1 else 0)
         + CountIdleCrashes(verify, StepWorkflow(verify, w, events[0].kind).value, events[1..])
  }

  lemma {:induction false} StepsAreBounded<F>(verify: Verifier, fingerprint: Event -> F, w: Workflow,
                                              events: seq<Event>, w': Workflow)
    requires Sound(w) && Steps(FeatureReducer(verify, fingerprint), w, events, w')
    ensures Sound(w') && w'.maxRetries == w.maxRetries
    ensures |events| - CountIdleCrashes(verify, w, events) + Measure(w') <= Measure(w)
    decreases |events|
  {
    if events != [] {
      StepLowersMeasure(verify, w, events[0].kind);
      StepsAreBounded(verify, fingerprint, StepWorkflow(verify, w, events[0].kind).value, events[1..], w');
    }
  }

  /**
   * Any replay accepts at most 5 * maxRetries + 8 events besides crashes of a blocked workflow,
   * and its retry count passes the limit only by the one retry that fails it.
   */
  lemma ReplayIsBounded<F>(verify: Verifier, fingerprint: Event -> F, maxRetries: nat, binding: Option<Binding>,
                           events: seq<Event>)
    requires maxRetries <= MAX_SAFE_INTEGER
    requires var s := State(Create(maxRetries, binding).value, Window([], map[]));
             Replay(FeatureReducer(verify, fingerprint), s, events).Some?
    ensures var r := FeatureReducer(verify, fingerprint);
            var s := State(Create(maxRetries, binding).value, Window([], map[]));
            var accepted := Accepted(r, s, events);
            var w := Replay(r, s, events).value.core;
            && |accepted| - CountIdleCrashes(verify, s.core, accepted) <= 5 * maxRetries + 8
            && w.retryCount <= maxRetries + 1
            && (w.retryCount == maxRetries + 1 ==> w.status == Failed && w.failureReason == Some("retry_limit"))
  {
    var r := FeatureReducer(verify, fingerprint);
    var s := State(Create(maxRetries, binding).value, Window([], map[]));
    ReplayIsSteps(r, s, events);
    StepsAreBounded(verify, fingerprint, s.core, Accepted(r, s, events), Replay(r, s, events).value.core);
  }

  // ----- what a history can look like -----

  // An attempt at the gates that failed, and was then fixed: at tests, at review, or at policy.
  datatype Round = TestsRound | ReviewRound | PolicyRound

  function FailedAttempt(round: Round): seq<Kind> {
    match round
    case TestsRound => [TestsFailed]
    case ReviewRound => [TestsPassed, ReviewChangesRequested]
    case PolicyRound => [TestsPassed, ReviewPassed, PolicyFailed]
  }

  function Rounds(rounds: seq<Round>): seq<Kind> {
    if rounds == [] then []
    else Rounds(rounds[..|rounds| - 1]) + FailedAttempt(rounds[|rounds| - 1]) + [FixCompleted]
  }

  const PREAMBLE: seq<Kind> := [SpecificationCompleted, SpecificationApproved, PlanCompleted, ImplementationCompleted]

  // The history without crashes and resumes.
  function Work(events: seq<Event>): seq<Kind> {
    if events == [] then []
    else
      var last := events[|events| - 1].kind;
      Work(events[..|events| - 1]) + if last.Crashed? || last.Resume? then [] else [last]
  }

  // Whether the last crash or resume was a crash.
  predicate BlockedAfter(events: seq<Event>) {
    if events == [] then false
    else
      var last := events[|events| - 1].kind;
      last.Crashed? || (!last.Resume? && BlockedAfter(events[..|events| - 1]))
  }

  // The crashes that blocked a workflow that was not blocked.
  function Blocks(events: seq<Event>): nat {
    if events == [] then 0
    else
      var earlier := events[..|events| - 1];
      Blocks(earlier) + if events[|events| - 1].kind.Crashed? && !BlockedAfter(earlier) then 1 else 0
  }

  // The work of an unfinished workflow is fixed by its phase and the rounds it went through.
  ghost predicate WorkFits(phase: Phase, work: seq<Kind>, rounds: seq<Round>) {
    match phase
    case Specification => work == [] && rounds == []
    case SpecificationApproval => work == PREAMBLE[..1] && rounds == []
    case Planning => work == PREAMBLE[..2] && rounds == []
    case Implementation => work == PREAMBLE[..3] && rounds == []
    case Testing => work == PREAMBLE + Rounds(rounds)
    case Review => work == PREAMBLE + Rounds(rounds) + [TestsPassed]
    case PolicyValidation => work == PREAMBLE + Rounds(rounds) + [TestsPassed, ReviewPassed]
    case DraftPublication => work == PREAMBLE + Rounds(rounds) + [TestsPassed, ReviewPassed, PolicyPassed]
    case Fixing =>
      rounds != [] && work == PREAMBLE + Rounds(rounds[..|rounds| - 1]) + FailedAttempt(rounds[|rounds| - 1])
  }

  function Gates(publication: Publication): seq<Kind> {
    [TestsPassed, ReviewPassed, PolicyPassed, DraftPublished(publication)]
  }

  ghost predicate PassedEveryGate(w: Workflow, work: seq<Kind>, rounds: seq<Round>) {
    w.publication.Some? && work == PREAMBLE + Rounds(rounds) + Gates(w.publication.value)
  }

  predicate Gate(kind: Kind) {
    !kind.Crashed? && !kind.Resume? && !kind.Cancel? && !kind.ExhaustBudget?
  }

  // Gates are passed only while not blocked, and only a blocked workflow is resumed.
  ghost predicate Alternates(events: seq<Event>) {
    forall i :: 0 <= i < |events| ==>
      && (Gate(events[i].kind) ==> !BlockedAfter(events[..i]))
      && (events[i].kind.Resume? ==> BlockedAfter(events[..i]))
  }

  ghost predicate EndsPublished(events: seq<Event>) {
    events != [] && events[|events| - 1].kind.DraftPublished?
  }

  // How the state of a workflow reflects the events it has taken.
  ghost predicate Reflects(w: Workflow, events: seq<Event>, rounds: seq<Round>) {
    && Alternates(events)
    && (!Terminal(w.status) ==>
          && WorkFits(w.phase, Work(events), rounds)
          && (w.status == Blocked <==> BlockedAfter(events))
          && w.retryCount == |rounds| + Blocks(events))
    && (w.status == Succeeded ==>
          && PassedEveryGate(w, Work(events), rounds) && EndsPublished(events)
          && w.retryCount == |rounds| + Blocks(events))
  }

  lemma WorkStep(events: seq<Event>, e: Event)
    ensures Work(events + [e]) == Work(events) + if e.kind.Crashed? || e.kind.Resume? then [] else [e.kind]
    ensures BlockedAfter(events + [e]) == (e.kind.Crashed? || (!e.kind.Resume? && BlockedAfter(events)))
    ensures Blocks(events + [e]) == Blocks(events) + if e.kind.Crashed? && !BlockedAfter(events) then 1 else 0
  {
    assert (events + [e])[..|events|] == events;
  }

  lemma StepAlternates(events: seq<Event>, e: Event)
    requires Alternates(events)
    requires Gate(e.kind) ==> !BlockedAfter(events)
    requires e.kind.Resume? ==> BlockedAfter(events)
    ensures Alternates(events + [e])
  {
    hide BlockedAfter;
    var longer := events + [e];
    forall i | 0 <= i < |longer| ensures longer[..i] == if i < |events| then events[..i] else events {
    }
  }

  lemma RoundsStep(rounds: seq<Round>, round: Round)
    ensures Rounds(rounds + [round]) == Rounds(rounds) + FailedAttempt(round) + [FixCompleted]
  {
    assert (rounds + [round])[..|rounds|] == rounds;
  }

  predicate Preparing(phase: Phase) {
    phase in {Specification, SpecificationApproval, Planning, Implementation}
  }

  lemma PreparationFits(verify: Verifier, w: Workflow, work: seq<Kind>, kind: Kind)
    requires Preparing(w.phase) && WorkFits(w.phase, work, []) && Advance(verify, w, kind).Some?
    ensures var w' := Advance(verify, w, kind).value;
            && (w'.status != Failed ==> WorkFits(w'.phase, work + [kind], []) && w'.retryCount == w.retryCount)
            && (w'.status == Succeeded ==> w.status == Succeeded)
  {
    assert Rounds([]) == [];
    if w.phase == Implementation {
      assert work + [kind] == PREAMBLE + [];
    }
  }

  lemma FixFits(work: seq<Kind>, rounds: seq<Round>)
    requires WorkFits(Fixing, work, rounds)
    ensures WorkFits(Testing, work + [FixCompleted], rounds)
  {
    RoundsStep(rounds[..|rounds| - 1], rounds[|rounds| - 1]);
    assert rounds == rounds[..|rounds| - 1] + [rounds[|rounds| - 1]];
  }

  // One more gate event: the rounds grow by one exactly when an attempt fails and may be retried.
  lemma GateFits(verify: Verifier, w: Workflow, work: seq<Kind>, rounds: seq<Round>, kind: Kind)
    returns (rounds': seq<Round>)
    requires WorkFits(w.phase, work, rounds) && Advance(verify, w, kind).Some?
    ensures var w' := Advance(verify, w, kind).value;
            && (!Terminal(w'.status) ==> WorkFits(w'.phase, work + [kind], rounds'))
            && (w'.status == Succeeded && w.status != Succeeded ==>
                  PassedEveryGate(w', work + [kind], rounds') && kind.DraftPublished?)
            && (w'.status != Failed ==> w'.retryCount - w.retryCount == |rounds'| - |rounds|)
            && (w'.status == Blocked ==> w.status == Blocked)
  {
    hide Rounds, FailedAttempt;
    rounds' := rounds;
    if Preparing(w.phase) {
      PreparationFits(verify, w, work, kind);
    } else {
      match kind
      case TestsFailed => rounds' := FailedGate(w, work, rounds, TestsRound, kind);
      case ReviewChangesRequested => rounds' := FailedGate(w, work, rounds, ReviewRound, kind);
      case PolicyFailed => rounds' := FailedGate(w, work, rounds, PolicyRound, kind);
      case FixCompleted => FixFits(work, rounds);
      case _ =>
    }
  }

  lemma {:induction false} StepReflects(verify: Verifier, w: Workflow, events: seq<Event>, rounds: seq<Round>, e: Event)
    returns (rounds': seq<Round>)
    requires Sound(w) && Reflects(w, events, rounds) && StepWorkflow(verify, w, e.kind).Some?
    ensures Reflects(StepWorkflow(verify, w, e.kind).value, events + [e], rounds')
  {
    hide Work, Blocks, BlockedAfter, Rounds, FailedAttempt, Advance, Alternates;
    WorkStep(events, e);
    StepAlternates(events, e);
    rounds' := rounds;
    match e.kind
    case Cancel(_) =>
    case ExhaustBudget =>
    case Crashed(_) => assert Work(events) + [] == Work(events);
    case Resume => assert Work(events) + [] == Work(events);
    case _ => rounds' := GateFits(verify, w, Work(events), rounds, e.kind);
  }

  lemma FailedGate(w: Workflow, work: seq<Kind>, rounds: seq<Round>, round: Round, kind: Kind)
    returns (rounds': seq<Round>)
    requires WorkFits(w.phase, work, rounds)
    requires match round case TestsRound => kind == TestsFailed && w.phase == Testing
                         case ReviewRound => kind == ReviewChangesRequested && w.phase == Review
                         case PolicyRound => kind == PolicyFailed && w.phase == PolicyValidation
    ensures rounds' == rounds + [round] && WorkFits(Fixing, work + [kind], rounds')
  {
    rounds' := rounds + [round];
    assert rounds'[..|rounds|] == rounds;
    assert work + [kind] == PREAMBLE + Rounds(rounds) + FailedAttempt(round);
  }

  lemma {:induction false} StepsReflect<F>(verify: Verifier, fingerprint: Event -> F, w: Workflow,
                                           history: seq<Event>, rounds: seq<Round>,
                                           events: seq<Event>, w': Workflow)
    returns (rounds': seq<Round>)
    requires Sound(w) && Reflects(w, history, rounds) && Steps(FeatureReducer(verify, fingerprint), w, events, w')
    ensures Reflects(w', history + events, rounds')
    decreases |events|
  {
    hide Reflects, Sound, StepWorkflow;
    rounds' := rounds;
    if events == [] {
      assert history + events == history;
    } else {
      StepLowersMeasure(verify, w, events[0].kind);
      rounds' := StepReflects(verify, w, history, rounds, events[0]);
      var next := StepWorkflow(verify, w, events[0].kind).value;
      rounds' := StepsReflect(verify, fingerprint, next, history + [events[0]], rounds', events[1..], w');
      assert history + [events[0]] + events[1..] == history + events;
    }
  }

  lemma {:induction false} SuccessWasBound<F>(verify: Verifier, fingerprint: Event -> F, w: Workflow,
                                              events: seq<Event>, w': Workflow)
    requires Sound(w) && Steps(FeatureReducer(verify, fingerprint), w, events, w')
    requires w.status == Succeeded ==> w.publication.Some? && BoundTo(w, w.publication.value, verify)
    ensures w'.status == Succeeded ==> w'.publication.Some? && BoundTo(w', w'.publication.value, verify)
    ensures w'.publicationBinding == w.publicationBinding
    decreases |events|
  {
    if events != [] {
      StepLowersMeasure(verify, w, events[0].kind);
      SuccessWasBound(verify, fingerprint, StepWorkflow(verify, w, events[0].kind).value, events[1..], w');
    }
  }

  /**
   * A replay that ends succeeded took, besides crashes and resumes, exactly this: the
   * specification completed, approved, planned and implemented; rounds of failed attempts, each
   * fixed; and then tests, review and policy passed in a row, and the draft that it records
   * published, bound to the workflow by a trusted publisher. It used one retry for each failed
   * attempt and each crash that blocked it.
   */
  lemma SuccessPassedEveryGate<F>(verify: Verifier, fingerprint: Event -> F, maxRetries: nat,
                                  binding: Option<Binding>, events: seq<Event>)
    returns (rounds: seq<Round>)
    requires maxRetries <= MAX_SAFE_INTEGER
    requires var s := State(Create(maxRetries, binding).value, Window([], map[]));
             Replay(FeatureReducer(verify, fingerprint), s, events).Some?
    ensures var r := FeatureReducer(verify, fingerprint);
            var s := State(Create(maxRetries, binding).value, Window([], map[]));
            var w := Replay(r, s, events).value.core;
            var accepted := Accepted(r, s, events);
            w.status == Succeeded ==>
              && PassedEveryGate(w, Work(accepted), rounds) && EndsPublished(accepted) && Alternates(accepted)
              && w.publicationBinding == binding && BoundTo(w, w.publication.value, verify)
              && w.retryCount == |rounds| + Blocks(accepted) <= maxRetries
  {
    var r := FeatureReducer(verify, fingerprint);
    var s := State(Create(maxRetries, binding).value, Window([], map[]));
    var accepted := Accepted(r, s, events);
    var w := Replay(r, s, events).value.core;
    ReplayIsSteps(r, s, events);
    StepsAreBounded(verify, fingerprint, s.core, accepted, w);
    rounds := StepsReflect(verify, fingerprint, s.core, [], [], accepted, w);
    assert [] + accepted == accepted;
    SuccessWasBound(verify, fingerprint, s.core, accepted, w);
  }

  // ----- every such history succeeds -----

  function Walk(verify: Verifier, w: Workflow, kinds: seq<Kind>): Option<Workflow>
    decreases |kinds|
  {
    if kinds == [] then Some(w)
    else
      var next := StepWorkflow(verify, w, kinds[0]);
      if next.None? then None else Walk(verify, next.value, kinds[1..])
  }

  lemma {:induction false} WalkConcat(verify: Verifier, w: Workflow, a: seq<Kind>, b: seq<Kind>)
    requires Walk(verify, w, a).Some?
    ensures Walk(verify, w, a + b) == Walk(verify, Walk(verify, w, a).value, b)
    decreases |a|
  {
    hide StepWorkflow;
    if a == [] {
      assert a + b == b;
    } else {
      assert (a + b)[1..] == a[1..] + b;
      WalkConcat(verify, StepWorkflow(verify, w, a[0]).value, a[1..], b);
    }
  }

  lemma WalkOneMore(verify: Verifier, w: Workflow, kinds: seq<Kind>, kind: Kind)
    requires Walk(verify, w, kinds).Some?
    ensures Walk(verify, w, kinds + [kind]) == StepWorkflow(verify, Walk(verify, w, kinds).value, kind)
  {
    hide StepWorkflow;
    WalkConcat(verify, w, kinds, [kind]);
    assert [kind][1..] == [];
  }

  lemma RoundWalks(verify: Verifier, w: Workflow, round: Round)
    requires w.status == Running && w.phase == Testing && w.retryCount < w.maxRetries
    ensures Walk(verify, w, FailedAttempt(round) + [FixCompleted]) == Some(w.(retryCount := w.retryCount + 1))
  {
    var kinds := FailedAttempt(round) + [FixCompleted];
    var fixing := w.(phase := Fixing, retryCount := w.retryCount + 1);
    assert Walk(verify, fixing, [FixCompleted]) == Some(w.(retryCount := w.retryCount + 1));
    if round.TestsRound? {
      assert kinds[1..] == [FixCompleted];
    } else if round.ReviewRound? {
      assert kinds[1..][1..] == [FixCompleted];
      assert Walk(verify, w.(phase := Review), kinds[1..]) == Walk(verify, fixing, kinds[1..][1..]);
    } else {
      assert kinds[1..][1..][1..] == [FixCompleted];
      assert Walk(verify, w.(phase := PolicyValidation), kinds[1..][1..]) == Walk(verify, fixing, kinds[1..][1..][1..]);
    }
  }

  lemma {:induction false} RoundsWalk(verify: Verifier, w: Workflow, rounds: seq<Round>)
    requires w.status == Running && w.phase == Testing && w.retryCount + |rounds| <= w.maxRetries
    ensures Walk(verify, w, Rounds(rounds)) == Some(w.(retryCount := w.retryCount + |rounds|))
  {
    hide FailedAttempt, StepWorkflow;
    if rounds != [] {
      var n := |rounds| - 1;
      var earlier, last := Rounds(rounds[..n]), FailedAttempt(rounds[n]) + [FixCompleted];
      RoundsWalk(verify, w, rounds[..n]);
      RoundWalks(verify, w.(retryCount := w.retryCount + n), rounds[n]);
      WalkConcat(verify, w, earlier, last);
      assert Rounds(rounds) == earlier + last;
    }
  }

  function Kinds(events: seq<Event>): seq<Kind> {
    seq(|events|, i requires 0 <= i < |events| => events[i].kind)
  }

  lemma {:induction false} WalkIsSteps<F>(verify: Verifier, fingerprint: Event -> F, w: Workflow, events: seq<Event>)
    requires forall i :: 0 <= i < |events| ==> ValidEventId(events[i].id)
    requires Walk(verify, w, Kinds(events)).Some?
    ensures Steps(FeatureReducer(verify, fingerprint), w, events, Walk(verify, w, Kinds(events)).value)
    decreases |events|
  {
    if events != [] {
      assert Kinds(events)[1..] == Kinds(events[1..]);
      WalkIsSteps(verify, fingerprint, StepWorkflow(verify, w, events[0].kind).value, events[1..]);
    }
  }

  // The work of a workflow that succeeds, and what it ends in when nothing interrupts it.
  lemma {:induction false} WordWalks(verify: Verifier, w: Workflow, rounds: seq<Round>, publication: Publication)
    requires w.status == Running && w.phase == Specification && w.retryCount == 0
    requires |rounds| <= w.maxRetries && BoundTo(w, publication, verify)
    ensures Walk(verify, w, PREAMBLE + Rounds(rounds) + Gates(publication))
            == Some(w.(phase := DraftPublication, status := Succeeded, retryCount := |rounds|,
                       publication := Some(publication)))
  {
    var testing := w.(phase := Testing);
    PreambleWalks(verify, w);
    RoundsWalk(verify, testing, rounds);
    WalkConcat(verify, w, PREAMBLE, Rounds(rounds));
    WalkConcat(verify, w, PREAMBLE + Rounds(rounds), Gates(publication));
    GatesWalk(verify, testing.(retryCount := |rounds|), publication);
  }

  // A walk up to any point exists, and goes on from there without losing a retry.
  lemma {:induction false} WalkGoesOn(verify: Verifier, w: Workflow, kinds: seq<Kind>, n: nat)
    requires n < |kinds| && Walk(verify, w, kinds).Some?
    ensures Walk(verify, w, kinds[..n]).Some? && Walk(verify, w, kinds[..n + 1]).Some?
    ensures StepWorkflow(verify, Walk(verify, w, kinds[..n]).value, kinds[n]) == Walk(verify, w, kinds[..n + 1])
    ensures Walk(verify, w, kinds[..n + 1]).value.retryCount <= Walk(verify, w, kinds).value.retryCount
    decreases |kinds|
  {
    hide StepWorkflow;
    var next := StepWorkflow(verify, w, kinds[0]).value;
    if n > 0 {
      WalkGoesOn(verify, next, kinds[1..], n - 1);
      assert kinds[..n][1..] == kinds[1..][..n - 1] && kinds[..n + 1][1..] == kinds[1..][..n];
    } else {
      assert kinds[..1][1..] == [] && kinds[..0] == [];
      RetriesGrow(verify, next, kinds[1..]);
    }
  }

  lemma {:induction false} RetriesGrow(verify: Verifier, w: Workflow, kinds: seq<Kind>)
    requires Walk(verify, w, kinds).Some?
    ensures w.retryCount <= Walk(verify, w, kinds).value.retryCount
    decreases |kinds|
  {
    if kinds != [] {
      RetriesGrowByStep(verify, w, kinds[0]);
      RetriesGrow(verify, StepWorkflow(verify, w, kinds[0]).value, kinds[1..]);
    }
  }

  lemma RetriesGrowByStep(verify: Verifier, w: Workflow, kind: Kind)
    requires StepWorkflow(verify, w, kind).Some?
    ensures w.retryCount <= StepWorkflow(verify, w, kind).value.retryCount
  {
  }

  // w is where a workflow stands that has been interrupted, u where it would stand had it not been.
  ghost predicate Shadows(u: Workflow, w: Workflow, blocked: bool, blocks: nat) {
    && w == u.(retryCount := u.retryCount + blocks, status := w.status, failureReason := w.failureReason,
               blockedFromStatus := w.blockedFromStatus)
    && u.failureReason.None? && u.blockedFromStatus.None? && u.status in {Running, AwaitingApproval, Succeeded}
    && if blocked then w.status == Blocked && w.blockedFromStatus == Some(u.status)
       else w.status == u.status && w.failureReason.None? && w.blockedFromStatus.None?
  }

  lemma ShadowPassesGate(verify: Verifier, u: Workflow, w: Workflow, blocks: nat, kind: Kind)
    requires Shadows(u, w, false, blocks) && Gate(kind) && StepWorkflow(verify, u, kind).Some?
    requires var u' := StepWorkflow(verify, u, kind).value;
             u'.status in {Running, AwaitingApproval, Succeeded} && u'.retryCount + blocks <= u.maxRetries
    ensures StepWorkflow(verify, w, kind).Some?
    ensures Shadows(StepWorkflow(verify, u, kind).value, StepWorkflow(verify, w, kind).value, false, blocks)
  {
  }

  lemma ShadowIsInterrupted(verify: Verifier, u: Workflow, w: Workflow, blocked: bool, blocks: nat, kind: Kind)
    requires Shadows(u, w, blocked, blocks) && !Terminal(u.status)
    requires (kind.Crashed? && u.retryCount + blocks < u.maxRetries) || (kind.Crashed? && blocked)
        || (kind.Resume? && blocked)
    ensures StepWorkflow(verify, w, kind).Some?
    ensures Shadows(u, StepWorkflow(verify, w, kind).value, kind.Crashed?,
                    if kind.Crashed? && !blocked then blocks + 1 else blocks)
  {
  }

  lemma WorkOfPrefix(events: seq<Event>, n: nat)
    requires n <= |events|
    ensures Work(events[..n]) <= Work(events) && Blocks(events[..n]) <= Blocks(events)
    decreases |events|
  {
    if n < |events| {
      var front := events[..|events| - 1];
      WorkOfPrefix(front, n);
      assert front[..n] == events[..n];
    } else {
      assert events[..n] == events;
    }
  }

  // The work of a history that ends in a publication is not over before its last event.
  lemma WorkRemains(events: seq<Event>, n: nat)
    requires n < |events| && EndsPublished(events)
    ensures |Work(events[..n])| < |Work(events)|
  {
    var front := events[..|events| - 1];
    WorkOfPrefix(front, n);
    assert front[..n] == events[..n];
  }

  lemma {:induction false} WorkIsGates(events: seq<Event>)
    requires forall i :: 0 <= i < |events| ==> !events[i].kind.Cancel? && !events[i].kind.ExhaustBudget?
    ensures forall i :: 0 <= i < |Work(events)| ==> Gate(Work(events)[i])
  {
    if events != [] { WorkIsGates(events[..|events| - 1]); }
  }

  // On a walk through gates that ends in success nothing fails or blocks on the way.
  lemma StaysAlive(verify: Verifier, w: Workflow, kinds: seq<Kind>, n: nat)
    requires n < |kinds| && Walk(verify, w, kinds).Some? && Walk(verify, w, kinds).value.status == Succeeded
    requires forall i :: 0 <= i < |kinds| ==> Gate(kinds[i])
    ensures Walk(verify, w, kinds[..n + 1]).Some?
    ensures Walk(verify, w, kinds[..n + 1]).value.status in {Running, AwaitingApproval, Succeeded}
  {
    hide Walk;
    if n + 1 < |kinds| {
      WalkGoesOn(verify, w, kinds, n + 1);
      PassesOnlyAlive(verify, Walk(verify, w, kinds[..n + 1]).value, kinds[n + 1]);
    } else {
      assert kinds[..n + 1] == kinds;
    }
  }

  lemma PassesOnlyAlive(verify: Verifier, w: Workflow, kind: Kind)
    requires Gate(kind) && StepWorkflow(verify, w, kind).Some?
    ensures w.status in {Running, AwaitingApproval}
  {
  }

  // Interrupted work that would succeed if it were not, with retries enough for the interruptions.
  ghost predicate Promising(verify: Verifier, w0: Workflow, events: seq<Event>) {
    && EndsPublished(events) && Alternates(events)
    && (forall i :: 0 <= i < |events| ==> !events[i].kind.Cancel? && !events[i].kind.ExhaustBudget?)
    && Walk(verify, w0, Work(events)).Some?
    && Walk(verify, w0, Work(events)).value.status == Succeeded
    && Walk(verify, w0, Work(events)).value.retryCount + Blocks(events) <= w0.maxRetries
  }

  // Where the uninterrupted workflow stands after the first n events, and the other is its shadow.
  ghost predicate Follows(verify: Verifier, w0: Workflow, events: seq<Event>, n: nat, w: Workflow)
    requires n <= |events|
  {
    var u := Walk(verify, w0, Work(events[..n]));
    u.Some? && u.value.maxRetries == w0.maxRetries
    && Shadows(u.value, w, BlockedAfter(events[..n]), Blocks(events[..n]))
  }

  // One more event keeps the interrupted workflow a shadow of the uninterrupted one.
  lemma ShadowStep(verify: Verifier, w0: Workflow, w: Workflow, events: seq<Event>, n: nat) returns (w': Workflow)
    requires n < |events| && Promising(verify, w0, events) && Follows(verify, w0, events, n, w)
    ensures StepWorkflow(verify, w, events[n].kind) == Some(w')
    ensures Follows(verify, w0, events, n + 1, w')
  {
    hide Walk, Shadows, StepWorkflow, Work, Blocks, BlockedAfter, Alternates;
    var before, e := events[..n], events[n];
    assert events[..n + 1] == before + [e];
    WorkStep(before, e);
    WorkOfPrefix(events, n);
    WorkOfPrefix(events, n + 1);
    WorkRemains(events, n);
    var work, k := Work(events), |Work(before)|;
    assert work[..k] == Work(before);
    WalkGoesOn(verify, w0, work, k);
    var u := Walk(verify, w0, Work(before)).value;
    NotOver(verify, u, work[k]);
    AlternatesAt(events, n);
    if Gate(e.kind) {
      assert work[k] == e.kind && work[..k + 1] == Work(before + [e]);
      WorkIsGates(events);
      StaysAlive(verify, w0, work, k);
      ShadowPassesGate(verify, u, w, Blocks(before), e.kind);
      KeepsLimit(verify, u, e.kind);
    } else {
      assert Work(before) + [] == Work(before);
      RetriesGrowByStep(verify, u, work[k]);
      ShadowIsInterrupted(verify, u, w, BlockedAfter(before), Blocks(before), e.kind);
    }
    w' := StepWorkflow(verify, w, e.kind).value;
  }

  lemma NotOver(verify: Verifier, w: Workflow, kind: Kind)
    requires StepWorkflow(verify, w, kind).Some?
    ensures !Terminal(w.status)
  {
  }

  lemma KeepsLimit(verify: Verifier, w: Workflow, kind: Kind)
    requires StepWorkflow(verify, w, kind).Some?
    ensures StepWorkflow(verify, w, kind).value.maxRetries == w.maxRetries
  {
  }

  lemma AlternatesAt(events: seq<Event>, n: nat)
    requires Alternates(events) && n < |events|
    ensures Gate(events[n].kind) ==> !BlockedAfter(events[..n])
    ensures events[n].kind.Resume? ==> BlockedAfter(events[..n])
  {
  }

  lemma FollowsAtFirst(verify: Verifier, w0: Workflow, events: seq<Event>)
    requires Shadows(w0, w0, false, 0)
    ensures Walk(verify, w0, Kinds(events[..0])) == Some(w0) && Follows(verify, w0, events, 0, w0)
  {
    assert events[..0] == [];
  }

  lemma {:induction false} ShadowWalks(verify: Verifier, w0: Workflow, events: seq<Event>, n: nat) returns (w: Workflow)
    requires n <= |events| && Promising(verify, w0, events) && Shadows(w0, w0, false, 0)
    ensures Walk(verify, w0, Kinds(events[..n])) == Some(w) && Follows(verify, w0, events, n, w)
    decreases n
  {
    hide Promising, Follows, Shadows, StepWorkflow, Walk;
    if n == 0 {
      w := w0;
      FollowsAtFirst(verify, w0, events);
    } else {
      var before := ShadowWalks(verify, w0, events, n - 1);
      w := ShadowStep(verify, w0, before, events, n - 1);
      assert Kinds(events[..n]) == Kinds(events[..n - 1]) + [events[n - 1].kind];
      WalkOneMore(verify, w0, Kinds(events[..n - 1]), events[n - 1].kind);
    }
  }

  // Events with such a history are interrupted work of the one shape that succeeds.
  ghost predicate Completes(events: seq<Event>, rounds: seq<Round>, publication: Publication) {
    && Alternates(events) && EndsPublished(events)
    && Work(events) == PREAMBLE + Rounds(rounds) + Gates(publication)
  }

  lemma WorkHasNoEnd(events: seq<Event>, rounds: seq<Round>, publication: Publication)
    requires Completes(events, rounds, publication)
    ensures forall i :: 0 <= i < |events| ==> !events[i].kind.Cancel? && !events[i].kind.ExhaustBudget?
  {
    RoundsAreGates(rounds);
    forall i | 0 <= i < |events| ensures !events[i].kind.Cancel? && !events[i].kind.ExhaustBudget? {
      if !events[i].kind.Crashed? && !events[i].kind.Resume? {
        WorkHas(events, i);
      }
    }
  }

  lemma {:induction false} RoundsAreGates(rounds: seq<Round>)
    ensures forall k :: k in Rounds(rounds) ==> Gate(k)
  {
    if rounds != [] { RoundsAreGates(rounds[..|rounds| - 1]); }
  }

  lemma {:induction false} WorkHas(events: seq<Event>, i: nat)
    requires i < |events| && !events[i].kind.Crashed? && !events[i].kind.Resume?
    ensures events[i].kind in Work(events)
  {
    if i < |events| - 1 { WorkHas(events[..|events| - 1], i); }
  }

  /**
   * Conversely, a replay of events with ids of their own, whose work is of this shape whatever
   * crashes and resumes interrupt it, and whose failed attempts and blocking crashes are within
   * the retry limit, is accepted and ends succeeded, with the bound publication.
   */
  lemma {:induction false} EveryGateSucceeds<F>(verify: Verifier, fingerprint: Event -> F, maxRetries: nat,
                                                binding: Option<Binding>, events: seq<Event>, rounds: seq<Round>,
                                                publication: Publication)
    requires maxRetries <= MAX_SAFE_INTEGER && BoundTo(Create(maxRetries, binding).value, publication, verify)
    requires Completes(events, rounds, publication) && |rounds| + Blocks(events) <= maxRetries
    requires forall i :: 0 <= i < |events| ==> ValidEventId(events[i].id)
    requires forall i, j :: 0 <= i < j < |events| ==> events[i].id != events[j].id
    ensures var r := FeatureReducer(verify, fingerprint);
            var s := State(Create(maxRetries, binding).value, Window([], map[]));
            && Replay(r, s, events).Some? && Accepted(r, s, events) == events
            && Replay(r, s, events).value.core
               == Workflow(DraftPublication, Succeeded, maxRetries, |rounds| + Blocks(events), Some(publication),
                           None, None, binding)
  {
    var r := FeatureReducer(verify, fingerprint);
    var w0 := Create(maxRetries, binding).value;
    var s: State<Workflow, F> := State(w0, Window([], map[]));
    WorkHasNoEnd(events, rounds, publication);
    WordWalks(verify, w0, rounds, publication);
    var w := ShadowWalks(verify, w0, events, |events|);
    assert events[..|events|] == events;
    NotBlockedAtTheEnd(events);
    WalkIsSteps(verify, fingerprint, w0, events);
    StepsReplay(r, s, [], events, w);
  }

  lemma NotBlockedAtTheEnd(events: seq<Event>)
    requires Alternates(events) && EndsPublished(events)
    ensures !BlockedAfter(events)
  {
    AlternatesAt(events, |events| - 1);
  }

  lemma PreambleWalks(verify: Verifier, w: Workflow)
    requires w.status == Running && w.phase == Specification
    ensures Walk(verify, w, PREAMBLE) == Some(w.(phase := Testing))
  {
    var planning := w.(phase := Planning);
    assert PREAMBLE[1..][1..] == [PlanCompleted, ImplementationCompleted];
    assert PREAMBLE[1..][1..][1..] == [ImplementationCompleted];
    assert PREAMBLE[1..][1..][1..][1..] == [];
    var implementation := w.(phase := Implementation);
    assert Walk(verify, implementation, PREAMBLE[1..][1..][1..]) == Some(w.(phase := Testing));
    assert Walk(verify, planning, PREAMBLE[1..][1..]) == Walk(verify, implementation, PREAMBLE[1..][1..][1..]);
    assert Walk(verify, w, PREAMBLE) == Walk(verify, planning, PREAMBLE[1..][1..]);
  }

  lemma GatesWalk(verify: Verifier, w: Workflow, publication: Publication)
    requires w.status == Running && w.phase == Testing && BoundTo(w, publication, verify)
    ensures Walk(verify, w, [TestsPassed, ReviewPassed, PolicyPassed, DraftPublished(publication)])
            == Some(w.(phase := DraftPublication, status := Succeeded, publication := Some(publication)))
  {
    var gates := [TestsPassed, ReviewPassed, PolicyPassed, DraftPublished(publication)];
    assert gates[1..] == [ReviewPassed, PolicyPassed, DraftPublished(publication)];
    assert gates[1..][1..] == [PolicyPassed, DraftPublished(publication)];
    assert gates[1..][1..][1..] == [DraftPublished(publication)];
    var last := w.(phase := DraftPublication);
    assert Walk(verify, last, gates[3..]) == Some(last.(status := Succeeded, publication := Some(publication)));
    assert Walk(verify, w.(phase := PolicyValidation), gates[2..]) == Walk(verify, last, gates[3..]);
  }

  /** Redelivering any of the last 256 accepted events, anywhere, leaves the replay as it was. */
  lemma FeatureRedeliveryIsInvisible<F>(verify: Verifier, fingerprint: Event -> F, w: Workflow, clean: seq<Event>,
                                        noisy: seq<Event>)
    requires Redelivers(FeatureReducer(verify, fingerprint), State(w, Window([], map[])), [], clean, noisy)
    ensures var r := FeatureReducer(verify, fingerprint); var s := State(w, Window([], map[]));
            Replay(r, s, noisy) == Replay(r, s, clean)
  {
    RedeliveryIsInvisible(FeatureReducer(verify, fingerprint), State(w, Window([], map[])), [], clean, noisy);
  }
}
