/**
 * The feature workflow told from its history alone: which event may come next, where the workflow
 * stands, how it ended and why.
 */
module FeatureHistory {
  import opened Wrappers
  import opened Numbers
  import opened EventWindow
  import opened FeatureWorkflow

  // ----- what may come next -----

  // The gate events that may follow the work done so far.
  predicate Due(kind: Kind, work: seq<Kind>) {
    if work == [] then kind.SpecificationCompleted?
    else match work[|work| - 1]
      case SpecificationCompleted => kind.SpecificationApproved? || kind.SpecificationRejected?
      case SpecificationApproved => kind.PlanCompleted?
      case PlanCompleted => kind.ImplementationCompleted?
      case ImplementationCompleted => kind.TestsPassed? || kind.TestsFailed?
      case FixCompleted => kind.TestsPassed? || kind.TestsFailed?
      case TestsPassed => kind.ReviewPassed? || kind.ReviewChangesRequested?
      case ReviewPassed => kind.PolicyPassed? || kind.PolicyFailed?
      case TestsFailed => kind.FixCompleted?
      case ReviewChangesRequested => kind.FixCompleted?
      case PolicyFailed => kind.FixCompleted?
      case PolicyPassed => kind.DraftPublished?
      case _ => false
  }

  predicate FailedGate(kind: Kind) {
    kind.TestsFailed? || kind.ReviewChangesRequested? || kind.PolicyFailed?
  }

  // A retry for every failed gate and every crash that blocked the workflow.
  function Retries(history: seq<Event>): nat {
    if history == [] then 0
    else
      var earlier, last := history[..|history| - 1], history[|history| - 1].kind;
      Retries(earlier) + if FailedGate(last) || (last.Crashed? && !BlockedAfter(earlier)) then 1 else 0
  }

  predicate Final(kind: Kind) {
    kind.Cancel? || kind.ExhaustBudget? || kind.SpecificationRejected? || kind.DraftPublished?
  }

  predicate Over(history: seq<Event>, maxRetries: nat) {
    history != [] && (Final(history[|history| - 1].kind) || Retries(history) > maxRetries)
  }

  predicate Bound(binding: Option<Binding>, publication: Publication, verify: Verifier) {
    && publication.draft && binding.Some?
    && verify(publication) == Some(Claims("repository-publisher", binding.value))
  }

  /**
   * The next event, by the history: nothing once it is over; a cancellation, an exhausted budget and
   * a crash at any time; a resume after a crash; and otherwise the gates that are due, unless a crash
   * is waiting for its resume. A publication must be a draft bound to this workflow.
   */
  predicate Allowed(verify: Verifier, maxRetries: nat, binding: Option<Binding>, history: seq<Event>, e: Event) {
    && ValidEventId(e.id) && !Over(history, maxRetries)
    && match e.kind
       case Cancel(_) => true
       case ExhaustBudget => true
       case Crashed(_) => true
       case Resume => BlockedAfter(history)
       case DraftPublished(publication) =>
         !BlockedAfter(history) && Due(e.kind, Work(history)) && Bound(binding, publication, verify)
       case _ => !BlockedAfter(history) && Due(e.kind, Work(history))
  }

  // ----- where a history leads -----

  predicate StandsIn(phase: Phase, work: seq<Kind>) {
    if work == [] then phase == Specification
    else match work[|work| - 1]
      case SpecificationCompleted => phase == SpecificationApproval
      case SpecificationApproved => phase == Planning
      case PlanCompleted => phase == Implementation
      case ImplementationCompleted => phase == Testing
      case FixCompleted => phase == Testing
      case TestsPassed => phase == Review
      case ReviewPassed => phase == PolicyValidation
      case PolicyPassed => phase == DraftPublication
      case TestsFailed => phase == Fixing
      case ReviewChangesRequested => phase == Fixing
      case PolicyFailed => phase == Fixing
      case _ => false
  }

  // The reason given with the crash that the workflow has not been resumed from.
  function BlockReason(history: seq<Event>): Option<string> {
    if history == [] || history[|history| - 1].kind.Resume? then None
    else
      var earlier, last := history[..|history| - 1], history[|history| - 1].kind;
      if last.Crashed? && !BlockedAfter(earlier) then last.reason else BlockReason(earlier)
  }

  // How a workflow that is over ended, and why.
  ghost predicate EndedAs(w: Workflow, history: seq<Event>)
    requires history != []
  {
    var earlier, last := history[..|history| - 1], history[|history| - 1].kind;
    match last
    case Cancel(reason) =>
      w.status == Cancelled && w.failureReason == if reason.Some? then reason else BlockReason(earlier)
    case ExhaustBudget => w.status == BudgetExhausted && w.failureReason == Some("budget_exhausted")
    case SpecificationRejected(reason) =>
      w.status == Failed && w.failureReason == if reason.Some? then reason else Some("specification_rejected")
    case DraftPublished(publication) =>
      w.status == Succeeded && w.failureReason == None && w.publication == Some(publication)
    case _ => w.status == Failed && w.failureReason == Some("retry_limit")
  }

  // Where a workflow that is not over stands.
  ghost predicate StandsAs(w: Workflow, history: seq<Event>) {
    var waiting := Work(history) != [] && Work(history)[|Work(history)| - 1].SpecificationCompleted?;
    && StandsIn(w.phase, Work(history))
    && (w.status == Blocked <==> BlockedAfter(history))
    && (w.status == AwaitingApproval <==> !BlockedAfter(history) && waiting)
    && (w.status == Running <==> !BlockedAfter(history) && !waiting)
    && w.failureReason == BlockReason(history)
    && w.blockedFromStatus == (if !BlockedAfter(history) then None else if waiting then Some(AwaitingApproval)
                               else Some(Running))
    && w.publication == None
  }

  ghost predicate Tells(w: Workflow, maxRetries: nat, binding: Option<Binding>, history: seq<Event>) {
    && w.maxRetries == maxRetries && w.publicationBinding == binding && w.retryCount == Retries(history)
    && (w.publication.Some? ==> w.status == Succeeded)
    && if Over(history, maxRetries) then EndedAs(w, history) else StandsAs(w, history)
  }

  // ----- one more event -----

  lemma HistoryStep(history: seq<Event>, e: Event)
    ensures (history + [e])[..|history|] == history
    ensures history == [] ==> Retries(history) == 0 && !BlockedAfter(history)
    ensures var grows := FailedGate(e.kind) || (e.kind.Crashed? && !BlockedAfter(history));
            && Retries(history + [e]) == Retries(history) + (if grows then 1 else 0)
            && BlockReason(history + [e])
               == (if e.kind.Resume? then None
                   else if e.kind.Crashed? && !BlockedAfter(history) then e.kind.reason
                   else BlockReason(history))
  {
    assert (history + [e])[..|history|] == history;
  }

  lemma {:induction false} UnblockedHasNoReason(history: seq<Event>)
    ensures !BlockedAfter(history) ==> BlockReason(history) == None
  {
    if history != [] { UnblockedHasNoReason(history[..|history| - 1]); }
  }

  lemma StepIsAllowed(verify: Verifier, w: Workflow, binding: Option<Binding>, history: seq<Event>, e: Event)
    requires Tells(w, w.maxRetries, binding, history)
    ensures ValidEventId(e.id) && StepWorkflow(verify, w, e.kind).Some?
            <==> Allowed(verify, w.maxRetries, binding, history, e)
  {
    hide Work, BlockedAfter, BlockReason, Retries, ValidEventId;
  }

  lemma {:induction false} InterruptionTells(verify: Verifier, w: Workflow, binding: Option<Binding>,
                                             history: seq<Event>, e: Event)
    requires Tells(w, w.maxRetries, binding, history) && StepWorkflow(verify, w, e.kind).Some? && !Gate(e.kind)
    ensures Tells(StepWorkflow(verify, w, e.kind).value, w.maxRetries, binding, history + [e])
  {
    WorkStep(history, e);
    HistoryStep(history, e);
    UnblockedHasNoReason(history);
    hide Work, BlockedAfter, BlockReason, Retries;
    var longer := history + [e];
    assert longer[|longer| - 1] == e && longer[..|longer| - 1] == history;
    assert Work(history) + [] == Work(history);
  }

  lemma {:induction false} GateTells(verify: Verifier, w: Workflow, binding: Option<Binding>, history: seq<Event>,
                                     e: Event)
    requires Tells(w, w.maxRetries, binding, history) && StepWorkflow(verify, w, e.kind).Some? && Gate(e.kind)
    ensures Tells(StepWorkflow(verify, w, e.kind).value, w.maxRetries, binding, history + [e])
  {
    WorkStep(history, e);
    HistoryStep(history, e);
    UnblockedHasNoReason(history);
    hide Work, BlockedAfter, BlockReason, Retries;
    var longer := history + [e];
    assert longer[|longer| - 1] == e && longer[..|longer| - 1] == history;
    assert Work(longer)[|Work(history)|] == e.kind;
  }

  lemma {:induction false} StepTells(verify: Verifier, w: Workflow, binding: Option<Binding>, history: seq<Event>,
                                     e: Event)
    requires Tells(w, w.maxRetries, binding, history) && StepWorkflow(verify, w, e.kind).Some?
    ensures Tells(StepWorkflow(verify, w, e.kind).value, w.maxRetries, binding, history + [e])
  {
    hide Tells, StepWorkflow, Work, BlockedAfter, BlockReason, Retries;
    if Gate(e.kind) {
      GateTells(verify, w, binding, history, e);
    } else {
      InterruptionTells(verify, w, binding, history, e);
    }
  }

  // ----- whole replays -----

  lemma {:induction false} ReducerIsJudged<F>(verify: Verifier, fingerprint: Event -> F, maxRetries: nat,
                                              binding: Option<Binding>)
    requires maxRetries <= MAX_SAFE_INTEGER
    ensures var r := FeatureReducer(verify, fingerprint);
            var tells := (w: Workflow, h: seq<Event>) => Tells(w, maxRetries, binding, h);
            && tells(Create(maxRetries, binding).value, []) && Kept(r, tells)
            && Judged(r, tells, (h: seq<Event>, e: Event) => Allowed(verify, maxRetries, binding, h, e))
  {
    forall w: Workflow, h: seq<Event>, e: Event | Tells(w, maxRetries, binding, h)
      ensures ValidEventId(e.id) && StepWorkflow(verify, w, e.kind).Some? <==>
          Allowed(verify, maxRetries, binding, h, e)
      ensures StepWorkflow(verify, w, e.kind).Some? ==>
                Tells(StepWorkflow(verify, w, e.kind).value, maxRetries, binding, h + [e])
    {
      StepIsAllowed(verify, w, binding, h, e);
      if StepWorkflow(verify, w, e.kind).Some? { StepTells(verify, w, binding, h, e); }
    }
    assert Work([]) == [] && Retries([]) == 0 && BlockReason([]) == None && !BlockedAfter([]);
    hide Tells, Allowed, StepWorkflow;
  }

  /**
   * After any replay, redelivered events included, a new event is accepted exactly when the history
   * allows it, and what the workflow says of itself is what the history tells.
   */
  lemma {:induction false} AcceptedExactly<F>(verify: Verifier, fingerprint: Event -> F, maxRetries: nat,
                                              binding: Option<Binding>,
                           events: seq<Event>, e: Event)
    requires maxRetries <= MAX_SAFE_INTEGER
    requires var s := State(Create(maxRetries, binding).value, Window([], map[]));
             Replay(FeatureReducer(verify, fingerprint), s, events).Some?
    ensures var r := FeatureReducer(verify, fingerprint);
            var s := State(Create(maxRetries, binding).value, Window([], map[]));
            var now, accepted := Replay(r, s, events).value, Accepted(r, s, events);
            && Tells(now.core, maxRetries, binding, accepted)
            && (forall i :: 0 <= i < |accepted| ==>
                  Allowed(verify, maxRetries, binding, accepted[..i], accepted[i]))
            && (IsNew(r, now, e) ==>
                  (Reduce(r, now, e).Some? <==> Allowed(verify, maxRetries, binding, accepted, e)))
  {
    var r := FeatureReducer(verify, fingerprint);
    var s: State<Workflow, F> := State(Create(maxRetries, binding).value, Window([], map[]));
    var tells := (w: Workflow, h: seq<Event>) => Tells(w, maxRetries, binding, h);
    var allowed := (h: seq<Event>, x: Event) => Allowed(verify, maxRetries, binding, h, x);
    var accepted := Accepted(r, s, events);
    ReducerIsJudged(verify, fingerprint, maxRetries, binding);
    NextIsJudged(r, tells, allowed, s.core, events, e);
    hide Tells, Allowed, FeatureReducer;
    forall i | 0 <= i < |accepted| ensures allowed(accepted[..i], accepted[i]) {
      assert [] + accepted[..i] == accepted[..i];
    }
  }

  /** Events with ids of their own are replayed, every one of them, exactly when each is allowed in its turn. */
  lemma {:induction false} LawfulHistoriesReplay<F>(verify: Verifier, fingerprint: Event -> F, maxRetries: nat,
                                                    binding: Option<Binding>,
                                 events: seq<Event>)
    requires maxRetries <= MAX_SAFE_INTEGER
    requires forall i, j :: 0 <= i < j < |events| ==> events[i].id != events[j].id
    ensures var r := FeatureReducer(verify, fingerprint);
            var s := State(Create(maxRetries, binding).value, Window([], map[]));
            && (Replay(r, s, events).Some? <==>
                forall i :: 0 <= i < |events| ==> Allowed(verify, maxRetries, binding, events[..i], events[i]))
            && (Replay(r, s, events).Some? ==> Accepted(r, s, events) == events)
  {
    var r := FeatureReducer(verify, fingerprint);
    var tells := (w: Workflow, h: seq<Event>) => Tells(w, maxRetries, binding, h);
    var allowed := (h: seq<Event>, x: Event) => Allowed(verify, maxRetries, binding, h, x);
    ReducerIsJudged(verify, fingerprint, maxRetries, binding);
    ReplaysExactly(r, tells, allowed, Create(maxRetries, binding).value, events);
    hide Tells, Allowed;
    forall i | 0 <= i < |events| ensures [] + events[..i] == events[..i] {
    }
  }

  /** How a replay ended is told by the last event it took: with success, and each of the other ways. */
  lemma {:induction false} EndingByHistory<F>(verify: Verifier, fingerprint: Event -> F, maxRetries: nat,
                                              binding: Option<Binding>,
                           events: seq<Event>)
    requires maxRetries <= MAX_SAFE_INTEGER
    requires var s := State(Create(maxRetries, binding).value, Window([], map[]));
             Replay(FeatureReducer(verify, fingerprint), s, events).Some?
    ensures var r := FeatureReducer(verify, fingerprint);
            var s := State(Create(maxRetries, binding).value, Window([], map[]));
            Ending(Replay(r, s, events).value.core, maxRetries, Accepted(r, s, events))
  {
    var r := FeatureReducer(verify, fingerprint);
    var s: State<Workflow, F> := State(Create(maxRetries, binding).value, Window([], map[]));
    var w, history := Replay(r, s, events).value.core, Accepted(r, s, events);
    AcceptedExactly(verify, fingerprint, maxRetries, binding, events, Event("", Resume));
    hide FeatureReducer, Accepted, Replay;
    if history != [] {
      var n := |history| - 1;
      assert Allowed(verify, maxRetries, binding, history[..n], history[n]);
      if Retries(history) > maxRetries {
        NotOverYet(history, maxRetries);
      }
    }
    TellsEnding(w, maxRetries, binding, history);
  }

  // What the last event says of the ending, and the reason it leaves.
  ghost predicate Ending(w: Workflow, maxRetries: nat, history: seq<Event>) {
    if history == [] then w.status == Running && w.failureReason == None
    else
      var earlier, last := history[..|history| - 1], history[|history| - 1].kind;
      var exceeds := (FailedGate(last) || last.Crashed?) && Retries(history) > maxRetries;
      && (w.status == Succeeded <==> last.DraftPublished?)
      && (w.status == Cancelled <==> last.Cancel?)
      && (w.status == BudgetExhausted <==> last.ExhaustBudget?)
      && (w.status == Failed <==> last.SpecificationRejected? || exceeds)
      && (w.status == Blocked <==> BlockedAfter(history) && !exceeds && !Final(last))
      && (last.Cancel? ==> w.failureReason == if last.reason.Some? then last.reason else BlockReason(earlier))
      && (last.ExhaustBudget? ==> w.failureReason == Some("budget_exhausted"))
      && (last.SpecificationRejected? ==> w.failureReason == Some(last.reason.GetOr("specification_rejected")))
      && (exceeds ==> w.failureReason == Some("retry_limit"))
      && (!exceeds && !Final(last) ==> w.failureReason == BlockReason(history))
  }

  lemma NotOverYet(history: seq<Event>, maxRetries: nat)
    requires history != [] && !Over(history[..|history| - 1], maxRetries) && Retries(history) > maxRetries
    ensures FailedGate(history[|history| - 1].kind) || history[|history| - 1].kind.Crashed?
  {
  }

  lemma {:induction false} TellsEnding(w: Workflow, maxRetries: nat, binding: Option<Binding>, history: seq<Event>)
    requires Tells(w, maxRetries, binding, history)
    requires history != [] && Retries(history) > maxRetries ==>
               FailedGate(history[|history| - 1].kind) || history[|history| - 1].kind.Crashed?
    ensures Ending(w, maxRetries, history)
  {
    if history == [] {
      assert Retries([]) == 0 && !BlockedAfter([]) && BlockReason([]) == None && Work([]) == [];
    } else {
      hide Retries, BlockedAfter, BlockReason, Work, StandsIn;
      if Over(history, maxRetries) {
        assert EndedAs(w, history);
      } else {
        assert StandsAs(w, history);
      }
    }
  }
}
