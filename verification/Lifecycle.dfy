/** Run lifecycle and approvals (packages/core/src/lifecycle.ts), two more clients of the window. */
module Lifecycle {
  import opened Wrappers
  import opened EventWindow

  datatype Status = Queued | Running | AwaitingApproval | Blocked | Succeeded | Failed | Cancelled | BudgetExhausted

  datatype Kind = Start | RequestApproval | Resume | Block | Unblock | Succeed | Fail | Cancel | ExhaustBudget

  datatype Event = Event(id: string, kind: Kind)

  predicate Terminal(status: Status) {
    status in {Succeeded, Failed, Cancelled, BudgetExhausted}
  }

  // The transition table.
  function Next(status: Status, kind: Kind): Option<Status> {
    match (status, kind)
    case (Queued, Start) => Some(Running)
    case (Queued, Cancel) => Some(Cancelled)
    case (Queued, ExhaustBudget) => Some(BudgetExhausted)
    case (Queued, Block) => Some(Blocked)
    case (Running, RequestApproval) => Some(AwaitingApproval)
    case (Running, Block) => Some(Blocked)
    case (Running, Succeed) => Some(Succeeded)
    case (Running, Fail) => Some(Failed)
    case (Running, Cancel) => Some(Cancelled)
    case (Running, ExhaustBudget) => Some(BudgetExhausted)
    case (AwaitingApproval, Resume) => Some(Running)
    case (AwaitingApproval, Block) => Some(Blocked)
    case (AwaitingApproval, Fail) => Some(Failed)
    case (AwaitingApproval, Cancel) => Some(Cancelled)
    case (AwaitingApproval, ExhaustBudget) => Some(BudgetExhausted)
    case (Blocked, Unblock) => Some(Queued)
    case (Blocked, Resume) => Some(Running)
    case (Blocked, Fail) => Some(Failed)
    case (Blocked, Cancel) => Some(Cancelled)
    case (Blocked, ExhaustBudget) => Some(BudgetExhausted)
    case _ => None
  }

  function LifecycleReducer<F>(fingerprint: Event -> F): Reducer<Status, Event, F> {
    Reducer((e: Event) => e.id, fingerprint, (e: Event) => ValidEventId(e.id), (s: Status, e: Event) => Next(s, e.kind))
  }

  function Kinds(events: seq<Event>): seq<Kind> {
    seq(|events|, i requires 0 <= i < |events| => events[i].kind)
  }

  lemma OneMoreKind(history: seq<Event>, e: Event)
    ensures Kinds(history + [e]) == Kinds(history) + [e.kind]
  {
  }

  // ----- a lifecycle told from its history -----

  predicate Ends(kind: Kind) {
    kind == Succeed || kind == Fail || kind == Cancel || kind == ExhaustBudget
  }

  // Which event may come next: it depends on the last one alone.
  predicate MayFollow(kinds: seq<Kind>, kind: Kind) {
    if kinds == [] then kind in {Start, Block, Cancel, ExhaustBudget}
    else
      var last := kinds[|kinds| - 1];
      && !Ends(last)
      && match kind
         case Start => last == Unblock
         case RequestApproval => last in {Start, Resume}
         case Succeed => last in {Start, Resume}
         case Resume => last in {RequestApproval, Block}
         case Block => last != Block
         case Unblock => last == Block
         case Fail => last != Unblock
         case Cancel => true
         case ExhaustBudget => true
  }

  // Each status is reached by its own events, and nothing else reaches it.
  ghost predicate Tells(status: Status, kinds: seq<Kind>) {
    if kinds == [] then status == Queued
    else
      var last := kinds[|kinds| - 1];
      && (status == Queued <==> last == Unblock)
      && (status == Running <==> last == Start || last == Resume)
      && (status == AwaitingApproval <==> last == RequestApproval)
      && (status == Blocked <==> last == Block)
      && (status == Succeeded <==> last == Succeed)
      && (status == Failed <==> last == Fail)
      && (status == Cancelled <==> last == Cancel)
      && (status == BudgetExhausted <==> last == ExhaustBudget)
  }

  lemma StepIsTold(status: Status, kinds: seq<Kind>, kind: Kind)
    requires Tells(status, kinds)
    ensures Next(status, kind).Some? <==> MayFollow(kinds, kind)
    ensures Next(status, kind).Some? ==> Tells(Next(status, kind).value, kinds + [kind])
  {
  }

  lemma LifecycleIsJudged<F>(fingerprint: Event -> F)
    ensures var r := LifecycleReducer(fingerprint);
            var tells := (status: Status, h: seq<Event>) => Tells(status, Kinds(h));
            && tells(Queued, []) && Kept(r, tells)
            && Judged(r, tells, (h: seq<Event>, e: Event) => ValidEventId(e.id) && MayFollow(Kinds(h), e.kind))
  {
    forall status: Status, h: seq<Event>, e: Event | Tells(status, Kinds(h))
      ensures Next(status, e.kind).Some? <==> MayFollow(Kinds(h), e.kind)
      ensures Next(status, e.kind).Some? ==> Tells(Next(status, e.kind).value, Kinds(h + [e]))
    {
      StepIsTold(status, Kinds(h), e.kind);
      OneMoreKind(h, e);
    }
    assert Kinds([]) == [];
    hide Tells, MayFollow, Next, Kinds;
  }

  /**
   * In any replay each event taken may follow the one before it, so that an event which ends the
   * lifecycle is the last, and success follows a start or a resume; the status is the one the last
   * event leads to; and a new event is accepted exactly when it may follow that one.
   */
  lemma LifecycleEnds<F>(fingerprint: Event -> F, events: seq<Event>, e: Event)
    requires Replay(LifecycleReducer(fingerprint), State(Queued, Window([], map[])), events).Some?
    ensures var r := LifecycleReducer(fingerprint); var s := State(Queued, Window([], map[]));
            var now, kinds := Replay(r, s, events).value, Kinds(Accepted(r, s, events));
            && (forall i :: 0 <= i < |kinds| ==> MayFollow(kinds[..i], kinds[i]))
            && Tells(now.core, kinds)
            && (IsNew(r, now, e) ==>
                  (Reduce(r, now, e).Some? <==> ValidEventId(e.id) && MayFollow(kinds, e.kind)))
  {
    var r := LifecycleReducer(fingerprint);
    var s: State<Status, F> := State(Queued, Window([], map[]));
    var tells := (status: Status, h: seq<Event>) => Tells(status, Kinds(h));
    var allowed := (h: seq<Event>, x: Event) => ValidEventId(x.id) && MayFollow(Kinds(h), x.kind);
    var accepted := Accepted(r, s, events);
    LifecycleIsJudged(fingerprint);
    NextIsJudged(r, tells, allowed, Queued, events, e);
    hide Tells, MayFollow, LifecycleReducer, Replay, Accepted, Reduce;
    forall i | 0 <= i < |accepted| ensures MayFollow(Kinds(accepted)[..i], accepted[i].kind) {
      assert allowed([] + accepted[..i], accepted[i]) && [] + accepted[..i] == accepted[..i];
      KindsOfFirst(accepted, i);
    }
  }

  lemma KindsOfFirst(events: seq<Event>, n: nat)
    requires n <= |events|
    ensures Kinds(events[..n]) == Kinds(events)[..n]
  {
  }

  // ----- approvals -----

  datatype ApprovalStatus = Pending | Approved | Rejected | Expired

  datatype Approval = Approval(
    scopeHash: string, requestedAt: int, expiresAt: int,
    status: ApprovalStatus, actorId: Option<string>, reason: Option<string>, decidedAt: Option<int>)

  datatype Decision =
    | Approve(actorId: string, scopeHash: string)
    | Reject(actorId: string, scopeHash: string, reason: Option<string>)
    | Expire

  datatype ApprovalEvent = ApprovalEvent(id: string, decision: Decision, occurredAt: int)

  function CreateApproval(scopeHash: string, requestedAt: int, expiresAt: int): Option<Approval> {
    if expiresAt <= requestedAt then None
    else Some(Approval(scopeHash, requestedAt, expiresAt, Pending, None, None, None))
  }

  function Decide(a: Approval, e: ApprovalEvent): Option<Approval> {
    if a.status != Pending || e.occurredAt < a.requestedAt then None
    else if e.decision.Expire? && e.occurredAt < a.expiresAt then None
    else if e.decision.Expire? || e.occurredAt >= a.expiresAt then
      Some(a.(status := Expired, decidedAt := Some(e.occurredAt)))
    else match e.decision
      case Approve(actorId, _) =>
        Some(a.(status := Approved, actorId := Some(actorId), decidedAt := Some(e.occurredAt)))
      case Reject(actorId, _, reason) =>
        Some(a.(status := Rejected, actorId := Some(actorId), reason := if reason.Some? then reason else a.reason,
                decidedAt := Some(e.occurredAt)))
      case Expire => None
  }

  // A decision for another scope is refused before the window is even consulted; the scope of
  // an approval never changes, so the check is one on the event alone.
  function ApprovalReducer<F>(scopeHash: string, fingerprint: ApprovalEvent -> F): Reducer<Approval, ApprovalEvent, F> {
    Reducer((e: ApprovalEvent) => e.id, fingerprint,
            (e: ApprovalEvent) => ValidEventId(e.id) && (e.decision.Expire? || e.decision.scopeHash == scopeHash),
            (a: Approval, e: ApprovalEvent) => Decide(a, e))
  }

  lemma DecidedIsFinal<F>(scopeHash: string, fingerprint: ApprovalEvent -> F, a: Approval,
                          events: seq<ApprovalEvent>, to: Approval)
    requires a.status != Pending && Steps(ApprovalReducer(scopeHash, fingerprint), a, events, to)
    ensures events == [] && to == a
  {
  }

  // A decision is for this very scope, no earlier than the request; only what is due expires.
  predicate MayDecide(scopeHash: string, requestedAt: int, expiresAt: int, e: ApprovalEvent) {
    && ValidEventId(e.id) && requestedAt <= e.occurredAt
    && match e.decision
       case Approve(_, hash) => hash == scopeHash
       case Reject(_, hash, _) => hash == scopeHash
       case Expire => expiresAt <= e.occurredAt
  }

  // What the one event decided, who decided it, when, and why.
  ghost predicate DecidedBy(a: Approval, e: ApprovalEvent) {
    && a.decidedAt == Some(e.occurredAt)
    && (a.status == Expired <==> a.expiresAt <= e.occurredAt)
    && (a.status == Approved <==> e.decision.Approve? && e.occurredAt < a.expiresAt)
    && (a.status == Rejected <==> e.decision.Reject? && e.occurredAt < a.expiresAt)
    && (a.status == Approved ==> a.actorId == Some(e.decision.actorId) && a.reason == None)
    && (a.status == Rejected ==> a.actorId == Some(e.decision.actorId) && a.reason == e.decision.reason)
    && (a.status == Expired ==> a.actorId == None && a.reason == None)
  }

  /**
   * A decision once made is final. A replay takes at most one event, one that may decide this request,
   * and what is decided is what that event says, or expiry if it comes too late; and while nothing is
   * decided, every new event that may decide it does.
   */
  lemma OneDecision<F>(scopeHash: string, requestedAt: int, expiresAt: int, fingerprint: ApprovalEvent -> F,
                       events: seq<ApprovalEvent>, e: ApprovalEvent)
    requires requestedAt < expiresAt
    requires var s := State(CreateApproval(scopeHash, requestedAt, expiresAt).value, Window([], map[]));
             Replay(ApprovalReducer(scopeHash, fingerprint), s, events).Some?
    ensures var r := ApprovalReducer(scopeHash, fingerprint);
            var s := State(CreateApproval(scopeHash, requestedAt, expiresAt).value, Window([], map[]));
            var now := Replay(r, s, events).value;
            var a, accepted := now.core, Accepted(r, s, events);
            && a.scopeHash == scopeHash && a.requestedAt == requestedAt && a.expiresAt == expiresAt
            && |accepted| <= 1 && (a.status == Pending <==> accepted == [])
            && (accepted != [] ==>
                  MayDecide(scopeHash, requestedAt, expiresAt, accepted[0]) && DecidedBy(a, accepted[0]))
            && (IsNew(r, now, e) ==>
                  (Reduce(r, now, e).Some? <==> accepted == [] && MayDecide(scopeHash, requestedAt, expiresAt, e)))
  {
    var r := ApprovalReducer(scopeHash, fingerprint);
    var s := State(CreateApproval(scopeHash, requestedAt, expiresAt).value, Window([], map[]));
    var accepted := Accepted(r, s, events);
    ReplayIsSteps(r, s, events);
    if accepted != [] {
      DecidedIsFinal(scopeHash, fingerprint, Decide(s.core, accepted[0]).value, accepted[1..],
          Replay(r, s, events).value.core);
    }
  }
}
