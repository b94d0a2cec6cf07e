/** What the usage ledger answers to a request, and what it keeps of one over whole runs. */
module BudgetAdmission {
  import opened Wrappers
  import opened Numbers
  import opened Texts
  import opened UsageCost
  import opened Budget

  // ----- the decision on a request -----

  predicate InRange(ledger: Ledger, request: Request, limits: Limits) {
    && Amount(SpentBy(ledger, request.workflowId)) && Amount(ledger.dailySpent)
    && Amount(limits.workflowCap) && Amount(limits.dailyCap) && Amount(request.estimate)
  }

  // The workflow, and the day, have something left under their caps.
  ghost predicate BelowCaps(ledger: Ledger, request: Request, limits: Limits) {
    && Committed(ledger, Some(request.workflowId)) < limits.workflowCap
    && Committed(ledger, None) < limits.dailyCap
  }

  // There is a place for the workflow: it has one already, or taking it in stays within the limit.
  ghost predicate HasPlace(ledger: Ledger, workflowId: Id, concurrency: int) {
    Occupies(ledger, workflowId) || |OccupiedWorkflows(ledger) + {workflowId}| <= concurrency
  }

  // A workflow occupies a place while it is active or holds a reservation.
  ghost predicate Occupies(ledger: Ledger, workflowId: Id) {
    || workflowId in ledger.activeWorkflowIds
    || exists id :: id in ledger.reservations && ledger.reservations[id].workflowId == workflowId
  }

  // With the estimate added, both commitments stay within the admission share of their caps.
  ghost predicate Fits(ledger: Ledger, request: Request, limits: Limits, percent: int) {
    && 100 * (Committed(ledger, Some(request.workflowId)) + request.estimate) <= percent * limits.workflowCap
    && 100 * (Committed(ledger, None) + request.estimate) <= percent * limits.dailyCap
  }

  lemma OccupiedAre(ledger: Ledger, workflowId: Id)
    ensures workflowId in OccupiedWorkflows(ledger) <==> Occupies(ledger, workflowId)
    ensures Occupies(ledger, workflowId)
        || |OccupiedWorkflows(ledger) + {workflowId}| == |OccupiedWorkflows(ledger)| + 1
  {
  }

  lemma WithinShare(x: int, cap: int, percent: int)
    ensures x <= ReservedLimit(cap, percent) <==> 100 * x <= percent * cap
  {
  }

  /**
   * Each answer is given under its own condition and no other: amounts out of range, a cap reached by
   * the workflow, a cap reached by the day, a limit on places that is none, no place left, a share that
   * is none, no room under the share of the caps; and otherwise the request is admitted.
   */
  lemma DecidesExactly(ledger: Ledger, request: Request, limits: Limits)
    ensures var decision := DecideBudgetAction(ledger, request, limits);
            var percent := limits.reservePercent.GetOr(80);
            var inRange := InRange(ledger, request, limits);
            var open := inRange && BelowCaps(ledger, request, limits);
            var limited := open && 1 <= limits.concurrency <= MAX_SAFE_INTEGER;
            var placed := limited && HasPlace(ledger, request.workflowId, limits.concurrency);
            var shared := placed && 0 <= percent <= 100;
            && (decision == Err(BadAmount) <==> !inRange)
            && (decision == Ok(ExhaustWorkflow) <==>
                inRange && Committed(ledger, Some(request.workflowId)) >= limits.workflowCap)
            && (decision == Ok(ExhaustDaily) <==>
                && inRange && Committed(ledger, Some(request.workflowId)) < limits.workflowCap
                && Committed(ledger, None) >= limits.dailyCap)
            && (decision == Err(BadConcurrency) <==> open && !limited)
            && (decision == Ok(CancelConcurrency) <==> limited && !placed)
            && (decision == Err(BadPercent) <==> placed && !shared)
            && (decision == Ok(CancelAdmissionReserve) <==> shared && !Fits(ledger, request, limits, percent))
            && (decision == Ok(Admit) <==> shared && Fits(ledger, request, limits, percent))
  {
    var percent := limits.reservePercent.GetOr(80);
    OccupiedAre(ledger, request.workflowId);
    WithinShare(Committed(ledger, Some(request.workflowId)) + request.estimate, limits.workflowCap, percent);
    WithinShare(Committed(ledger, None) + request.estimate, limits.dailyCap, percent);
    hide ReservedTotal, OccupiedWorkflows, Occupies, ReservedLimit;
  }

  // ----- places, over whole runs -----

  lemma {:induction false} SubsetIsSmaller(a: set<Id>, b: set<Id>)
    requires a <= b
    ensures |a| <= |b|
    decreases |a|
  {
    if x :| x in a {
      SubsetIsSmaller(a - {x}, b - {x});
    }
  }

  function AtLeast(a: int, b: int): int {
    if a >= b then a else b
  }

  // Whether marking a workflow active takes a place it did not have.
  ghost predicate TakesPlace(ledger: Ledger, op: Op) {
    op.Activate? && !Occupies(ledger, op.workflowId)
  }

  lemma ReservingOccupies(ledger: Ledger, request: Request, limits: Limits)
    ensures var after := Apply(ledger, Reserve(request), limits);
            || OccupiedWorkflows(after) <= OccupiedWorkflows(ledger)
            || (&& OccupiedWorkflows(after) <= OccupiedWorkflows(ledger) + {request.workflowId}
                && HasPlace(ledger, request.workflowId, limits.concurrency))
  {
    DecidesExactly(ledger, request, limits);
    hide DecideBudgetAction, InRange, BelowCaps, Fits, HasPlace, ReservedTotal;
    var after := Apply(ledger, Reserve(request), limits);
    if after != ledger {
      var id, r := request.reservationId, Reservation(request.workflowId, request.estimate);
      assert after == ledger.(reservations := ledger.reservations[id := r]);
    }
  }

  lemma {:induction false} RemoveOnlyRemoves(ids: seq<Id>, id: Id)
    ensures forall x :: x in Remove(ids, id) <==> x in ids && x != id
  {
    if ids != [] {
      RemoveOnlyRemoves(ids[1..], id);
      assert ids == [ids[0]] + ids[1..];
    }
  }

  // With no more reservations, and no more active ids, no more places are taken.
  lemma FewerOccupy(ledger: Ledger, after: Ledger)
    requires forall id :: id in after.activeWorkflowIds ==> id in ledger.activeWorkflowIds
    requires forall id :: id in after.reservations ==>
               id in ledger.reservations && after.reservations[id] == ledger.reservations[id]
    ensures OccupiedWorkflows(after) <= OccupiedWorkflows(ledger)
  {
  }

  lemma SettlingOccupies(ledger: Ledger, op: Op, limits: Limits)
    requires op.Release? || op.Consume? || op.Record? || op.Deactivate?
    ensures OccupiedWorkflows(Apply(ledger, op, limits)) <= OccupiedWorkflows(ledger)
  {
    if op.Deactivate? { RemoveOnlyRemoves(ledger.activeWorkflowIds, op.workflowId); }
    hide OccupiedWorkflows, Remove;
    FewerOccupy(ledger, Apply(ledger, op, limits));
  }

  // Marking a workflow inactive takes away its place, unless it still holds a reservation, and no other.
  lemma DeactivatingFrees(ledger: Ledger, workflowId: Id, other: Id)
    ensures var after := MarkWorkflowInactive(ledger, workflowId);
            && after == ledger.(activeWorkflowIds := after.activeWorkflowIds)
            && (other in after.activeWorkflowIds <==> other in ledger.activeWorkflowIds && other != workflowId)
  {
    RemoveOnlyRemoves(ledger.activeWorkflowIds, workflowId);
  }

  lemma ActivatingOccupies(ledger: Ledger, workflowId: Id)
    ensures OccupiedWorkflows(MarkWorkflowActive(ledger, workflowId))
            == OccupiedWorkflows(ledger) + if Occupies(ledger, workflowId) then {} else {workflowId}
  {
    OccupiedAre(ledger, workflowId);
  }

  /** Only marking a workflow active can take the places in use above the limit, and then by one. */
  lemma ApplyKeepsPlaces(ledger: Ledger, op: Op, limits: Limits)
    ensures |OccupiedWorkflows(Apply(ledger, op, limits))|
            <= AtLeast(|OccupiedWorkflows(ledger)|, limits.concurrency) + if TakesPlace(ledger, op) then 1 else 0
  {
    var before, after := OccupiedWorkflows(ledger), OccupiedWorkflows(Apply(ledger, op, limits));
    hide OccupiedWorkflows, Occupies;
    if op.Activate? {
      ActivatingOccupies(ledger, op.workflowId);
      OccupiedAre(ledger, op.workflowId);
      assert before + {} == before;
    } else if op.Reserve? {
      hide Apply;
      ReservingOccupies(ledger, op.request, limits);
      OccupiedAre(ledger, op.request.workflowId);
      var w := op.request.workflowId;
      if after <= before {
        SubsetIsSmaller(after, before);
      } else {
        SubsetIsSmaller(after, before + {w});
        assert w in before ==> before + {w} == before;
      }
    } else {
      hide Apply;
      SettlingOccupies(ledger, op, limits);
      SubsetIsSmaller(after, before);
    }
  }

  // How often a workflow without a place was marked active.
  ghost function PlacesTaken(ops: seq<Op>, limits: Limits): nat {
    if ops == [] then 0
    else
      var earlier := ops[..|ops| - 1];
      PlacesTaken(earlier, limits) + if TakesPlace(Run(earlier, limits), ops[|ops| - 1]) then 1 else 0
  }

  /**
   * Over any run, the workflows that are active or hold a reservation are no more than the concurrency
   * limit and those that were marked active without a place: reserving never goes beyond the limit.
   */
  lemma {:induction false} PlacesHold(ops: seq<Op>, limits: Limits)
    ensures |OccupiedWorkflows(Run(ops, limits))| <= AtLeast(limits.concurrency, 0) + PlacesTaken(ops, limits)
  {
    if ops == [] {
      assert OccupiedWorkflows(EMPTY) == {};
    } else {
      hide OccupiedWorkflows, TakesPlace, Apply;
      var earlier := ops[..|ops| - 1];
      PlacesHold(earlier, limits);
      ApplyKeepsPlaces(Run(earlier, limits), ops[|ops| - 1], limits);
    }
  }

  // ----- the life of a reservation -----

  ghost predicate Open(ledger: Ledger, id: Id, r: Reservation) {
    id in ledger.reservations && ledger.reservations[id] == r && id !in ledger.settled
  }

  ghost predicate Closed(ledger: Ledger, id: Id, r: Reservation, outcome: Outcome) {
    id !in ledger.reservations && id in ledger.settled && ledger.settled[id] == Settlement(r, outcome)
  }

  // The amount is one, and both totals stay safe integers with it.
  predicate Recordable(ledger: Ledger, op: Op)
    requires op.Record?
  {
    && 0 <= op.microdollars
    && ledger.dailySpent + op.microdollars <= MAX_SAFE_INTEGER
    && SpentBy(ledger, op.workflowId) + op.microdollars <= MAX_SAFE_INTEGER
  }

  lemma RecordsExactly(ledger: Ledger, op: Op)
    requires op.Record?
    ensures RecordUsageCost(ledger, op.workflowId, op.microdollars).Ok? <==> Recordable(ledger, op)
  {
  }

  // An operation that closes the reservation, and how.
  predicate Closes(op: Op, id: Id, outcome: Outcome) {
    match outcome
    case Released => op == Release(id)
    case Consumed(actual) => op == Consume(id, actual)
  }

  lemma OpenUntilClosed(ledger: Ledger, op: Op, limits: Limits, id: Id, r: Reservation)
    requires Open(ledger, id, r)
    ensures var after := Apply(ledger, op, limits);
            Open(after, id, r) || exists outcome :: Closes(op, id, outcome) && Closed(after, id, r, outcome)
    ensures op == Release(id) ==> Closed(Apply(ledger, op, limits), id, r, Released)
    ensures op.Consume? && op.id == id ==>
              (Open(Apply(ledger, op, limits), id, r) <==> !Recordable(ledger, Record(r.workflowId, op.actual)))
  {
    hide DecideBudgetAction;
    var after := Apply(ledger, op, limits);
    match op
    case Release(x) => if x == id { assert Closes(op, id, Released) && Closed(after, id, r, Released); }
    case Consume(x, actual) =>
      if x == id && after != ledger {
        assert Closes(op, id, Consumed(actual)) && Closed(after, id, r, Consumed(actual));
      }
    case _ =>
  }

  lemma ClosedForGood(ledger: Ledger, op: Op, limits: Limits, id: Id, r: Reservation, outcome: Outcome)
    requires Closed(ledger, id, r, outcome)
    ensures Closed(Apply(ledger, op, limits), id, r, outcome)
  {
    hide DecideBudgetAction;
  }

  // Where an executed reservation is later: still open, or closed by the first operation that could.
  ghost predicate Lives(ops: seq<Op>, limits: Limits, i: nat, id: Id, r: Reservation) {
    || Open(Run(ops, limits), id, r)
    || exists k: nat, outcome :: i < k < |ops| && Closes(ops[k], id, outcome)
                                 && Closed(Run(ops, limits), id, r, outcome)
  }

  /**
   * A reservation that was told to execute is kept as it was requested, open until it is released or
   * consumed, and from then on settled as that operation said, whatever else happens.
   */
  lemma {:induction false} ReservationLives(ops: seq<Op>, limits: Limits, i: nat, id: Id)
    requires i < |ops| && Executes(Run(ops[..i], limits), ops[i], limits, id)
    ensures var request := ops[i].request;
            request.estimate >= 0 && Lives(ops, limits, i, id, Reservation(request.workflowId, request.estimate))
    decreases |ops|
  {
    var n := |ops| - 1;
    var earlier, last := ops[..n], ops[n];
    var before := Run(earlier, limits);
    assert Run(ops, limits) == Apply(before, last, limits);
    if i == n {
      ExecutingOpens(before, last, limits, id);
    } else {
      assert earlier[..i] == ops[..i] && earlier[i] == ops[i];
      ReservationLives(earlier, limits, i, id);
      var r := Reservation(ops[i].request.workflowId, ops[i].request.estimate);
      hide Apply, Open, Closed, Closes, Run, Executes;
      if Open(before, id, r) {
        OpenUntilClosed(before, last, limits, id, r);
        if !Open(Run(ops, limits), id, r) {
          var outcome :| Closes(last, id, outcome) && Closed(Apply(before, last, limits), id, r, outcome);
          assert Closes(ops[n], id, outcome);
        }
      } else {
        var k: nat, outcome :| i < k < n && Closes(earlier[k], id, outcome) && Closed(before, id, r, outcome);
        ClosedForGood(before, last, limits, id, r, outcome);
        assert Closes(ops[k], id, outcome);
      }
    }
  }

  lemma ExecutingOpens(ledger: Ledger, op: Op, limits: Limits, id: Id)
    requires Executes(ledger, op, limits, id)
    ensures op.request.estimate >= 0
    ensures Open(Apply(ledger, op, limits), id, Reservation(op.request.workflowId, op.request.estimate))
  {
  }

  /**
   * What each operation answers for an id: nothing changes for one that is closed, the first outcome is
   * the answer, and any other is an error; an open one is admitted again without executing; and other
   * details under the same id are always an error.
   */
  lemma AnswersExactly(ledger: Ledger, id: Id, r: Reservation, outcome: Outcome, request: Request, actual: int,
                       limits: Limits)
    requires !Blank(id) && request.reservationId == id
    ensures var same := request.workflowId == r.workflowId && request.estimate == r.microdollars;
            && (Open(ledger, id, r) ==>
                  ReserveBudget(ledger, request, limits)
                  == if same then Ok(Decided(Admit, false, ledger)) else Err(ReusedReservationId))
            && (Closed(ledger, id, r, outcome) ==>
                  && ReserveBudget(ledger, request, limits)
                     == (if same then Ok(Replayed(outcome, ledger)) else Err(ReusedReservationId))
                  && ReleaseBudgetReservation(ledger, id)
                     == (if outcome == Released then Ok(ledger) else Err(AlreadyConsumed))
                  && ConsumeBudgetReservation(ledger, id, actual)
                     == (if actual >= 0 && outcome == Consumed(actual) then Ok(ledger) else Err(SettlementReplayed)))
            && (!KnownId(ledger, id) ==>
                  && ReleaseBudgetReservation(ledger, id) == Ok(ledger)
                  && ConsumeBudgetReservation(ledger, id, actual) == Err(UnknownReservation))
  {
  }

  // ----- what a workflow has spent -----

  function ConsumedBy(settled: map<Id, Settlement>, workflowId: Id): map<Id, nat> {
    map id | id in settled && settled[id].request.workflowId == workflowId && settled[id].outcome.Consumed?
      :: settled[id].outcome.actual
  }

  // Usage of the workflow that was recorded rather than consumed from a reservation.
  ghost function DirectUsageBy(ops: seq<Op>, limits: Limits, workflowId: Id): nat {
    if ops == [] then 0
    else
      var earlier, last := ops[..|ops| - 1], ops[|ops| - 1];
      DirectUsageBy(earlier, limits, workflowId)
      + if last.Record? && last.workflowId == workflowId && Recordable(Run(earlier, limits), last)
        then last.microdollars else 0
  }

  ghost predicate SpentIs(ledger: Ledger, workflowId: Id, direct: nat) {
    SpentBy(ledger, workflowId) == Budget.Total(ConsumedBy(ledger.settled, workflowId)) + direct
  }

  lemma ClosingSpends(ledger: Ledger, id: Id, r: Reservation, outcome: Outcome, workflowId: Id)
    requires id !in ledger.settled
    ensures Budget.Total(ConsumedBy(ledger.settled[id := Settlement(r, outcome)], workflowId))
            == Budget.Total(ConsumedBy(ledger.settled, workflowId))
               + if outcome.Consumed? && r.workflowId == workflowId then outcome.actual else 0
  {
    hide Budget.Total;
    var before := ConsumedBy(ledger.settled, workflowId);
    var after := ConsumedBy(ledger.settled[id := Settlement(r, outcome)], workflowId);
    if outcome.Consumed? && r.workflowId == workflowId {
      assert after == before[id := outcome.actual];
      SumUpdate(before, id, outcome.actual);
    } else {
      assert after == before;
    }
  }

  lemma ApplySpends(ledger: Ledger, op: Op, limits: Limits, workflowId: Id, direct: nat)
    requires SpentIs(ledger, workflowId, direct) && ledger.reservations.Keys !! ledger.settled.Keys
    ensures SpentIs(Apply(ledger, op, limits), workflowId,
                    direct + if op.Record? && op.workflowId == workflowId && Recordable(ledger, op)
                             then op.microdollars else 0)
  {
    hide Budget.Total, ConsumedBy, DecideBudgetAction;
    match op
    case Release(id) =>
      if id in ledger.reservations { ClosingSpends(ledger, id, ledger.reservations[id], Released, workflowId); }
    case Consume(id, actual) =>
      if id in ledger.reservations && ConsumeBudgetReservation(ledger, id, actual).Ok? {
        ClosingSpends(ledger, id, ledger.reservations[id], Consumed(actual), workflowId);
      }
    case Record(_, _) => RecordsExactly(ledger, op);
    case _ =>
  }

  /** Over any run, a workflow has spent what its own reservations consumed and its own direct usage. */
  lemma {:induction false} WorkflowBalances(ops: seq<Op>, limits: Limits, workflowId: Id)
    ensures SpentIs(Run(ops, limits), workflowId, DirectUsageBy(ops, limits, workflowId))
  {
    if ops == [] {
      assert ConsumedBy(map[], workflowId) == map[];
    } else {
      hide SpentIs, Apply, Recordable;
      var earlier := ops[..|ops| - 1];
      WorkflowBalances(earlier, limits, workflowId);
      RunBalances(earlier, limits);
      ApplySpends(Run(earlier, limits), ops[|ops| - 1], limits, workflowId, DirectUsageBy(earlier, limits, workflowId));
    }
  }
}
