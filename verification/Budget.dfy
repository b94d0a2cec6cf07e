/** The usage ledger (packages/core/src/budget.ts): admission, reservations and settlements. */
module Budget {
  import opened Wrappers
  import opened Numbers
  import opened Permutations
  import opened UsageCost
  import opened Texts

  type Id = string

  datatype Reservation = Reservation(workflowId: Id, microdollars: nat)

  datatype Outcome = Consumed(actual: nat) | Released

  // The request a settled reservation was made with is what its fingerprint spells out.
  datatype Settlement = Settlement(request: Reservation, outcome: Outcome)

  datatype Ledger = Ledger(
    dailySpent: nat,
    workflowSpent: map<Id, nat>,
    activeWorkflowIds: seq<Id>,
    reservations: map<Id, Reservation>,
    settled: map<Id, Settlement>,
    settledIds: seq<Id>)

  datatype Limits = Limits(workflowCap: int, dailyCap: int, concurrency: int, reservePercent: Option<int>)

  datatype Request = Request(reservationId: Id, workflowId: Id, estimate: int)

  datatype Decision = Admit | CancelConcurrency | CancelAdmissionReserve | ExhaustWorkflow | ExhaustDaily

  datatype Reserved =
    | Decided(decision: Decision, shouldExecute: bool, ledger: Ledger)
    | Replayed(outcome: Outcome, ledger: Ledger)

  datatype Error =
    | BadAmount | TotalTooLarge | BadConcurrency | BadPercent | EmptyReservationId
    | ReusedReservationId | AlreadyConsumed | SettlementReplayed | UnknownReservation

  const EMPTY: Ledger := Ledger(0, map[], [], map[], map[], [])

  // ----- sums over maps -----

  ghost function Total<K>(m: map<K, nat>): nat
    decreases |m|
  {
    if m == map[] then 0
    else var k :| k in m; m[k] + Total(m - {k})
  }

  lemma {:induction false} TotalWithout<K>(m: map<K, nat>, k: K)
    requires k in m
    ensures Total(m) == m[k] + Total(m - {k})
    decreases |m|
  {
    var first :| first in m && Total(m) == m[first] + Total(m - {first});
    if first != k {
      TotalWithout(m - {first}, k);
      TotalWithout(m - {k}, first);
      assert m - {first} - {k} == m - {k} - {first};
    }
  }

  lemma SumUpdate<K>(m: map<K, nat>, k: K, v: nat)
    ensures Total(m[k := v]) == Total(m) - (if k in m then m[k] else 0) + v
  {
    TotalWithout(m[k := v], k);
    assert m[k := v] - {k} == m - {k};
    if k in m {
      TotalWithout(m, k);
    } else {
      assert m - {k} == m;
    }
  }

  // ----- totals -----

  // What is reserved, for one workflow or for all.
  function ReservedAmounts(reservations: map<Id, Reservation>, workflowId: Option<Id>): map<Id, nat> {
    map id | id in reservations && (workflowId.None? || reservations[id].workflowId == workflowId.value)
      :: reservations[id].microdollars
  }

  ghost function ReservedTotal(reservations: map<Id, Reservation>, workflowId: Option<Id>): nat {
    Total(ReservedAmounts(reservations, workflowId))
  }

  /** Adds up the reservations, whichever way they come. */
  method ReservationTotal(ledger: Ledger, workflowId: Option<Id>) returns (total: nat)
    ensures total == ReservedTotal(ledger.reservations, workflowId)
  {
    total := 0;
    var left := ledger.reservations;
    while left.Keys != {}
      invariant left.Keys <= ledger.reservations.Keys
      invariant total + ReservedTotal(left, workflowId) == ReservedTotal(ledger.reservations, workflowId)
      decreases left.Keys
    {
      var id :| id in left.Keys;
      ReservedWithout(left, id, workflowId);
      if workflowId.None? || left[id].workflowId == workflowId.value {
        total := total + left[id].microdollars;
      }
      left := left - {id};
    }
    assert ReservedAmounts(left, workflowId) == map[];
  }

  lemma ReservedWithout(reservations: map<Id, Reservation>, id: Id, workflowId: Option<Id>)
    requires id in reservations
    ensures ReservedTotal(reservations, workflowId) == ReservedTotal(reservations - {id}, workflowId)
            + if workflowId.None? || reservations[id].workflowId == workflowId.value
              then reservations[id].microdollars else 0
  {
    var amounts := ReservedAmounts(reservations, workflowId);
    if id in amounts {
      TotalWithout(amounts, id);
      assert amounts - {id} == ReservedAmounts(reservations - {id}, workflowId);
    } else {
      assert amounts == ReservedAmounts(reservations - {id}, workflowId);
    }
  }

  lemma ReservedWith(reservations: map<Id, Reservation>, id: Id, r: Reservation, workflowId: Option<Id>)
    requires id !in reservations
    ensures ReservedTotal(reservations[id := r], workflowId) == ReservedTotal(reservations, workflowId)
            + if workflowId.None? || r.workflowId == workflowId.value then r.microdollars else 0
  {
    ReservedWithout(reservations[id := r], id, workflowId);
    assert reservations[id := r] - {id} == reservations;
  }

  function SpentBy(ledger: Ledger, workflowId: Id): nat {
    if workflowId in ledger.workflowSpent then ledger.workflowSpent[workflowId] else 0
  }

  // ----- admission -----

  function ReservedLimit(limit: int, percent: int): int {
    limit * percent / 100
  }

  function OccupiedWorkflows(ledger: Ledger): set<Id> {
    (set id | id in ledger.activeWorkflowIds)
        + (set id | id in ledger.reservations :: ledger.reservations[id].workflowId)
  }

  ghost function DecideBudgetAction(ledger: Ledger, request: Request, limits: Limits): Result<Decision, Error> {
    if !(Amount(SpentBy(ledger, request.workflowId)) && Amount(ledger.dailySpent) && Amount(limits.workflowCap)
         && Amount(limits.dailyCap) && Amount(request.estimate)) then Err(BadAmount)
    else
      var workflowCommitted := SpentBy(ledger, request.workflowId)
          + ReservedTotal(ledger.reservations, Some(request.workflowId));
      var dailyCommitted := ledger.dailySpent + ReservedTotal(ledger.reservations, None);
      if workflowCommitted >= limits.workflowCap then Ok(ExhaustWorkflow)
      else if dailyCommitted >= limits.dailyCap then Ok(ExhaustDaily)
      else if !(0 < limits.concurrency <= MAX_SAFE_INTEGER) then Err(BadConcurrency)
      else if request.workflowId !in OccupiedWorkflows(ledger) && |OccupiedWorkflows(ledger)| >= limits.concurrency
      then Ok(CancelConcurrency)
      else
        var percent := limits.reservePercent.GetOr(80);
        if percent < 0 || percent > 100 then Err(BadPercent)
        else if workflowCommitted + request.estimate > ReservedLimit(limits.workflowCap, percent)
                || dailyCommitted + request.estimate > ReservedLimit(limits.dailyCap, percent)
        then Ok(CancelAdmissionReserve)
        else Ok(Admit)
  }

  ghost function ReserveBudget(ledger: Ledger, request: Request, limits: Limits): Result<Reserved, Error> {
    var id := request.reservationId;
    if Blank(id) then Err(EmptyReservationId)
    else if id in ledger.reservations then
      if ledger.reservations[id].workflowId != request.workflowId
          || ledger.reservations[id].microdollars != request.estimate
      then Err(ReusedReservationId)
      else Ok(Decided(Admit, false, ledger))
    else if id in ledger.settled then
      if ledger.settled[id].request.workflowId != request.workflowId
          || ledger.settled[id].request.microdollars != request.estimate
      then Err(ReusedReservationId)
      else Ok(Replayed(ledger.settled[id].outcome, ledger))
    else match DecideBudgetAction(ledger, request, limits)
      case Err(error) => Err(error)
      case Ok(Admit) =>
        var reservation := Reservation(request.workflowId, request.estimate);
        Ok(Decided(Admit, true, ledger.(reservations := ledger.reservations[id := reservation])))
      case Ok(decision) => Ok(Decided(decision, false, ledger))
  }

  // ----- spending and settling -----

  function RecordUsageCost(ledger: Ledger, workflowId: Id, microdollars: int): Result<Ledger, Error> {
    if !(Amount(microdollars) && Amount(SpentBy(ledger, workflowId)) && Amount(ledger.dailySpent)) then Err(BadAmount)
    else if ledger.dailySpent + microdollars > MAX_SAFE_INTEGER
        || SpentBy(ledger, workflowId) + microdollars > MAX_SAFE_INTEGER
    then Err(TotalTooLarge)
    else Ok(ledger.(dailySpent := ledger.dailySpent + microdollars,
                    workflowSpent := ledger.workflowSpent[workflowId := SpentBy(ledger, workflowId) + microdollars]))
  }

  function WithoutReservation(ledger: Ledger, id: Id): Ledger {
    ledger.(reservations := ledger.reservations - {id})
  }

  function SettleReservation(ledger: Ledger, id: Id, reservation: Reservation, outcome: Outcome): Ledger {
    ledger.(settledIds := ledger.settledIds + [id], settled := ledger.settled[id := Settlement(reservation, outcome)])
  }

  function ReleaseBudgetReservation(ledger: Ledger, id: Id): Result<Ledger, Error> {
    if id !in ledger.reservations then
      if id !in ledger.settled || ledger.settled[id].outcome.Released? then Ok(ledger) else Err(AlreadyConsumed)
    else Ok(SettleReservation(WithoutReservation(ledger, id), id, ledger.reservations[id], Released))
  }

  function ConsumeBudgetReservation(ledger: Ledger, id: Id, actual: int): Result<Ledger, Error> {
    if id !in ledger.reservations then
      if id !in ledger.settled then Err(UnknownReservation)
      else if ledger.settled[id].outcome.Consumed? && ledger.settled[id].outcome.actual == actual then Ok(ledger)
      else Err(SettlementReplayed)
    else
      var recorded := RecordUsageCost(WithoutReservation(ledger, id), ledger.reservations[id].workflowId, actual);
      match recorded
      case Err(error) => Err(error)
      case Ok(spent) => Ok(SettleReservation(spent, id, ledger.reservations[id], Consumed(actual)))
  }

  // The active ids are kept sorted by the source; their order plays no part in any decision.
  function MarkWorkflowActive(ledger: Ledger, workflowId: Id): Ledger {
    if workflowId in ledger.activeWorkflowIds then ledger
    else ledger.(activeWorkflowIds := ledger.activeWorkflowIds + [workflowId])
  }

  function Remove(ids: seq<Id>, id: Id): seq<Id> {
    if ids == [] then []
    else if ids[0] == id then Remove(ids[1..], id)
    else [ids[0]] + Remove(ids[1..], id)
  }

  function MarkWorkflowInactive(ledger: Ledger, workflowId: Id): Ledger {
    ledger.(activeWorkflowIds := Remove(ledger.activeWorkflowIds, workflowId))
  }

  // ----- runs of the ledger -----

  datatype Op =
    | Reserve(request: Request)
    | Release(id: Id)
    | Consume(id: Id, actual: int)
    | Record(workflowId: Id, microdollars: int)
    | Activate(workflowId: Id)
    | Deactivate(workflowId: Id)

  function OrUnchanged(result: Result<Ledger, Error>, ledger: Ledger): Ledger {
    if result.Ok? then result.value else ledger
  }

  // An operation that throws leaves the ledger as it was.
  ghost function Apply(ledger: Ledger, op: Op, limits: Limits): Ledger {
    match op
    case Reserve(request) => (match ReserveBudget(ledger, request, limits) case Ok(r) => r.ledger case Err(_) => ledger)
    case Release(id) => OrUnchanged(ReleaseBudgetReservation(ledger, id), ledger)
    case Consume(id, actual) => OrUnchanged(ConsumeBudgetReservation(ledger, id, actual), ledger)
    case Record(workflowId, microdollars) => OrUnchanged(RecordUsageCost(ledger, workflowId, microdollars), ledger)
    case Activate(workflowId) => MarkWorkflowActive(ledger, workflowId)
    case Deactivate(workflowId) => MarkWorkflowInactive(ledger, workflowId)
  }

  ghost function Run(ops: seq<Op>, limits: Limits): Ledger {
    if ops == [] then EMPTY else Apply(Run(ops[..|ops| - 1], limits), ops[|ops| - 1], limits)
  }

  // What one operation spends past what was reserved for it, by one workflow or by all.
  ghost function Overrun(ledger: Ledger, op: Op, workflowId: Option<Id>): nat {
    match op
    case Consume(id, actual) =>
      if id in ledger.reservations && ConsumeBudgetReservation(ledger, id, actual).Ok?
         && (workflowId.None? || ledger.reservations[id].workflowId == workflowId.value)
         && actual > ledger.reservations[id].microdollars
      then actual - ledger.reservations[id].microdollars else 0
    case Record(w, microdollars) =>
      if RecordUsageCost(ledger, w, microdollars).Ok? && (workflowId.None? || w == workflowId.value) then microdollars
      else 0
    case _ => 0
  }

  ghost function TotalOverrun(ops: seq<Op>, limits: Limits, workflowId: Option<Id>): nat {
    if ops == [] then 0
    else
      var earlier := ops[..|ops| - 1];
      TotalOverrun(earlier, limits, workflowId) + Overrun(Run(earlier, limits), ops[|ops| - 1], workflowId)
  }

  ghost function Committed(ledger: Ledger, workflowId: Option<Id>): nat {
    (if workflowId.Some? then SpentBy(ledger, workflowId.value) else ledger.dailySpent)
        + ReservedTotal(ledger.reservations, workflowId)
  }

  function CapFor(limits: Limits, workflowId: Option<Id>): int {
    ReservedLimit(if workflowId.Some? then limits.workflowCap else limits.dailyCap, limits.reservePercent.GetOr(80))
  }

  // Only an admission raises what is committed, and only up to the cap.
  lemma ReserveCommits(ledger: Ledger, request: Request, limits: Limits, workflowId: Option<Id>)
    ensures var after := Committed(Apply(ledger, Reserve(request), limits), workflowId);
            after <= Committed(ledger, workflowId) || after <= CapFor(limits, workflowId)
  {
    hide ReservedTotal;
    var id := request.reservationId;
    if id !in ledger.reservations {
      var r := Reservation(request.workflowId, if request.estimate >= 0 then request.estimate else 0);
      ReservedWith(ledger.reservations, id, r, workflowId);
      if workflowId.Some? && workflowId.value != request.workflowId {
      } else {
        assert workflowId == None || workflowId == Some(request.workflowId);
      }
    }
  }

  // Everything else stays within what was committed plus what it overran.
  lemma SettleCommits(ledger: Ledger, op: Op, limits: Limits, workflowId: Option<Id>)
    requires !op.Reserve?
    ensures Committed(Apply(ledger, op, limits), workflowId) <= Committed(ledger, workflowId)
        + Overrun(ledger, op, workflowId)
  {
    hide ReservedTotal;
    match op
    case Release(id) =>
      if id in ledger.reservations { ReservedWithout(ledger.reservations, id, workflowId); }
    case Consume(id, actual) =>
      if id in ledger.reservations { ReservedWithout(ledger.reservations, id, workflowId); }
    case _ =>
  }

  lemma ApplyCommits(ledger: Ledger, op: Op, limits: Limits, workflowId: Option<Id>)
    ensures var after := Committed(Apply(ledger, op, limits), workflowId);
            after <= Committed(ledger, workflowId) + Overrun(ledger, op, workflowId)
                || after <= CapFor(limits, workflowId)
  {
    hide Apply, Committed, CapFor;
    if op.Reserve? {
      ReserveCommits(ledger, op.request, limits, workflowId);
    } else {
      SettleCommits(ledger, op, limits, workflowId);
    }
  }

  /**
   * Over any run under fixed limits, what a workflow, or the day, has spent and reserved never
   * exceeds the admission limit by more than the overruns so far.
   */
  lemma {:induction false} CapsHold(ops: seq<Op>, limits: Limits, workflowId: Option<Id>)
    ensures var cap := CapFor(limits, workflowId);
            Committed(Run(ops, limits), workflowId) <= (if cap < 0 then 0 else cap)
                + TotalOverrun(ops, limits, workflowId)
  {
    if ops == [] {
      assert ReservedAmounts(map[], workflowId) == map[];
    } else {
      var earlier := ops[..|ops| - 1];
      CapsHold(earlier, limits, workflowId);
      ApplyCommits(Run(earlier, limits), ops[|ops| - 1], limits, workflowId);
    }
  }

  // ----- conservation -----

  function ConsumedAmounts(settled: map<Id, Settlement>): map<Id, nat> {
    map id | id in settled && settled[id].outcome.Consumed? :: settled[id].outcome.actual
  }

  // Direct usage that was recorded rather than consumed from a reservation.
  ghost function DirectUsage(ops: seq<Op>, limits: Limits): nat {
    if ops == [] then 0
    else
      var earlier := ops[..|ops| - 1];
      var last := ops[|ops| - 1];
      DirectUsage(earlier, limits)
      + if last.Record? && RecordUsageCost(Run(earlier, limits), last.workflowId, last.microdollars).Ok?
        then last.microdollars else 0
  }

  ghost predicate Balanced(ledger: Ledger, direct: nat) {
    && ledger.dailySpent == Total(ledger.workflowSpent)
    && ledger.dailySpent == Total(ConsumedAmounts(ledger.settled)) + direct
    && ledger.reservations.Keys !! ledger.settled.Keys
    && Distinct(ledger.settledIds)
    && (forall id :: id in ledger.settledIds <==> id in ledger.settled)
  }

  lemma SettleBalances(ledger: Ledger, id: Id, reservation: Reservation, outcome: Outcome, direct: nat, charged: nat)
    requires Balanced(ledger, direct + charged) && id !in ledger.reservations && id !in ledger.settled
    requires charged == if outcome.Consumed? then outcome.actual else 0
    ensures Balanced(SettleReservation(ledger, id, reservation, outcome), direct)
  {
    hide Total;
    var after := SettleReservation(ledger, id, reservation, outcome);
    if outcome.Consumed? {
      assert ConsumedAmounts(after.settled) == ConsumedAmounts(ledger.settled)[id := outcome.actual];
      SumUpdate(ConsumedAmounts(ledger.settled), id, outcome.actual);
    } else {
      assert ConsumedAmounts(after.settled) == ConsumedAmounts(ledger.settled);
    }
  }

  lemma RecordBalances(ledger: Ledger, workflowId: Id, microdollars: int, direct: nat)
    requires Balanced(ledger, direct) && RecordUsageCost(ledger, workflowId, microdollars).Ok?
    ensures Balanced(RecordUsageCost(ledger, workflowId, microdollars).value, direct + microdollars)
  {
    SumUpdate(ledger.workflowSpent, workflowId, SpentBy(ledger, workflowId) + microdollars);
  }

  lemma ApplyBalances(ledger: Ledger, op: Op, limits: Limits, direct: nat)
    requires Balanced(ledger, direct)
    ensures Balanced(Apply(ledger, op, limits),
                     direct + if op.Record? && RecordUsageCost(ledger, op.workflowId, op.microdollars).Ok?
                              then op.microdollars else 0)
  {
    match op
    case Release(id) =>
      if id in ledger.reservations {
        SettleBalances(WithoutReservation(ledger, id), id, ledger.reservations[id], Released, direct, 0);
      }
    case Consume(id, actual) =>
      if id in ledger.reservations && ConsumeBudgetReservation(ledger, id, actual).Ok? {
        var open := WithoutReservation(ledger, id);
        RecordBalances(open, ledger.reservations[id].workflowId, actual, direct);
        var charged := RecordUsageCost(open, ledger.reservations[id].workflowId, actual).value;
        SettleBalances(charged, id, ledger.reservations[id], Consumed(actual), direct, actual);
      }
    case Record(workflowId, microdollars) =>
      if RecordUsageCost(ledger, workflowId, microdollars).Ok? {
        RecordBalances(ledger, workflowId, microdollars, direct);
      }
    case _ =>
  }

  /**
   * Over any run, the day's spending is the sum of the workflows' and equals every consumed
   * amount plus direct usage; no id is both open and settled; and the list of settled ids has
   * exactly the settled ones, once each.
   */
  lemma {:induction false} RunBalances(ops: seq<Op>, limits: Limits)
    ensures Balanced(Run(ops, limits), DirectUsage(ops, limits))
  {
    if ops == [] {
      assert ConsumedAmounts(map[]) == map[];
    } else {
      var earlier := ops[..|ops| - 1];
      RunBalances(earlier, limits);
      ApplyBalances(Run(earlier, limits), ops[|ops| - 1], limits, DirectUsage(earlier, limits));
    }
  }

  // ----- execution, once -----

  ghost predicate Executes(ledger: Ledger, op: Op, limits: Limits, id: Id) {
    op.Reserve? && op.request.reservationId == id
    && match ReserveBudget(ledger, op.request, limits)
       case Ok(Decided(_, shouldExecute, _)) => shouldExecute
       case _ => false
  }

  ghost predicate KnownId(ledger: Ledger, id: Id) {
    id in ledger.reservations || id in ledger.settled
  }

  lemma KnownIdIsKept(ledger: Ledger, op: Op, limits: Limits, id: Id)
    requires KnownId(ledger, id)
    ensures KnownId(Apply(ledger, op, limits), id)
  {
  }

  lemma {:induction false} KnownIdStays(ops: seq<Op>, limits: Limits, n: nat, id: Id)
    requires n <= |ops| && KnownId(Run(ops[..n], limits), id)
    ensures KnownId(Run(ops, limits), id)
    decreases |ops|
  {
    if n == |ops| {
      assert ops[..n] == ops;
    } else {
      var earlier := ops[..|ops| - 1];
      assert earlier[..n] == ops[..n];
      hide Apply, KnownId;
      KnownIdStays(earlier, limits, n, id);
      KnownIdIsKept(Run(earlier, limits), ops[|ops| - 1], limits, id);
    }
  }

  /** Each reservation id is told to execute at most once in any run. */
  lemma ExecutesOnce(ops: seq<Op>, limits: Limits, i: nat, j: nat, id: Id)
    requires i < j < |ops|
    requires Executes(Run(ops[..i], limits), ops[i], limits, id)
    ensures !Executes(Run(ops[..j], limits), ops[j], limits, id)
  {
    assert ops[..i + 1][..i] == ops[..i];
    assert KnownId(Run(ops[..i + 1], limits), id);
    assert ops[..j][..i + 1] == ops[..i + 1];
    KnownIdStays(ops[..j], limits, i + 1, id);
  }
}
