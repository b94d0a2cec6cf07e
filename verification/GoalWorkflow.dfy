/**
 * The goal workflow (packages/core/src/goal-workflow.ts) and the stuck detection it uses
 * (packages/core/src/dod.ts).
 */
module GoalWorkflow {
  import opened Wrappers
  import opened Permutations
  import opened EventWindow
  import opened Texts

  const MAX_STEPS: nat := 3
  const STUCK_THRESHOLD: nat := 3

  datatype Criterion = Criterion(id: string, description: string, command: string, required: Option<bool>)

  datatype VerificationResult =
    | PassedResult(criterionId: string)
    | FailedResult(criterionId: string, fingerprint: string)

  datatype Status = Pending | Running | Succeeded | Failed | Cancelled

  datatype FailureReason = Stuck | StepLimit | CrashReason

  datatype Goal = Goal(
    status: Status,
    criteria: seq<Criterion>,
    maxSteps: int,
    currentStep: nat,
    latestResults: map<string, VerificationResult>,
    failureFingerprints: seq<string>,
    failureReason: Option<FailureReason>)

  datatype Kind =
    | Start
    | StepEvaluated(step: int, results: seq<VerificationResult>)
    | Cancel
    | Crash

  datatype Event = Event(id: string, kind: Kind)

  // ----- stuck detection -----

  ghost predicate IsStuck(fingerprints: seq<string>, threshold: nat) {
    exists f :: multiset(fingerprints)[f] >= threshold
  }

  datatype StuckDetection = StuckDetection(stuck: bool, fingerprint: Option<string>, occurrences: nat)

  lemma OneMore(s: seq<string>, i: nat)
    requires i < |s|
    ensures multiset(s[..i + 1]) == multiset(s[..i]) + multiset{s[i]}
    ensures multiset(s)[s[i]] >= multiset(s[..i + 1])[s[i]]
  {
    assert s[..i + 1] == s[..i] + [s[i]];
    assert s == s[..i + 1] + s[i + 1..];
  }

  /** Counts up to the first fingerprint that reaches the threshold. */
  method DetectStuck(failureFingerprints: seq<string>, threshold: nat) returns (detection: StuckDetection)
    requires threshold > 0
    ensures detection.stuck <==> IsStuck(failureFingerprints, threshold)
    ensures detection.stuck ==> detection.fingerprint.Some? && detection.occurrences == threshold
                                && multiset(failureFingerprints)[detection.fingerprint.value] >= threshold
    ensures !detection.stuck ==>
              && (forall f :: multiset(failureFingerprints)[f] <= detection.occurrences)
              && (failureFingerprints != [] ==> exists f :: multiset(failureFingerprints)[f] == detection.occurrences)
  {
    var counts: map<string, nat> := map[];
    var most := 0;
    for i := 0 to |failureFingerprints|
      invariant forall f :: multiset(failureFingerprints[..i])[f] == if f in counts then counts[f] else 0
      invariant forall f :: f in counts ==> 0 < counts[f] <= most
      invariant if i == 0 then most == 0 else exists f :: f in counts && counts[f] == most
      invariant most < threshold
    {
      var fingerprint := failureFingerprints[i];
      OneMore(failureFingerprints, i);
      var occurrences := (if fingerprint in counts then counts[fingerprint] else 0) + 1;
      ghost var before := counts;
      counts := counts[fingerprint := occurrences];
      if occurrences >= threshold {
        assert multiset(failureFingerprints)[fingerprint] >= occurrences;
        return StuckDetection(true, Some(fingerprint), occurrences);
      }
      if occurrences > most {
        most := occurrences;
        assert counts[fingerprint] == most;
      } else {
        ghost var f :| f in before && before[f] == most;
        assert counts[f] == most;
      }
    }
    assert failureFingerprints[..|failureFingerprints|] == failureFingerprints;
    return StuckDetection(false, None, most);
  }

  // ----- complete results -----

  function CriterionIds(criteria: seq<Criterion>): seq<string> {
    seq(|criteria|, i requires 0 <= i < |criteria| => criteria[i].id)
  }

  function ResultIds(results: seq<VerificationResult>): seq<string> {
    seq(|results|, i requires 0 <= i < |results| => results[i].criterionId)
  }

  function ByCriterion(results: seq<VerificationResult>): map<string, VerificationResult> {
    if results == [] then map[]
    else
      var last := results[|results| - 1];
      ByCriterion(results[..|results| - 1])[last.criterionId := last]
  }

  // Exactly one result for every criterion, in any order.
  ghost predicate Complete(criteria: seq<Criterion>, results: seq<VerificationResult>) {
    multiset(ResultIds(results)) == multiset(CriterionIds(criteria))
  }

  /** Accepts a result list exactly when its ids are a permutation of the criteria's. */
  method AssertCompleteResults(criteria: seq<Criterion>, results: seq<VerificationResult>)
    returns (byCriterion: Option<map<string, VerificationResult>>)
    requires Distinct(CriterionIds(criteria))
    ensures byCriterion.Some? <==> Complete(criteria, results)
    ensures byCriterion.Some? ==> byCriterion.value == ByCriterion(results)
  {
    ghost var ids := CriterionIds(criteria);
    ghost var reported := ResultIds(results);
    if |results| != |criteria| {
      assert |multiset(reported)| != |multiset(ids)|;
      return None;
    }
    var expectedIds := set i | 0 <= i < |criteria| :: criteria[i].id;
    var collected: map<string, VerificationResult> := map[];
    for i := 0 to |results|
      invariant collected == ByCriterion(results[..i])
      invariant forall id :: id in collected <==> id in reported[..i]
      invariant Distinct(reported[..i])
      invariant forall id :: id in reported[..i] ==> id in ids
    {
      var result := results[i];
      assert reported[i] == result.criterionId;
      assert reported[..i + 1] == reported[..i] + [result.criterionId];
      assert results[..i + 1][..i] == results[..i];
      if result.criterionId !in expectedIds {
        assert result.criterionId in multiset(reported) && result.criterionId !in multiset(ids) by {
          assert result.criterionId in reported;
          assert result.criterionId !in ids;
        }
        return None;
      }
      ghost var k :| 0 <= k < |criteria| && criteria[k].id == result.criterionId;
      assert ids[k] == result.criterionId;
      if result.criterionId in collected {
        RepeatedIsNoPermutation(ids, reported, i);
        return None;
      }
      collected := collected[result.criterionId := result];
    }
    assert results[..|results|] == results && reported[..|reported|] == reported;
    DistinctSameLength(ids, reported);
    // The source checks the number of keys once more; by now it cannot differ.
    return Some(collected);
  }

  lemma RepeatedIsNoPermutation(ids: seq<string>, reported: seq<string>, i: nat)
    requires Distinct(ids) && i < |reported| && reported[i] in reported[..i]
    ensures multiset(reported) != multiset(ids)
  {
    DistinctByCount(ids);
    assert reported == reported[..i] + [reported[i]] + reported[i + 1..];
    assert multiset(reported)[reported[i]] >= 2;
  }

  lemma {:induction false} DistinctSameLength(ids: seq<string>, reported: seq<string>)
    requires Distinct(ids) && Distinct(reported) && |reported| == |ids|
    requires forall id :: id in reported ==> id in ids
    ensures multiset(reported) == multiset(ids)
  {
    DistinctByCount(ids);
    DistinctByCount(reported);
    forall x ensures multiset(reported)[x] <= multiset(ids)[x] {
      if x in multiset(reported) { assert x in reported && x in ids; }
    }
    assert |multiset(ids) - multiset(reported)| == 0;
    assert multiset(ids) == multiset(reported) + (multiset(ids) - multiset(reported));
  }

  // ----- creation -----

  predicate CompleteCriterion(c: Criterion) {
    !Blank(c.id) && !Blank(c.description) && !Blank(c.command)
  }

  ghost predicate ValidCriteria(criteria: seq<Criterion>) {
    && criteria != [] && Distinct(CriterionIds(criteria))
    && forall i :: 0 <= i < |criteria| ==> CompleteCriterion(criteria[i])
  }

  method CreateGoalWorkflow(criteria: seq<Criterion>, maxSteps: int) returns (goal: Option<Goal>)
    ensures goal.Some? <==> 1 <= maxSteps <= MAX_STEPS && ValidCriteria(criteria)
    ensures goal.Some? ==> goal.value == Created(criteria, maxSteps)
  {
    if maxSteps < 1 || maxSteps > MAX_STEPS || |criteria| == 0 { return None; }
    var ids := {};
    for i := 0 to |criteria|
      invariant forall j :: 0 <= j < i ==> CompleteCriterion(criteria[j])
      invariant ids == set j | 0 <= j < i :: criteria[j].id
      invariant forall j, k :: 0 <= j < k < i ==> criteria[j].id != criteria[k].id
    {
      if !CompleteCriterion(criteria[i]) { return None; }
      if criteria[i].id in ids {
        var j :| 0 <= j < i && criteria[j].id == criteria[i].id;
        assert CriterionIds(criteria)[j] == CriterionIds(criteria)[i];
        return None;
      }
      ids := ids + {criteria[i].id};
    }
    return Some(Created(criteria, maxSteps));
  }

  function Created(criteria: seq<Criterion>, maxSteps: int): Goal {
    Goal(Pending, criteria, maxSteps, 0, map[], [], None)
  }

  // ----- one event -----

  predicate Required(c: Criterion) {
    c.required != Some(false)
  }

  function FailuresOf(results: seq<VerificationResult>): seq<string> {
    if results == [] then []
    else (if results[0].FailedResult? then [results[0].fingerprint] else []) + FailuresOf(results[1..])
  }

  lemma {:induction false} FailuresOfLast(results: seq<VerificationResult>, last: VerificationResult)
    ensures FailuresOf(results + [last]) == FailuresOf(results)
            + if last.FailedResult? then [last.fingerprint] else []
  {
    if results == [] {
      assert [last][1..] == [];
    } else {
      FailuresOfLast(results[1..], last);
      assert (results + [last])[1..] == results[1..] + [last];
    }
  }

  ghost function FailedWith(results: seq<VerificationResult>, fingerprint: string): set<int> {
    set i | 0 <= i < |results| && results[i].FailedResult? && results[i].fingerprint == fingerprint
  }

  lemma FailedWithLast(results: seq<VerificationResult>, last: VerificationResult, fingerprint: string)
    ensures |FailedWith(results + [last], fingerprint)| == |FailedWith(results, fingerprint)|
            + if last.FailedResult? && last.fingerprint == fingerprint then 1 else 0
  {
    var longer, n := results + [last], |results|;
    var more := if last.FailedResult? && last.fingerprint == fingerprint then {n as int} else {};
    assert longer[n] == last && forall i :: 0 <= i < n ==> longer[i] == results[i];
    assert FailedWith(longer, fingerprint) == FailedWith(results, fingerprint) + more;
  }

  // Every failed result is counted under its fingerprint, once, and no other.
  lemma {:induction false} FailuresCount(results: seq<VerificationResult>, fingerprint: string)
    ensures multiset(FailuresOf(results))[fingerprint] == |FailedWith(results, fingerprint)|
    decreases |results|
  {
    if results == [] {
      assert FailedWith(results, fingerprint) == {};
    } else {
      hide FailuresOf, FailedWith;
      var n := |results| - 1;
      FailuresOfLast(results[..n], results[n]);
      FailedWithLast(results[..n], results[n], fingerprint);
      FailuresCount(results[..n], fingerprint);
      assert results[..n] + [results[n]] == results;
    }
  }

  ghost function StepGoal(g: Goal, kind: Kind): Option<Goal> {
    if g.status in {Succeeded, Failed, Cancelled} then None
    else match kind
      case Start => if g.status == Pending then Some(g.(status := Running, currentStep := 1)) else None
      case Cancel => Some(g.(status := Cancelled))
      case Crash => Some(g.(status := Failed, failureReason := Some(CrashReason)))
      case StepEvaluated(step, results) =>
        if g.status != Running || step != g.currentStep || !Complete(g.criteria, results) then None
        else Some(EvaluateStep(g, results))
  }

  ghost function EvaluateStep(g: Goal, results: seq<VerificationResult>): Goal {
    var latest := g.latestResults + ByCriterion(results);
    var failures := g.failureFingerprints + FailuresOf(results);
    Outcome(g, latest, failures, AllRequiredPassed(g.criteria, latest), IsStuck(failures, STUCK_THRESHOLD))
  }

  ghost predicate AllRequiredPassed(criteria: seq<Criterion>, latest: map<string, VerificationResult>) {
    forall c :: c in criteria && Required(c) ==> c.id in latest && latest[c.id].PassedResult?
  }

  function Outcome(g: Goal, latest: map<string, VerificationResult>, failures: seq<string>, passed: bool,
                   stuck: bool): Goal
  {
    if passed then g.(status := Succeeded, latestResults := latest)
    else if stuck then
      g.(status := Failed, latestResults := latest, failureFingerprints := failures, failureReason := Some(Stuck))
    else if g.currentStep >= g.maxSteps then
      g.(status := Failed, latestResults := latest, failureFingerprints := failures, failureReason := Some(StepLimit))
    else g.(latestResults := latest, failureFingerprints := failures, currentStep := g.currentStep + 1)
  }

  // ----- the reducer, behind its own window -----

  ghost function GoalReducer<F(!new)>(fingerprint: Event -> F): Reducer<Goal, Event, F> {
    Reducer((e: Event) => e.id, fingerprint, (e: Event) => !Blank(e.id), (g: Goal, e: Event) => StepGoal(g, e.kind))
  }

  ghost function ReduceGoalWorkflow<F>(fingerprint: Event -> F, s: State<Goal, F>, e: Event): Option<State<Goal, F>> {
    if Blank(e.id) then None
    else match SliceDispositionOf(s.window, e.id, fingerprint(e))
      case Reused => None
      case Duplicate => Some(s)
      case New =>
        var next := StepGoal(s.core, e.kind);
        if next.None? then None else Some(State(next.value, SliceRecorded(s.window, e.id, fingerprint(e))))
  }

  ghost function ReplayGoalWorkflow<F>(fingerprint: Event -> F, s: State<Goal, F>,
                                       events: seq<Event>): Option<State<Goal, F>>
    decreases |events|
  {
    if events == [] then Some(s)
    else
      var next := ReduceGoalWorkflow(fingerprint, s, events[0]);
      if next.None? then None else ReplayGoalWorkflow(fingerprint, next.value, events[1..])
  }

  /** The goal workflow's own window makes it the same reducer as the shared window would. */
  lemma {:induction false} GoalWindowRefines<F(!new)>(fingerprint: Event -> F, s: State<Goal, F>, events: seq<Event>)
    requires WellFormed(s.window)
    ensures ReplayGoalWorkflow(fingerprint, s, events) == Replay(GoalReducer(fingerprint), s, events)
    decreases |events|
  {
    if events != [] {
      var e := events[0];
      SliceRefinesShift(s.window, e.id, fingerprint(e));
      var next := ReduceGoalWorkflow(fingerprint, s, e);
      assert next == Reduce(GoalReducer(fingerprint), s, e);
      if next.Some? {
        if SliceDispositionOf(s.window, e.id, fingerprint(e)) == New {
          RecordedIsWellFormed(s.window, e.id, fingerprint(e));
        }
        GoalWindowRefines(fingerprint, next.value, events[1..]);
      }
    }
  }

  lemma GoalRedeliveryIsInvisible<F(!new)>(fingerprint: Event -> F, g: Goal, clean: seq<Event>, noisy: seq<Event>)
    requires Redelivers(GoalReducer(fingerprint), State(g, Window([], map[])), [], clean, noisy)
    ensures var s := State(g, Window([], map[]));
            ReplayGoalWorkflow(fingerprint, s, noisy) == ReplayGoalWorkflow(fingerprint, s, clean)
  {
    var s: State<Goal, F> := State(g, Window([], map[]));
    GoalWindowRefines(fingerprint, s, noisy);
    GoalWindowRefines(fingerprint, s, clean);
    RedeliveryIsInvisible(GoalReducer(fingerprint), s, [], clean, noisy);
  }

  // ----- what a goal run can look like -----

  function Evaluations(events: seq<Event>): seq<Kind> {
    if events == [] then []
    else
      var last := events[|events| - 1].kind;
      Evaluations(events[..|events| - 1]) + if last.StepEvaluated? then [last] else []
  }

  // The step's results pass every required criterion.
  ghost predicate Passes(criteria: seq<Criterion>, evaluation: Kind)
    requires evaluation.StepEvaluated?
  {
    forall c :: c in criteria && Required(c) ==> PassedResult(c.id) in evaluation.results
  }

  function AllFailures(evaluations: seq<Kind>): seq<string> {
    if evaluations == [] then []
    else
      var last := evaluations[|evaluations| - 1];
      AllFailures(evaluations[..|evaluations| - 1]) + if last.StepEvaluated? then FailuresOf(last.results) else []
  }

  // Steps 1, 2, ... in order, each with complete results, none of them passing or stuck but,
  // possibly, the last.
  ghost predicate InOrder(criteria: seq<Criterion>, evaluations: seq<Kind>) {
    forall i :: 0 <= i < |evaluations| ==> InOrderAt(criteria, evaluations, i)
  }

  ghost predicate InOrderAt(criteria: seq<Criterion>, evaluations: seq<Kind>, i: nat)
    requires i < |evaluations|
  {
    && IsStep(criteria, evaluations[i], i + 1)
    && (i < |evaluations| - 1 ==> GoesOn(criteria, evaluations[..i + 1]))
  }

  ghost predicate IsStep(criteria: seq<Criterion>, evaluation: Kind, step: int) {
    evaluation.StepEvaluated? && evaluation.step == step && Complete(criteria, evaluation.results)
  }

  ghost predicate GoesOn(criteria: seq<Criterion>, evaluations: seq<Kind>) {
    !LastPasses(criteria, evaluations) && !IsStuck(AllFailures(evaluations), STUCK_THRESHOLD)
  }

  ghost predicate LastPasses(criteria: seq<Criterion>, evaluations: seq<Kind>) {
    evaluations != [] && evaluations[|evaluations| - 1].StepEvaluated?
        && Passes(criteria, evaluations[|evaluations| - 1])
  }

  // The status after n evaluations with these failures, the last of which passes or not.
  ghost predicate StatusFits(g: Goal, n: nat, failures: seq<string>, passes: bool, stuck: bool) {
    && n <= g.maxSteps
    && (g.status == Pending ==> n == 0 && g.failureFingerprints == [])
    && (g.status == Running ==> g.currentStep == n + 1 <= g.maxSteps && g.failureFingerprints == failures)
    && (g.status == Succeeded <==> passes)
    && (g.status == Failed && g.failureReason == Some(Stuck) <==> !passes && stuck)
    && (g.failureReason == Some(StepLimit) <==> n == g.maxSteps && !passes && !stuck)
    && (g.failureReason.Some? <==> g.status == Failed)
  }

  ghost predicate Reflects(g: Goal, evaluations: seq<Kind>) {
    && InOrder(g.criteria, evaluations)
    && StatusFits(g, |evaluations|, AllFailures(evaluations), LastPasses(g.criteria, evaluations),
                  IsStuck(AllFailures(evaluations), STUCK_THRESHOLD))
  }

  lemma {:induction false} ByCriterionFinds(results: seq<VerificationResult>, id: string)
    requires Distinct(ResultIds(results))
    ensures id in ByCriterion(results) <==> id in ResultIds(results)
    ensures id in ByCriterion(results) ==>
        ByCriterion(results)[id] in results && ByCriterion(results)[id].criterionId == id
    ensures forall r :: r in results && r.criterionId == id ==>
        id in ByCriterion(results) && ByCriterion(results)[id] == r
  {
    if results != [] {
      var n := |results| - 1;
      var init := results[..n];
      assert results == init + [results[n]];
      assert ResultIds(results) == ResultIds(init) + [results[n].criterionId];
      assert ResultIds(init) == ResultIds(results)[..n];
      ByCriterionFinds(init, id);
      assert ResultIds(results)[n] == results[n].criterionId;
      forall r | r in init ensures r.criterionId in ResultIds(init) {
        var k :| 0 <= k < |init| && init[k] == r;
        assert ResultIds(init)[k] == r.criterionId;
      }
    }
  }

  lemma PermutationIsDistinct(ids: seq<string>, reported: seq<string>)
    requires Distinct(ids) && multiset(reported) == multiset(ids)
    ensures Distinct(reported) && forall x :: x in reported <==> x in ids
  {
    DistinctByCount(ids);
    forall i, j | 0 <= i < j < |reported| ensures reported[i] != reported[j] {
      if reported[i] == reported[j] {
        assert reported[..j][i] == reported[j];
        RepeatedIsNoPermutation(ids, reported, j);
      }
    }
    assert forall x :: x in reported <==> x in multiset(reported);
    assert forall x :: x in ids <==> x in multiset(ids);
  }

  // Complete results leave nothing of earlier steps to count: the step passes on its own.
  lemma StepStandsAlone(g: Goal, step: int, results: seq<VerificationResult>)
    requires Distinct(CriterionIds(g.criteria)) && Complete(g.criteria, results)
    ensures AllRequiredPassed(g.criteria, g.latestResults + ByCriterion(results)) <==>
        Passes(g.criteria, StepEvaluated(step, results))
  {
    var latest := g.latestResults + ByCriterion(results);
    PermutationIsDistinct(CriterionIds(g.criteria), ResultIds(results));
    forall c | c in g.criteria
      ensures c.id in latest && (latest[c.id].PassedResult? <==> PassedResult(c.id) in results)
    {
      var k :| 0 <= k < |g.criteria| && g.criteria[k] == c;
      assert CriterionIds(g.criteria)[k] == c.id;
      ByCriterionFinds(results, c.id);
    }
  }

  lemma FailuresGrow(before: seq<Kind>, evaluation: Kind)
    requires evaluation.StepEvaluated?
    ensures AllFailures(before + [evaluation]) == AllFailures(before) + FailuresOf(evaluation.results)
  {
    assert (before + [evaluation])[..|before|] == before;
  }

  lemma InOrderGrows(criteria: seq<Criterion>, before: seq<Kind>, evaluation: Kind)
    requires InOrder(criteria, before) && GoesOn(criteria, before) && IsStep(criteria, evaluation, |before| + 1)
    ensures InOrder(criteria, before + [evaluation])
    ensures LastPasses(criteria, before + [evaluation]) <==> Passes(criteria, evaluation)
    ensures AllFailures(before + [evaluation]) == AllFailures(before) + FailuresOf(evaluation.results)
  {
    hide GoesOn, AllFailures, Complete, Passes, FailuresOf;
    var after := before + [evaluation];
    FailuresGrow(before, evaluation);
    forall i | 0 <= i < |after| ensures InOrderAt(criteria, after, i) {
      if i < |before| {
        assert InOrderAt(criteria, before, i);
        assert after[i] == before[i] && after[..i + 1] == before[..i + 1];
        if i == |before| - 1 { assert before[..i + 1] == before; }
      }
    }
    assert InOrder(criteria, after);
    assert after[|after| - 1] == evaluation;
  }

  lemma OutcomeFits(g: Goal, n: nat, latest: map<string, VerificationResult>, failures: seq<string>, passed: bool,
                    stuck: bool)
    requires g.status == Running && StatusFits(g, n, g.failureFingerprints, false, false)
    ensures StatusFits(Outcome(g, latest, failures, passed, stuck), n + 1, failures, passed, stuck)
  {
  }

  lemma EvaluationReflects(g: Goal, before: seq<Kind>, evaluation: Kind)
    requires Distinct(CriterionIds(g.criteria)) && Reflects(g, before) && g.status == Running
    requires evaluation.StepEvaluated? && evaluation.step == g.currentStep && Complete(g.criteria, evaluation.results)
    ensures Reflects(EvaluateStep(g, evaluation.results), before + [evaluation])
  {
    var latest := g.latestResults + ByCriterion(evaluation.results);
    var failures := g.failureFingerprints + FailuresOf(evaluation.results);
    StepStandsAlone(g, evaluation.step, evaluation.results);
    InOrderGrows(g.criteria, before, evaluation);
    OutcomeFits(g, |before|, latest, failures, AllRequiredPassed(g.criteria, latest),
        IsStuck(failures, STUCK_THRESHOLD));
  }

  // Starting, cancelling and crashing evaluate nothing.
  lemma OtherFits(g: Goal, kind: Kind, n: nat, failures: seq<string>, passes: bool, stuck: bool)
    requires !kind.StepEvaluated? && StepGoal(g, kind).Some? && 1 <= g.maxSteps
    requires StatusFits(g, n, failures, passes, stuck) && (n == 0 ==> failures == [] && !passes && !stuck)
    ensures StatusFits(StepGoal(g, kind).value, n, failures, passes, stuck)
  {
  }

  lemma NothingEvaluated(criteria: seq<Criterion>)
    ensures AllFailures([]) == [] && !LastPasses(criteria, []) && !IsStuck([], STUCK_THRESHOLD)
  {
  }

  lemma StepReflects(g: Goal, before: seq<Kind>, kind: Kind)
    requires Distinct(CriterionIds(g.criteria)) && Reflects(g, before) && StepGoal(g, kind).Some?
    requires 1 <= g.maxSteps
    ensures Reflects(StepGoal(g, kind).value, if kind.StepEvaluated? then before + [kind] else before)
  {
    hide IsStuck, AllFailures, LastPasses, InOrder, StatusFits, EvaluateStep, Complete;
    if kind.StepEvaluated? {
      EvaluationReflects(g, before, kind);
    } else {
      NothingEvaluated(g.criteria);
      StepKeepsSettings(g, kind);
      OtherFits(g, kind, |before|, AllFailures(before), LastPasses(g.criteria, before),
          IsStuck(AllFailures(before), STUCK_THRESHOLD));
    }
  }

  lemma StepKeepsSettings(g: Goal, kind: Kind)
    requires StepGoal(g, kind).Some?
    ensures StepGoal(g, kind).value.criteria == g.criteria && StepGoal(g, kind).value.maxSteps == g.maxSteps
  {
  }

  lemma EvaluationsGrow(events: seq<Event>, e: Event)
    ensures Evaluations(events + [e]) == if e.kind.StepEvaluated? then Evaluations(events) + [e.kind]
        else Evaluations(events)
  {
    assert (events + [e])[..|events|] == events;
  }

  // What the last event alone decides.
  ghost predicate Marks(g: Goal, history: seq<Event>) {
    if history == [] then g.status == Pending
    else
      var last := history[|history| - 1].kind;
      && g.status != Pending
      && (g.status == Cancelled <==> last.Cancel?)
      && (g.failureReason == Some(CrashReason) <==> last.Crash?)
  }

  lemma StepMarks(g: Goal, history: seq<Event>, e: Event)
    requires Marks(g, history) && StepGoal(g, e.kind).Some? && (g.failureReason.Some? ==> g.status == Failed)
    ensures Marks(StepGoal(g, e.kind).value, history + [e])
  {
    hide IsStuck, Complete, AllRequiredPassed;
  }

  // The results kept are those of the last step.
  ghost predicate KeepsLast(g: Goal, evaluations: seq<Kind>) {
    if evaluations == [] then g.latestResults == map[]
    else
      var last := evaluations[|evaluations| - 1];
      last.StepEvaluated? && Complete(g.criteria, last.results) && g.latestResults == ByCriterion(last.results)
  }

  lemma CompleteResultsReplace(g: Goal, evaluations: seq<Kind>, results: seq<VerificationResult>)
    requires Distinct(CriterionIds(g.criteria)) && Complete(g.criteria, results) && KeepsLast(g, evaluations)
    ensures g.latestResults + ByCriterion(results) == ByCriterion(results)
  {
    PermutationIsDistinct(CriterionIds(g.criteria), ResultIds(results));
    forall id | id in g.latestResults ensures id in ByCriterion(results) {
      var last := evaluations[|evaluations| - 1].results;
      PermutationIsDistinct(CriterionIds(g.criteria), ResultIds(last));
      ByCriterionFinds(last, id);
      ByCriterionFinds(results, id);
    }
  }

  // ----- what may come next -----

  ghost predicate GoalOver(criteria: seq<Criterion>, maxSteps: int, history: seq<Event>) {
    var evaluations := Evaluations(history);
    || (history != [] && (history[|history| - 1].kind.Cancel? || history[|history| - 1].kind.Crash?))
    || LastPasses(criteria, evaluations) || IsStuck(AllFailures(evaluations), STUCK_THRESHOLD)
    || |evaluations| == maxSteps
  }

  /**
   * The next event, by the history: a start at first and never again; a cancellation or a crash at any
   * time before the end; and, once started, the results of the next step, one for every criterion.
   */
  ghost predicate MayFollow(criteria: seq<Criterion>, maxSteps: int, history: seq<Event>, kind: Kind) {
    && !GoalOver(criteria, maxSteps, history)
    && match kind
       case Start => history == []
       case Cancel => true
       case Crash => true
       case StepEvaluated(step, results) =>
         history != [] && step == |Evaluations(history)| + 1 && Complete(criteria, results)
  }

  ghost predicate Holds(g: Goal, history: seq<Event>, criteria: seq<Criterion>, maxSteps: int) {
    && g.criteria == criteria && g.maxSteps == maxSteps && 1 <= maxSteps && Distinct(CriterionIds(criteria))
    && Reflects(g, Evaluations(history)) && Marks(g, history) && KeepsLast(g, Evaluations(history))
  }

  lemma StepIsJudged(g: Goal, history: seq<Event>, kind: Kind, criteria: seq<Criterion>, maxSteps: int)
    requires Holds(g, history, criteria, maxSteps)
    ensures StepGoal(g, kind).Some? <==> MayFollow(criteria, maxSteps, history, kind)
  {
    OverIsTerminal(g, history, criteria, maxSteps);
    hide IsStuck, AllFailures, LastPasses, InOrder, Complete, EvaluateStep, KeepsLast, GoalOver;
  }

  lemma OverIsTerminal(g: Goal, history: seq<Event>, criteria: seq<Criterion>, maxSteps: int)
    requires Holds(g, history, criteria, maxSteps)
    ensures g.status in {Succeeded, Failed, Cancelled} <==> GoalOver(criteria, maxSteps, history)
  {
    hide IsStuck, AllFailures, LastPasses, InOrder, KeepsLast;
    if history == [] {
      NothingEvaluated(criteria);
      assert Evaluations(history) == [];
    }
    match g.failureReason
    case None =>
    case Some(reason) =>
      match reason
      case Stuck =>
      case StepLimit =>
      case CrashReason =>
  }

  lemma EventKeepsHolding(g: Goal, history: seq<Event>, e: Event, criteria: seq<Criterion>, maxSteps: int)
    requires Holds(g, history, criteria, maxSteps) && StepGoal(g, e.kind).Some?
    ensures Holds(StepGoal(g, e.kind).value, history + [e], criteria, maxSteps)
  {
    StepReflects(g, Evaluations(history), e.kind);
    StepKeepsSettings(g, e.kind);
    StepMarks(g, history, e);
    EvaluationsGrow(history, e);
    StepKeepsLast(g, Evaluations(history), e.kind);
    hide StepGoal, Reflects, Marks, KeepsLast, Evaluations;
  }

  lemma StepKeepsLast(g: Goal, evaluations: seq<Kind>, kind: Kind)
    requires Distinct(CriterionIds(g.criteria)) && KeepsLast(g, evaluations) && StepGoal(g, kind).Some?
    ensures KeepsLast(StepGoal(g, kind).value, if kind.StepEvaluated? then evaluations + [kind] else evaluations)
  {
    if kind.StepEvaluated? { CompleteResultsReplace(g, evaluations, kind.results); }
    hide Complete, ByCriterion, IsStuck, AllRequiredPassed;
  }

  lemma GoalIsJudged<F(!new)>(fingerprint: Event -> F, criteria: seq<Criterion>, maxSteps: int)
    requires ValidCriteria(criteria) && 1 <= maxSteps <= MAX_STEPS
    ensures var r := GoalReducer(fingerprint);
            var holds := (g: Goal, h: seq<Event>) => Holds(g, h, criteria, maxSteps);
            && holds(Created(criteria, maxSteps), []) && Kept(r, holds)
            && Judged(r, holds, (h: seq<Event>, e: Event) =>
                 !Blank(e.id) && MayFollow(criteria, maxSteps, h, e.kind))
  {
    NothingEvaluated(criteria);
    assert Holds(Created(criteria, maxSteps), [], criteria, maxSteps);
    hide Holds, StepGoal, MayFollow;
    forall g: Goal, h: seq<Event>, e: Event | Holds(g, h, criteria, maxSteps)
      ensures StepGoal(g, e.kind).Some? <==> MayFollow(criteria, maxSteps, h, e.kind)
      ensures StepGoal(g, e.kind).Some? ==> Holds(StepGoal(g, e.kind).value, h + [e], criteria, maxSteps)
    {
      StepIsJudged(g, h, e.kind, criteria, maxSteps);
      if StepGoal(g, e.kind).Some? { EventKeepsHolding(g, h, e, criteria, maxSteps); }
    }
  }

  /**
   * A goal run evaluates steps 1, 2, ... in order, at most maxSteps of them. It has succeeded exactly
   * when its last step's results pass every required criterion; it has failed as stuck exactly when that
   * step does not and some failure has been seen three times, for want of steps exactly when neither is
   * so and all steps are spent, and as crashed or cancelled exactly when that was its last event.
   */
  lemma GoalRunReflects<F(!new)>(fingerprint: Event -> F, criteria: seq<Criterion>, maxSteps: int, events: seq<Event>)
    requires ValidCriteria(criteria) && 1 <= maxSteps <= MAX_STEPS
    requires ReplayGoalWorkflow(fingerprint, State(Created(criteria, maxSteps), Window([], map[])), events).Some?
    ensures var s := State(Created(criteria, maxSteps), Window([], map[]));
            var r := GoalReducer(fingerprint);
            && Replay(r, s, events).Some?
            && Replay(r, s, events) == ReplayGoalWorkflow(fingerprint, s, events)
            && var g, history := Replay(r, s, events).value.core, Accepted(r, s, events);
               && Holds(g, history, criteria, maxSteps)
               && (g.status == Running ==> !IsStuck(g.failureFingerprints, STUCK_THRESHOLD))
  {
    var s: State<Goal, F> := State(Created(criteria, maxSteps), Window([], map[]));
    var r := GoalReducer(fingerprint);
    var holds := (g: Goal, h: seq<Event>) => Holds(g, h, criteria, maxSteps);
    GoalWindowRefines(fingerprint, s, events);
    GoalIsJudged(fingerprint, criteria, maxSteps);
    ReplayIsSteps(r, s, events);
    StepsKeep(r, holds, s.core, [], Accepted(r, s, events), Replay(r, s, events).value.core);
    assert [] + Accepted(r, s, events) == Accepted(r, s, events);
  }

  /** After any replay a new event is accepted exactly when it may follow what was accepted so far. */
  lemma GoalAcceptsExactly<F(!new)>(fingerprint: Event -> F, criteria: seq<Criterion>, maxSteps: int,
                                    events: seq<Event>, e: Event)
    requires ValidCriteria(criteria) && 1 <= maxSteps <= MAX_STEPS
    requires ReplayGoalWorkflow(fingerprint, State(Created(criteria, maxSteps), Window([], map[])), events).Some?
    ensures var s := State(Created(criteria, maxSteps), Window([], map[]));
            var r := GoalReducer(fingerprint);
            && Replay(r, s, events).Some?
            && var now, history := Replay(r, s, events).value, Accepted(r, s, events);
               IsNew(r, now, e) ==>
                 (Reduce(r, now, e).Some? <==> !Blank(e.id) && MayFollow(criteria, maxSteps, history, e.kind))
  {
    var s: State<Goal, F> := State(Created(criteria, maxSteps), Window([], map[]));
    var r := GoalReducer(fingerprint);
    var holds := (g: Goal, h: seq<Event>) => Holds(g, h, criteria, maxSteps);
    var allowed := (h: seq<Event>, x: Event) => !Blank(x.id) && MayFollow(criteria, maxSteps, h, x.kind);
    GoalWindowRefines(fingerprint, s, events);
    GoalIsJudged(fingerprint, criteria, maxSteps);
    NextIsJudged(r, holds, allowed, s.core, events, e);
  }
}
