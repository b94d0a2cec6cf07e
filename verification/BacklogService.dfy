/**
 * advanceBacklogs, settleBacklogItems, dispatchBacklogItem and pauseBacklog as the service
 * runs them: straight-line code and loops over repository rows that other passes, the operator
 * and the run workers change between any two calls. Each call is shown to be a step of the
 * protocol, so everything proved of the protocol's runs holds of this code.
 */
module BacklogService {
  import opened Wrappers
  import opened Backlog
  import opened BacklogProtocol

  // A step in which the pass `me` stands still, or makes a move of its own; it does not crash.
  ghost predicate Goes(s: System, s': System, me: nat) {
    && Step(s, s') && me < |s.passes| && me < |s'.passes|
    && (s'.passes[me] == s.passes[me] || StepOfPass(s, s', me))
  }

  ghost predicate Leads(trace: seq<System>, s: System, s': System, me: nat) {
    && trace != [] && trace[0] == s && trace[|trace| - 1] == s'
    && forall t :: 0 <= t < |trace| - 1 ==> Goes(trace[t], trace[t + 1], me)
  }

  // Some run of the protocol goes from s to s' without crashing the pass `me`.
  ghost predicate Reaches(s: System, s': System, me: nat) {
    exists trace :: Leads(trace, s, s', me)
  }

  lemma ReachesSelf(s: System, me: nat)
    ensures Reaches(s, s, me)
  {
    assert Leads([s], s, s, me);
  }

  lemma ReachesStep(s: System, m: System, s': System, me: nat)
    requires Reaches(s, m, me) && Goes(m, s', me)
    ensures Reaches(s, s', me)
  {
    hide Goes;
    var trace :| Leads(trace, s, m, me);
    var longer := trace + [s'];
    forall t | 0 <= t < |longer| - 1 ensures Goes(longer[t], longer[t + 1], me) {
      if t < |trace| - 1 { assert Goes(trace[t], trace[t + 1], me); }
    }
    assert Leads(longer, s, s', me);
  }

  lemma {:induction false} LeadsKeepsInv(trace: seq<System>, s: System, s': System, me: nat)
    requires Leads(trace, s, s', me) && Inv(s)
    ensures Inv(s') && Later(s.store, s'.store)
    decreases |trace|
  {
    if |trace| > 1 {
      var m := trace[|trace| - 2];
      LeadsKeepsInv(trace[..|trace| - 1], s, m, me);
      assert Goes(trace[|trace| - 2], trace[|trace| - 2 + 1], me);
      StepKeepsInv(m, s');
      LaterTransitive(s.store, m.store, s'.store);
    }
  }

  // Whatever a pass and its surroundings do together keeps the protocol's invariant.
  lemma ReachesKeepsInv(s: System, s': System, me: nat)
    requires Reaches(s, s', me) && Inv(s)
    ensures Inv(s') && Later(s.store, s'.store)
  {
    var trace :| Leads(trace, s, s', me);
    LeadsKeepsInv(trace, s, s', me);
  }

  class Service {
    var store: Store          // the rows every process shares
    ghost var passes: seq<Pass>  // where every pass stands

    ghost function Now(): System
      reads this
    {
      System(store, passes)
    }

    ghost predicate At(start: System, me: nat, p: Pass)
      reads this
    {
      me < |passes| && passes[me] == p && Reaches(start, Now(), me)
    }

    // Anything other processes do between two of this pass's calls.
    method Interfere(ghost start: System, ghost me: nat, ghost p: Pass)
      requires At(start, me, p)
      modifies this
      ensures At(start, me, p)
    {
    }

    // This pass has made one call, on the rows `before`, and stands at p.
    ghost method Move(start: System, me: nat, before: Store, p: Pass)
      requires me < |passes| && Reaches(start, System(before, passes), me)
      requires PassStep(before, passes[me], store, p)
      modifies this`passes
      ensures passes == old(passes)[me := p] && At(start, me, p)
    {
      var m := System(before, passes);
      passes := passes[me := p];
      assert StepOfPass(m, Now(), me);
      ReachesStep(start, m, Now(), me);
    }

    // `revision` is the latest configuration revision, if any; `refused` is whether creating a run
    // is refused for a reason outside these rows (a changed configuration, a base already taken, a
    // chain too deep, a store error), and `attachThrows` whether a call after the creation fails.
    method AdvanceBacklogs(ghost me: nat, revision: Option<Provenance>, refused: bool, attachThrows: bool)
      requires me < |passes| && passes[me] == Start
      modifies this
      ensures Reaches(old(Now()), Now(), me) && me < |passes| && passes[me] == Done
    {
      ghost var start := Now();
      ReachesSelf(start, me);
      Interfere(start, me, Start);
      var status := store.status;
      if status != Active {
        Move(start, me, store, Done);
        return;
      }
      Move(start, me, store, Listing(status));
      Interfere(start, me, Listing(status));
      var items := ListItems(store);
      Move(start, me, store, Reading(status, items, 0, map[]));
      var runs := ReadRuns(start, me, status, items);
      SettleBacklogItems(start, me, status, items, runs);
      Interfere(start, me, Relisting(status, runs));
      var decision := AdvanceBacklog(status, ListItems(store), runs);
      match decision {
        case Idle => Move(start, me, store, Done);
        case Complete =>
          Move(start, me, store, Completing);
          CompleteBacklog(start, me);
        case Pause(_) =>
          Move(start, me, store, Pausing);
          PauseBacklog(start, me);
        case Dispatch(item, base) =>
          Move(start, me, store, Dispatching(item.ordinal, base));
          DispatchBacklogItem(start, me, item.ordinal, base, revision, refused, attachThrows);
      }
    }

    method ReadRuns(ghost start: System, ghost me: nat, ghost status: BacklogStatus, items: seq<Item>)
      returns (runs: map<RunId, ItemRunView>)
      requires At(start, me, Reading(status, items, 0, map[]))
      modifies this
      ensures At(start, me, Settling(status, items, 0, runs))
    {
      runs := map[];
      for next := 0 to |items|
        invariant At(start, me, Reading(status, items, next, runs))
      {
        ghost var here := Reading(status, items, next, runs);
        if items[next].runId.Some? {
          Interfere(start, me, here);
          var id := items[next].runId.value;
          if id in store.runs {
            runs := runs[id := ViewOf(store.runs[id])];
          }
        }
        assert PassStep(store, here, store, Reading(status, items, next + 1, runs));
        Move(start, me, store, Reading(status, items, next + 1, runs));
      }
      Move(start, me, store, Settling(status, items, 0, runs));
    }

    method CompleteBacklog(ghost start: System, ghost me: nat)
      requires At(start, me, Completing)
      modifies this
      ensures At(start, me, Done)
    {
      Interfere(start, me, Completing);
      ghost var before := store;
      store := UpdateBacklogStatus(store, {Active}, Completed);
      Move(start, me, before, Done);
    }

    method SettleBacklogItems(ghost start: System, ghost me: nat, ghost status: BacklogStatus,
                              items: seq<Item>, runs: map<RunId, ItemRunView>)
      requires At(start, me, Settling(status, items, 0, runs))
      modifies this
      ensures At(start, me, Relisting(status, runs))
    {
      for next := 0 to |items|
        invariant At(start, me, Settling(status, items, next, runs))
      {
        var item := items[next];
        ghost var before := store;
        if item.runId.Some? && item.status == Running && item.runId.value in runs {
          var run := runs[item.runId.value];
          if run.status == RunSucceeded || run.status == RunFailed {
            Interfere(start, me, Settling(status, items, next, runs));
            before := store;
            var to := if run.status == RunSucceeded then Succeeded else Failed;
            store := UpdateBacklogItem(store, item.ordinal, {Running}, to, None);
          } else if run.status == RunCancelled {
            Interfere(start, me, Settling(status, items, next, runs));
            before := store;
            store := UpdateBacklogItem(store, item.ordinal, {Running}, Failed, None);
          }
        }
        Move(start, me, before, Settling(status, items, next + 1, runs));
      }
      Move(start, me, store, Relisting(status, runs));
    }

    method PauseBacklog(ghost start: System, ghost me: nat)
      requires At(start, me, Pausing)
      modifies this
      ensures At(start, me, Done)
    {
      Interfere(start, me, Pausing);
      ghost var before := store;
      store := UpdateBacklogStatus(store, {Active}, BacklogPaused);
      Move(start, me, before, Done);
    }

    method DispatchBacklogItem(ghost start: System, ghost me: nat, ordinal: nat, base: Option<RunId>,
                               revision: Option<Provenance>, refused: bool, attachThrows: bool)
      requires At(start, me, Dispatching(ordinal, base))
      modifies this
      ensures At(start, me, Done)
    {
      if revision.None? {
        Move(start, me, store, Pausing);
        PauseBacklog(start, me);
        return;
      }
      Move(start, me, store, Resolving(ordinal, base, revision.value));
      var created := CreateRun(start, me, ordinal, base, revision.value, refused);
      if !created {
        PauseBacklog(start, me);
        return;
      }
      Interfere(start, me, Attaching(ordinal));
      if attachThrows {
        Move(start, me, store, Pausing);
        PauseBacklog(start, me);
        return;
      }
      ghost var before := store;
      // Whether or not this pass wins the attach, it stops here.
      store := UpdateBacklogItem(store, ordinal, {Pending}, Running, Some(ItemRun(ordinal)));
      Move(start, me, before, Done);
    }

    // createRun with resolveChain; a refusal is the caller's to act on.
    method CreateRun(ghost start: System, ghost me: nat, ordinal: nat, base: Option<RunId>, provenance: Provenance,
                     refused: bool)
      returns (created: bool)
      requires At(start, me, Resolving(ordinal, base, provenance))
      modifies this
      ensures At(start, me, if created then Attaching(ordinal) else Pausing)
    {
      var chain: Option<Chain> := None;
      if base.Some? {
        Interfere(start, me, Resolving(ordinal, base, provenance));
        var id := base.value;
        if id !in store.runs || store.runs[id].status != RunSucceeded || !Published(store.runs[id].output) {
          Move(start, me, store, Pausing);
          return false;
        }
        chain := Some(Chain(id, store.runs[id].output.branch.value, store.runs[id].output.commitSha.value));
      }
      Move(start, me, store, Creating(ordinal, base, chain, provenance));
      Interfere(start, me, Creating(ordinal, base, chain, provenance));
      if refused || Conflicts(store, ItemRun(ordinal), chain, provenance) {
        Move(start, me, store, Pausing);
        return false;
      }
      ghost var before := store;
      store := CreateRunIdempotently(store, ItemRun(ordinal), chain, provenance);
      Move(start, me, before, Attaching(ordinal));
      return true;
    }

    method SetBacklogStatus(status: BacklogStatus) returns (updated: bool)
      requires status == Active || status == BacklogPaused
      modifies this`store
      ensures updated <==> old(store.status) == (if status == Active then BacklogPaused else Active)
      ensures store == (if updated then old(store).(status := status) else old(store))
      ensures Step(old(Now()), Now())
    {
      var expected := if status == Active then {BacklogPaused} else {Active};
      updated := store.status in expected;
      store := UpdateBacklogStatus(store, expected, status);
    }
  }
}
