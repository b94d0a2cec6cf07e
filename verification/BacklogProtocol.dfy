/**
 * advanceBacklogs as a concurrent protocol over one backlog's rows. Every repository call is
 * one atomic step; a pass is a process that remembers, between calls, only what it read. Any
 * number of passes run at once, crash anywhere, and race the operator and the run workers.
 */
module BacklogProtocol {
  import opened Wrappers
  import opened Backlog

  const LIST_LIMIT: nat := 100

  // The edge a chained run was created with: its base, and what the base had published.
  datatype Chain = Chain(baseRunId: RunId, branch: string, commitSha: string)

  // The configuration revision a run was created under.
  type Provenance = nat

  datatype RunRow = RunRow(status: RunStatus, output: Output, chain: Option<Chain>, provenance: Provenance)

  // items[i] is the item with ordinal i + 1: createBacklog numbers items from one, in order.
  datatype Store = Store(status: BacklogStatus, items: seq<Item>, runs: map<RunId, RunRow>)

  datatype Pass =
    | Start
    | Listing(status: BacklogStatus)
    | Reading(status: BacklogStatus, items: seq<Item>, next: nat, runs: map<RunId, ItemRunView>)
    | Settling(status: BacklogStatus, items: seq<Item>, next: nat, runs: map<RunId, ItemRunView>)
    | Relisting(status: BacklogStatus, runs: map<RunId, ItemRunView>)
    | Completing
    | Pausing
    | Dispatching(ordinal: nat, base: Option<RunId>)
    | Resolving(ordinal: nat, base: Option<RunId>, provenance: Provenance)
    | Creating(ordinal: nat, base: Option<RunId>, chain: Option<Chain>, provenance: Provenance)
    | Attaching(ordinal: nat)
    | Done

  datatype System = System(store: Store, passes: seq<Pass>)

  // ----- repository calls -----

  function ListItems(store: Store): seq<Item> {
    if |store.items| <= LIST_LIMIT then store.items else store.items[..LIST_LIMIT]
  }

  function ViewOf(row: RunRow): ItemRunView {
    ItemRunView(row.status, row.output)
  }

  // Compare-and-set of the backlog's status.
  function UpdateBacklogStatus(store: Store, expected: set<BacklogStatus>, status: BacklogStatus): Store {
    if store.status in expected then store.(status := status) else store
  }

  // No other item may own a run that is being attached.
  predicate Attachable(store: Store, ordinal: nat, runId: RunId) {
    forall i :: 0 <= i < |store.items| && store.items[i].runId == Some(runId) ==> i + 1 == ordinal
  }

  // Compare-and-set of one item's status; attaching a run also needs the item to have none.
  predicate CanUpdateItem(store: Store, ordinal: nat, expected: set<ItemStatus>, runId: Option<RunId>) {
    && 1 <= ordinal <= |store.items|
    && store.items[ordinal - 1].status in expected
    && (runId.Some? ==> store.items[ordinal - 1].runId.None? && Attachable(store, ordinal, runId.value))
  }

  function UpdateBacklogItem(store: Store, ordinal: nat, expected: set<ItemStatus>, status: ItemStatus,
                             runId: Option<RunId>): Store
  {
    if !CanUpdateItem(store, ordinal, expected, runId) then store
    else
      var item := store.items[ordinal - 1];
      var updated := item.(status := status, runId := if runId.Some? then runId else item.runId);
      store.(items := store.items[ordinal - 1 := updated])
  }

  // A second creation under one id must repeat the first one's input, or it is refused.
  predicate Conflicts(store: Store, id: RunId, chain: Option<Chain>, provenance: Provenance) {
    id in store.runs && (store.runs[id].chain != chain || store.runs[id].provenance != provenance)
  }

  function CreateRunIdempotently(store: Store, id: RunId, chain: Option<Chain>, provenance: Provenance): Store {
    if id in store.runs then store
    else store.(runs := store.runs[id := RunRow(RunPending, Output(None, None), chain, provenance)])
  }

  // What settleBacklogItems writes for an item, if anything.
  function SettledAs(item: Item, runs: map<RunId, ItemRunView>): Option<ItemStatus> {
    if item.runId.None? || item.status != Running || item.runId.value !in runs then None
    else match runs[item.runId.value].status
      case RunSucceeded => Some(Succeeded)
      case RunFailed => Some(Failed)
      case RunCancelled => Some(Failed)
      case _ => None
  }

  // ----- one step of a pass: at most one repository call -----

  ghost predicate PassStep(st: Store, p: Pass, st': Store, p': Pass) {
    match p
    case Start => st' == st && p' == (if st.status == Active then Listing(st.status) else Done)
    case Listing(status) => st' == st && p' == Reading(status, ListItems(st), 0, map[])
    case Reading(status, items, next, runs) =>
      && st' == st
      && p' == (if next >= |items| then Settling(status, items, 0, runs)
                else match items[next].runId
                  case None => Reading(status, items, next + 1, runs)
                  case Some(id) =>
                    Reading(status, items, next + 1, if id in st.runs then runs[id := ViewOf(st.runs[id])] else runs))
    case Settling(status, items, next, runs) =>
      if next >= |items| then st' == st && p' == Relisting(status, runs)
      else
        && p' == Settling(status, items, next + 1, runs)
        && st' == (match SettledAs(items[next], runs)
                   case None => st
                   case Some(to) => UpdateBacklogItem(st, items[next].ordinal, {Running}, to, None))
    case Relisting(status, runs) =>
      && st' == st
      && p' == (match Decide(status, ListItems(st), runs)
                case Idle => Done
                case Complete => Completing
                case Pause(_) => Pausing
                case Dispatch(item, base) => Dispatching(item.ordinal, base))
    case Completing => st' == UpdateBacklogStatus(st, {Active}, Completed) && p' == Done
    case Pausing => st' == UpdateBacklogStatus(st, {Active}, BacklogPaused) && p' == Done
    case Dispatching(ordinal, base) =>
      // The latest configuration revision, which may be missing.
      && st' == st
      && (p' == Pausing || exists provenance: Provenance :: p' == Resolving(ordinal, base, provenance))
    case Resolving(ordinal, base, provenance) =>
      // Every refusal of resolveChain pauses; without one the base is succeeded and published.
      && st' == st
      && (p' == Pausing ||
          match base
          case None => p' == Creating(ordinal, base, None, provenance)
          case Some(id) =>
            && id in st.runs && st.runs[id].status == RunSucceeded && Published(st.runs[id].output)
            && var output := st.runs[id].output;
               p' == Creating(ordinal, base, Some(Chain(id, output.branch.value, output.commitSha.value)), provenance))
    case Creating(ordinal, base, chain, provenance) =>
      || (st' == st && p' == Pausing)
      || (&& !Conflicts(st, ItemRun(ordinal), chain, provenance)
          && st' == CreateRunIdempotently(st, ItemRun(ordinal), chain, provenance)
          && p' == Attaching(ordinal))
    case Attaching(ordinal) =>
      || (st' == st && p' == Pausing)
      || (st' == UpdateBacklogItem(st, ordinal, {Pending}, Running, Some(ItemRun(ordinal))) && p' == Done)
    case Done => st' == st && p' == Done
  }

  // ----- everything else that touches the rows -----

  ghost predicate ItemSetAside(st: Store, st': Store, i: nat) {
    && i < |st.items| && st.items[i].status in {Pending, Failed}
    && st' == st.(items := st.items[i := st.items[i].(status := Skipped)])
  }

  // Only a run that has not succeeded moves on, fails, or is reopened; its input stays.
  ghost predicate RunMoves(st: Store, st': Store, id: RunId, status: RunStatus, output: Output) {
    && id in st.runs && st.runs[id].status != RunSucceeded
    && st' == st.(runs := st.runs[id := st.runs[id].(status := status, output := output)])
  }

  ghost predicate OtherRunAppears(st: Store, st': Store, key: nat, row: RunRow) {
    OtherRun(key) !in st.runs && st' == st.(runs := st.runs[OtherRun(key) := row])
  }

  ghost predicate EnvironmentStep(st: Store, st': Store) {
    // the operator pauses or resumes
    || st' == UpdateBacklogStatus(st, {Active}, BacklogPaused)
    || st' == UpdateBacklogStatus(st, {BacklogPaused}, Active)
    // createBacklog is still adding items, in order
    || st' == st.(items := st.items + [Item(|st.items| + 1, Pending, None)])
    || (exists i: nat :: ItemSetAside(st, st', i))
    || (exists id: RunId, status: RunStatus, output: Output :: RunMoves(st, st', id, status, output))
    || (exists key: nat, row: RunRow :: OtherRunAppears(st, st', key, row))
  }

  ghost predicate StepOfPass(s: System, s': System, i: nat) {
    && i < |s.passes| && |s'.passes| == |s.passes|
    && s'.passes == s.passes[i := s'.passes[i]]
    && PassStep(s.store, s.passes[i], s'.store, s'.passes[i])
  }

  ghost predicate Crash(s: System, s': System, i: nat) {
    i < |s.passes| && s' == s.(passes := s.passes[i := Done])
  }

  ghost predicate Step(s: System, s': System) {
    || (s'.passes == s.passes && EnvironmentStep(s.store, s'.store))
    || (s'.passes == s.passes + [Start] && s'.store == s.store)
    || (exists i: nat :: StepOfPass(s, s', i))
    || (exists i: nat :: Crash(s, s', i))
  }

  ghost predicate Initial(s: System) {
    s.passes == [] && s.store.items == [] && (forall o :: ItemRun(o) !in s.store.runs)
  }

  ghost predicate IsRun(trace: seq<System>) {
    && trace != [] && Initial(trace[0])
    && forall t :: 0 <= t < |trace| - 1 ==> Step(trace[t], trace[t + 1])
  }

  // ----- the invariant -----

  ghost predicate SettledBefore(st: Store, ordinal: nat) {
    1 <= ordinal <= |st.items| && forall j :: 0 <= j < ordinal - 1 ==> Settled(st.items[j])
  }

  // The dispatch of `ordinal` on `base` is the right one, now and ever after.
  ghost predicate RightDispatch(st: Store, ordinal: nat, base: Option<RunId>) {
    SettledBefore(st, ordinal) && base == BaseRun(st.items[..ordinal - 1])
  }

  function BaseOf(chain: Option<Chain>): Option<RunId> {
    if chain.None? then None else Some(chain.value.baseRunId)
  }

  // A chain names a succeeded run and exactly what that run published.
  ghost predicate ChainHolds(st: Store, chain: Option<Chain>) {
    chain.Some? ==>
      var c := chain.value;
      c.baseRunId in st.runs && st.runs[c.baseRunId].status == RunSucceeded
      && st.runs[c.baseRunId].output == Output(Some(c.branch), Some(c.commitSha))
  }

  ghost predicate ItemInv(st: Store, i: nat)
    requires i < |st.items|
  {
    var item := st.items[i];
    && item.ordinal == i + 1
    && (item.runId.Some? ==> item.runId.value == ItemRun(i + 1) && ItemRun(i + 1) in st.runs)
    && (item.status == Pending ==> item.runId.None?)
    && (item.status == Running ==> item.runId.Some?)
    && (item.status == Succeeded ==> item.runId.Some? && st.runs[item.runId.value].status == RunSucceeded)
  }

  ghost predicate RunInv(st: Store, ordinal: nat)
    requires ItemRun(ordinal) in st.runs
  {
    var row := st.runs[ItemRun(ordinal)];
    RightDispatch(st, ordinal, BaseOf(row.chain)) && ChainHolds(st, row.chain)
  }

  ghost predicate StoreInv(st: Store) {
    && (forall i :: 0 <= i < |st.items| ==> ItemInv(st, i))
    && (forall o :: ItemRun(o) in st.runs ==> RunInv(st, o))
  }

  // A snapshot may be stale, but what it saw settled, or attached, is so still.
  ghost predicate SnapshotHolds(st: Store, items: seq<Item>) {
    && |items| <= |st.items|
    && forall i :: 0 <= i < |items| ==>
         && items[i].ordinal == i + 1
         && (Settled(items[i]) ==> st.items[i] == items[i])
         && (items[i].runId.Some? ==> st.items[i].runId == items[i].runId)
  }

  ghost predicate ViewsHold(st: Store, runs: map<RunId, ItemRunView>) {
    forall id :: id in runs && runs[id].status == RunSucceeded ==> id in st.runs && st.runs[id].status == RunSucceeded
  }

  ghost predicate PassInv(st: Store, p: Pass) {
    match p
    case Reading(_, items, _, runs) => SnapshotHolds(st, items) && ViewsHold(st, runs)
    case Settling(_, items, _, runs) => SnapshotHolds(st, items) && ViewsHold(st, runs)
    case Dispatching(ordinal, base) => RightDispatch(st, ordinal, base)
    case Resolving(ordinal, base, _) => RightDispatch(st, ordinal, base)
    case Creating(ordinal, base, chain, _) =>
      RightDispatch(st, ordinal, base) && BaseOf(chain) == base && ChainHolds(st, chain)
    case Attaching(ordinal) => ItemRun(ordinal) in st.runs
    case _ => true
  }

  ghost predicate Inv(s: System) {
    StoreInv(s.store) && forall i :: 0 <= i < |s.passes| ==> PassInv(s.store, s.passes[i])
  }

  // ----- what never moves back -----

  ghost predicate Later(st: Store, st': Store) {
    && |st.items| <= |st'.items|
    && (forall i :: 0 <= i < |st.items| && Settled(st.items[i]) ==> st'.items[i] == st.items[i])
    && (forall i :: 0 <= i < |st.items| && st.items[i].runId.Some? ==> st'.items[i].runId == st.items[i].runId)
    && (forall id :: id in st.runs ==>
          && id in st'.runs
          && st'.runs[id].chain == st.runs[id].chain && st'.runs[id].provenance == st.runs[id].provenance
          && (st.runs[id].status == RunSucceeded ==> st'.runs[id] == st.runs[id]))
  }

  lemma LaterKeepsDispatch(st: Store, st': Store, ordinal: nat, base: Option<RunId>)
    requires Later(st, st') && RightDispatch(st, ordinal, base)
    ensures RightDispatch(st', ordinal, base)
  {
    assert st'.items[..ordinal - 1] == st.items[..ordinal - 1];
  }

  lemma LaterKeepsPass(st: Store, st': Store, p: Pass)
    requires Later(st, st') && PassInv(st, p)
    ensures PassInv(st', p)
  {
    match p
    case Dispatching(ordinal, base) => LaterKeepsDispatch(st, st', ordinal, base);
    case Resolving(ordinal, base, _) => LaterKeepsDispatch(st, st', ordinal, base);
    case Creating(ordinal, base, _, _) => LaterKeepsDispatch(st, st', ordinal, base);
    case _ =>
  }

  lemma LaterTransitive(a: Store, b: Store, c: Store)
    requires Later(a, b) && Later(b, c)
    ensures Later(a, c)
  {
  }

  // Rewriting an item that is not settled disturbs no item run: those sit behind settled items.
  lemma ItemUpdateKeepsInv(st: Store, i: nat, item: Item)
    requires StoreInv(st) && i < |st.items| && !Settled(st.items[i])
    requires st.items[i].runId.Some? ==> item.runId == st.items[i].runId
    requires ItemInv(st.(items := st.items[i := item]), i)
    ensures var st' := st.(items := st.items[i := item]); StoreInv(st') && Later(st, st')
  {
    var st' := st.(items := st.items[i := item]);
    forall j | 0 <= j < |st'.items| ensures ItemInv(st', j) {
      assert ItemInv(st, j);
    }
    forall o | ItemRun(o) in st'.runs ensures RunInv(st', o) {
      assert RunInv(st, o);
      assert st'.items[..o - 1] == st.items[..o - 1];
    }
  }

  // Changing run rows that have not succeeded, or adding rows, keeps everything about items.
  lemma RunUpdateKeepsInv(st: Store, id: RunId, row: RunRow)
    requires StoreInv(st)
    requires id in st.runs ==> st.runs[id].status != RunSucceeded
                               && row.chain == st.runs[id].chain && row.provenance == st.runs[id].provenance
    requires id !in st.runs && id.ItemRun? ==>
        RightDispatch(st, id.ordinal, BaseOf(row.chain)) && ChainHolds(st, row.chain)
    ensures var st' := st.(runs := st.runs[id := row]); StoreInv(st') && Later(st, st')
  {
    var st' := st.(runs := st.runs[id := row]);
    forall i | 0 <= i < |st'.items| ensures ItemInv(st', i) {
      assert ItemInv(st, i);
    }
    forall o | ItemRun(o) in st'.runs ensures RunInv(st', o) {
      if ItemRun(o) in st.runs { assert RunInv(st, o); }
    }
  }

  lemma EnvironmentKeepsInv(st: Store, st': Store)
    requires StoreInv(st) && EnvironmentStep(st, st')
    ensures StoreInv(st') && Later(st, st')
  {
    if st' == st.(items := st.items + [Item(|st.items| + 1, Pending, None)]) {
      forall i | 0 <= i < |st'.items| ensures ItemInv(st', i) {
        if i < |st.items| { assert ItemInv(st, i); }
      }
      forall o | ItemRun(o) in st'.runs ensures RunInv(st', o) {
        assert RunInv(st, o);
        assert st'.items[..o - 1] == st.items[..o - 1];
      }
    } else if i: nat :| ItemSetAside(st, st', i) {
      assert ItemInv(st, i);
      ItemUpdateKeepsInv(st, i, st.items[i].(status := Skipped));
    } else if id: RunId, status: RunStatus, output: Output :| RunMoves(st, st', id, status, output) {
      RunUpdateKeepsInv(st, id, st.runs[id].(status := status, output := output));
    } else if key: nat, row: RunRow :| OtherRunAppears(st, st', key, row) {
      RunUpdateKeepsInv(st, OtherRun(key), row);
    } else {
      StatusIsIrrelevant(st, st');
    }
  }

  lemma StatusIsIrrelevant(st: Store, st': Store)
    requires StoreInv(st) && st' == st.(status := st'.status)
    ensures StoreInv(st') && Later(st, st')
  {
    forall i | 0 <= i < |st'.items| ensures ItemInv(st', i) { assert ItemInv(st, i); }
    forall o | ItemRun(o) in st'.runs ensures RunInv(st', o) { assert RunInv(st, o); }
  }

  // A fresh listing is a snapshot that holds; deciding on it yields a right dispatch.
  lemma ListingHolds(st: Store)
    requires StoreInv(st)
    ensures SnapshotHolds(st, ListItems(st))
  {
    forall i | 0 <= i < |ListItems(st)| ensures ListItems(st)[i] == st.items[i] && st.items[i].ordinal == i + 1 {
      assert ItemInv(st, i);
    }
  }

  lemma DecisionIsRight(st: Store, status: BacklogStatus, runs: map<RunId, ItemRunView>, item: Item,
                        base: Option<RunId>)
    requires StoreInv(st)
    requires Decide(status, ListItems(st), runs) == Dispatch(item, base)
    ensures RightDispatch(st, item.ordinal, base)
  {
    var items := ListItems(st);
    ListingHolds(st);
    var k := SortedDispatch(status, items, runs, item, base);
    assert items[..k] == st.items[..k];
    assert item.ordinal == k + 1;
  }

  lemma SettleKeepsInv(st: Store, items: seq<Item>, next: nat, runs: map<RunId, ItemRunView>, to: ItemStatus)
    requires StoreInv(st) && SnapshotHolds(st, items) && ViewsHold(st, runs)
    requires next < |items| && SettledAs(items[next], runs) == Some(to)
    ensures var st' := UpdateBacklogItem(st, items[next].ordinal, {Running}, to, None); StoreInv(st') && Later(st, st')
  {
    assert ItemInv(st, next);
    if CanUpdateItem(st, items[next].ordinal, {Running}, None) {
      ItemUpdateKeepsInv(st, next, st.items[next].(status := to));
    }
  }

  lemma AttachKeepsInv(st: Store, ordinal: nat)
    requires StoreInv(st) && ItemRun(ordinal) in st.runs
    ensures var st' := UpdateBacklogItem(st, ordinal, {Pending}, Running, Some(ItemRun(ordinal)));
            StoreInv(st') && Later(st, st')
  {
    assert RunInv(st, ordinal);
    assert ItemInv(st, ordinal - 1);
    if CanUpdateItem(st, ordinal, {Pending}, Some(ItemRun(ordinal))) {
      ItemUpdateKeepsInv(st, ordinal - 1, st.items[ordinal - 1].(status := Running, runId := Some(ItemRun(ordinal))));
    }
  }

  lemma PassStepKeepsInv(st: Store, p: Pass, st': Store, p': Pass)
    requires StoreInv(st) && PassInv(st, p) && PassStep(st, p, st', p')
    ensures StoreInv(st') && Later(st, st') && PassInv(st', p')
  {
    match p
    case Listing(status) => ListingHolds(st);
    case Settling(status, items, next, runs) =>
      if next < |items| && SettledAs(items[next], runs).Some? {
        SettleKeepsInv(st, items, next, runs, SettledAs(items[next], runs).value);
      }
      LaterKeepsPass(st, st', p);
    case Relisting(status, runs) =>
      match Decide(status, ListItems(st), runs) {
        case Dispatch(item, base) => DecisionIsRight(st, status, runs, item, base);
        case _ =>
      }
    case Completing => StatusIsIrrelevant(st, st');
    case Pausing => StatusIsIrrelevant(st, st');
    case Creating(ordinal, base, chain, provenance) =>
      if p' != Pausing && ItemRun(ordinal) !in st.runs {
        RunUpdateKeepsInv(st, ItemRun(ordinal), RunRow(RunPending, Output(None, None), chain, provenance));
      }
    case Attaching(ordinal) => AttachKeepsInv(st, ordinal);
    case _ =>
  }

  lemma StepKeepsInv(s: System, s': System)
    requires Inv(s) && Step(s, s')
    ensures Inv(s') && Later(s.store, s'.store)
  {
    if s'.passes == s.passes && EnvironmentStep(s.store, s'.store) {
      EnvironmentKeepsInv(s.store, s'.store);
    } else if i: nat :| StepOfPass(s, s', i) {
      PassStepKeepsInv(s.store, s.passes[i], s'.store, s'.passes[i]);
    }
    forall j | 0 <= j < |s'.passes| ensures PassInv(s'.store, s'.passes[j]) {
      if j < |s.passes| && s'.passes[j] == s.passes[j] {
        LaterKeepsPass(s.store, s'.store, s.passes[j]);
      }
    }
  }

  lemma {:induction false} RunKeepsInv(trace: seq<System>, t: nat)
    requires IsRun(trace) && t < |trace|
    ensures Inv(trace[t])
  {
    if t > 0 {
      RunKeepsInv(trace, t - 1);
      assert Step(trace[t - 1], trace[t - 1 + 1]);
      StepKeepsInv(trace[t - 1], trace[t]);
    }
  }

  lemma RunStepAdvances(trace: seq<System>, t: nat)
    requires IsRun(trace) && t + 1 < |trace|
    ensures Later(trace[t].store, trace[t + 1].store)
  {
    RunKeepsInv(trace, t);
    assert Step(trace[t], trace[t + 1]);
    StepKeepsInv(trace[t], trace[t + 1]);
  }

  lemma {:induction false} RunOnlyAdvances(trace: seq<System>, a: nat, b: nat)
    requires IsRun(trace) && a <= b < |trace|
    ensures Later(trace[a].store, trace[b].store)
    decreases b
  {
    hide IsRun;
    if a < b {
      hide Later;
      RunOnlyAdvances(trace, a, b - 1);
      RunStepAdvances(trace, b - 1);
      LaterTransitive(trace[a].store, trace[b - 1].store, trace[b].store);
    }
  }

  // ----- the theorems -----

  // At any moment of any run at most one item is running, and everything before an item that
  // has a run, or for which a run merely exists, is succeeded or skipped.
  lemma OneRunningItem(trace: seq<System>, t: nat)
    requires IsRun(trace) && t < |trace|
    ensures var items := trace[t].store.items;
            && (forall i, j | 0 <= i < |items| && 0 <= j < |items| ::
                  items[i].status == Running && items[j].status == Running ==> i == j)
            && (forall i, j :: 0 <= i < j < |items| && items[j].runId.Some? ==> Settled(items[i]))
            && (forall i, o :: 0 <= i < o - 1 && ItemRun(o) in trace[t].store.runs ==>
                o <= |items| && Settled(items[i]))
  {
    RunKeepsInv(trace, t);
    var st := trace[t].store;
    forall i, j | 0 <= i < j < |st.items| && st.items[j].runId.Some? ensures Settled(st.items[i]) {
      assert ItemInv(st, j);
      assert RunInv(st, j + 1);
    }
    forall i | 0 <= i < |st.items| && st.items[i].status == Running ensures st.items[i].runId.Some? {
      assert ItemInv(st, i);
    }
    forall i, o | 0 <= i < o - 1 && ItemRun(o) in st.runs ensures o <= |st.items| && Settled(st.items[i]) {
      assert RunInv(st, o);
    }
  }

  // Each item yields at most one run: the only run id an item ever holds is the one generated
  // for its ordinal, once held it is never changed, and the run's input is never rewritten.
  lemma OneRunPerItem(trace: seq<System>, a: nat, b: nat, i: nat)
    requires IsRun(trace) && a <= b < |trace| && i < |trace[a].store.items|
    ensures i < |trace[b].store.items|
    ensures trace[a].store.items[i].runId.Some? ==>
              && trace[a].store.items[i].runId == Some(ItemRun(i + 1))
              && trace[b].store.items[i].runId == trace[a].store.items[i].runId
    ensures ItemRun(i + 1) in trace[a].store.runs ==>
              && ItemRun(i + 1) in trace[b].store.runs
              && trace[b].store.runs[ItemRun(i + 1)].chain == trace[a].store.runs[ItemRun(i + 1)].chain
    ensures Settled(trace[a].store.items[i]) ==> trace[b].store.items[i] == trace[a].store.items[i]
  {
    RunKeepsInv(trace, a);
    assert ItemInv(trace[a].store, i);
    RunOnlyAdvances(trace, a, b);
  }

  predicate Targets(p: Pass, ordinal: nat, base: Option<RunId>) {
    match p
    case Dispatching(o, b) => o == ordinal && b == base
    case Resolving(o, b, _) => o == ordinal && b == base
    case Creating(o, b, _, _) => o == ordinal && b == base
    case _ => false
  }

  // Any two passes, at any two moments, that mean to dispatch the same item mean the same base.
  lemma SameItemSameBase(trace: seq<System>, a: nat, b: nat, i: nat, j: nat, ordinal: nat, x: Option<RunId>,
                         y: Option<RunId>)
    requires IsRun(trace) && a <= b < |trace| && i < |trace[a].passes| && j < |trace[b].passes|
    requires Targets(trace[a].passes[i], ordinal, x) && Targets(trace[b].passes[j], ordinal, y)
    ensures 1 <= ordinal <= |trace[b].store.items|
    ensures x == y && x == BaseRun(trace[b].store.items[..ordinal - 1])
  {
    RunKeepsInv(trace, a);
    RunKeepsInv(trace, b);
    assert PassInv(trace[a].store, trace[a].passes[i]);
    assert PassInv(trace[b].store, trace[b].passes[j]);
    RunOnlyAdvances(trace, a, b);
    LaterKeepsDispatch(trace[a].store, trace[b].store, ordinal, x);
  }

  // A second creation of an item's run is refused only for a changed configuration: the chain
  // it would record, down to the branch and the commit, is the one already recorded.
  lemma OnlyConfigurationConflicts(trace: seq<System>, t: nat, i: nat)
    requires IsRun(trace) && t < |trace| && i < |trace[t].passes| && trace[t].passes[i].Creating?
    ensures var p := trace[t].passes[i]; var st := trace[t].store; var id := ItemRun(p.ordinal);
            Conflicts(st, id, p.chain, p.provenance) <==> id in st.runs && st.runs[id].provenance != p.provenance
  {
    RunKeepsInv(trace, t);
    var p := trace[t].passes[i];
    var st := trace[t].store;
    assert PassInv(st, p);
    if ItemRun(p.ordinal) in st.runs {
      assert RunInv(st, p.ordinal);
      assert BaseOf(p.chain) == BaseOf(st.runs[ItemRun(p.ordinal)].chain);
    }
  }

  // i is the position of the last succeeded item before ordinal o, the items between them are
  // skipped, and the run of o was created on the run of i.
  ghost predicate BuiltOn(st: Store, i: nat, o: nat)
    requires ItemRun(o) in st.runs
  {
    && i + 1 < o <= |st.items| && st.items[i].status == Succeeded && st.items[i].runId == Some(ItemRun(i + 1))
    && (forall j :: i < j < o - 1 ==> st.items[j].status == Skipped)
    && BaseOf(st.runs[ItemRun(o)].chain) == Some(ItemRun(i + 1))
  }

  // The runs form one line in ordinal order: the run of an item builds on the run of the
  // nearest earlier succeeded item, on exactly what that run published, and that base has succeeded.
  lemma RunsFormALine(trace: seq<System>, t: nat, o: nat)
    requires IsRun(trace) && t < |trace| && ItemRun(o) in trace[t].store.runs
    ensures var st := trace[t].store; var chain := st.runs[ItemRun(o)].chain;
            && 1 <= o <= |st.items|
            && (chain.None? ==> forall i :: 0 <= i < o - 1 ==> st.items[i].status == Skipped)
            && (chain.Some? ==> exists i: nat :: BuiltOn(st, i, o))
            && ChainHolds(st, chain)
  {
    RunKeepsInv(trace, t);
    var st := trace[t].store;
    assert RunInv(st, o);
    var prefix := st.items[..o - 1];
    BaseRunIsNearest(prefix);
    forall i | 0 <= i < o - 1
      ensures prefix[i] == st.items[i] && Settled(prefix[i])
      ensures prefix[i].status == Succeeded ==> prefix[i].runId == Some(ItemRun(i + 1))
    {
      assert ItemInv(st, i);
    }
    if BaseRun(prefix).Some? {
      var i :| 0 <= i < |prefix| && prefix[i].status == Succeeded && prefix[i].runId == BaseRun(prefix)
               && forall j :: i < j < |prefix| && prefix[j].status == Succeeded ==> prefix[j].runId.None?;
      assert BuiltOn(st, i, o);
    }
  }

  // No fork: two items' runs share a base, or both have none, only if the earlier item was set
  // aside without succeeding.
  lemma NoFork(trace: seq<System>, t: nat, o1: nat, o2: nat)
    requires IsRun(trace) && t < |trace| && o1 < o2
    requires ItemRun(o1) in trace[t].store.runs && ItemRun(o2) in trace[t].store.runs
    requires BaseOf(trace[t].store.runs[ItemRun(o1)].chain) == BaseOf(trace[t].store.runs[ItemRun(o2)].chain)
    ensures 1 <= o1 <= |trace[t].store.items| && trace[t].store.items[o1 - 1].status == Skipped
  {
    RunsFormALine(trace, t, o1);
    RunsFormALine(trace, t, o2);
    var st := trace[t].store;
    if st.runs[ItemRun(o2)].chain.Some? {
      var i: nat :| BuiltOn(st, i, o2);
      var j: nat :| BuiltOn(st, j, o1);
      assert i == j;
    }
  }

  // What one step can do to the backlog's status.
  lemma StatusMoves(s: System, s': System)
    requires Step(s, s')
    ensures s'.store.status != s.store.status ==>
              || (s.store.status == Active && s'.store.status == BacklogPaused)
              || (s.store.status == BacklogPaused && s'.store.status == Active)
              || (&& s.store.status == Active && s'.store.status == Completed
                  && exists i: nat :: i < |s.passes| && s.passes[i].Completing?)
  {
    if i: nat :| StepOfPass(s, s', i) {
      PassMovesStatus(s.store, s.passes[i], s'.store, s'.passes[i]);
    }
  }

  lemma PassMovesStatus(st: Store, p: Pass, st': Store, p': Pass)
    requires PassStep(st, p, st', p')
    ensures st'.status != st.status ==>
              st.status == Active && st'.status == if p.Completing? then Completed else BacklogPaused
  {
    hide Decide, SettledAs, CanUpdateItem;
  }

  // A backlog that is completed is never paused or resumed again, whatever passes are still on their way.
  lemma {:induction false} CompletedStays(trace: seq<System>, a: nat, b: nat)
    requires IsRun(trace) && a <= b < |trace| && trace[a].store.status == Completed
    ensures trace[b].store.status == Completed
    decreases b
  {
    if a < b {
      CompletedStays(trace, a, b - 1);
      assert Step(trace[b - 1], trace[b - 1 + 1]);
      StatusMoves(trace[b - 1], trace[b]);
    }
  }
}
