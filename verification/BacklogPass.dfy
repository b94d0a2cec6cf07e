/**
 * What a pass does to the rows, told without its steps: how each item is settled, and, when
 * nothing else touches the rows meanwhile, everything the pass leaves behind.
 */
module BacklogPass {
  import opened Wrappers
  import opened Backlog
  import opened BacklogProtocol

  // ----- settling one item -----

  predicate StillRunning(st: Store, ordinal: nat) {
    1 <= ordinal <= |st.items| && st.items[ordinal - 1].status == Running
  }

  /**
   * Settling an item writes at most its status, and only while the item is still running: succeeded
   * exactly when the run read had succeeded, failed exactly when it had failed or been cancelled.
   */
  lemma SettlingWrites(st: Store, status: BacklogStatus, items: seq<Item>, next: nat, runs: map<RunId, ItemRunView>,
                       st': Store, p': Pass)
    requires next < |items| && PassStep(st, Settling(status, items, next, runs), st', p')
    ensures p' == Settling(status, items, next + 1, runs)
    ensures var item := items[next]; var o := item.ordinal;
            && (item.status != Running || !StillRunning(st, o) ==> st' == st)
            && (item.status == Running && StillRunning(st, o) ==>
                  && |st'.items| == |st.items|
                  && st' == st.(items := st.items[o - 1 := st.items[o - 1].(status := st'.items[o - 1].status)])
                  && (st'.items[o - 1].status == Succeeded <==> RunIsIn(item, runs, {RunSucceeded}))
                  && (st'.items[o - 1].status == Failed <==> RunIsIn(item, runs, {RunFailed, RunCancelled}))
                  && (st'.items[o - 1].status == Running <==>
                      !RunIsIn(item, runs, {RunSucceeded, RunFailed, RunCancelled})))
  {
  }

  // ----- what settling leaves -----

  predicate RunsOn(item: Item, runs: map<RunId, RunRow>, statuses: set<RunStatus>) {
    item.runId.Some? && item.runId.value in runs && runs[item.runId.value].status in statuses
  }

  // Items whose status mirrors that of the run they wait for.
  ghost predicate Mirrors(before: Item, after: Item, runs: map<RunId, RunRow>) {
    && after == before.(status := after.status)
    && (after.status != before.status ==> before.status == Running)
    && (before.status == Running ==>
          && (after.status == Succeeded <==> RunsOn(before, runs, {RunSucceeded}))
          && (after.status == Failed <==> RunsOn(before, runs, {RunFailed, RunCancelled}))
          && (after.status == Running <==> !RunsOn(before, runs, {RunSucceeded, RunFailed, RunCancelled})))
  }

  // m is st with its first n items settled.
  ghost predicate SettledTo(st: Store, m: Store, n: nat) {
    && |m.items| == |st.items| && m == st.(items := m.items)
    && forall i :: 0 <= i < |st.items| ==>
         if i < n then Mirrors(st.items[i], m.items[i], st.runs) else m.items[i] == st.items[i]
  }

  lemma SettledOneMore(st: Store, m: Store, n: nat, runs: map<RunId, ItemRunView>, m': Store, p': Pass)
    requires StoreInv(st) && SettledTo(st, m, n) && n < |ListItems(st)| && AllRead(st, |ListItems(st)|, runs)
    requires PassStep(m, Settling(Active, ListItems(st), n, runs), m', p')
    ensures SettledTo(st, m', n + 1) && p' == Settling(Active, ListItems(st), n + 1, runs)
  {
    assert ListItems(st)[n] == st.items[n] == m.items[n] && ItemInv(st, n);
    SettlingWrites(m, Active, ListItems(st), n, runs, m', p');
    hide PassStep;
  }

  // The runs of the first n listed items have been read, as they are.
  ghost predicate AllRead(st: Store, n: nat, runs: map<RunId, ItemRunView>) {
    && n <= |st.items|
    && (forall id :: id in runs ==> id in st.runs && runs[id] == ViewOf(st.runs[id]))
    && (forall i :: 0 <= i < n && st.items[i].runId.Some? ==> st.items[i].runId.value in runs)
  }

  // ----- the one move after settling -----

  // The first listed item that is neither succeeded nor skipped.
  function Next(m: Store): (k: nat)
    ensures k <= |ListItems(m)| <= |m.items|
    ensures forall i :: 0 <= i < k ==> Settled(m.items[i])
    ensures k < |ListItems(m)| ==> !Settled(m.items[k])
  {
    Front(ListItems(m))
  }

  function BaseAt(m: Store, k: nat): Option<RunId>
    requires k <= |m.items|
  {
    BaseRun(m.items[..k])
  }

  predicate BaseIsUsable(m: Store, base: Option<RunId>) {
    base.Some? ==> base.value in m.runs && Published(m.runs[base.value].output)
  }

  // The item at k is waiting for its run.
  predicate Waits(m: Store, k: nat)
    requires k < |m.items|
  {
    RunsOn(m.items[k], m.runs, {RunPending, RunRunning, RunWaiting, RunSucceeded})
  }

  // The item at k stops the backlog: its run ended without success, it failed, or what it would
  // build on is not published.
  predicate Stuck(m: Store, k: nat)
    requires k < |m.items|
  {
    || RunsOn(m.items[k], m.runs, {RunFailed, RunCancelled})
    || (m.items[k].runId.None? && m.items[k].status == Failed)
    || (m.items[k].runId.None? && m.items[k].status == Pending && !BaseIsUsable(m, BaseAt(m, k)))
  }

  // The item at k can be started.
  predicate Ready(m: Store, k: nat)
    requires k < |m.items|
  {
    m.items[k].runId.None? && m.items[k].status == Pending && BaseIsUsable(m, BaseAt(m, k))
  }

  // The edge to a base: what it published.
  function ChainOn(m: Store, base: Option<RunId>): Option<Chain>
    requires BaseIsUsable(m, base)
  {
    if base.None? then None
    else Some(Chain(base.value, m.runs[base.value].output.branch.value, m.runs[base.value].output.commitSha.value))
  }

  // c is m with the run of the item at k, created now or earlier, on the right base.
  ghost predicate HasRun(m: Store, k: nat, c: Store)
    requires k < |m.items| && Ready(m, k)
  {
    var id := ItemRun(k + 1);
    && id in c.runs && c == m.(runs := m.runs[id := c.runs[id]])
    && (if id in m.runs then c.runs[id] == m.runs[id]
        else c.runs[id].status == RunPending && c.runs[id].output == Output(None, None))
    && c.runs[id].chain == ChainOn(m, BaseAt(m, k))
  }

  // What deciding on settled rows amounts to: everything hangs on the first open item.
  lemma DecisionOn(m: Store, runs: map<RunId, ItemRunView>)
    requires StoreInv(m) && AllRead(m, |ListItems(m)|, runs)
    ensures var k, decision := Next(m), Decide(Active, ListItems(m), runs);
            && (m.items == [] ==> decision == Idle)
            && (m.items != [] && k == |ListItems(m)| ==> decision == Complete)
            && (k < |ListItems(m)| ==>
                  && (Waits(m, k) ==> decision == Idle)
                  && (Stuck(m, k) ==> decision.Pause?)
                  && (Ready(m, k) ==> decision == Dispatch(m.items[k], BaseAt(m, k)))
                  && (Waits(m, k) || Stuck(m, k) || Ready(m, k)))
  {
    var items, k := ListItems(m), Next(m);
    ListingHolds(m);
    SortOfSorted(items);
    if k < |items| {
      assert ItemInv(m, k) && items[k] == m.items[k] && items[..k] == m.items[..k];
      BaseWasRead(m, k, runs);
      VerdictOn(m, k, runs);
    }
  }

  lemma BaseWasRead(m: Store, k: nat, runs: map<RunId, ItemRunView>)
    requires AllRead(m, |ListItems(m)|, runs) && k <= |ListItems(m)|
    ensures BaseAt(m, k).Some? ==> BaseAt(m, k).value in runs
  {
    BaseRunIsNearest(m.items[..k]);
  }

  lemma VerdictOn(m: Store, k: nat, runs: map<RunId, ItemRunView>)
    requires AllRead(m, |ListItems(m)|, runs) && k < |ListItems(m)| && ItemInv(m, k) && !Settled(m.items[k])
    requires BaseAt(m, k).Some? ==> BaseAt(m, k).value in runs
    ensures var verdict := Verdict(m.items[k], BaseAt(m, k), runs);
            && (Waits(m, k) ==> verdict == Idle)
            && (Stuck(m, k) ==> verdict.Pause?)
            && (Ready(m, k) ==> verdict == Dispatch(m.items[k], BaseAt(m, k)))
            && (Waits(m, k) || Stuck(m, k) || Ready(m, k))
  {
    var item := m.items[k];
    if item.runId.Some? {
      assert item.runId.value in m.runs && runs[item.runId.value] == ViewOf(m.runs[item.runId.value]);
      match m.runs[item.runId.value].status
      case RunFailed => assert Stuck(m, k);
      case RunCancelled => assert Stuck(m, k);
      case _ => assert Waits(m, k);
    } else if item.status == Failed {
      assert Stuck(m, k);
    } else {
      assert item.status == Pending && (Stuck(m, k) || Ready(m, k));
    }
  }

  // ----- a pass alone -----

  datatype Moment = Moment(store: Store, pass: Pass)

  // A pass that starts on the rows st, and is the only one to touch them.
  ghost predicate Alone(trace: seq<Moment>, st: Store) {
    && trace != [] && trace[0] == Moment(st, Start)
    && forall t :: 0 <= t < |trace| - 1 ==>
         PassStep(trace[t].store, trace[t].pass, trace[t + 1].store, trace[t + 1].pass)
  }

  // m is st with every listed item settled.
  ghost predicate SettledRows(st: Store, m: Store) {
    SettledTo(st, m, |ListItems(st)|)
  }

  // The rows a pass may leave, once it has settled them to m.
  ghost predicate Leaves(m: Store, final: Store) {
    var n, k := |ListItems(m)|, Next(m);
    if n == 0 then final == m
    else if k == n then final == m.(status := Completed)
    else if Waits(m, k) then final == m
    else if Stuck(m, k) then final == m.(status := BacklogPaused)
    else
      && Ready(m, k)
      && (|| final == m.(status := BacklogPaused)
          || exists c :: HasRun(m, k, c) && (final == c.(status := BacklogPaused) || final == Attached(c, k)))
  }

  // The item at k is running, on the run generated for it.
  function Attached(c: Store, k: nat): Store
    requires k < |c.items|
  {
    c.(items := c.items[k := c.items[k].(status := Running, runId := Some(ItemRun(k + 1)))])
  }

  ghost predicate Starts(m: Store, ordinal: nat, base: Option<RunId>) {
    var k := Next(m);
    k < |ListItems(m)| && Ready(m, k) && ordinal == k + 1 && base == BaseAt(m, k)
  }

  // The backlog stops at the item at k: it is stuck, or could not be started.
  ghost predicate Halts(m: Store, store: Store) {
    var k := Next(m);
    && k < |ListItems(m)|
    && ((store == m && (Stuck(m, k) || Ready(m, k))) || (Ready(m, k) && HasRun(m, k, store)))
  }

  // Where a pass alone may stand once it has settled the rows to m, and what it has done to them.
  ghost predicate Moving(m: Store, store: Store, p: Pass) {
    match p
    case Relisting(status, runs) => store == m && status == Active && AllRead(m, |ListItems(m)|, runs)
    case Completing => store == m && m.items != [] && Next(m) == |ListItems(m)|
    case Pausing => Halts(m, store)
    case Dispatching(ordinal, base) => store == m && Starts(m, ordinal, base)
    case Resolving(ordinal, base, _) => store == m && Starts(m, ordinal, base)
    case Creating(ordinal, base, chain, _) => store == m && Starts(m, ordinal, base) && chain == ChainOn(m, base)
    case Attaching(ordinal) => Starts(m, ordinal, BaseAt(m, Next(m))) && HasRun(m, Next(m), store)
    case Done => Leaves(m, store)
    case _ => false
  }

  // Before that: what it has read, and how far it has settled.
  ghost predicate Preparing(st: Store, store: Store, p: Pass) {
    var n := |ListItems(st)|;
    match p
    case Start => store == st
    case Listing(status) => store == st && status == Active
    case Reading(status, items, next, runs) =>
      store == st && status == Active && items == ListItems(st) && next <= n && AllRead(st, next, runs)
    case Settling(status, items, next, runs) =>
      && status == Active && items == ListItems(st) && next <= n && AllRead(st, n, runs)
      && SettledTo(st, store, next)
    case _ => false
  }

  lemma PreparingGoesOn(st: Store, store: Store, p: Pass, store': Store, p': Pass)
    requires StoreInv(st) && st.status == Active && Preparing(st, store, p) && PassStep(store, p, store', p')
    ensures Preparing(st, store', p') || (SettledRows(st, store') && Moving(store', store', p'))
  {
    match p
    case Reading(_, items, next, runs) =>
      if next < |items| {
        ReadOneMore(st, next, runs);
      }
      hide AllRead, ListItems;
    case Settling(_, items, next, runs) =>
      if next < |items| {
        SettledOneMore(st, store, next, runs, store', p');
        hide PassStep, AllRead, SettledTo, ListItems;
      } else {
        SettledAreRead(st, store, runs);
        hide AllRead, SettledTo, ListItems;
      }
    case _ =>
  }

  lemma ReadOneMore(st: Store, n: nat, runs: map<RunId, ItemRunView>)
    requires StoreInv(st) && n < |ListItems(st)| && AllRead(st, n, runs)
    ensures ListItems(st)[n].runId.None? ==> AllRead(st, n + 1, runs)
    ensures ListItems(st)[n].runId.Some? ==>
              var id := ListItems(st)[n].runId.value;
              id in st.runs && AllRead(st, n + 1, runs[id := ViewOf(st.runs[id])])
  {
    assert ListItems(st)[n] == st.items[n] && ItemInv(st, n);
  }

  lemma SettledAreRead(st: Store, m: Store, runs: map<RunId, ItemRunView>)
    requires SettledRows(st, m) && AllRead(st, |ListItems(st)|, runs)
    ensures AllRead(m, |ListItems(m)|, runs)
  {
  }

  lemma PausingEnds(m: Store, store: Store, store': Store)
    requires m.status == Active && Halts(m, store) && store' == UpdateBacklogStatus(store, {Active}, BacklogPaused)
    ensures Leaves(m, store')
  {
    var k := Next(m);
    assert store.status == Active && !Waits(m, k) && !(Stuck(m, k) && Ready(m, k));
    hide HasRun, Stuck, Ready, Waits;
  }

  lemma CreatingGoesOn(m: Store, k: nat, base: Option<RunId>, provenance: Provenance, store': Store)
    requires k < |m.items| && Ready(m, k) && base == BaseAt(m, k)
    requires var id, chain := ItemRun(k + 1), ChainOn(m, base);
             !Conflicts(m, id, chain, provenance) && store' == CreateRunIdempotently(m, id, chain, provenance)
    ensures HasRun(m, k, store')
  {
    if ItemRun(k + 1) in m.runs {
      assert m == m.(runs := m.runs[ItemRun(k + 1) := m.runs[ItemRun(k + 1)]]);
    }
  }

  lemma AttachingEnds(m: Store, k: nat, store: Store)
    requires StoreInv(m) && k < |m.items| && Ready(m, k) && HasRun(m, k, store)
    ensures UpdateBacklogItem(store, k + 1, {Pending}, Running, Some(ItemRun(k + 1))) == Attached(store, k)
  {
    hide BaseIsUsable, ChainOn;
    forall i | 0 <= i < |store.items| && store.items[i].runId == Some(ItemRun(k + 1)) ensures i + 1 == k + 1 {
      assert ItemInv(m, i);
    }
  }

  lemma RelistingGoesOn(m: Store, status: BacklogStatus, runs: map<RunId, ItemRunView>, store': Store, p': Pass)
    requires StoreInv(m) && Moving(m, m, Relisting(status, runs)) && PassStep(m, Relisting(status, runs), store', p')
    ensures Moving(m, store', p')
  {
    var k := Next(m);
    DecisionOn(m, runs);
    assert k < |ListItems(m)| ==> ItemInv(m, k) && m.items[k].ordinal == k + 1;
    hide Decide, Waits, Stuck, Ready, Leaves;
  }

  lemma MovingGoesOn(m: Store, store: Store, p: Pass, store': Store, p': Pass)
    requires StoreInv(m) && m.status == Active && Moving(m, store, p) && PassStep(store, p, store', p')
    ensures Moving(m, store', p')
  {
    hide Decide, SettledAs;
    var k := Next(m);
    match p
    case Relisting(status, runs) => RelistingGoesOn(m, status, runs, store', p');
    case Creating(ordinal, base, _, provenance) =>
      if p' != Pausing { CreatingGoesOn(m, k, base, provenance, store'); }
    case Pausing => PausingEnds(m, store, store');
    case Attaching(_) => AttachingEnds(m, k, store);
    case _ =>
  }

  lemma {:induction false} AloneIsAt(trace: seq<Moment>, st: Store, t: nat) returns (m: Store)
    requires StoreInv(st) && st.status == Active && Alone(trace, st) && t < |trace|
    ensures var at := trace[t];
            Preparing(st, at.store, at.pass) || (SettledRows(st, m) && StoreInv(m) && Moving(m, at.store, at.pass))
  {
    hide Preparing, Moving, SettledRows;
    if t == 0 {
      m := st;
      PreparingAtFirst(st);
    } else {
      var before := trace[t - 1];
      m := AloneIsAt(trace, st, t - 1);
      AloneKeepsInv(trace, st, t);
      assert trace[t] == trace[t - 1 + 1];
      if Preparing(st, before.store, before.pass) {
        PreparingGoesOn(st, before.store, before.pass, trace[t].store, trace[t].pass);
        m := trace[t].store;
      } else {
        SettledKeepsStatus(st, m);
        MovingGoesOn(m, before.store, before.pass, trace[t].store, trace[t].pass);
      }
    }
  }

  lemma PreparingAtFirst(st: Store)
    ensures Preparing(st, st, Start)
  {
  }

  lemma SettledKeepsStatus(st: Store, m: Store)
    requires SettledRows(st, m)
    ensures m.status == st.status
  {
  }

  lemma {:induction false} AloneKeepsInv(trace: seq<Moment>, st: Store, t: nat)
    requires StoreInv(st) && Alone(trace, st) && t < |trace|
    ensures StoreInv(trace[t].store) && PassInv(trace[t].store, trace[t].pass)
  {
    if t > 0 {
      AloneKeepsInv(trace, st, t - 1);
      assert trace[t] == trace[t - 1 + 1];
      PassStepKeepsInv(trace[t - 1].store, trace[t - 1].pass, trace[t].store, trace[t].pass);
    }
  }

  lemma {:induction false} InactiveIsLeft(trace: seq<Moment>, st: Store, t: nat)
    requires st.status != Active && Alone(trace, st) && t < |trace|
    ensures trace[t].store == st && (trace[t].pass == Start || trace[t].pass == Done)
  {
    if t > 0 {
      InactiveIsLeft(trace, st, t - 1);
      assert trace[t] == trace[t - 1 + 1];
    }
  }

  /**
   * A pass alone on an active backlog leaves exactly this: every listed item settled as its run ended,
   * and then what the first open item calls for. It leaves any other backlog as it was.
   */
  lemma OnePass(trace: seq<Moment>, st: Store) returns (m: Store)
    requires StoreInv(st) && Alone(trace, st) && trace[|trace| - 1].pass == Done
    ensures st.status != Active ==> trace[|trace| - 1].store == st
    ensures st.status == Active ==> SettledRows(st, m) && Leaves(m, trace[|trace| - 1].store)
  {
    m := st;
    if st.status == Active {
      m := AloneIsAt(trace, st, |trace| - 1);
    } else {
      InactiveIsLeft(trace, st, |trace| - 1);
    }
  }

  lemma LeavesStatuses(m: Store, final: Store, i: nat)
    requires Leaves(m, final) && i < |m.items|
    ensures |final.items| == |m.items|
    ensures m.items[i].runId.Some? ==> final.items[i] == m.items[i]
  {
  }

  /** After a pass alone no listed item that was running still waits for a run that has ended. */
  lemma NoEndedRunIsLeft(trace: seq<Moment>, st: Store, i: nat)
    requires StoreInv(st) && Alone(trace, st) && trace[|trace| - 1].pass == Done
    requires st.status == Active && i < |ListItems(st)| && st.items[i].status == Running
    ensures var final := trace[|trace| - 1].store;
            && i < |final.items| && final.items[i] == st.items[i].(status := final.items[i].status)
            && (final.items[i].status == Succeeded <==> RunsOn(st.items[i], st.runs, {RunSucceeded}))
            && (final.items[i].status == Failed <==> RunsOn(st.items[i], st.runs, {RunFailed, RunCancelled}))
            && (final.items[i].status == Running <==>
                RunsOn(st.items[i], st.runs, {RunPending, RunRunning, RunWaiting}))
  {
    var m := OnePass(trace, st);
    LeavesStatuses(m, trace[|trace| - 1].store, i);
    hide Leaves, Alone;
    SettledItem(st, m, i);
  }

  lemma SettledItem(st: Store, m: Store, i: nat)
    requires StoreInv(st) && SettledRows(st, m) && i < |ListItems(st)| && st.items[i].status == Running
    ensures |m.items| == |st.items| && m.items[i].runId.Some?
    ensures m.items[i] == st.items[i].(status := m.items[i].status)
    ensures m.items[i].status == Succeeded <==> RunsOn(st.items[i], st.runs, {RunSucceeded})
    ensures m.items[i].status == Failed <==> RunsOn(st.items[i], st.runs, {RunFailed, RunCancelled})
    ensures m.items[i].status == Running <==> RunsOn(st.items[i], st.runs, {RunPending, RunRunning, RunWaiting})
  {
    assert ItemInv(st, i) && Mirrors(st.items[i], m.items[i], st.runs);
    var status := st.runs[st.items[i].runId.value].status;
    assert status.RunPending? || status.RunRunning? || status.RunWaiting? || status.RunSucceeded?
        || status.RunFailed? || status.RunCancelled?;
  }
}
