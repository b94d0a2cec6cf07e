/**
 * The scheduling decision of packages/core/src/backlog.ts: given a backlog, its items and
 * the runs those items produced, is there an item to start now, and on what base?
 */
module Backlog {
  import opened Wrappers

  datatype BacklogStatus = Active | BacklogPaused | Completed

  datatype ItemStatus = Pending | Running | Succeeded | Skipped | Failed

  datatype RunStatus = RunPending | RunRunning | RunWaiting | RunSucceeded | RunFailed | RunCancelled

  // A run of a backlog item is keyed by the item's ordinal: its id is generated from the
  // dispatch key, which names the backlog and the ordinal. Other runs have other keys.
  datatype RunId = ItemRun(ordinal: nat) | OtherRun(key: nat)

  datatype Item = Item(ordinal: nat, status: ItemStatus, runId: Option<RunId>)

  // What a run published; a run without both fields cannot be built on.
  datatype Output = Output(branch: Option<string>, commitSha: Option<string>)

  datatype ItemRunView = ItemRunView(status: RunStatus, output: Output)

  datatype PauseReason =
    | ItemRunMissing | ItemRunFailed | ItemRunCancelled
    | ItemFailed
    | BaseRunMissing | BaseRunUnpublished

  datatype Advance =
    | Idle
    | Dispatch(item: Item, baseRunId: Option<RunId>)
    | Pause(reason: PauseReason)
    | Complete

  predicate Settled(item: Item) {
    item.status == Succeeded || item.status == Skipped
  }

  predicate Published(output: Output) {
    output.branch.Some? && output.commitSha.Some?
  }

  // Stable insertion by ordinal: what Array.prototype.sort does with the ordinal comparison.
  function InsertByOrdinal(item: Item, items: seq<Item>): seq<Item> {
    if items == [] || item.ordinal <= items[0].ordinal then [item] + items
    else [items[0]] + InsertByOrdinal(item, items[1..])
  }

  function SortByOrdinal(items: seq<Item>): seq<Item> {
    if items == [] then [] else InsertByOrdinal(items[0], SortByOrdinal(items[1..]))
  }

  ghost predicate Ascending(items: seq<Item>) {
    forall i, j :: 0 <= i < j < |items| ==> items[i].ordinal <= items[j].ordinal
  }

  lemma {:induction false} InsertKeepsOrder(item: Item, items: seq<Item>)
    requires Ascending(items)
    ensures Ascending(InsertByOrdinal(item, items))
    ensures multiset(InsertByOrdinal(item, items)) == multiset(items) + multiset{item}
  {
    InsertAdds(item, items);
    if items != [] && item.ordinal > items[0].ordinal {
      var rest := InsertByOrdinal(item, items[1..]);
      InsertKeepsOrder(item, items[1..]);
      forall j | 0 <= j < |rest| ensures items[0].ordinal <= rest[j].ordinal {
        InsertHas(item, items[1..], rest[j]);
      }
    }
  }

  lemma {:induction false} InsertAdds(item: Item, items: seq<Item>)
    ensures multiset(InsertByOrdinal(item, items)) == multiset(items) + multiset{item}
  {
    if items != [] && item.ordinal > items[0].ordinal {
      InsertAdds(item, items[1..]);
      assert items == [items[0]] + items[1..];
    }
  }

  lemma {:induction false} InsertHas(item: Item, items: seq<Item>, x: Item)
    requires x in InsertByOrdinal(item, items)
    ensures x == item || exists i :: 0 <= i < |items| && items[i] == x
  {
    if items != [] && item.ordinal > items[0].ordinal && x != items[0] {
      InsertHas(item, items[1..], x);
    }
  }

  lemma {:induction false} SortSorts(items: seq<Item>)
    ensures Ascending(SortByOrdinal(items))
    ensures multiset(SortByOrdinal(items)) == multiset(items)
  {
    if items != [] {
      SortSorts(items[1..]);
      InsertKeepsOrder(items[0], SortByOrdinal(items[1..]));
      assert items == [items[0]] + items[1..];
    }
  }

  lemma {:induction false} SortOfSorted(items: seq<Item>)
    requires Ascending(items)
    ensures SortByOrdinal(items) == items
  {
    if items != [] {
      SortOfSorted(items[1..]);
    }
  }

  // The run the next item builds on: that of the last succeeded item that has one.
  function BaseRun(prefix: seq<Item>): Option<RunId> {
    if prefix == [] then None
    else
      var last := prefix[|prefix| - 1];
      if last.status == Succeeded && last.runId.Some? then last.runId
      else BaseRun(prefix[..|prefix| - 1])
  }

  // BaseRun is what its name says: the run of the succeeded item nearest to the end.
  lemma {:induction false} BaseRunIsNearest(prefix: seq<Item>)
    ensures BaseRun(prefix).None? <==>
            forall i :: 0 <= i < |prefix| && prefix[i].status == Succeeded ==> prefix[i].runId.None?
    ensures BaseRun(prefix).Some? ==>
              exists i :: 0 <= i < |prefix| && prefix[i].status == Succeeded && prefix[i].runId == BaseRun(prefix)
                          && forall j :: i < j < |prefix| && prefix[j].status == Succeeded ==> prefix[j].runId.None?
  {
    if prefix != [] {
      var n := |prefix| - 1;
      if !(prefix[n].status == Succeeded && prefix[n].runId.Some?) {
        BaseRunIsNearest(prefix[..n]);
        if BaseRun(prefix).Some? {
          var i :| 0 <= i < n && prefix[..n][i].status == Succeeded && prefix[..n][i].runId == BaseRun(prefix[..n])
                   && forall j :: i < j < n && prefix[..n][j].status == Succeeded ==> prefix[..n][j].runId.None?;
          assert prefix[i].runId == BaseRun(prefix);
          forall j | i < j < |prefix| && prefix[j].status == Succeeded ensures prefix[j].runId.None? {
            if j < n { assert prefix[..n][j] == prefix[j]; }
          }
        } else {
          forall i | 0 <= i < |prefix| && prefix[i].status == Succeeded ensures prefix[i].runId.None? {
            if i < n { assert prefix[..n][i] == prefix[i]; }
          }
        }
      } else {
        assert prefix[n].runId == BaseRun(prefix);
      }
    }
  }

  // Position of the first item that is neither succeeded nor skipped.
  function Front(ordered: seq<Item>): (k: nat)
    ensures k <= |ordered|
    ensures forall i :: 0 <= i < k ==> Settled(ordered[i])
    ensures k < |ordered| ==> !Settled(ordered[k])
  {
    if ordered == [] || !Settled(ordered[0]) then 0
    else
      var k := Front(ordered[1..]);
      assert forall i :: 0 < i < 1 + k ==> ordered[i] == ordered[1..][i - 1];
      1 + k
  }

  // The verdict on the front item, given the base its predecessors leave.
  function Verdict(item: Item, base: Option<RunId>, runs: map<RunId, ItemRunView>): Advance
    requires !Settled(item)
  {
    if item.runId.Some? then
      if item.runId.value !in runs then Pause(ItemRunMissing)
      else match runs[item.runId.value].status
        case RunFailed => Pause(ItemRunFailed)
        case RunCancelled => Pause(ItemRunCancelled)
        case _ => Idle
    else if item.status == Failed then Pause(ItemFailed)
    else if base.None? then Dispatch(item, None)
    else if base.value !in runs then Pause(BaseRunMissing)
    else if !Published(runs[base.value].output) then Pause(BaseRunUnpublished)
    else Dispatch(item, base)
  }

  function Decide(status: BacklogStatus, items: seq<Item>, runs: map<RunId, ItemRunView>): Advance {
    var ordered := SortByOrdinal(items);
    if status != Active || ordered == [] then Idle
    else if Front(ordered) == |ordered| then Complete
    else Verdict(ordered[Front(ordered)], BaseRun(ordered[..Front(ordered)]), runs)
  }

  /** The decision as the source computes it: one pass with early returns. */
  method AdvanceBacklog(status: BacklogStatus, items: seq<Item>, runs: map<RunId, ItemRunView>)
    returns (decision: Advance)
    ensures decision == Decide(status, items, runs)
  {
    if status != Active { return Idle; }
    var ordered := SortByOrdinal(items);
    if |ordered| == 0 { return Idle; }
    var previousRunId: Option<RunId> := None;
    for index := 0 to |ordered|
      invariant forall i :: 0 <= i < index ==> Settled(ordered[i])
      invariant previousRunId == BaseRun(ordered[..index])
    {
      var item := ordered[index];
      assert ordered[..index + 1][..index] == ordered[..index];
      if item.status == Skipped { continue; }
      if item.status == Succeeded {
        previousRunId := if item.runId.Some? then item.runId else previousRunId;
        continue;
      }
      FrontIsFirst(ordered, index);
      if item.runId.Some? {
        if item.runId.value !in runs { return Pause(ItemRunMissing); }
        var run := runs[item.runId.value];
        if run.status == RunPending || run.status == RunRunning || run.status == RunWaiting { return Idle; }
        if run.status == RunFailed { return Pause(ItemRunFailed); }
        if run.status == RunCancelled { return Pause(ItemRunCancelled); }
        return Idle;
      }
      if item.status == Failed { return Pause(ItemFailed); }
      if previousRunId.None? { return Dispatch(item, None); }
      if previousRunId.value !in runs { return Pause(BaseRunMissing); }
      var base := runs[previousRunId.value];
      if base.output.branch.None? || base.output.commitSha.None? { return Pause(BaseRunUnpublished); }
      return Dispatch(item, previousRunId);
    }
    FrontIsFirst(ordered, |ordered|);
    return Complete;
  }

  lemma {:induction false} FrontIsFirst(ordered: seq<Item>, k: nat)
    requires k <= |ordered|
    requires forall i :: 0 <= i < k ==> Settled(ordered[i])
    requires k < |ordered| ==> !Settled(ordered[k])
    ensures Front(ordered) == k
  {
    if k > 0 {
      FrontIsFirst(ordered[1..], k - 1);
    }
  }

  // The item at position k, with only settled items before it, and the base they leave.
  ghost predicate InFront(ordered: seq<Item>, k: nat, item: Item, base: Option<RunId>) {
    && k < |ordered| && ordered[k] == item && (forall i :: 0 <= i < k ==> Settled(ordered[i]))
    && base == BaseRun(ordered[..k])
  }

  lemma DispatchMeans(status: BacklogStatus, items: seq<Item>, runs: map<RunId, ItemRunView>, item: Item,
                      base: Option<RunId>)
    requires Decide(status, items, runs) == Dispatch(item, base)
    ensures status == Active && (item.status == Pending || item.status == Running) && item.runId.None?
    ensures InFront(SortByOrdinal(items), Front(SortByOrdinal(items)), item, base)
    ensures base.Some? ==> base.value in runs && Published(runs[base.value].output)
  {
    hide SortByOrdinal, BaseRun;
  }

  lemma DispatchWhen(status: BacklogStatus, items: seq<Item>, runs: map<RunId, ItemRunView>, item: Item,
                     base: Option<RunId>, k: nat)
    requires status == Active && (item.status == Pending || item.status == Running) && item.runId.None?
    requires InFront(SortByOrdinal(items), k, item, base)
    requires base.Some? ==> base.value in runs && Published(runs[base.value].output)
    ensures Decide(status, items, runs) == Dispatch(item, base)
  {
    hide SortByOrdinal, BaseRun;
    FrontIsFirst(SortByOrdinal(items), k);
  }

  // The decision never skips work to keep going: an item is dispatched exactly when it has no
  // run and has not failed, everything before it in ordinal order is succeeded or skipped, and
  // the run of the nearest earlier succeeded item, if any, is its base and is published.
  lemma DispatchExactly(status: BacklogStatus, items: seq<Item>, runs: map<RunId, ItemRunView>, item: Item,
                        base: Option<RunId>)
    ensures var ordered := SortByOrdinal(items);
            Decide(status, items, runs) == Dispatch(item, base) <==>
            && status == Active
            && (item.status == Pending || item.status == Running) && item.runId.None?
            && (exists k: nat :: InFront(ordered, k, item, base))
            && (base.Some? ==> base.value in runs && Published(runs[base.value].output))
  {
    hide Decide, InFront;
    if Decide(status, items, runs) == Dispatch(item, base) {
      DispatchMeans(status, items, runs, item, base);
    }
    if && status == Active && (item.status == Pending || item.status == Running) && item.runId.None?
       && (base.Some? ==> base.value in runs && Published(runs[base.value].output))
    {
      forall k: nat | InFront(SortByOrdinal(items), k, item, base)
        ensures Decide(status, items, runs) == Dispatch(item, base)
      {
        DispatchWhen(status, items, runs, item, base, k);
      }
    }
  }

  // The item at position k is the first that is neither succeeded nor skipped.
  ghost predicate FirstOpen(ordered: seq<Item>, k: nat) {
    k < |ordered| && !Settled(ordered[k]) && forall i :: 0 <= i < k ==> Settled(ordered[i])
  }

  // The run of an item was read, and its status is one of these.
  ghost predicate RunIsIn(item: Item, runs: map<RunId, ItemRunView>, statuses: set<RunStatus>) {
    item.runId.Some? && item.runId.value in runs && runs[item.runId.value].status in statuses
  }

  // Nothing of its own keeps the item from being started.
  predicate Startable(item: Item) {
    (item.status == Pending || item.status == Running) && item.runId.None?
  }

  // Why the first open item, with the base its predecessors leave, stops the backlog.
  ghost predicate Stops(item: Item, base: Option<RunId>, runs: map<RunId, ItemRunView>, reason: PauseReason) {
    match reason
    case ItemRunMissing => item.runId.Some? && item.runId.value !in runs
    case ItemRunFailed => RunIsIn(item, runs, {RunFailed})
    case ItemRunCancelled => RunIsIn(item, runs, {RunCancelled})
    case ItemFailed => item.status == Failed && item.runId.None?
    case BaseRunMissing => Startable(item) && base.Some? && base.value !in runs
    case BaseRunUnpublished =>
      && Startable(item) && base.Some? && base.value in runs
      && (runs[base.value].output.branch.None? || runs[base.value].output.commitSha.None?)
  }

  ghost predicate StopsAt(ordered: seq<Item>, k: nat, runs: map<RunId, ItemRunView>, reason: PauseReason) {
    FirstOpen(ordered, k) && Stops(ordered[k], BaseRun(ordered[..k]), runs, reason)
  }

  lemma OnlyOneIsFirst(ordered: seq<Item>, k: nat)
    requires FirstOpen(ordered, k)
    ensures Front(ordered) == k
  {
    FrontIsFirst(ordered, k);
  }

  lemma FrontIsOpen(ordered: seq<Item>)
    ensures Front(ordered) < |ordered| ==> FirstOpen(ordered, Front(ordered))
  {
  }

  lemma VerdictPauses(item: Item, base: Option<RunId>, runs: map<RunId, ItemRunView>, reason: PauseReason)
    requires !Settled(item)
    ensures Verdict(item, base, runs) == Pause(reason) <==> Stops(item, base, runs, reason)
  {
  }

  // The decision pauses for a reason exactly when the first open item gives that reason.
  lemma PauseExactly(status: BacklogStatus, items: seq<Item>, runs: map<RunId, ItemRunView>, reason: PauseReason)
    ensures Decide(status, items, runs) == Pause(reason) <==>
            status == Active && exists k: nat :: StopsAt(SortByOrdinal(items), k, runs, reason)
  {
    hide Stops, Verdict;
    var ordered := SortByOrdinal(items);
    FrontIsOpen(ordered);
    if Decide(status, items, runs) == Pause(reason) {
      VerdictPauses(ordered[Front(ordered)], BaseRun(ordered[..Front(ordered)]), runs, reason);
      assert StopsAt(ordered, Front(ordered), runs, reason);
      assert exists k: nat :: StopsAt(SortByOrdinal(items), k, runs, reason);
    } else if k: nat :| StopsAt(ordered, k, runs, reason) {
      OnlyOneIsFirst(ordered, k);
      VerdictPauses(ordered[k], BaseRun(ordered[..k]), runs, reason);
    }
  }

  // It idles exactly when the backlog is not active, has no items, or waits for the run of its
  // first open item, which is under way, or has succeeded and is yet to be settled.
  lemma IdleExactly(status: BacklogStatus, items: seq<Item>, runs: map<RunId, ItemRunView>)
    ensures var ordered := SortByOrdinal(items);
            Decide(status, items, runs) == Idle <==>
            || status != Active || items == []
            || exists k: nat :: FirstOpen(ordered, k)
                                && RunIsIn(ordered[k], runs, {RunPending, RunRunning, RunWaiting, RunSucceeded})
  {
    SortKeepsSettled(items);
    hide SortByOrdinal, BaseRun;
    var ordered := SortByOrdinal(items);
    FrontIsOpen(ordered);
    forall k: nat | FirstOpen(ordered, k) ensures Front(ordered) == k {
      OnlyOneIsFirst(ordered, k);
    }
  }

  // On items already in ordinal order the dispatched item is found at its own position.
  lemma SortedDispatch(status: BacklogStatus, items: seq<Item>, runs: map<RunId, ItemRunView>, item: Item,
                       base: Option<RunId>)
    returns (k: nat)
    requires Ascending(items) && Decide(status, items, runs) == Dispatch(item, base)
    ensures k < |items| && items[k] == item && (forall i :: 0 <= i < k ==> Settled(items[i]))
        && base == BaseRun(items[..k])
  {
    SortOfSorted(items);
    k := Front(items);
  }

  // A backlog completes exactly when it is active, has items, and every one is succeeded or skipped.
  lemma CompleteExactly(status: BacklogStatus, items: seq<Item>, runs: map<RunId, ItemRunView>)
    ensures Decide(status, items, runs) == Complete <==>
            status == Active && items != [] && forall i :: 0 <= i < |items| ==> Settled(items[i])
  {
    SortKeepsSettled(items);
    var ordered := SortByOrdinal(items);
    if forall i :: 0 <= i < |ordered| ==> Settled(ordered[i]) {
      FrontIsFirst(ordered, |ordered|);
    }
  }

  lemma AllOf(items: seq<Item>)
    ensures (forall i :: 0 <= i < |items| ==> Settled(items[i])) <==> (forall x :: x in multiset(items) ==> Settled(x))
  {
    hide Settled;
    forall i | 0 <= i < |items| ensures items[i] in multiset(items) {
    }
  }

  lemma SortKeepsSettled(items: seq<Item>)
    ensures |SortByOrdinal(items)| == |items|
    ensures (forall i :: 0 <= i < |items| ==> Settled(items[i]))
            <==> (forall i :: 0 <= i < |SortByOrdinal(items)| ==> Settled(SortByOrdinal(items)[i]))
  {
    hide Settled, SortByOrdinal;
    var ordered := SortByOrdinal(items);
    SortSorts(items);
    assert |multiset(ordered)| == |multiset(items)|;
    AllOf(items);
    AllOf(ordered);
  }
}
