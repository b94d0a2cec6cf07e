/**
 * The resumable scan of reconcileWorkflowOutbox (apps/control-plane/src/application/
 * workflow-reconciliation.ts): pages of runs in (createdAt, id) order, the cursor saved after
 * each run and cleared after the last. An invocation may be killed at any point; the next one
 * goes on from the saved cursor.
 */
module RunScan {
  import opened Wrappers
  import opened Permutations
  import opened TextOrder

  const PAGE_SIZE: nat := 100
  const MAX_PAGES: nat := 10000

  datatype RunKey = RunKey(createdAt: int, id: Text)

  predicate Before(a: RunKey, b: RunKey) {
    a.createdAt < b.createdAt || (a.createdAt == b.createdAt && Less(a.id, b.id))
  }

  predicate Beyond(after: Option<RunKey>, r: RunKey) {
    after.None? || Before(after.value, r)
  }

  lemma BeforeIsTotal(a: RunKey, b: RunKey)
    ensures Before(a, b) || a == b || Before(b, a)
    ensures !(Before(a, b) && (a == b || Before(b, a)))
  {
    LessIsTotal(a.id, b.id);
  }

  lemma BeforeIsTransitive(a: RunKey, b: RunKey, c: RunKey)
    requires Before(a, b) && Before(b, c)
    ensures Before(a, c)
  {
    if a.createdAt == b.createdAt == c.createdAt { LessIsTransitive(a.id, b.id, c.id); }
  }

  ghost predicate Ascending(keys: seq<RunKey>) {
    forall i, j :: 0 <= i < j < |keys| ==> Before(keys[i], keys[j])
  }

  // The first runs beyond the cursor, up to a full page.
  ghost predicate IsPage(runs: set<RunKey>, after: Option<RunKey>, page: seq<RunKey>) {
    && |page| <= PAGE_SIZE && Ascending(page)
    && (forall i :: 0 <= i < |page| ==> page[i] in runs && Beyond(after, page[i]))
    && forall r :: r in runs && Beyond(after, r) && r !in page ==> |page| == PAGE_SIZE && Before(page[PAGE_SIZE - 1], r)
  }

  predicate Least(runs: set<RunKey>, m: RunKey) {
    m in runs && forall r :: r in runs ==> r == m || Before(m, r)
  }

  lemma {:induction false} LeastExists(runs: set<RunKey>)
    requires runs != {}
    ensures exists m :: Least(runs, m)
    decreases |runs|
  {
    var x :| x in runs;
    var rest := runs - {x};
    if rest == {} {
      assert runs == {x};
      assert Least(runs, x);
    } else {
      LeastExists(rest);
      var m :| Least(rest, m);
      BeforeIsTotal(x, m);
      if Before(x, m) {
        forall r | r in runs ensures r == x || Before(x, r) {
          if r != x && r != m { BeforeIsTransitive(x, m, r); }
        }
        assert Least(runs, x);
      } else {
        assert Least(runs, m);
      }
    }
  }

  // ----- what an observer of the invocations sees -----

  datatype Action =
    | Invoked(runs: set<RunKey>)  // an invocation starts; the runs there are at that moment
    | Scanned(run: RunKey)        // a run is reconciled
    | Saved(run: RunKey)          // the cursor is stored
    | Cleared                     // the stored cursor is removed
    | Killed                      // the platform ends the invocation

  // The stored cursor.
  function CursorOf(history: seq<Action>): Option<RunKey> {
    if history == [] then None
    else
      match history[|history| - 1]
      case Saved(r) => Some(r)
      case Cleared => None
      case _ => CursorOf(history[..|history| - 1])
  }

  // A cycle begins with the invocation that finds no cursor: the runs there were then, what has
  // been scanned since, in order, what has been saved, in order, and how many kills there were.
  datatype Cycle = Cycle(begun: set<RunKey>, scanned: seq<RunKey>, saved: seq<RunKey>, kills: nat)

  function CycleOf(history: seq<Action>): Cycle {
    if history == [] then Cycle({}, [], [], 0)
    else
      var earlier := history[..|history| - 1];
      var c := CycleOf(earlier);
      match history[|history| - 1]
      case Invoked(runs) => if CursorOf(earlier).None? then Cycle(runs, [], [], 0) else c
      case Scanned(r) => c.(scanned := c.scanned + [r])
      case Saved(r) => c.(saved := c.saved + [r])
      case Killed => c.(kills := c.kills + 1)
      case Cleared => c
  }

  // Runs scanned one after the other, the cursor saved after each.
  function Scans(listed: seq<RunKey>): seq<Action> {
    if listed == [] then []
    else
      var last := listed[|listed| - 1];
      Scans(listed[..|listed| - 1]) + [Scanned(last), Saved(last)]
  }

  // ----- a cycle is what happened since it began -----

  function ScannedIn(actions: seq<Action>): seq<RunKey> {
    if actions == [] then []
    else
      var last := actions[|actions| - 1];
      ScannedIn(actions[..|actions| - 1]) + if last.Scanned? then [last.run] else []
  }

  function SavedIn(actions: seq<Action>): seq<RunKey> {
    if actions == [] then []
    else
      var last := actions[|actions| - 1];
      SavedIn(actions[..|actions| - 1]) + if last.Saved? then [last.run] else []
  }

  function KillsIn(actions: seq<Action>): nat {
    if actions == [] then 0
    else KillsIn(actions[..|actions| - 1]) + if actions[|actions| - 1].Killed? then 1 else 0
  }

  // An invocation that starts without a cursor begins a cycle.
  predicate Begins(history: seq<Action>, p: nat)
    requires p < |history|
  {
    history[p].Invoked? && CursorOf(history[..p]).None?
  }

  /** The current cycle is what happened since the last invocation that found no cursor. */
  lemma {:induction false} CycleSinceItBegan(history: seq<Action>, p: nat)
    requires p < |history| && Begins(history, p)
    requires forall q :: p < q < |history| ==> !Begins(history, q)
    ensures var since := history[p + 1..];
            CycleOf(history) == Cycle(history[p].runs, ScannedIn(since), SavedIn(since), KillsIn(since))
    decreases |history|
  {
    hide CursorOf, ScannedIn, SavedIn, KillsIn;
    var n := |history| - 1;
    var earlier := history[..n];
    NothingIn();
    if p < n {
      forall q | p <= q < n ensures earlier[q] == history[q] && earlier[..q] == history[..q] {
      }
      forall q | p < q < n ensures !Begins(earlier, q) {
        assert !Begins(history, q);
      }
      CycleSinceItBegan(earlier, p);
      OneMoreIn(history[p + 1..]);
      assert history[p + 1..][..n - p - 1] == earlier[p + 1..];
      assert !Begins(history, n);
    } else {
      assert history[p + 1..] == [];
    }
  }

  lemma NothingIn()
    ensures ScannedIn([]) == [] && SavedIn([]) == [] && KillsIn([]) == 0
  {
  }

  lemma OneMoreIn(actions: seq<Action>)
    requires actions != []
    ensures var earlier, last := actions[..|actions| - 1], actions[|actions| - 1];
            && ScannedIn(actions) == ScannedIn(earlier) + (if last.Scanned? then [last.run] else [])
            && SavedIn(actions) == SavedIn(earlier) + (if last.Saved? then [last.run] else [])
            && KillsIn(actions) == KillsIn(earlier) + (if last.Killed? then 1 else 0)
  {
  }

  // Everything up to the cursor that was there when the cycle began has been scanned.
  ghost predicate CoveredTo(c: Cycle, after: Option<RunKey>) {
    forall r :: r in c.begun && !Beyond(after, r) ==> r in c.scanned
  }

  // Saves only move forward, and a run is scanned more than once only around a kill.
  ghost predicate Orderly(c: Cycle) {
    && Ascending(c.saved)
    && |c.saved| <= |c.scanned| <= |c.saved| + c.kills
    && (c.kills == 0 ==> c.scanned == c.saved)
    && forall r :: r in c.saved ==> r in c.scanned
  }

  // The page's runs lie beyond where it was listed from, so whatever lies beyond one of them does too.
  lemma BeyondMoves(from: Option<RunKey>, page: seq<RunKey>, i: nat, r: RunKey)
    requires i < |page| && Beyond(from, page[i]) && Before(page[i], r)
    ensures Beyond(from, r)
  {
    if from.Some? { BeforeIsTransitive(from.value, page[i], r); }
  }

  // A listed run that does not lie beyond run i of the page is among the first ones of the page.
  lemma PageHolds(listing: set<RunKey>, from: Option<RunKey>, page: seq<RunKey>, i: nat, r: RunKey)
    requires IsPage(listing, from, page) && i < |page| && r in listing && Beyond(from, r) && !Before(page[i], r)
    ensures exists j :: 0 <= j <= i && page[j] == r
  {
    if r in page {
      var j :| 0 <= j < |page| && page[j] == r;
    } else if i < PAGE_SIZE - 1 {
      BeforeIsTransitive(page[i], page[PAGE_SIZE - 1], r);
    }
  }

  // The cursor once the first i runs of a page have been saved.
  function After(from: Option<RunKey>, listed: seq<RunKey>, i: nat): Option<RunKey>
    requires i <= |listed|
  {
    if i == 0 then from else Some(listed[i - 1])
  }

  // Scanning the next run of a page covers everything up to it, and moves forward.
  lemma CursorMoves(c: Cycle, listing: set<RunKey>, from: Option<RunKey>, page: seq<RunKey>, i: nat)
    requires IsPage(listing, from, page) && i < |page| && c.begun <= listing && Orderly(c)
    requires CoveredTo(c, After(from, page, i))
    requires forall j :: 0 <= j < i ==> page[j] in c.scanned
    requires c.saved != [] ==> After(from, page, i) == Some(c.saved[|c.saved| - 1])
    ensures CoveredTo(c.(scanned := c.scanned + [page[i]]), Some(page[i]))
    ensures Ascending(c.saved + [page[i]])
    ensures CoveredTo(c.(scanned := c.scanned + [page[i]]), After(from, page, i))
  {
    var after := After(from, page, i);
    assert Beyond(after, page[i]);
    forall r | r in c.begun && !Before(page[i], r) ensures r in c.scanned + [page[i]] {
      if Beyond(after, r) && r != page[i] {
        if i > 0 { BeyondMoves(from, page, i - 1, r); }
        PageHolds(listing, from, page, i, r);
      }
    }
    forall k | 0 <= k < |c.saved| ensures Before(c.saved[k], page[i]) {
      if k < |c.saved| - 1 { BeforeIsTransitive(c.saved[k], c.saved[|c.saved| - 1], page[i]); }
    }
  }

  // Every run that was there when the cycle began was scanned.
  ghost predicate Complete(c: Cycle) {
    forall r :: r in c.begun ==> r in c.scanned
  }

  // Wherever the cursor was cleared, a complete and orderly cycle had come to its end.
  ghost predicate CyclesComplete(history: seq<Action>) {
    forall q :: 0 <= q < |history| && history[q] == Cleared ==>
      Complete(CycleOf(history[..q])) && Orderly(CycleOf(history[..q]))
  }

  lemma OneMoreAction(history: seq<Action>, a: Action)
    requires CyclesComplete(history)
    requires a == Cleared ==> Complete(CycleOf(history)) && Orderly(CycleOf(history))
    ensures CyclesComplete(history + [a])
    ensures (history + [a])[..|history|] == history
  {
    var longer := history + [a];
    forall q | 0 <= q < |longer| && longer[q] == Cleared
      ensures Complete(CycleOf(longer[..q])) && Orderly(CycleOf(longer[..q]))
    {
      assert longer[..q] == if q < |history| then history[..q] else history;
    }
  }

  lemma {:induction false} ScansConcat(a: seq<RunKey>, b: seq<RunKey>)
    ensures Scans(a + b) == Scans(a) + Scans(b)
    decreases |b|
  {
    if b == [] {
      assert a + b == a;
    } else {
      var n := |b| - 1;
      assert (a + b)[..|a + b| - 1] == a + b[..n];
      ScansConcat(a, b[..n]);
    }
  }

  lemma NothingScanned()
    ensures Scans([]) == []
  {
  }

  lemma {:induction false} ScansLength(listed: seq<RunKey>)
    ensures |Scans(listed)| == 2 * |listed|
  {
    if listed != [] { ScansLength(listed[..|listed| - 1]); }
  }

  // One more run of a page.
  lemma ScansGrow(listed: seq<RunKey>, i: nat)
    requires i < |listed|
    ensures Scans(listed[..i + 1]) == Scans(listed[..i]) + [Scanned(listed[i]), Saved(listed[i])]
    ensures |Scans(listed[..i])| == 2 * i && |Scans(listed)| == 2 * |listed|
    ensures Scans(listed[..i + 1]) <= Scans(listed)
  {
    assert listed[..i + 1][..i] == listed[..i];
    assert listed == listed[..i + 1] + listed[i + 1..];
    ScansConcat(listed[..i + 1], listed[i + 1..]);
    ScansLength(listed[..i]);
    ScansLength(listed);
  }

  // Between two actions of an invocation, everything up to the cursor is covered.
  ghost predicate Stands(history: seq<Action>, runs: set<RunKey>, after: Option<RunKey>) {
    var c := CycleOf(history);
    && CursorOf(history) == after && CyclesComplete(history)
    && c.begun <= runs && Orderly(c) && CoveredTo(c, after)
    && after == if c.saved == [] then None else Some(c.saved[|c.saved| - 1])
  }

  // Where the scan stands, run i of a page listed beyond `from` being next.
  ghost predicate StandsAt(history: seq<Action>, runs: set<RunKey>, listing: set<RunKey>, from: Option<RunKey>,
                           listed: seq<RunKey>, i: nat)
    requires i <= |listed|
  {
    && Stands(history, runs, After(from, listed, i))
    && CycleOf(history).begun <= listing <= runs && IsPage(listing, from, listed)
    && forall j :: 0 <= j < i ==> listed[j] in CycleOf(history).scanned
  }

  lemma ScanCovers(history: seq<Action>, runs: set<RunKey>, listing: set<RunKey>, from: Option<RunKey>,
                   listed: seq<RunKey>, i: nat)
    requires i < |listed| && StandsAt(history, runs, listing, from, listed, i)
    ensures var after := After(from, listed, i);
            var c := CycleOf(history + [Scanned(listed[i])]);
            && c == CycleOf(history).(scanned := CycleOf(history).scanned + [listed[i]])
            && CoveredTo(c, after) && CoveredTo(c, Some(listed[i]))
    ensures CursorOf(history + [Scanned(listed[i])]) == CursorOf(history)
    ensures CyclesComplete(history + [Scanned(listed[i])]) && Ascending(CycleOf(history).saved + [listed[i]])
  {
    OneMoreAction(history, Scanned(listed[i]));
    CursorMoves(CycleOf(history), listing, from, listed, i);
  }

  lemma SaveStands(history: seq<Action>, runs: set<RunKey>, listing: set<RunKey>, from: Option<RunKey>,
                   listed: seq<RunKey>, i: nat)
    requires i < |listed| && StandsAt(history, runs, listing, from, listed, i)
    ensures StandsAt(history + [Scanned(listed[i])] + [Saved(listed[i])], runs, listing, from, listed, i + 1)
    ensures CycleOf(history + [Scanned(listed[i])] + [Saved(listed[i])]).begun == CycleOf(history).begun
  {
    ScanCovers(history, runs, listing, from, listed, i);
    OneMoreAction(history + [Scanned(listed[i])], Saved(listed[i]));
  }

  lemma PageBegins(history: seq<Action>, fewer: set<RunKey>, runs: set<RunKey>, after: Option<RunKey>,
                   listed: seq<RunKey>)
    requires Stands(history, fewer, after) && fewer <= runs && IsPage(runs, after, listed)
    ensures StandsAt(history, runs, runs, after, listed, 0)
  {
  }

  lemma PageStands(history: seq<Action>, runs: set<RunKey>, listing: set<RunKey>, from: Option<RunKey>,
                   listed: seq<RunKey>, i: nat)
    requires i <= |listed| && StandsAt(history, runs, listing, from, listed, i)
    ensures Stands(history, runs, After(from, listed, i))
  {
  }

  lemma ClearedIsComplete(history: seq<Action>, runs: set<RunKey>, after: Option<RunKey>)
    requires Stands(history, runs, after) && Complete(CycleOf(history))
    ensures Consistent(history + [Cleared], runs, None)
  {
    OneMoreAction(history, Cleared);
  }

  // A page that is not full was the last one.
  lemma LastPage(history: seq<Action>, runs: set<RunKey>, listing: set<RunKey>, from: Option<RunKey>,
                 listed: seq<RunKey>)
    requires StandsAt(history, runs, listing, from, listed, |listed|) && |listed| < PAGE_SIZE
    ensures Complete(CycleOf(history))
  {
    var after := After(from, listed, |listed|);
    forall r | r in CycleOf(history).begun ensures r in CycleOf(history).scanned {
      if Beyond(after, r) {
        if |listed| > 0 { BeyondMoves(from, listed, |listed| - 1, r); }
        assert r in listed;
      }
    }
  }

  // How an invocation ends: the cursor cleared, killed by the platform, or after its last page.
  datatype Ending = CycleCompleted | Terminated | OutOfPages

  /**
   * What one invocation may do: it starts, scans runs and saves the cursor after each, and then
   * clears the cursor, or has taken all the steps the platform gave it, or is out of pages.
   */
  ghost predicate IsInvocation(before: seq<Action>, after: seq<Action>, runs: set<RunKey>, budget: nat,
                               ending: Ending)
  {
    && |after| > |before| && after[..|before| + 1] == before + [Invoked(runs)]
    && var done := after[|before| + 1..]; exists scanned: seq<RunKey> :: Ends(done, scanned, budget, ending)
  }

  ghost predicate Ends(done: seq<Action>, scanned: seq<RunKey>, budget: nat, ending: Ending) {
    match ending
    case CycleCompleted => done == Scans(scanned) + [Cleared] && |done| <= budget
    case Terminated =>
      && |done| == budget + 1 && done[budget] == Killed
      && (done[..budget] <= Scans(scanned))
    case OutOfPages => done == Scans(scanned) && |scanned| == PAGE_SIZE * MAX_PAGES && |done| <= budget
  }

  lemma KilledInPage(scanned: seq<RunKey>, listed: seq<RunKey>, budget: nat, left: nat)
    requires |Scans(scanned)| + left == budget && left < |Scans(listed)|
    ensures Ends(Scans(scanned) + Scans(listed)[..left] + [Killed], scanned + listed, budget, Terminated)
  {
    ScansConcat(scanned, listed);
    var done := Scans(scanned) + Scans(listed)[..left];
    assert (done + [Killed])[..budget] == done == Scans(scanned + listed)[..budget];
  }

  lemma EndsAfter(scanned: seq<RunKey>, budget: nat)
    requires |Scans(scanned)| <= budget
    ensures |scanned| == PAGE_SIZE * MAX_PAGES ==> Ends(Scans(scanned), scanned, budget, OutOfPages)
    ensures |Scans(scanned)| == budget ==> Ends(Scans(scanned) + [Killed], scanned, budget, Terminated)
    ensures |Scans(scanned)| < budget ==> Ends(Scans(scanned) + [Cleared], scanned, budget, CycleCompleted)
  {
  }

  lemma MakesInvocation(before: seq<Action>, done: seq<Action>, after: seq<Action>, runs: set<RunKey>,
                        scanned: seq<RunKey>, budget: nat, ending: Ending)
    requires after == before + [Invoked(runs)] + done && Ends(done, scanned, budget, ending)
    ensures IsInvocation(before, after, runs, budget, ending)
  {
    assert after[|before| + 1..] == done;
  }

  // What holds between two invocations: the stored cursor is the one last saved, and wherever it
  // was cleared a cycle was complete; and a stored cursor has everything up to it covered.
  ghost predicate Consistent(history: seq<Action>, runs: set<RunKey>, cursor: Option<RunKey>) {
    && cursor == CursorOf(history) && CyclesComplete(history)
    && (cursor.Some? ==> Stands(history, runs, cursor))
  }

  // A kill leaves everything else as it stands.
  lemma KilledStands(history: seq<Action>, runs: set<RunKey>, after: Option<RunKey>)
    requires Stands(history, runs, after)
    ensures Consistent(history + [Killed], runs, after)
  {
    OneMoreAction(history, Killed);
  }

  // A run that was scanned, but not saved when the kill came, will be scanned again.
  lemma KilledMidway(history: seq<Action>, runs: set<RunKey>, listing: set<RunKey>, from: Option<RunKey>,
                     listed: seq<RunKey>, i: nat)
    requires i < |listed| && StandsAt(history, runs, listing, from, listed, i)
    ensures Consistent(history + [Scanned(listed[i])] + [Killed], runs, After(from, listed, i))
  {
    ScanCovers(history, runs, listing, from, listed, i);
    OneMoreAction(history + [Scanned(listed[i])], Killed);
  }

  lemma StandsIsConsistent(history: seq<Action>, runs: set<RunKey>, after: Option<RunKey>)
    requires Stands(history, runs, after)
    ensures Consistent(history, runs, after)
  {
  }

  lemma ArrivalsStand(history: seq<Action>, runs: set<RunKey>, more: set<RunKey>, listing: set<RunKey>,
                      from: Option<RunKey>, listed: seq<RunKey>, i: nat)
    requires i <= |listed| && StandsAt(history, runs, listing, from, listed, i) && runs <= more
    ensures StandsAt(history, more, listing, from, listed, i)
  {
  }

  class Reconciliation {
    var runs: set<RunKey>              // the repository's runs; never deleted
    var cursor: Option<RunKey>         // the stored cursor
    ghost var history: seq<Action>     // everything every invocation did

    ghost predicate Valid()
      reads this
    {
      Consistent(history, runs, cursor)
    }

    constructor (runs: set<RunKey>)
      ensures Valid() && this.runs == runs && cursor.None? && history == []
    {
      this.runs := runs;
      cursor := None;
      history := [];
    }

    // Other work adds runs at any time, with any creation time.
    method Arrivals()
      modifies this`runs
      ensures old(runs) <= runs
    {
    }

    method ListRuns(after: Option<RunKey>) returns (page: seq<RunKey>)
      ensures IsPage(runs, after, page) && |page| <= PAGE_SIZE
    {
      var rest := set r | r in runs && Beyond(after, r);
      page := [];
      while rest != {} && |page| < PAGE_SIZE
        invariant |page| <= PAGE_SIZE && Ascending(page)
        invariant forall r :: r in runs && Beyond(after, r) <==> r in rest || r in page
        invariant forall i, r :: 0 <= i < |page| && r in rest ==> Before(page[i], r)
        decreases |rest|
      {
        LeastExists(rest);
        var m :| Least(rest, m);
        page := page + [m];
        rest := rest - {m};
      }
    }

    // The actions of one invocation. Nothing else writes the cursor.

    method Invoke()
      requires Valid()
      modifies this`history
      ensures history == old(history) + [Invoked(runs)] && Stands(history, runs, cursor)
    {
      history := history + [Invoked(runs)];
      OneMoreAction(old(history), Invoked(runs));
    }

    method Scan(r: RunKey)
      modifies this`history
      ensures history == old(history) + [Scanned(r)]
    {
      history := history + [Scanned(r)];
    }

    method Save(r: RunKey)
      modifies this`cursor, this`history
      ensures cursor == Some(r) && history == old(history) + [Saved(r)]
    {
      cursor := Some(r);
      history := history + [Saved(r)];
    }

    method Clear()
      modifies this`cursor, this`history
      ensures cursor.None? && history == old(history) + [Cleared]
    {
      cursor := None;
      history := history + [Cleared];
    }

    ghost method Kill()
      modifies this`history
      ensures history == old(history) + [Killed]
    {
      history := history + [Killed];
    }

    // Run i of a page, and the cursor saved after it.
    method ScanRun(ghost listing: set<RunKey>, ghost from: Option<RunKey>, listed: seq<RunKey>, i: nat, budget: nat)
      returns (killed: bool, left: nat)
      requires i < |listed| && StandsAt(history, runs, listing, from, listed, i) && cursor == After(from, listed, i)
      modifies this
      ensures old(runs) <= runs && (killed <==> budget < 2)
      ensures killed ==> Valid()
      ensures killed ==> history == old(history) + [Scanned(listed[i]), Saved(listed[i])][..budget] + [Killed]
      ensures !killed ==> left == budget - 2 && cursor == After(from, listed, i + 1)
      ensures !killed ==> history == old(history) + [Scanned(listed[i]), Saved(listed[i])]
      ensures !killed ==> StandsAt(history, runs, listing, from, listed, i + 1)
      ensures !killed ==> CycleOf(history).begun == CycleOf(old(history)).begun
    {
      hide StandsAt, Stands, Consistent, CycleOf, CursorOf, CyclesComplete;
      ghost var two := [Scanned(listed[i]), Saved(listed[i])];
      if budget == 0 {
        PageStands(history, runs, listing, from, listed, i);
        KilledStands(history, runs, cursor);
        Kill();
        assert two[..0] == [];
        return true, 0;
      }
      Arrivals();
      ArrivalsStand(history, old(runs), runs, listing, from, listed, i);
      SaveStands(history, runs, listing, from, listed, i);
      Scan(listed[i]);
      if budget == 1 {
        KilledMidway(old(history), runs, listing, from, listed, i);
        Kill();
        assert two[..1] == [Scanned(listed[i])];
        return true, 0;
      }
      Save(listed[i]);
      assert two == [Scanned(listed[i])] + [Saved(listed[i])];
      return false, budget - 2;
    }

    /** The runs of one page, the cursor saved after each; killed when the budget is out. */
    method ScanPage(ghost listing: set<RunKey>, listed: seq<RunKey>, budget: nat)
      returns (killed: bool, left: nat, after: Option<RunKey>)
      requires StandsAt(history, runs, listing, cursor, listed, 0)
      modifies this
      ensures old(runs) <= runs && Valid()
      ensures |Scans(listed)| == 2 * |listed| && (killed <==> budget < 2 * |listed|)
      ensures killed ==> history == old(history) + Scans(listed)[..budget] + [Killed]
      ensures !killed ==> history == old(history) + Scans(listed) && left == budget - 2 * |listed|
      ensures !killed ==> after == cursor == After(old(cursor), listed, |listed|)
      ensures !killed ==> StandsAt(history, runs, listing, old(cursor), listed, |listed|)
      ensures !killed ==> CycleOf(history).begun == CycleOf(old(history)).begun
    {
      hide StandsAt, Stands, Consistent, CycleOf, CursorOf, CyclesComplete, Scans;
      left, after := budget, cursor;
      ghost var from := cursor;
      ScansLength(listed);
      NothingScanned();
      for i := 0 to |listed|
        invariant old(runs) <= runs && CycleOf(history).begun == CycleOf(old(history)).begun
        invariant 2 * i + left == budget && history == old(history) + Scans(listed[..i])
        invariant after == cursor == After(from, listed, i)
        invariant StandsAt(history, runs, listing, from, listed, i)
      {
        ScansGrow(listed, i);
        ghost var stepsLeft := left;
        killed, left := ScanRun(listing, from, listed, i, left);
        if killed {
          assert Scans(listed)[..budget]
              == Scans(listed[..i]) + [Scanned(listed[i]), Saved(listed[i])][..stepsLeft];
          return true, 0, after;
        }
        after := cursor;
      }
      assert listed[..|listed|] == listed;
      PageStands(history, runs, listing, from, listed, |listed|);
      StandsIsConsistent(history, runs, cursor);
      killed := false;
    }

    /** Page after page, up to the last one; killed when the budget is out. */
    method ScanPages(budget: nat)
      returns (killed: bool, left: nat, completedCycle: bool, ghost scanned: seq<RunKey>)
      requires Stands(history, runs, cursor)
      modifies this
      ensures old(runs) <= runs
      ensures killed ==> Valid() && |history| > |old(history)| && history[..|old(history)|] == old(history)
      ensures killed ==> Ends(history[|old(history)|..], scanned, budget, Terminated)
      ensures !killed ==> Stands(history, runs, cursor)
      ensures !killed ==> history == old(history) + Scans(scanned) && |Scans(scanned)| + left == budget
      ensures !killed ==> if completedCycle then Complete(CycleOf(history)) else |scanned| == PAGE_SIZE * MAX_PAGES
    {
      hide Consistent, Stands, StandsAt, CycleOf, CursorOf, CyclesComplete, IsPage, Ends, Scans, Complete;
      left, scanned := budget, [];
      var after := cursor;
      NothingScanned();
      var page := 0;
      while page < MAX_PAGES
        invariant old(runs) <= runs && Stands(history, runs, after) && after == cursor
        invariant page <= MAX_PAGES && |scanned| == PAGE_SIZE * page
        invariant history == old(history) + Scans(scanned) && |Scans(scanned)| + left == budget
      {
        ghost var runsBefore := runs;
        Arrivals();
        var listed := ListRuns(after);
        PageBegins(history, runsBefore, runs, after, listed);
        if |listed| == 0 {
          LastPage(history, runs, runs, after, listed);
          PageStands(history, runs, runs, after, listed, 0);
          return false, left, true, scanned;
        }
        ghost var stepsLeft, from, listing := left, after, runs;
        killed, left, after := ScanPage(runs, listed, left);
        if killed {
          KilledInPage(scanned, listed, budget, stepsLeft);
          assert history[|old(history)|..] == Scans(scanned) + Scans(listed)[..stepsLeft] + [Killed];
          return true, 0, false, scanned + listed;
        }
        ScansConcat(scanned, listed);
        scanned := scanned + listed;
        PageStands(history, runs, listing, from, listed, |listed|);
        if |listed| < PAGE_SIZE {
          LastPage(history, runs, listing, from, listed);
          return false, left, true, scanned;
        }
        page := page + 1;
      }
      return false, left, false, scanned;
    }

    /**
     * One invocation, which is killed once it has taken `budget` steps: scanning a run, saving
     * the cursor and clearing it are one step each.
     */
    method Reconcile(budget: nat) returns (ending: Ending)
      requires Valid()
      modifies this
      ensures Valid() && old(runs) <= runs
      ensures IsInvocation(old(history), history, old(runs), budget, ending)
    {
      hide Consistent, Stands, CycleOf, CursorOf, CyclesComplete, IsInvocation, Ends, Scans;
      Invoke();
      ghost var started := history;
      var killed, left, completedCycle;
      ghost var scanned;
      killed, left, completedCycle, scanned := ScanPages(budget);
      if killed {
        MakesInvocation(old(history), history[|started|..], history, old(runs), scanned, budget, Terminated);
        return Terminated;
      }
      EndsAfter(scanned, budget);
      if !completedCycle {
        MakesInvocation(old(history), Scans(scanned), history, old(runs), scanned, budget, OutOfPages);
        StandsIsConsistent(history, runs, cursor);
        return OutOfPages;
      }
      if left == 0 {
        KilledStands(history, runs, cursor);
        Kill();
        MakesInvocation(old(history), Scans(scanned) + [Killed], history, old(runs), scanned, budget, Terminated);
        return Terminated;
      }
      ClearedIsComplete(history, runs, cursor);
      Clear();
      MakesInvocation(old(history), Scans(scanned) + [Cleared], history, old(runs), scanned, budget, CycleCompleted);
      return CycleCompleted;
    }
  }

  /**
   * Any series of invocations, each killed wherever its budget ends: what happens is one
   * invocation after the other. `moments` are the histories between them, and `starts` the runs
   * there were when each of them started.
   */
  method ReconcileRepeatedly(store: Reconciliation, budgets: seq<nat>)
    returns (endings: seq<Ending>, ghost moments: seq<seq<Action>>, ghost starts: seq<set<RunKey>>)
    requires store.Valid()
    modifies store
    ensures store.Valid() && old(store.runs) <= store.runs
    ensures |endings| == |starts| == |budgets| && |moments| == |budgets| + 1
    ensures moments[0] == old(store.history) && moments[|budgets|] == store.history
    ensures forall i :: 0 <= i < |budgets| ==>
              IsInvocation(moments[i], moments[i + 1], starts[i], budgets[i], endings[i])
  {
    hide IsInvocation;
    endings, moments, starts := [], [store.history], [];
    for n := 0 to |budgets|
      invariant store.Valid() && old(store.runs) <= store.runs
      invariant |endings| == |starts| == n && |moments| == n + 1
      invariant moments[0] == old(store.history) && moments[n] == store.history
      invariant forall i :: 0 <= i < n ==> IsInvocation(moments[i], moments[i + 1], starts[i], budgets[i], endings[i])
    {
      starts := starts + [store.runs];
      var ending := store.Reconcile(budgets[n]);
      endings := endings + [ending];
      moments := moments + [store.history];
    }
  }

  /**
   * From the invocation that finds no cursor up to the clearing of the cursor every run that was
   * there at the beginning is scanned, and the saved cursors only move forward; and if none of
   * the invocations in between was killed, each such run is scanned exactly once.
   */
  lemma EveryRunIsScanned(history: seq<Action>, p: nat, q: nat)
    requires CyclesComplete(history) && p < q < |history|
    requires Begins(history, p) && history[q] == Cleared && forall k :: p < k < q ==> !Begins(history, k)
    ensures var since := history[p + 1..q];
            && (forall r :: r in history[p].runs ==> r in ScannedIn(since))
            && Ascending(SavedIn(since))
            && (KillsIn(since) == 0 ==> forall r :: r in history[p].runs ==> multiset(ScannedIn(since))[r] == 1)
  {
    var h := history[..q];
    forall k | p <= k < q ensures h[k] == history[k] && h[..k] == history[..k] {
    }
    forall k | p < k < q ensures !Begins(h, k) {
      assert !Begins(history, k);
    }
    CycleSinceItBegan(h, p);
    assert h[p + 1..] == history[p + 1..q];
    if KillsIn(h[p + 1..]) == 0 { UnkilledScansOnce(CycleOf(h)); }
  }

  /** A cycle that was never killed scanned each run that was there when it began exactly once. */
  lemma UnkilledScansOnce(c: Cycle)
    requires Orderly(c) && Complete(c) && c.kills == 0
    ensures forall r :: r in c.begun ==> multiset(c.scanned)[r] == 1
  {
    forall i, j | 0 <= i < j < |c.scanned| ensures c.scanned[i] != c.scanned[j] {
      BeforeIsTotal(c.scanned[i], c.scanned[j]);
    }
    DistinctByCount(c.scanned);
    forall r | r in c.begun ensures r in multiset(c.scanned) {
      assert r in c.scanned;
    }
  }
}
