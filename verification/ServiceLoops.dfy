/**
 * Two loops of the control plane service: the bounded fan-out of mapWithConcurrency, and the
 * walk that bounds how deep a chain of runs may be.
 */
module ServiceLoops {
  import opened Wrappers

  // ----- mapWithConcurrency -----

  // A worker runs undisturbed between two awaits: it claims an index, or finds none left; and
  // later stores what it was given for it.
  datatype Worker = Ready | Busy(index: nat) | Finished

  datatype FanOut<R> = FanOut(next: nat, workers: seq<Worker>, results: seq<Option<R>>, claims: seq<nat>)

  function Start<R>(count: nat, concurrency: int): FanOut<R> {
    var n := if concurrency <= 0 then 0 else if concurrency < count then concurrency else count;
    FanOut(0, seq(n, _ => Ready), seq(count, _ => None), [])
  }

  ghost predicate Claims<R>(s: FanOut<R>, s': FanOut<R>, w: nat) {
    && w < |s.workers| && s.workers[w] == Ready
    && s' == if s.next < |s.results|
             then s.(next := s.next + 1, workers := s.workers[w := Busy(s.next)], claims := s.claims + [s.next])
             else s.(workers := s.workers[w := Finished])
  }

  ghost predicate Stores<T, R>(items: seq<T>, worker: T -> R, s: FanOut<R>, s': FanOut<R>, w: nat) {
    && w < |s.workers| && s.workers[w].Busy?
    && var i := s.workers[w].index;
       i < |items| && i < |s.results|
       && s' == s.(workers := s.workers[w := Ready], results := s.results[i := Some(worker(items[i]))])
  }

  ghost predicate FanOutStep<T, R>(items: seq<T>, worker: T -> R, s: FanOut<R>, s': FanOut<R>) {
    exists w: nat :: Claims(s, s', w) || Stores(items, worker, s, s', w)
  }

  ghost predicate IsFanOut<T, R>(items: seq<T>, concurrency: int, worker: T -> R, trace: seq<FanOut<R>>) {
    && trace != [] && trace[0] == Start(|items|, concurrency)
    && forall t :: 0 <= t < |trace| - 1 ==> FanOutStep(items, worker, trace[t], trace[t + 1])
  }

  ghost predicate HeldBy<R>(s: FanOut<R>, w: int, i: nat) {
    0 <= w < |s.workers| && s.workers[w] == Busy(i)
  }

  ghost predicate Sound<T, R>(items: seq<T>, worker: T -> R, s: FanOut<R>) {
    && |s.results| == |items| && s.next <= |items|
    && s.claims == seq(s.next, i => i)
    && (s.workers == [] ==> s.next == 0)
    && (forall w, i: nat :: HeldBy(s, w, i) ==> i < s.next && s.results[i].None?)
    && (forall v, w, i :: HeldBy(s, v, i) && HeldBy(s, w, i) ==> v == w)
    && (forall i :: 0 <= i < s.next && s.results[i].None? ==> exists w :: HeldBy(s, w, i))
    && (forall i :: 0 <= i < |items| && s.results[i].Some? ==> i < s.next && s.results[i].value == worker(items[i]))
    && (forall w :: 0 <= w < |s.workers| && s.workers[w] == Finished ==> s.next == |items|)
  }

  lemma StepIsSound<T, R>(items: seq<T>, worker: T -> R, s: FanOut<R>, s': FanOut<R>)
    requires Sound(items, worker, s) && FanOutStep(items, worker, s, s')
    ensures Sound(items, worker, s') && |s'.workers| == |s.workers|
  {
    var w: nat :| Claims(s, s', w) || Stores(items, worker, s, s', w);
    var touched := if s.workers[w].Busy? then s.workers[w].index else s.next;
    assert HeldBy(s, w, touched) || touched == s.next;
    forall v, i: nat | HeldBy(s', v, i) ensures (v == w && i == touched)
        || (v != w && HeldBy(s, v, i) && i != touched) {
      if v != w { assert HeldBy(s, v, i); }
    }
    forall i | 0 <= i < s'.next && s'.results[i].None? ensures exists v :: HeldBy(s', v, i) {
      if i == s.next {
        assert HeldBy(s', w, i);
      } else {
        var v :| HeldBy(s, v, i);
        assert HeldBy(s', v, i);
      }
    }
  }

  lemma {:induction false} FanOutIsSound<T, R>(items: seq<T>, concurrency: int, worker: T -> R,
                                               trace: seq<FanOut<R>>, t: nat)
    requires IsFanOut(items, concurrency, worker, trace) && t < |trace|
    ensures Sound(items, worker, trace[t]) && |trace[t].workers| == |trace[0].workers|
  {
    if t > 0 {
      FanOutIsSound(items, concurrency, worker, trace, t - 1);
      assert FanOutStep(items, worker, trace[t - 1], trace[t - 1 + 1]);
      StepIsSound(items, worker, trace[t - 1], trace[t]);
    }
  }

  /**
   * Under any interleaving each index is claimed once, in order, and held by one worker, of whom
   * there are never more than allowed; and once every worker has finished, all results are there
   * and right. All callers ask for eight workers.
   */
  lemma EachIndexOnce<T, R>(items: seq<T>, concurrency: int, worker: T -> R, trace: seq<FanOut<R>>, t: nat)
    requires IsFanOut(items, concurrency, worker, trace) && t < |trace|
    ensures var s := trace[t];
            && s.claims == seq(s.next, i => i)
            && |s.workers| <= (if concurrency < 0 then 0 else concurrency)
            && (forall v, w, i :: HeldBy(s, v, i) && HeldBy(s, w, i) ==> v == w)
    ensures var s := trace[t];
            concurrency >= 1 && AllFinished(s) ==>
              |s.results| == |items| && forall i :: 0 <= i < |items| ==> s.results[i] == Some(worker(items[i]))
  {
    FanOutIsSound(items, concurrency, worker, trace, t);
    var s := trace[t];
    if concurrency >= 1 && AllFinished(s) && items != [] {
      assert s.workers[0] == Finished;
      forall i | 0 <= i < |items| ensures s.results[i] == Some(worker(items[i])) {
        assert forall w :: !HeldBy(s, w, i);
      }
    }
  }

  ghost predicate AllFinished<R>(s: FanOut<R>) {
    forall w :: 0 <= w < |s.workers| ==> s.workers[w] == Finished
  }

  // Fewer than one worker, which no caller asks for, would leave every result missing.
  lemma NothingWithoutWorkers<T, R>(items: seq<T>, concurrency: int, worker: T -> R, trace: seq<FanOut<R>>, t: nat)
    requires IsFanOut(items, concurrency, worker, trace) && t < |trace| && concurrency < 1
    ensures trace[t].claims == [] && |trace[t].results| == |items|
    ensures forall i :: 0 <= i < |items| ==> trace[t].results[i].None?
  {
    FanOutIsSound(items, concurrency, worker, trace, t);
  }

  // ----- the depth of a chain -----

  // For each run its base, if it was chained. An id may name no run, or lead round in a circle.
  function BaseOf(runs: map<string, Option<string>>, id: string): Option<string> {
    if id in runs then runs[id] else None
  }

  // Whether the chain goes on for n more runs behind this one.
  ghost predicate HasAncestors(runs: map<string, Option<string>>, id: string, n: nat)
    decreases n
  {
    n == 0 || (BaseOf(runs, id).Some? && HasAncestors(runs, BaseOf(runs, id).value, n - 1))
  }

  // The number of runs in the chain that ends with this one, counting it; a circle has none.
  ghost predicate ChainLength(runs: map<string, Option<string>>, id: string, length: nat) {
    length >= 1 && HasAncestors(runs, id, length - 1) && !HasAncestors(runs, id, length)
  }

  function Ancestor(runs: map<string, Option<string>>, id: Option<string>, n: nat): Option<string>
    decreases n
  {
    if n == 0 || id.None? then id else Ancestor(runs, BaseOf(runs, id.value), n - 1)
  }

  lemma {:induction false} AncestorStep(runs: map<string, Option<string>>, id: Option<string>, n: nat)
    ensures Ancestor(runs, id, n + 1)
        == (if Ancestor(runs, id, n).Some? then BaseOf(runs, Ancestor(runs, id, n).value) else None)
    decreases n
  {
    if n > 0 && id.Some? { AncestorStep(runs, BaseOf(runs, id.value), n - 1); }
  }

  lemma {:induction false} AncestorExists(runs: map<string, Option<string>>, id: string, n: nat)
    ensures Ancestor(runs, Some(id), n).Some? <==> HasAncestors(runs, id, n)
    decreases n
  {
    if n > 0 {
      if BaseOf(runs, id).Some? {
        AncestorExists(runs, BaseOf(runs, id).value, n - 1);
      } else {
        assert Ancestor(runs, None, n - 1).None?;
      }
    }
  }

  lemma {:induction false} FewerAncestors(runs: map<string, Option<string>>, id: string, m: nat, n: nat)
    requires m <= n && HasAncestors(runs, id, n)
    ensures HasAncestors(runs, id, m)
    decreases m
  {
    if m > 0 { FewerAncestors(runs, BaseOf(runs, id).value, m - 1, n - 1); }
  }

  /**
   * The walk stops early, at the limit it is checking. It allows one more run on this base
   * exactly when the whole chain has a length, and that length plus one is within the limit.
   */
  method CheckChainDepth(runs: map<string, Option<string>>, baseId: string, maxDepth: int) returns (allowed: bool)
    ensures allowed <==> exists length: nat :: ChainLength(runs, baseId, length) && length + 1 <= maxDepth
  {
    var existing := 1;
    var ancestor := BaseOf(runs, baseId);
    while ancestor.Some? && existing <= maxDepth
      invariant 1 <= existing
      invariant ancestor == Ancestor(runs, Some(baseId), existing)
      invariant HasAncestors(runs, baseId, existing - 1)
      invariant existing <= 1 || existing <= maxDepth + 1
      decreases maxDepth - existing
    {
      AncestorExists(runs, baseId, existing);
      AncestorStep(runs, Some(baseId), existing);
      existing := existing + 1;
      ancestor := BaseOf(runs, ancestor.value);
    }
    AncestorExists(runs, baseId, existing);
    allowed := existing + 1 <= maxDepth;
    if allowed {
      assert ChainLength(runs, baseId, existing);
    } else {
      forall length: nat | ChainLength(runs, baseId, length) ensures length + 1 > maxDepth {
        if length < existing { FewerAncestors(runs, baseId, length, existing - 1); }
      }
    }
  }
}
