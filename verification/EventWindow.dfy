/**
 * The bounded window of processed events (packages/core/src/events.ts) that every reducer of
 * an at-least-once event stream sits behind, and what it promises about redelivery.
 */
module EventWindow {
  import opened Wrappers
  import opened Permutations

  const EVENT_DEDUPE_WINDOW: nat := 256

  // The digests are hashes of whole events: any function of the event will do here.
  // A state without recorded digests is one whose map is empty.
  datatype Window<F> = Window(ids: seq<string>, fingerprints: map<string, F>)

  const MAX_EVENT_ID: nat := 128

  predicate AlphaNumeric(c: char) {
    'A' <= c <= 'Z' || 'a' <= c <= 'z' || '0' <= c <= '9'
  }

  predicate ValidEventId(id: string) {
    && 1 <= |id| <= MAX_EVENT_ID && AlphaNumeric(id[0])
    && forall i :: 0 < i < |id| ==> AlphaNumeric(id[i]) || id[i] in "._:-"
  }

  datatype Disposition = New | Duplicate | Reused

  // A known id with another digest is an error; a known id is a duplicate; anything else is new.
  function DispositionOf<F(==)>(w: Window<F>, id: string, fingerprint: F): Disposition {
    if id in w.fingerprints then
      if w.fingerprints[id] == fingerprint then Duplicate else Reused
    else if id in w.ids then Duplicate
    else New
  }

  function Last<T>(s: seq<T>, n: nat): (t: seq<T>)
    ensures |t| <= n
  {
    if |s| <= n then s else s[|s| - n..]
  }

  // What fell off the front.
  function Expired<T>(s: seq<T>, n: nat): seq<T> {
    if |s| <= n then [] else s[..|s| - n]
  }

  function Recorded<F>(w: Window<F>, id: string, fingerprint: F): Window<F> {
    var ids := w.ids + [id];
    Window(Last(ids, EVENT_DEDUPE_WINDOW),
           w.fingerprints[id := fingerprint] - (set x | x in Expired(ids, EVENT_DEDUPE_WINDOW)))
  }

  /** Appends, then shifts the oldest ids out and deletes their digests. */
  method RecordProcessedEvent<F>(w: Window<F>, id: string, fingerprint: F) returns (w': Window<F>)
    ensures w' == Recorded(w, id, fingerprint)
  {
    var ids := w.ids + [id];
    var fingerprints := w.fingerprints[id := fingerprint];
    ghost var all, n := ids, 0;
    while |ids| > EVENT_DEDUPE_WINDOW
      invariant n <= |all| && ids == all[n..]
      invariant n > 0 ==> |ids| >= EVENT_DEDUPE_WINDOW
      invariant fingerprints == w.fingerprints[id := fingerprint] - (set x | x in all[..n])
    {
      var expiredId := ids[0];
      ids := ids[1..];
      fingerprints := fingerprints - {expiredId};
      assert all[..n + 1] == all[..n] + [expiredId];
      n := n + 1;
    }
    w' := Window(ids, fingerprints);
    assert all[..n] == Expired(all, EVENT_DEDUPE_WINDOW);
  }

  // The goal workflow's own recording: a slice of the ids, and the digests of what it retains.
  function SliceRecorded<F>(w: Window<F>, id: string, fingerprint: F): Window<F> {
    var retained := Last(w.ids + [id], EVENT_DEDUPE_WINDOW);
    var all := w.fingerprints[id := fingerprint];
    Window(retained, map x | x in all && x in retained :: all[x])
  }

  // The goal workflow looks at digests alone.
  function SliceDispositionOf<F(==)>(w: Window<F>, id: string, fingerprint: F): Disposition {
    if id !in w.fingerprints then New
    else if w.fingerprints[id] == fingerprint then Duplicate
    else Reused
  }

  // ----- well-formed windows -----

  ghost predicate WellFormed<F>(w: Window<F>) {
    && |w.ids| <= EVENT_DEDUPE_WINDOW && Distinct(w.ids)
    && forall id :: id in w.fingerprints <==> id in w.ids
  }

  // With room left nothing goes; in a full window exactly the oldest id does.
  lemma RecordedIs<F>(w: Window<F>, id: string, fingerprint: F)
    requires |w.ids| <= EVENT_DEDUPE_WINDOW
    ensures |w.ids| < EVENT_DEDUPE_WINDOW ==>
              Recorded(w, id, fingerprint) == Window(w.ids + [id], w.fingerprints[id := fingerprint])
    ensures |w.ids| == EVENT_DEDUPE_WINDOW ==>
              Recorded(w, id, fingerprint) == Window(w.ids[1..] + [id], w.fingerprints[id := fingerprint] - {w.ids[0]})
  {
    var all := w.ids + [id];
    if |w.ids| == EVENT_DEDUPE_WINDOW {
      assert Expired(all, EVENT_DEDUPE_WINDOW) == [w.ids[0]];
      assert all[1..] == w.ids[1..] + [id];
      assert (set x | x in [w.ids[0]]) == {w.ids[0]};
    }
  }

  lemma RecordedIsWellFormed<F>(w: Window<F>, id: string, fingerprint: F)
    requires WellFormed(w) && id !in w.ids
    ensures WellFormed(Recorded(w, id, fingerprint))
    ensures forall x :: x in Recorded(w, id, fingerprint).ids ==>
              Recorded(w, id, fingerprint).fingerprints[x] == if x == id then fingerprint else w.fingerprints[x]
  {
    hide Recorded;
    RecordedIs(w, id, fingerprint);
    if |w.ids| == EVENT_DEDUPE_WINDOW {
      var rest := w.ids[1..];
      assert w.ids == [w.ids[0]] + rest;
      assert w.ids[0] !in rest;
      assert forall x :: x in w.ids <==> x == w.ids[0] || x in rest;
    }
  }

  // The two ways of recording agree wherever a reducer can be.
  lemma SliceRefinesShift<F>(w: Window<F>, id: string, fingerprint: F)
    requires WellFormed(w)
    ensures SliceDispositionOf(w, id, fingerprint) == DispositionOf(w, id, fingerprint)
    ensures DispositionOf(w, id, fingerprint) == New ==>
        SliceRecorded(w, id, fingerprint) == Recorded(w, id, fingerprint)
  {
    if DispositionOf(w, id, fingerprint) == New {
      RecordedIsWellFormed(w, id, fingerprint);
      assert SliceRecorded(w, id, fingerprint).fingerprints == Recorded(w, id, fingerprint).fingerprints;
    }
  }

  // ----- reducers -----

  datatype State<C, F> = State(core: C, window: Window<F>)

  /**
   * A reducer: how events are named and digested, which are refused before anything else, and
   * what a new event does to the state proper (None where the source throws).
   */
  datatype Reducer<!C, !E, !F> = Reducer(
    id: E -> string,
    fingerprint: E -> F,
    admits: E -> bool,
    step: (C, E) -> Option<C>)

  function Reduce<C, E, F(==)>(r: Reducer<C, E, F>, s: State<C, F>, e: E): Option<State<C, F>> {
    if !r.admits(e) then None
    else match DispositionOf(s.window, r.id(e), r.fingerprint(e))
      case Reused => None
      case Duplicate => Some(s)
      case New =>
        var next := r.step(s.core, e);
        if next.None? then None
        else Some(State(next.value, Recorded(s.window, r.id(e), r.fingerprint(e))))
  }

  function Replay<C, E, F(==)>(r: Reducer<C, E, F>, s: State<C, F>, events: seq<E>): Option<State<C, F>>
    decreases |events|
  {
    if events == [] then Some(s)
    else
      var next := Reduce(r, s, events[0]);
      if next.None? then None else Replay(r, next.value, events[1..])
  }

  predicate IsNew<C, E, F(==)>(r: Reducer<C, E, F>, s: State<C, F>, e: E) {
    DispositionOf(s.window, r.id(e), r.fingerprint(e)) == New
  }

  // The events that changed the state, in order, for a replay that succeeds.
  function Accepted<C, E, F(==)>(r: Reducer<C, E, F>, s: State<C, F>, events: seq<E>): seq<E>
    requires Replay(r, s, events).Some?
    decreases |events|
  {
    if events == [] then []
    else
      var rest := Accepted(r, Reduce(r, s, events[0]).value, events[1..]);
      if IsNew(r, s, events[0]) then [events[0]] + rest else rest
  }

  // The window's ids and digests are those of the listed events, in order.
  ghost predicate Mirrors<C, E, F>(r: Reducer<C, E, F>, w: Window<F>, events: seq<E>) {
    |w.ids| == |events| && forall i :: 0 <= i < |events| ==> MirrorsAt(r, w, i, events[i])
  }

  ghost predicate MirrorsAt<C, E, F>(r: Reducer<C, E, F>, w: Window<F>, i: nat, e: E)
    requires i < |w.ids|
  {
    && r.admits(e) && w.ids[i] == r.id(e)
    && w.ids[i] in w.fingerprints && w.fingerprints[w.ids[i]] == r.fingerprint(e)
  }

  // The window holds exactly the last 256 accepted events.
  ghost predicate Remembers<C, E, F>(r: Reducer<C, E, F>, w: Window<F>, history: seq<E>) {
    WellFormed(w) && Mirrors(r, w, Last(history, EVENT_DEDUPE_WINDOW))
  }

  lemma RecordingMirrors<C, E, F>(r: Reducer<C, E, F>, w: Window<F>, events: seq<E>, e: E)
    requires WellFormed(w) && Mirrors(r, w, events) && r.admits(e) && r.id(e) !in w.ids
    ensures Mirrors(r, Recorded(w, r.id(e), r.fingerprint(e)), Last(events + [e], EVENT_DEDUPE_WINDOW))
  {
    hide Recorded, WellFormed, MirrorsAt;
    var id := r.id(e);
    var w' := Recorded(w, id, r.fingerprint(e));
    WindowIsSmall(w);
    RecordedIs(w, id, r.fingerprint(e));
    var drop := if |events| < EVENT_DEDUPE_WINDOW then 0 else 1;
    var kept := events[drop..] + [e];
    assert Last(events + [e], EVENT_DEDUPE_WINDOW) == kept;
    assert w'.ids == w.ids[drop..] + [id];
    forall i | 0 <= i < |kept| ensures MirrorsAt(r, w', i, kept[i]) {
      if i < |kept| - 1 {
        MirrorsStill(r, w, events, e, i + drop, i);
      } else {
        MirrorsLast(r, w, e);
      }
    }
  }

  lemma WindowIsSmall<F>(w: Window<F>)
    requires WellFormed(w)
    ensures |w.ids| <= EVENT_DEDUPE_WINDOW
  {
  }

  // An event that stays in the window keeps its digest, at its new place.
  lemma MirrorsStill<C, E, F>(r: Reducer<C, E, F>, w: Window<F>, events: seq<E>, e: E, from: nat, to: nat)
    requires WellFormed(w) && r.id(e) !in w.ids && from < |w.ids| && from < |events|
    requires MirrorsAt(r, w, from, events[from])
    requires to < |Recorded(w, r.id(e), r.fingerprint(e)).ids|
    requires Recorded(w, r.id(e), r.fingerprint(e)).ids[to] == w.ids[from]
    ensures MirrorsAt(r, Recorded(w, r.id(e), r.fingerprint(e)), to, events[from])
  {
    hide Recorded;
    RecordedIsWellFormed(w, r.id(e), r.fingerprint(e));
    var w' := Recorded(w, r.id(e), r.fingerprint(e));
    assert w'.ids[to] in w'.ids && w.ids[from] in w.ids;
  }

  lemma MirrorsLast<C, E, F>(r: Reducer<C, E, F>, w: Window<F>, e: E)
    requires WellFormed(w) && r.admits(e) && r.id(e) !in w.ids
    ensures var w' := Recorded(w, r.id(e), r.fingerprint(e));
            w'.ids != [] && MirrorsAt(r, w', |w'.ids| - 1, e)
  {
    hide Recorded;
    RecordedIs(w, r.id(e), r.fingerprint(e));
    RecordedIsWellFormed(w, r.id(e), r.fingerprint(e));
    var w' := Recorded(w, r.id(e), r.fingerprint(e));
    assert w'.ids[|w'.ids| - 1] == r.id(e) && r.id(e) in w'.ids;
  }

  lemma RecordingRemembers<C, E, F>(r: Reducer<C, E, F>, w: Window<F>, history: seq<E>, e: E)
    requires Remembers(r, w, history) && r.admits(e) && r.id(e) !in w.ids
    ensures Remembers(r, Recorded(w, r.id(e), r.fingerprint(e)), history + [e])
  {
    hide WellFormed, Mirrors, Recorded;
    var recent := Last(history, EVENT_DEDUPE_WINDOW);
    RecordingMirrors(r, w, recent, e);
    RecordedIsWellFormed(w, r.id(e), r.fingerprint(e));
    assert Last(recent + [e], EVENT_DEDUPE_WINDOW) == Last(history + [e], EVENT_DEDUPE_WINDOW);
  }

  // What the window makes of any event, said in terms of the accepted events alone.
  lemma DispositionByHistory<C, E, F>(r: Reducer<C, E, F>, w: Window<F>, history: seq<E>, e: E)
    requires Remembers(r, w, history)
    ensures var recent := Last(history, EVENT_DEDUPE_WINDOW);
            var d := DispositionOf(w, r.id(e), r.fingerprint(e));
            && (d == Duplicate <==>
                  exists x :: x in recent && r.id(x) == r.id(e) && r.fingerprint(x) == r.fingerprint(e))
            && (d == Reused <==> exists x :: x in recent && r.id(x) == r.id(e) && r.fingerprint(x) != r.fingerprint(e))
            && (d == New <==> forall x :: x in recent ==> r.id(x) != r.id(e))
  {
    var recent := Last(history, EVENT_DEDUPE_WINDOW);
    forall x | x in recent && r.id(x) == r.id(e)
      ensures r.id(e) in w.ids && w.fingerprints[r.id(e)] == r.fingerprint(x)
    {
      var i :| 0 <= i < |recent| && recent[i] == x;
      assert w.ids[i] == r.id(e);
    }
    if r.id(e) in w.ids {
      var i :| 0 <= i < |w.ids| && w.ids[i] == r.id(e);
      assert recent[i] in recent && r.id(recent[i]) == r.id(e);
    }
  }

  // Along any replay, the window keeps remembering.
  lemma {:induction false} ReplayRemembers<C, E, F>(r: Reducer<C, E, F>, s: State<C, F>, history: seq<E>,
                                                    events: seq<E>)
    requires Remembers(r, s.window, history) && Replay(r, s, events).Some?
    ensures Remembers(r, Replay(r, s, events).value.window, history + Accepted(r, s, events))
    decreases |events|
  {
    hide Remembers, Recorded;
    if events == [] {
      assert history + [] == history;
    } else {
      var e := events[0];
      var next := Reduce(r, s, e).value;
      var rest := Accepted(r, next, events[1..]);
      if IsNew(r, s, e) {
        RecordingRemembers(r, s.window, history, e);
        ReplayRemembers(r, next, history + [e], events[1..]);
        assert history + ([e] + rest) == history + [e] + rest;
      } else {
        ReplayRemembers(r, next, history, events[1..]);
      }
    }
  }

  // `noisy` is `clean` with redeliveries of recently accepted events put in anywhere.
  ghost predicate Redelivers<C, E, F>(r: Reducer<C, E, F>, s: State<C, F>, history: seq<E>, clean: seq<E>,
                                      noisy: seq<E>)
    decreases |noisy|
  {
    if noisy == [] then clean == []
    else
      || (noisy[0] in Last(history, EVENT_DEDUPE_WINDOW) && Redelivers(r, s, history, clean, noisy[1..]))
      || (&& clean != [] && clean[0] == noisy[0]
          && (Reduce(r, s, clean[0]).Some? ==>
                Redelivers(r, Reduce(r, s, clean[0]).value,
                           if IsNew(r, s, clean[0]) then history + [clean[0]] else history, clean[1..], noisy[1..])))
  }

  /** Redelivering accepted events, while they are among the last 256, changes nothing. */
  lemma {:induction false} RedeliveryIsInvisible<C, E, F>(r: Reducer<C, E, F>, s: State<C, F>, history: seq<E>,
                                                          clean: seq<E>, noisy: seq<E>)
    requires Remembers(r, s.window, history) && Redelivers(r, s, history, clean, noisy)
    ensures Replay(r, s, noisy) == Replay(r, s, clean)
    decreases |noisy|
  {
    if noisy == [] {
    } else if noisy[0] in Last(history, EVENT_DEDUPE_WINDOW) && Redelivers(r, s, history, clean, noisy[1..]) {
      DispositionByHistory(r, s.window, history, noisy[0]);
      var recent := Last(history, EVENT_DEDUPE_WINDOW);
      var i :| 0 <= i < |recent| && recent[i] == noisy[0];
      assert Reduce(r, s, noisy[0]) == Some(s);
      RedeliveryIsInvisible(r, s, history, clean, noisy[1..]);
    } else if Reduce(r, s, clean[0]).Some? {
      var next := Reduce(r, s, clean[0]).value;
      if IsNew(r, s, clean[0]) {
        RecordingRemembers(r, s.window, history, clean[0]);
        RedeliveryIsInvisible(r, next, history + [clean[0]], clean[1..], noisy[1..]);
      } else {
        RedeliveryIsInvisible(r, next, history, clean[1..], noisy[1..]);
      }
    }
  }

  // What changed the state, as a chain of steps of the state proper.
  ghost predicate Steps<C, E, F>(r: Reducer<C, E, F>, from: C, events: seq<E>, to: C)
    decreases |events|
  {
    if events == [] then from == to
    else
      && r.admits(events[0]) && r.step(from, events[0]).Some?
      && Steps(r, r.step(from, events[0]).value, events[1..], to)
  }

  lemma {:induction false} ReplayIsSteps<C, E, F>(r: Reducer<C, E, F>, s: State<C, F>, events: seq<E>)
    requires Replay(r, s, events).Some?
    ensures Steps(r, s.core, Accepted(r, s, events), Replay(r, s, events).value.core)
    decreases |events|
  {
    if events != [] {
      var next := Reduce(r, s, events[0]).value;
      ReplayIsSteps(r, next, events[1..]);
      if IsNew(r, s, events[0]) {
        assert Accepted(r, s, events)[1..] == Accepted(r, next, events[1..]);
      }
    }
  }

  /** Conversely, a chain of steps for events with new ids is what replaying those events does. */
  lemma {:induction false} StepsReplay<C, E, F>(r: Reducer<C, E, F>, s: State<C, F>, history: seq<E>, events: seq<E>,
                                                to: C)
    requires Remembers(r, s.window, history) && Steps(r, s.core, events, to)
    requires forall x, y :: x in history && y in events ==> r.id(x) != r.id(y)
    requires forall i, j :: 0 <= i < j < |events| ==> r.id(events[i]) != r.id(events[j])
    ensures Replay(r, s, events).Some? && Replay(r, s, events).value.core == to
    ensures Accepted(r, s, events) == events
    decreases |events|
  {
    hide Remembers, Recorded, DispositionOf;
    if events != [] {
      var e := events[0];
      NewToHistory(r, s.window, history, e);
      RecordingRemembers(r, s.window, history, e);
      var next := State(r.step(s.core, e).value, Recorded(s.window, r.id(e), r.fingerprint(e)));
      StepsReplay(r, next, history + [e], events[1..], to);
      assert events == [e] + events[1..];
    }
  }

  lemma NewToHistory<C, E, F>(r: Reducer<C, E, F>, w: Window<F>, history: seq<E>, e: E)
    requires Remembers(r, w, history) && forall x :: x in history ==> r.id(x) != r.id(e)
    ensures DispositionOf(w, r.id(e), r.fingerprint(e)) == New && r.id(e) !in w.ids
  {
    DispositionByHistory(r, w, history, e);
  }

  // What every step keeps holds along a chain of steps, of the state and the history so far.
  ghost predicate Kept<C(!new), E(!new), F>(r: Reducer<C, E, F>, inv: (C, seq<E>) -> bool) {
    forall c, h, e :: inv(c, h) && r.admits(e) && r.step(c, e).Some? ==> inv(r.step(c, e).value, h + [e])
  }

  lemma {:induction false} StepsKeep<C(!new), E(!new), F>(r: Reducer<C, E, F>, inv: (C, seq<E>) -> bool, from: C,
                                       history: seq<E>, events: seq<E>, to: C)
    requires Kept(r, inv) && inv(from, history) && Steps(r, from, events, to)
    ensures inv(to, history + events)
    decreases |events|
  {
    if events == [] {
      assert history + events == history;
    } else {
      StepsKeep(r, inv, r.step(from, events[0]).value, history + [events[0]], events[1..], to);
      assert history + [events[0]] + events[1..] == history + events;
    }
  }

  // Which events are taken can be told from the events taken before.
  ghost predicate Judged<C(!new), E(!new), F>(r: Reducer<C, E, F>, inv: (C, seq<E>) -> bool,
                                              allowed: (seq<E>, E) -> bool) {
    forall c, h, e :: inv(c, h) ==> (allowed(h, e) <==> r.admits(e) && r.step(c, e).Some?)
  }

  // Each event is allowed by those before it.
  ghost predicate Lawful<E>(allowed: (seq<E>, E) -> bool, history: seq<E>, events: seq<E>) {
    forall i :: 0 <= i < |events| ==> allowed(history + events[..i], events[i])
  }

  lemma LawfulFirst<E>(allowed: (seq<E>, E) -> bool, history: seq<E>, events: seq<E>)
    requires events != []
    ensures Lawful(allowed, history, events)
            <==> allowed(history, events[0]) && Lawful(allowed, history + [events[0]], events[1..])
  {
    var rest := events[1..];
    assert history + events[..0] == history;
    assert forall i :: 0 <= i < |rest| ==> rest[i] == events[i + 1]
                                           && history + [events[0]] + rest[..i] == history + events[..i + 1];
    if allowed(history, events[0]) && Lawful(allowed, history + [events[0]], rest) {
      forall i | 0 <= i < |events| ensures allowed(history + events[..i], events[i]) {
        if i > 0 { assert rest[i - 1] == events[i]; }
      }
    }
  }

  ghost predicate Takes<C(!new), E, F>(r: Reducer<C, E, F>, from: C, events: seq<E>) {
    exists to :: Steps(r, from, events, to)
  }

  lemma TakesFirst<C(!new), E, F>(r: Reducer<C, E, F>, from: C, events: seq<E>)
    requires events != []
    ensures Takes(r, from, events) <==>
            && r.admits(events[0]) && r.step(from, events[0]).Some?
            && Takes(r, r.step(from, events[0]).value, events[1..])
  {
    if to :| Steps(r, from, events, to) {
      assert Steps(r, r.step(from, events[0]).value, events[1..], to);
    }
    if r.admits(events[0]) && r.step(from, events[0]).Some? {
      if to :| Steps(r, r.step(from, events[0]).value, events[1..], to) {
        assert Steps(r, from, events, to);
      }
    }
  }

  /** The chains of steps are the lawful lists of events. */
  lemma {:induction false} StepsAreLawful<C(!new), E(!new), F>(r: Reducer<C, E, F>, inv: (C, seq<E>) -> bool,
                                                               allowed: (seq<E>, E) -> bool, from: C,
                                                               history: seq<E>, events: seq<E>)
    requires Kept(r, inv) && Judged(r, inv, allowed) && inv(from, history)
    ensures Takes(r, from, events) <==> Lawful(allowed, history, events)
    decreases |events|
  {
    if events == [] {
      assert Steps(r, from, events, from);
    } else {
      var e := events[0];
      LawfulFirst(allowed, history, events);
      TakesFirst(r, from, events);
      if allowed(history, e) {
        StepsAreLawful(r, inv, allowed, r.step(from, e).value, history + [e], events[1..]);
      }
    }
  }

  lemma {:induction false} NewIdsAreAccepted<C, E, F>(r: Reducer<C, E, F>, s: State<C, F>, history: seq<E>,
                                                      events: seq<E>)
    requires Remembers(r, s.window, history) && Replay(r, s, events).Some?
    requires forall x, y :: x in history && y in events ==> r.id(x) != r.id(y)
    requires forall i, j :: 0 <= i < j < |events| ==> r.id(events[i]) != r.id(events[j])
    ensures Accepted(r, s, events) == events
    decreases |events|
  {
    hide Remembers, Recorded, DispositionOf;
    if events != [] {
      var e := events[0];
      NewToHistory(r, s.window, history, e);
      RecordingRemembers(r, s.window, history, e);
      NewIdsAreAccepted(r, Reduce(r, s, e).value, history + [e], events[1..]);
      assert events == [e] + events[1..];
    }
  }

  /** Events with ids of their own are replayed exactly when each is allowed by those before it. */
  lemma {:induction false} ReplaysExactly<C(!new), E(!new), F>(r: Reducer<C, E, F>, inv: (C, seq<E>) -> bool,
                                            allowed: (seq<E>, E) -> bool, from: C, events: seq<E>)
    requires Kept(r, inv) && Judged(r, inv, allowed) && inv(from, [])
    requires forall i, j :: 0 <= i < j < |events| ==> r.id(events[i]) != r.id(events[j])
    ensures var s := State(from, Window([], map[]));
            && (Replay(r, s, events).Some? <==> Lawful(allowed, [], events))
            && (Replay(r, s, events).Some? ==> Accepted(r, s, events) == events)
  {
    var s: State<C, F> := State(from, Window([], map[]));
    StepsAreLawful(r, inv, allowed, from, [], events);
    if Replay(r, s, events).Some? {
      NewIdsAreAccepted(r, s, [], events);
      ReplayIsSteps(r, s, events);
      assert Takes(r, from, events);
    }
    if to :| Steps(r, from, events, to) {
      StepsReplay(r, s, [], events, to);
    }
  }

  /** After any replay, what was taken was lawful, and a new event is taken exactly when it is. */
  lemma {:induction false} NextIsJudged<C(!new), E(!new), F>(r: Reducer<C, E, F>, inv: (C, seq<E>) -> bool,
                                          allowed: (seq<E>, E) -> bool, from: C, events: seq<E>, e: E)
    requires Kept(r, inv) && Judged(r, inv, allowed) && inv(from, [])
    requires Replay(r, State(from, Window([], map[])), events).Some?
    ensures var s := State(from, Window([], map[])); var now := Replay(r, s, events).value;
            var accepted := Accepted(r, s, events);
            && inv(now.core, accepted) && Lawful(allowed, [], accepted)
            && (IsNew(r, now, e) ==> (Reduce(r, now, e).Some? <==> allowed(accepted, e)))
  {
    var s: State<C, F> := State(from, Window([], map[]));
    var now, accepted := Replay(r, s, events).value, Accepted(r, s, events);
    ReplayIsSteps(r, s, events);
    StepsKeep(r, inv, from, [], accepted, now.core);
    assert [] + accepted == accepted && Takes(r, from, accepted);
    StepsAreLawful(r, inv, allowed, from, [], accepted);
  }
}
