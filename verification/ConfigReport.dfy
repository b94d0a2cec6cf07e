/** What a reported difference of two configurations says (packages/core/src/config.ts). */
module ConfigReport {
  import opened Wrappers
  import opened TextOrder
  import opened CanonicalJson
  import opened ConfigDiff

  type Path = seq<Text>

  // The value that a path leads to.
  function At(v: Value, path: Path): Option<Value>
    decreases |path|
  {
    if path == [] then Some(v)
    else if !v.Obj? || Lookup(v.entries, path[0]).None? then None
    else At(Lookup(v.entries, path[0]).value, path[1..])
  }

  // A change says what is at its path before and after: nothing, or another value that is not an
  // object on both sides. Above it there are objects on both sides.
  ghost predicate Truthful(before: Value, after: Value, c: Change) {
    && match c
       case Added(path, y) => At(before, path) == None && At(after, path) == Some(y)
       case Removed(path, x) => At(before, path) == Some(x) && At(after, path) == None
       case Changed(path, x, y) =>
         At(before, path) == Some(x) && At(after, path) == Some(y) && x != y && !(x.Obj? && y.Obj?)
  }

  ghost predicate AllTruthful(before: Value, after: Value, changes: seq<Change>) {
    forall i :: 0 <= i < |changes| ==> Truthful(before, after, changes[i])
  }

  lemma TruthfulUnder(a: Entries, b: Entries, key: Text, c: Change)
    requires Lookup(a, key).Some? && Lookup(b, key).Some?
    requires Truthful(Lookup(a, key).value, Lookup(b, key).value, c)
    ensures Truthful(Obj(a), Obj(b), c.(path := [key] + c.path))
  {
    var path := [key] + c.path;
    assert path[1..] == c.path;
    assert At(Obj(a), path) == At(Lookup(a, key).value, c.path);
    assert At(Obj(b), path) == At(Lookup(b, key).value, c.path);
    hide At, Lookup;
  }

  lemma {:induction false} UnderAt(key: Text, changes: seq<Change>)
    ensures |Under(key, changes)| == |changes|
    ensures forall i :: 0 <= i < |changes| ==>
              Under(key, changes)[i] == changes[i].(path := [key] + changes[i].path)
  {
    if changes != [] { UnderAt(key, changes[1..]); }
  }

  lemma {:induction false} KeyIsTruthful(key: Text, a: Entries, b: Entries)
    requires WellFormed(Obj(a)) && WellFormed(Obj(b))
    ensures AllTruthful(Obj(a), Obj(b), DiffKey(key, a, b))
    decreases a, 0
  {
    var x, y := Lookup(a, key), Lookup(b, key);
    assert At(Obj(a), [key]) == x by { OneStep(Obj(a), key); }
    assert At(Obj(b), [key]) == y by { OneStep(Obj(b), key); }
    if x.Some? && y.Some? {
      LookupIsMember(a, key);
      LookupWellFormed(a, key);
      LookupWellFormed(b, key);
      var changes := DiffValues(x.value, y.value);
      ReportIsTruthful(x.value, y.value);
      UnderAt(key, changes);
      hide Truthful, DiffValues, Lookup;
      forall i | 0 <= i < |changes| ensures Truthful(Obj(a), Obj(b), Under(key, changes)[i]) {
        TruthfulUnder(a, b, key, changes[i]);
      }
    }
  }

  lemma OneStep(v: Value, key: Text)
    requires v.Obj?
    ensures At(v, [key]) == Lookup(v.entries, key)
  {
    assert [key][1..] == [];
  }

  lemma {:induction false} KeysAreTruthful(keys: seq<Entry<()>>, a: Entries, b: Entries)
    requires WellFormed(Obj(a)) && WellFormed(Obj(b))
    ensures AllTruthful(Obj(a), Obj(b), DiffKeys(keys, a, b))
    decreases a, 1, |keys|
  {
    hide Truthful, DiffKey;
    if keys != [] {
      KeyIsTruthful(keys[0].key, a, b);
      KeysAreTruthful(keys[1..], a, b);
    }
  }

  /** Every reported change is true of the two values: what it says was there, and what is there now. */
  lemma {:induction false} ReportIsTruthful(before: Value, after: Value)
    requires WellFormed(before) && WellFormed(after)
    ensures AllTruthful(before, after, DiffValues(before, after))
    decreases before, 1
  {
    if before.Obj? && after.Obj? {
      KeysAreTruthful(UnionKeys(before.entries, after.entries), before.entries, after.entries);
    }
  }

  // ----- the order of a report -----

  // The first key in which two paths differ decides; no path begins the other.
  predicate PathLess(p: Path, q: Path) {
    p != [] && q != [] && (Less(p[0], q[0]) || (p[0] == q[0] && PathLess(p[1..], q[1..])))
  }

  ghost predicate Ascending(changes: seq<Change>) {
    forall i, j :: 0 <= i < j < |changes| ==> PathLess(changes[i].path, changes[j].path)
  }

  ghost predicate AllBelow(keys: seq<Entry<()>>, changes: seq<Change>) {
    forall i :: 0 <= i < |changes| ==> changes[i].path != [] && Entry(changes[i].path[0], ()) in keys
  }

  lemma {:induction false} KeyReport(key: Text, a: Entries, b: Entries)
    requires WellFormed(Obj(a)) && WellFormed(Obj(b))
    ensures Ascending(DiffKey(key, a, b)) && AllBelow([Entry(key, ())], DiffKey(key, a, b))
    decreases a, 0
  {
    var x, y := Lookup(a, key), Lookup(b, key);
    if x.Some? && y.Some? {
      LookupIsMember(a, key);
      LookupWellFormed(a, key);
      LookupWellFormed(b, key);
      var changes := DiffValues(x.value, y.value);
      ReportAscends(x.value, y.value);
      UnderAt(key, changes);
      hide DiffValues, Lookup;
      var under := Under(key, changes);
      forall i, j | 0 <= i < j < |under| ensures PathLess(under[i].path, under[j].path) {
        assert under[i].path[1..] == changes[i].path && under[j].path[1..] == changes[j].path;
      }
    }
  }

  lemma {:induction false} KeysReport(keys: seq<Entry<()>>, a: Entries, b: Entries)
    requires WellFormed(Obj(a)) && WellFormed(Obj(b)) && Sorted(keys)
    ensures Ascending(DiffKeys(keys, a, b)) && AllBelow(keys, DiffKeys(keys, a, b))
    decreases a, 1, |keys|
  {
    hide DiffKey, Less;
    if keys != [] {
      var first, rest := DiffKey(keys[0].key, a, b), DiffKeys(keys[1..], a, b);
      KeyReport(keys[0].key, a, b);
      KeysReport(keys[1..], a, b);
      JustKey(keys[0]);
      assert keys == [keys[0]] + keys[1..];
      forall i, j | 0 <= i < |first| && 0 <= j < |rest| ensures PathLess(first[i].path, rest[j].path) {
        var k :| 0 <= k < |keys[1..]| && keys[1..][k] == Entry(rest[j].path[0], ());
        assert keys[k + 1] == keys[1..][k];
      }
    }
  }

  /** Changes are reported in the order of their paths, key by key, so no path is reported twice. */
  lemma {:induction false} ReportAscends(before: Value, after: Value)
    requires WellFormed(before) && WellFormed(after)
    ensures Ascending(DiffValues(before, after))
    decreases before, 1
  {
    if before.Obj? && after.Obj? {
      UnionIsSorted(before.entries, after.entries);
      KeysReport(UnionKeys(before.entries, after.entries), before.entries, after.entries);
    }
  }

  lemma UnionIsSorted(a: Entries, b: Entries)
    requires DistinctKeys(a) && DistinctKeys(b)
    ensures Sorted(UnionKeys(a, b))
  {
    UnionHas(a, b);
    var all := Marks(a) + OnlyNew(Marks(b), Marks(a));
    OnlyNewHas(Marks(b), Marks(a));
    forall i, j | 0 <= i < j < |all| ensures all[i].key != all[j].key {
      if i < |a| <= j { assert all[j] in OnlyNew(Marks(b), Marks(a)) && all[i] in Marks(a); }
    }
    SortSorts(all);
  }
}
