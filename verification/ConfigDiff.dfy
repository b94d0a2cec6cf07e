/**
 * The structural difference of two configurations (packages/core/src/config.ts): what
 * diffValues reports, what its changes do when they are applied, and how it relates to the
 * canonical form a configuration is hashed in.
 */
module ConfigDiff {
  import opened Wrappers
  import opened TextOrder
  import opened CanonicalJson

  type Entries = seq<Entry<Value>>

  // A path is the list of keys that leads to a value.
  datatype Change =
    | Added(path: seq<Text>, after: Value)
    | Removed(path: seq<Text>, before: Value)
    | Changed(path: seq<Text>, before: Value, after: Value)

  function Under(key: Text, changes: seq<Change>): seq<Change> {
    if changes == [] then [] else [changes[0].(path := [key] + changes[0].path)] + Under(key, changes[1..])
  }

  // ----- the difference -----

  // The keys of an object, as a sortable list.
  function Marks(entries: Entries): seq<Entry<()>> {
    seq(|entries|, i requires 0 <= i < |entries| => Entry(entries[i].key, ()))
  }

  function OnlyNew(marks: seq<Entry<()>>, known: seq<Entry<()>>): seq<Entry<()>> {
    if marks == [] then []
    else (if marks[0] in known then [] else [marks[0]]) + OnlyNew(marks[1..], known)
  }

  // The keys of both objects, each once, sorted.
  function UnionKeys(a: Entries, b: Entries): seq<Entry<()>> {
    SortEntries(Marks(a) + OnlyNew(Marks(b), Marks(a)))
  }

  // Objects are compared key by key, in whatever order they have their keys; arrays by their
  // JSON text; anything else as it is. Paths are relative to the two values.
  function DiffValues(before: Value, after: Value): seq<Change>
    decreases before, 1
  {
    match (before, after)
    case (Obj(a), Obj(b)) => DiffKeys(UnionKeys(a, b), a, b)
    case (Arr(_), Arr(_)) => if Write(before) == Write(after) then [] else [Changed([], before, after)]
    case _ => if before == after then [] else [Changed([], before, after)]
  }

  function DiffKeys(keys: seq<Entry<()>>, a: Entries, b: Entries): seq<Change>
    decreases a, 1, |keys|
  {
    if keys == [] then [] else DiffKey(keys[0].key, a, b) + DiffKeys(keys[1..], a, b)
  }

  function DiffKey(key: Text, a: Entries, b: Entries): seq<Change>
    decreases a, 0
  {
    var x, y := Lookup(a, key), Lookup(b, key);
    if x.None? then (if y.None? then [] else [Added([key], y.value)])
    else if y.None? then [Removed([key], x.value)]
    else LookupIsMember(a, key); Under(key, DiffValues(x.value, y.value))
  }

  ghost predicate HasKey<V>(entries: seq<Entry<V>>, key: Text) {
    exists i :: 0 <= i < |entries| && entries[i].key == key
  }

  lemma {:induction false} LookupIsMember(entries: Entries, key: Text)
    requires Lookup(entries, key).Some?
    ensures Entry(key, Lookup(entries, key).value) in entries
    ensures Lookup(entries, key).value < Obj(entries)
  {
    var n := |entries| - 1;
    if entries[n].key != key {
      LookupIsMember(entries[..n], key);
    }
  }

  lemma LookupHasKey(entries: Entries, key: Text)
    ensures Lookup(entries, key).Some? <==> HasKey(entries, key)
  {
    if Lookup(entries, key).Some? { LookupIsMember(entries, key); }
    if !HasKey(entries, key) { LookupMissing(entries, key); } else { KeyIsFound(entries, key); }
  }

  lemma {:induction false} KeyIsFound(entries: Entries, key: Text)
    requires HasKey(entries, key)
    ensures Lookup(entries, key).Some?
  {
    var n := |entries| - 1;
    if entries[n].key != key {
      var i :| 0 <= i < |entries| && entries[i].key == key;
      assert entries[..n][i].key == key;
      KeyIsFound(entries[..n], key);
    }
  }

  lemma LookupWellFormed(entries: Entries, key: Text)
    requires WellFormed(Obj(entries)) && Lookup(entries, key).Some?
    ensures WellFormed(Lookup(entries, key).value)
  {
    LookupIsMember(entries, key);
  }

  lemma {:induction false} OnlyNewHas(marks: seq<Entry<()>>, known: seq<Entry<()>>)
    requires DistinctKeys(marks)
    ensures DistinctKeys(OnlyNew(marks, known))
    ensures forall m :: m in OnlyNew(marks, known) <==> m in marks && m !in known
  {
    if marks != [] {
      OnlyNewHas(marks[1..], known);
      var rest := OnlyNew(marks[1..], known);
      assert marks == [marks[0]] + marks[1..];
      forall i | 0 <= i < |rest| ensures rest[i].key != marks[0].key {
        assert rest[i] in marks[1..];
      }
    }
  }

  lemma UnionHas(a: Entries, b: Entries)
    requires DistinctKeys(a) && DistinctKeys(b)
    ensures DistinctKeys(UnionKeys(a, b))
    ensures forall k :: Entry(k, ()) in UnionKeys(a, b) <==> HasKey(a, k) || HasKey(b, k)
  {
    var x, y := Marks(a), Marks(b);
    OnlyNewHas(y, x);
    var all := x + OnlyNew(y, x);
    forall i, j | 0 <= i < j < |all| ensures all[i].key != all[j].key {
      if i < |x| <= j { assert all[j] in OnlyNew(y, x) && all[i] in x; }
    }
    SortSorts(all);
    SortMembers(all);
    SortedIsDistinct(SortEntries(all));
    forall k ensures Entry(k, ()) in all <==> HasKey(a, k) || HasKey(b, k) {
      MarksHas(a, k);
      MarksHas(b, k);
    }
  }

  lemma MarksHas(a: Entries, k: Text)
    ensures Entry(k, ()) in Marks(a) <==> HasKey(a, k)
  {
    if HasKey(a, k) {
      var i :| 0 <= i < |a| && a[i].key == k;
      assert Marks(a)[i] == Entry(k, ());
    }
  }

  // ----- applying changes -----

  function Delete(entries: Entries, key: Text): Entries {
    if entries == [] then []
    else
      var n := |entries| - 1;
      Delete(entries[..n], key) + if entries[n].key == key then [] else [entries[n]]
  }

  function Set(entries: Entries, key: Text, value: Value): Entries {
    Delete(entries, key) + [Entry(key, value)]
  }

  function Patch(v: Value, c: Change): Value
    decreases |c.path|
  {
    if c.path == [] then (if c.Removed? then Null else c.after)
    else if !v.Obj? then v
    else if |c.path| == 1 then
      Obj(if c.Removed? then Delete(v.entries, c.path[0]) else Set(v.entries, c.path[0], c.after))
    else
      var inner := Lookup(v.entries, c.path[0]);
      if inner.None? then v else Obj(Set(v.entries, c.path[0], Patch(inner.value, c.(path := c.path[1..]))))
  }

  function PatchAll(v: Value, changes: seq<Change>): Value
    decreases |changes|
  {
    if changes == [] then v else PatchAll(Patch(v, changes[0]), changes[1..])
  }

  lemma {:induction false} PatchAllConcat(v: Value, a: seq<Change>, b: seq<Change>)
    ensures PatchAll(v, a + b) == PatchAll(PatchAll(v, a), b)
    decreases |a|
  {
    hide Patch;
    if a == [] {
      assert a + b == b;
    } else {
      assert (a + b)[1..] == a[1..] + b;
      PatchAllConcat(Patch(v, a[0]), a[1..], b);
    }
  }

  lemma {:induction false} DeleteKeys(entries: Entries, key: Text)
    requires DistinctKeys(entries)
    ensures DistinctKeys(Delete(entries, key)) && !HasKey(Delete(entries, key), key)
    ensures forall k :: HasKey(Delete(entries, key), k) ==> HasKey(entries, k)
  {
    if entries != [] {
      var n := |entries| - 1;
      var front := entries[..n];
      DeleteKeys(front, key);
      var d := Delete(front, key);
      forall k | HasKey(d, k) ensures HasKey(entries, k) && k != entries[n].key {
        var i :| 0 <= i < |front| && front[i].key == k;
        assert entries[i].key == k;
      }
      forall i | 0 <= i < |d| ensures d[i].key != entries[n].key {
        assert HasKey(d, d[i].key);
      }
    }
  }

  lemma {:induction false} DeleteLookup(entries: Entries, key: Text, other: Text)
    ensures Lookup(Delete(entries, key), other) == if other == key then None else Lookup(entries, other)
  {
    if entries != [] {
      var n := |entries| - 1;
      DeleteLookup(entries[..n], key, other);
      var d := Delete(entries[..n], key);
      if entries[n].key == key {
        assert d + [] == d;
      } else {
        LookupLast(d, entries[n], other);
      }
    }
  }

  lemma LookupLast(entries: Entries, last: Entry<Value>, key: Text)
    ensures Lookup(entries + [last], key) == if last.key == key then Some(last.value) else Lookup(entries, key)
  {
    assert (entries + [last])[..|entries|] == entries;
  }

  // Objects as functions of their keys: one object is another but for the value at one key.
  ghost predicate ButFor(c: Entries, d: Entries, key: Text, value: Option<Value>) {
    DistinctKeys(d) && forall k :: Lookup(d, k) == if k == key then value else Lookup(c, k)
  }

  lemma DeletesKey(c: Entries, key: Text)
    requires DistinctKeys(c)
    ensures ButFor(c, Delete(c, key), key, None)
  {
    DeleteKeys(c, key);
    forall k ensures Lookup(Delete(c, key), k) == if k == key then None else Lookup(c, k) {
      DeleteLookup(c, key, k);
    }
  }

  lemma SetsKey(c: Entries, key: Text, value: Value)
    requires DistinctKeys(c)
    ensures ButFor(c, Set(c, key, value), key, Some(value))
  {
    DeleteKeys(c, key);
    var d := Delete(c, key);
    forall i | 0 <= i < |d| ensures d[i].key != key {
      assert !HasKey(d, key);
    }
    forall k ensures Lookup(Set(c, key, value), k) == if k == key then Some(value) else Lookup(c, k) {
      DeleteLookup(c, key, k);
      LookupLast(d, Entry(key, value), k);
    }
  }

  // No change takes away the value it is reported for.
  predicate KeepsRoot(changes: seq<Change>) {
    forall i :: 0 <= i < |changes| ==> changes[i].path == [] ==> !changes[i].Removed?
  }

  predicate BelowRoot(changes: seq<Change>) {
    forall i :: 0 <= i < |changes| ==> changes[i].path != []
  }

  lemma {:induction false} UnderIsBelow(key: Text, changes: seq<Change>)
    ensures BelowRoot(Under(key, changes))
  {
    if changes != [] { UnderIsBelow(key, changes[1..]); }
  }

  lemma {:induction false} DiffKeysIsBelow(keys: seq<Entry<()>>, a: Entries, b: Entries)
    ensures BelowRoot(DiffKeys(keys, a, b))
  {
    if keys != [] {
      DiffKeysIsBelow(keys[1..], a, b);
      var key := keys[0].key;
      if Lookup(a, key).Some? && Lookup(b, key).Some? {
        UnderIsBelow(key, DiffValues(Lookup(a, key).value, Lookup(b, key).value));
      }
    }
  }

  lemma DiffKeepsRoot(v: Value, w: Value)
    ensures KeepsRoot(DiffValues(v, w))
  {
    if v.Obj? && w.Obj? { DiffKeysIsBelow(UnionKeys(v.entries, w.entries), v.entries, w.entries); }
  }

  // Changes below a key work on the value at that key, and on nothing else.
  lemma {:induction false} PatchUnder(c: Entries, key: Text, value: Value, changes: seq<Change>) returns (d: Entries)
    requires DistinctKeys(c) && Lookup(c, key) == Some(value) && KeepsRoot(changes)
    ensures PatchAll(Obj(c), Under(key, changes)) == Obj(d)
    ensures ButFor(c, d, key, Some(PatchAll(value, changes)))
    decreases |changes|
  {
    hide Lookup, Delete, Set;
    if changes == [] {
      d := c;
    } else {
      var first := changes[0];
      var here := first.(path := [key] + first.path);
      assert here.(path := here.path[1..]) == first;
      var next := Patch(value, first);
      assert Patch(Obj(c), here) == Obj(Set(c, key, next));
      SetsKey(c, key, next);
      d := PatchUnder(Set(c, key, next), key, next, changes[1..]);
      assert Under(key, changes)[1..] == Under(key, changes[1..]);
    }
  }

  ghost predicate SameOption(x: Option<Value>, y: Option<Value>) {
    (x.None? <==> y.None?) && (x.Some? ==> Same(x.value, y.value))
  }

  lemma SameIsReflexive(v: Value)
    requires WellFormed(v)
    ensures Same(v, v)
  {
    SameCanonical(v, v);
  }

  lemma {:induction false} PatchKey(key: Text, a: Entries, b: Entries, c: Entries)
    returns (d: Entries, value: Option<Value>)
    requires WellFormed(Obj(a)) && WellFormed(Obj(b)) && DistinctKeys(c) && Lookup(c, key) == Lookup(a, key)
    ensures PatchAll(Obj(c), DiffKey(key, a, b)) == Obj(d)
    ensures ButFor(c, d, key, value) && SameOption(value, Lookup(b, key))
    decreases a, 0
  {
    hide Lookup, Delete, Set, Same, DiffValues;
    var x, y := Lookup(a, key), Lookup(b, key);
    value := y;
    if y.Some? { LookupWellFormed(b, key); SameIsReflexive(y.value); }
    if x.None? {
      if y.None? {
        d := c;
      } else {
        SetsKey(c, key, y.value);
        d := Set(c, key, y.value);
      }
    } else if y.None? {
      DeletesKey(c, key);
      d := Delete(c, key);
    } else {
      LookupIsMember(a, key);
      LookupWellFormed(a, key);
      DiffKeepsRoot(x.value, y.value);
      d := PatchUnder(c, key, x.value, DiffValues(x.value, y.value));
      value := Some(PatchAll(x.value, DiffValues(x.value, y.value)));
      PatchRestores(x.value, y.value);
    }
  }

  lemma JustKey(mark: Entry<()>)
    ensures mark == Entry(mark.key, ())
  {
    match mark.value
    case () =>
  }

  lemma {:induction false} PatchKeys(keys: seq<Entry<()>>, a: Entries, b: Entries, c: Entries) returns (d: Entries)
    requires WellFormed(Obj(a)) && WellFormed(Obj(b)) && DistinctKeys(c) && DistinctKeys(keys)
    requires forall i :: 0 <= i < |keys| ==> Lookup(c, keys[i].key) == Lookup(a, keys[i].key)
    ensures PatchAll(Obj(c), DiffKeys(keys, a, b)) == Obj(d) && DistinctKeys(d)
    ensures forall k :: if Entry(k, ()) in keys then SameOption(Lookup(d, k), Lookup(b, k))
        else Lookup(d, k) == Lookup(c, k)
    decreases a, 1, |keys|
  {
    hide Lookup, SameOption, DiffKey, Patch;
    if keys == [] {
      d := c;
    } else {
      var key := keys[0].key;
      var e, value := PatchKey(key, a, b, c);
      d := PatchKeys(keys[1..], a, b, e);
      PatchAllConcat(Obj(c), DiffKey(key, a, b), DiffKeys(keys[1..], a, b));
      JustKey(keys[0]);
      assert keys == [keys[0]] + keys[1..] && keys[0] == Entry(key, ());
      assert forall k :: Entry(k, ()) in keys <==> k == key || Entry(k, ()) in keys[1..];
      assert Entry(key, ()) !in keys[1..];
    }
  }

  ghost function KeysOf(entries: Entries): set<Text> {
    set e | e in entries :: e.key
  }

  lemma KeysHas(entries: Entries, key: Text)
    ensures key in KeysOf(entries) <==> HasKey(entries, key)
  {
    if HasKey(entries, key) {
      var i :| 0 <= i < |entries| && entries[i].key == key;
      assert entries[i] in entries;
    }
  }

  lemma {:induction false} KeysCount(entries: Entries)
    requires DistinctKeys(entries)
    ensures |KeysOf(entries)| == |entries|
  {
    if entries != [] {
      var n := |entries| - 1;
      KeysCount(entries[..n]);
      KeysHas(entries[..n], entries[n].key);
      assert entries == entries[..n] + [entries[n]];
      assert KeysOf(entries) == KeysOf(entries[..n]) + {entries[n].key};
    }
  }

  // Objects with the same values under the same keys are the same.
  lemma SameByLookup(a: Entries, b: Entries)
    requires DistinctKeys(a) && DistinctKeys(b) && forall k :: SameOption(Lookup(a, k), Lookup(b, k))
    ensures Same(Obj(a), Obj(b))
  {
    KeysCount(a);
    KeysCount(b);
    forall k ensures k in KeysOf(a) <==> k in KeysOf(b) {
      LookupHasKey(a, k);
      LookupHasKey(b, k);
      KeysHas(a, k);
      KeysHas(b, k);
      assert SameOption(Lookup(a, k), Lookup(b, k));
    }
    assert KeysOf(a) == KeysOf(b);
    forall i | 0 <= i < |a| ensures Found(a[i], b) {
      LookupFound(a, i);
      assert SameOption(Lookup(a, a[i].key), Lookup(b, a[i].key));
      LookupIsMember(b, a[i].key);
    }
  }

  /** Applying every reported change to the old value gives the new one, up to key order. */
  lemma {:induction false} PatchRestores(before: Value, after: Value)
    requires WellFormed(before) && WellFormed(after)
    ensures Same(PatchAll(before, DiffValues(before, after)), after)
    decreases before, 1
  {
    if before.Obj? && after.Obj? {
      var a, b := before.entries, after.entries;
      UnionHas(a, b);
      var d := PatchKeys(UnionKeys(a, b), a, b, a);
      forall k ensures SameOption(Lookup(d, k), Lookup(b, k)) {
        LookupHasKey(a, k);
        LookupHasKey(b, k);
      }
      SameByLookup(d, b);
    } else {
      SameIsReflexive(after);
      if before.Arr? && after.Arr? && Write(before) == Write(after) {
        ParseUndoesWrite(before);
        ParseUndoesWrite(after);
      }
    }
  }

  /** An empty difference means equal canonical text, hence equal hashes. */
  lemma UnchangedMeansSameHash(before: Value, after: Value)
    requires WellFormed(before) && WellFormed(after) && DiffValues(before, after) == []
    ensures CanonicalJsonValue(before) == CanonicalJsonValue(after)
  {
    PatchRestores(before, after);
    CanonicalIsUnambiguous(before, after);
  }

  // ----- values that no schema has put in order -----

  // No object in it has two keys to reorder.
  ghost predicate Rigid(v: Value)
    decreases v
  {
    match v
    case Arr(items) => forall i :: 0 <= i < |items| ==> Rigid(items[i])
    case Obj(entries) => |entries| < 2 && forall i :: 0 <= i < |entries| ==> Rigid(entries[i].value)
    case _ => true
  }

  // No array in it holds, at any depth, an object with two keys or more.
  ghost predicate RigidArrays(v: Value)
    decreases v
  {
    match v
    case Arr(_) => Rigid(v)
    case Obj(entries) => forall i :: 0 <= i < |entries| ==> RigidArrays(entries[i].value)
    case _ => true
  }

  lemma {:induction false} RigidIsAlone(v: Value, w: Value)
    requires Rigid(v) && Same(v, w)
    ensures v == w
    decreases v
  {
    match (v, w)
    case (Arr(a), Arr(b)) =>
      forall i | 0 <= i < |a| ensures a[i] == b[i] { RigidIsAlone(a[i], b[i]); }
    case (Obj(a), Obj(b)) =>
      if |a| == 1 {
        assert Found(a[0], b);
        RigidIsAlone(a[0].value, b[0].value);
      }
    case _ =>
  }

  lemma {:induction false} NoChangesInKeys(keys: seq<Entry<()>>, a: Entries, b: Entries)
    requires forall k :: DiffKey(k, a, b) == []
    ensures DiffKeys(keys, a, b) == []
  {
    if keys != [] { NoChangesInKeys(keys[1..], a, b); }
  }

  lemma {:induction false} SameIsUnchanged(v: Value, w: Value)
    requires WellFormed(v) && WellFormed(w) && RigidArrays(v) && Same(v, w)
    ensures DiffValues(v, w) == []
    decreases v
  {
    match (v, w)
    case (Arr(_), Arr(_)) => RigidIsAlone(v, w);
    case (Obj(a), Obj(b)) =>
      forall k ensures DiffKey(k, a, b) == [] {
        SameAtKey(a, b, k);
        if Lookup(a, k).Some? {
          LookupIsMember(a, k);
          LookupWellFormed(a, k);
          LookupWellFormed(b, k);
          SameIsUnchanged(Lookup(a, k).value, Lookup(b, k).value);
        }
      }
      NoChangesInKeys(UnionKeys(a, b), a, b);
    case _ =>
  }

  // The same objects have the same values under the same keys.
  lemma SameAtKey(a: Entries, b: Entries, key: Text)
    requires WellFormed(Obj(a)) && WellFormed(Obj(b)) && Same(Obj(a), Obj(b))
    ensures SameOption(Lookup(a, key), Lookup(b, key))
  {
    LookupHasKey(a, key);
    LookupHasKey(b, key);
    if HasKey(a, key) {
      LookupIsMember(a, key);
      var i :| 0 <= i < |a| && a[i] == Entry(key, Lookup(a, key).value);
      assert Found(a[i], b);
      var j :| 0 <= j < |b| && b[j].key == key && Same(a[i].value, b[j].value);
      LookupFound(b, j);
    } else if HasKey(b, key) {
      SameKeys(a, b, key);
    }
  }

  lemma SameKeys(a: Entries, b: Entries, key: Text)
    requires WellFormed(Obj(a)) && WellFormed(Obj(b)) && Same(Obj(a), Obj(b)) && HasKey(b, key)
    ensures HasKey(a, key)
  {
    SameCanonical(Obj(a), Obj(b));
    SameCanonical(Obj(b), Obj(a));
    var j :| 0 <= j < |b| && b[j].key == key;
    assert Found(b[j], a);
  }

  // Whatever holds an object with two keys can be written in another order.
  lemma {:induction false} Reordered(v: Value) returns (w: Value)
    requires WellFormed(v) && !Rigid(v)
    ensures WellFormed(w) && Same(v, w) && v != w && (v.Arr? <==> w.Arr?)
    decreases v
  {
    match v
    case Arr(items) =>
      var i :| 0 <= i < |items| && !Rigid(items[i]);
      var x := Reordered(items[i]);
      w := Arr(items[i := x]);
      assert w.items[i] == x;
      forall k | 0 <= k < |items| ensures Same(items[k], w.items[k]) {
        SameIsReflexive(items[k]);
      }
    case Obj(entries) =>
      if |entries| >= 2 {
        w := Obj([entries[1], entries[0]] + entries[2..]);
        assert w.entries[0] != entries[0];
        forall k | 0 <= k < |entries| ensures Found(entries[k], w.entries) {
          SameIsReflexive(entries[k].value);
          var j := if k == 0 then 1 else if k == 1 then 0 else k;
          assert w.entries[j] == entries[k];
        }
      } else {
        var x := Reordered(entries[0].value);
        w := Obj([Entry(entries[0].key, x)]);
        assert w.entries[0].value == x;
      }
  }

  lemma {:induction false} FindsChange(keys: seq<Entry<()>>, key: Text, a: Entries, b: Entries)
    requires Entry(key, ()) in keys && DiffKey(key, a, b) != []
    ensures DiffKeys(keys, a, b) != []
  {
    hide DiffKey;
    if keys[0].key != key {
      assert keys == [keys[0]] + keys[1..] && keys[0] != Entry(key, ());
      FindsChange(keys[1..], key, a, b);
    }
  }

  lemma {:induction false} HashMissesReorder(v: Value) returns (w: Value)
    requires WellFormed(v) && !RigidArrays(v)
    ensures WellFormed(w) && Same(v, w) && DiffValues(v, w) != []
    decreases v
  {
    match v
    case Arr(_) =>
      w := Reordered(v);
      ParseUndoesWrite(v);
      ParseUndoesWrite(w);
    case Obj(a) =>
      var i :| 0 <= i < |a| && !RigidArrays(a[i].value);
      var x := HashMissesReorder(a[i].value);
      w := Obj(a[i := Entry(a[i].key, x)]);
      ReplaceValue(a, i, x);
  }

  lemma ReplaceValue(a: Entries, i: nat, x: Value)
    requires WellFormed(Obj(a)) && i < |a| && WellFormed(x)
    requires Same(a[i].value, x) && DiffValues(a[i].value, x) != []
    ensures var b := a[i := Entry(a[i].key, x)];
            WellFormed(Obj(b)) && Same(Obj(a), Obj(b)) && DiffValues(Obj(a), Obj(b)) != []
  {
    hide DiffKey, UnionKeys;
    var b := a[i := Entry(a[i].key, x)];
    KeepsTheRest(a, i, x);
    ChangesKey(a, b, i);
    UnionHas(a, b);
    assert HasKey(a, a[i].key);
    FindsChange(UnionKeys(a, b), a[i].key, a, b);
  }

  lemma KeepsTheRest(a: Entries, i: nat, x: Value)
    requires WellFormed(Obj(a)) && i < |a| && WellFormed(x) && Same(a[i].value, x)
    ensures var b := a[i := Entry(a[i].key, x)]; WellFormed(Obj(b)) && Same(Obj(a), Obj(b))
  {
    var b := a[i := Entry(a[i].key, x)];
    assert forall k :: 0 <= k < |a| ==> b[k].key == a[k].key;
    forall k | 0 <= k < |a| ensures Found(a[k], b) {
      SameIsReflexive(a[k].value);
    }
  }

  lemma ChangesKey(a: Entries, b: Entries, i: nat)
    requires DistinctKeys(a) && DistinctKeys(b) && i < |a| && i < |b| && a[i].key == b[i].key
    requires DiffValues(a[i].value, b[i].value) != []
    ensures DiffKey(a[i].key, a, b) != []
  {
    hide DiffValues, Lookup;
    LookupFound(a, i);
    LookupFound(b, i);
  }

  /**
   * Of values as they are written, before any parsing, "changed" and "the hashes differ" are the
   * same answer for every new value exactly when no array of the old one holds an object with two
   * keys or more: arrays are compared by text that keeps key order, the hash is of text that does
   * not. Parsing removes the difference; see ConfigSchema.
   */
  lemma RawValuesAgreeIffRigid(before: Value)
    requires WellFormed(before)
    ensures RigidArrays(before) <==>
            forall after :: WellFormed(after) ==>
              (DiffValues(before, after) != [] <==> CanonicalJsonValue(before) != CanonicalJsonValue(after))
  {
    hide DiffValues, Same, RigidArrays, CanonicalJsonValue;
    forall after | WellFormed(after) && RigidArrays(before)
      ensures DiffValues(before, after) != [] <==> CanonicalJsonValue(before) != CanonicalJsonValue(after)
    {
      CanonicalIsUnambiguous(before, after);
      if DiffValues(before, after) == [] { UnchangedMeansSameHash(before, after); }
      if Same(before, after) { SameIsUnchanged(before, after); }
    }
    if !RigidArrays(before) {
      var after := HashMissesReorder(before);
      CanonicalIsUnambiguous(before, after);
    }
  }
}
