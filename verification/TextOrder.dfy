/** JavaScript strings as UTF-16 code units, compared by code unit, and lists sorted by such keys. */
module TextOrder {
  type Unit = u: int | 0 <= u < 0x10000

  type Text = seq<Unit>

  predicate Ascii(s: string) {
    forall i :: 0 <= i < |s| ==> s[i] < '\U{0080}'
  }

  function T(s: string): (t: Text)
    requires Ascii(s)
    ensures |t| == |s| && forall i :: 0 <= i < |s| ==> t[i] == s[i] as int
  {
    seq(|s|, i requires 0 <= i < |s| => s[i] as int)
  }

  // The `<` of JavaScript strings.
  predicate Less(a: Text, b: Text) {
    b != [] && (a == [] || a[0] < b[0] || (a[0] == b[0] && Less(a[1..], b[1..])))
  }

  // After the first k units, which are the same, a has ended or has a smaller unit than b.
  ghost predicate SmallerAt(a: Text, b: Text, k: nat) {
    k <= |a| && k < |b| && a[..k] == b[..k] && (k == |a| || a[k] < b[k])
  }

  // The first unit in which two texts differ decides, and a text that the other begins with is the smaller.
  lemma {:induction false} LessByUnit(a: Text, b: Text)
    ensures Less(a, b) <==> exists k: nat :: SmallerAt(a, b, k)
  {
    forall k: nat | k > 0 && SmallerAt(a, b, k) ensures a[0] == b[0] {
      assert a[..k][0] == b[..k][0];
    }
    if b == [] {
    } else if a == [] || a[0] != b[0] {
      assert SmallerAt(a, b, 0) <==> Less(a, b);
    } else {
      LessByUnit(a[1..], b[1..]);
      forall k: nat ensures SmallerAt(a, b, k) ==> k > 0 && SmallerAt(a[1..], b[1..], k - 1) {
        if SmallerAt(a, b, k) {
          assert a[1..][..k - 1] == a[..k][1..] && b[1..][..k - 1] == b[..k][1..];
        }
      }
      if k: nat :| SmallerAt(a[1..], b[1..], k) {
        assert a[..k + 1] == [a[0]] + a[1..][..k] && b[..k + 1] == [b[0]] + b[1..][..k];
        assert SmallerAt(a, b, k + 1);
      }
    }
  }

  lemma {:induction false} LessIsTotal(a: Text, b: Text)
    ensures Less(a, b) || a == b || Less(b, a)
    ensures !(Less(a, b) && (a == b || Less(b, a)))
  {
    if a != [] && b != [] && a[0] == b[0] {
      LessIsTotal(a[1..], b[1..]);
      if a[1..] == b[1..] { assert a == [a[0]] + a[1..] && b == [b[0]] + b[1..]; }
    }
  }

  lemma {:induction false} LessIsTransitive(a: Text, b: Text, c: Text)
    requires Less(a, b) && Less(b, c)
    ensures Less(a, c)
  {
    if a != [] && a[0] == b[0] && b[0] == c[0] {
      LessIsTransitive(a[1..], b[1..], c[1..]);
    }
  }

  // ----- keyed lists -----

  datatype Entry<+V> = Entry(key: Text, value: V)

  ghost predicate DistinctKeys<V>(entries: seq<Entry<V>>) {
    forall i, j :: 0 <= i < j < |entries| ==> entries[i].key != entries[j].key
  }

  ghost predicate Sorted<V>(entries: seq<Entry<V>>) {
    forall i, j :: 0 <= i < j < |entries| ==> Less(entries[i].key, entries[j].key)
  }

  // Stable insertion by key.
  function InsertEntry<V>(e: Entry<V>, entries: seq<Entry<V>>): seq<Entry<V>> {
    if entries == [] || !Less(entries[0].key, e.key) then [e] + entries
    else [entries[0]] + InsertEntry(e, entries[1..])
  }

  function SortEntries<V>(entries: seq<Entry<V>>): (sorted: seq<Entry<V>>) {
    if entries == [] then [] else InsertEntry(entries[0], SortEntries(entries[1..]))
  }

  lemma {:induction false} InsertMembers<V>(e: Entry<V>, entries: seq<Entry<V>>)
    ensures multiset(InsertEntry(e, entries)) == multiset(entries) + multiset{e}
    ensures |InsertEntry(e, entries)| == |entries| + 1
  {
    if entries != [] && Less(entries[0].key, e.key) {
      InsertMembers(e, entries[1..]);
      assert entries == [entries[0]] + entries[1..];
    }
  }

  lemma {:induction false} InsertSorts<V>(e: Entry<V>, entries: seq<Entry<V>>)
    requires Sorted(entries) && forall x :: x in entries ==> x.key != e.key
    ensures Sorted(InsertEntry(e, entries))
  {
    if entries == [] {
    } else if !Less(entries[0].key, e.key) {
      assert entries[0] in entries;
      LessIsTotal(entries[0].key, e.key);
      forall j | 0 <= j < |entries| ensures Less(e.key, entries[j].key) {
        if j > 0 { LessIsTransitive(e.key, entries[0].key, entries[j].key); }
      }
    } else {
      assert forall j :: 0 < j < |entries| ==> entries[j] == entries[1..][j - 1];
      InsertSorts(e, entries[1..]);
      InsertMembers(e, entries[1..]);
      var rest := InsertEntry(e, entries[1..]);
      forall j | 0 <= j < |rest| ensures Less(entries[0].key, rest[j].key) {
        assert rest[j] in multiset(rest);
        assert rest[j] == e || rest[j] in entries[1..];
      }
    }
  }

  lemma {:induction false} SortMembers<V>(entries: seq<Entry<V>>)
    ensures multiset(SortEntries(entries)) == multiset(entries)
    ensures |SortEntries(entries)| == |entries|
    ensures forall x :: x in SortEntries(entries) <==> x in entries
  {
    hide InsertEntry;
    if entries != [] {
      SortMembers(entries[1..]);
      InsertMembers(entries[0], SortEntries(entries[1..]));
      assert entries == [entries[0]] + entries[1..];
    }
    SameMembers(SortEntries(entries), entries);
  }

  lemma SameMembers<A>(a: seq<A>, b: seq<A>)
    requires multiset(a) == multiset(b)
    ensures |a| == |b| && forall x :: x in a <==> x in b
  {
    assert |multiset(a)| == |multiset(b)|;
    assert forall x :: x in a <==> x in multiset(a);
  }

  lemma {:induction false} SortSorts<V>(entries: seq<Entry<V>>)
    requires DistinctKeys(entries)
    ensures Sorted(SortEntries(entries))
  {
    if entries != [] {
      var rest := entries[1..];
      SortSorts(rest);
      SortMembers(rest);
      forall x | x in SortEntries(rest) ensures x.key != entries[0].key {
        assert x in multiset(SortEntries(rest));
        assert x in multiset(rest);
      }
      InsertSorts(entries[0], SortEntries(entries[1..]));
    }
  }

  lemma SortedIsDistinct<V>(entries: seq<Entry<V>>)
    requires Sorted(entries)
    ensures DistinctKeys(entries)
  {
    forall i, j | 0 <= i < j < |entries| ensures entries[i].key != entries[j].key {
      LessIsTotal(entries[i].key, entries[j].key);
    }
  }

  lemma {:induction false} SortedUnique<V>(a: seq<Entry<V>>, b: seq<Entry<V>>)
    requires Sorted(a) && Sorted(b) && |a| == |b| && forall x :: x in a <==> x in b
    ensures a == b
  {
    if a != [] {
      assert a[0] in a && a[0] in b;
      var j :| 0 <= j < |b| && b[j] == a[0];
      assert b[0] in b && b[0] in a;
      var i :| 0 <= i < |a| && a[i] == b[0];
      if i > 0 || j > 0 { LessIsTotal(a[0].key, b[0].key); }
      assert a[0] == b[0];
      forall x ensures x in a[1..] <==> x in b[1..] {
        SortedTail(a, x);
        SortedTail(b, x);
      }
      SortedUnique(a[1..], b[1..]);
    }
  }

  lemma SortedTail<V>(a: seq<Entry<V>>, x: Entry<V>)
    requires Sorted(a) && a != []
    ensures x in a[1..] <==> x in a && x != a[0]
  {
    SortedIsDistinct(a);
    assert a == [a[0]] + a[1..];
  }

  // Two keyed lists with the same entries sort alike.
  lemma SortIsCanonical<V>(a: seq<Entry<V>>, b: seq<Entry<V>>)
    requires DistinctKeys(a) && DistinctKeys(b) && |a| == |b| && forall x :: x in a <==> x in b
    ensures SortEntries(a) == SortEntries(b)
  {
    SortSorts(a);
    SortSorts(b);
    SortMembers(a);
    SortMembers(b);
    SortedUnique(SortEntries(a), SortEntries(b));
  }

  // ----- lists whose keys may repeat -----

  ghost predicate KeyDetermines<V>(entries: seq<Entry<V>>) {
    forall i, j :: 0 <= i < |entries| && 0 <= j < |entries| && entries[i].key == entries[j].key ==>
        entries[i] == entries[j]
  }

  ghost predicate WeaklySorted<V>(entries: seq<Entry<V>>) {
    forall i, j :: 0 <= i < j < |entries| ==> !Less(entries[j].key, entries[i].key)
  }

  lemma NotLessIsTransitive(a: Text, b: Text, c: Text)
    requires !Less(b, a) && !Less(c, b)
    ensures !Less(c, a)
  {
    LessIsTotal(a, b);
    LessIsTotal(b, c);
    LessIsTotal(a, c);
    if Less(c, a) && Less(a, b) { LessIsTransitive(c, a, b); }
    if Less(c, a) && Less(b, c) { LessIsTransitive(b, c, a); }
  }

  lemma {:induction false} InsertWeaklySorts<V>(e: Entry<V>, entries: seq<Entry<V>>)
    requires WeaklySorted(entries)
    ensures WeaklySorted(InsertEntry(e, entries))
  {
    if entries == [] {
    } else if !Less(entries[0].key, e.key) {
      forall j | 0 <= j < |entries| ensures !Less(entries[j].key, e.key) {
        if j > 0 { NotLessIsTransitive(e.key, entries[0].key, entries[j].key); }
      }
    } else {
      assert forall j :: 0 < j < |entries| ==> entries[j] == entries[1..][j - 1];
      InsertWeaklySorts(e, entries[1..]);
      InsertMembers(e, entries[1..]);
      var rest := InsertEntry(e, entries[1..]);
      LessIsTotal(entries[0].key, e.key);
      forall j | 0 <= j < |rest| ensures !Less(rest[j].key, entries[0].key) {
        assert rest[j] in multiset(rest);
        assert rest[j] == e || rest[j] in entries[1..];
      }
    }
  }

  lemma {:induction false} SortWeaklySorts<V>(entries: seq<Entry<V>>)
    ensures WeaklySorted(SortEntries(entries))
  {
    if entries != [] {
      SortWeaklySorts(entries[1..]);
      InsertWeaklySorts(entries[0], SortEntries(entries[1..]));
    }
  }

  lemma {:induction false} WeaklySortedUnique<V>(a: seq<Entry<V>>, b: seq<Entry<V>>)
    requires WeaklySorted(a) && WeaklySorted(b) && multiset(a) == multiset(b) && KeyDetermines(a)
    ensures a == b
    decreases |a|
  {
    hide Less, WeaklySorted, KeyDetermines;
    SameMembers(a, b);
    if a != [] {
      SameFirst(a, b);
      RestOf(a);
      RestOf(b);
      WeaklySortedUnique(a[1..], b[1..]);
      assert a == [a[0]] + a[1..] && b == [b[0]] + b[1..];
    }
  }

  lemma RestOf<V>(a: seq<Entry<V>>)
    requires a != []
    ensures multiset(a[1..]) == multiset(a) - multiset{a[0]}
    ensures WeaklySorted(a) ==> WeaklySorted(a[1..])
    ensures KeyDetermines(a) ==> KeyDetermines(a[1..])
  {
    hide Less;
    assert a == [a[0]] + a[1..];
  }

  lemma SameFirst<V>(a: seq<Entry<V>>, b: seq<Entry<V>>)
    requires a != [] && b != [] && WeaklySorted(a) && WeaklySorted(b) && multiset(a) == multiset(b) && KeyDetermines(a)
    ensures a[0] == b[0]
  {
    assert a[0] in multiset(b) && b[0] in multiset(a);
    var j :| 0 <= j < |b| && b[j] == a[0];
    var i :| 0 <= i < |a| && a[i] == b[0];
    LessIsTotal(a[0].key, b[0].key);
    LessIsTotal(a[0].key, a[0].key);
  }

  // Permutations of a list whose keys determine its entries sort alike.
  lemma SortOfPermutation<V>(a: seq<Entry<V>>, b: seq<Entry<V>>)
    requires multiset(a) == multiset(b) && KeyDetermines(a)
    ensures SortEntries(a) == SortEntries(b)
  {
    SortWeaklySorts(a);
    SortWeaklySorts(b);
    SortMembers(a);
    SortMembers(b);
    var s := SortEntries(a);
    forall i, j | 0 <= i < |s| && 0 <= j < |s| && s[i].key == s[j].key ensures s[i] == s[j] {
      assert s[i] in multiset(s) && s[j] in multiset(s);
      assert s[i] in a && s[j] in a;
    }
    WeaklySortedUnique(s, SortEntries(b));
  }
}
