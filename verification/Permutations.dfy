/** What stays the same when a list is permuted. */
module Permutations {
  function Map<A, B>(f: A -> B, s: seq<A>): seq<B> {
    seq(|s|, i requires 0 <= i < |s| => f(s[i]))
  }

  function Sum(s: seq<nat>): nat {
    if s == [] then 0 else Sum(s[..|s| - 1]) + s[|s| - 1]
  }

  function Without<A>(s: seq<A>, k: nat): seq<A>
    requires k < |s|
  {
    s[..k] + s[k + 1..]
  }

  lemma PullOut<A>(s: seq<A>, k: nat)
    requires k < |s|
    ensures multiset(s) == multiset(Without(s, k)) + multiset{s[k]}
  {
    assert s == s[..k] + [s[k]] + s[k + 1..];
  }

  // Where a permutation has the last element of a list, and what is left of both without it.
  lemma MatchLast<A>(a: seq<A>, b: seq<A>) returns (k: nat)
    requires a != [] && multiset(a) == multiset(b)
    ensures k < |b| && b[k] == a[|a| - 1] && multiset(Without(b, k)) == multiset(a[..|a| - 1])
  {
    var n := |a| - 1;
    assert a[n] in multiset(b);
    k :| 0 <= k < |b| && b[k] == a[n];
    PullOut(b, k);
    PullOut(a, n);
    assert Without(a, n) == a[..n];
    assert multiset(Without(b, k)) == multiset(b) - multiset{b[k]};
    assert multiset(a[..n]) == multiset(a) - multiset{a[n]};
  }

  lemma MapWithout<A, B>(f: A -> B, s: seq<A>, k: nat)
    requires k < |s|
    ensures multiset(Map(f, s)) == multiset(Map(f, Without(s, k))) + multiset{f(s[k])}
  {
    PullOut(Map(f, s), k);
    assert Without(Map(f, s), k) == Map(f, Without(s, k));
  }

  lemma {:induction false} MapOfPermutation<A, B>(f: A -> B, a: seq<A>, b: seq<A>)
    requires multiset(a) == multiset(b)
    ensures multiset(Map(f, a)) == multiset(Map(f, b))
    decreases |a|
  {
    assert |multiset(a)| == |multiset(b)|;
    if a != [] {
      var n := |a| - 1;
      var k := MatchLast(a, b);
      MapOfPermutation(f, a[..n], Without(b, k));
      MapWithout(f, b, k);
      MapWithout(f, a, n);
      assert Without(a, n) == a[..n];
    }
  }

  lemma {:induction false} SumWithout(s: seq<nat>, k: nat)
    requires k < |s|
    ensures Sum(s) == Sum(Without(s, k)) + s[k]
  {
    var n := |s| - 1;
    if k == n {
      assert Without(s, k) == s[..n];
    } else {
      SumWithout(s[..n], k);
      assert Without(s, k)[..n - 1] == Without(s[..n], k);
      assert Without(s, k)[n - 1] == s[n];
    }
  }

  lemma {:induction false} SumOfPermutation(a: seq<nat>, b: seq<nat>)
    requires multiset(a) == multiset(b)
    ensures Sum(a) == Sum(b)
    decreases |a|
  {
    assert |multiset(a)| == |multiset(b)|;
    if a != [] {
      var k := MatchLast(a, b);
      SumOfPermutation(a[..|a| - 1], Without(b, k));
      SumWithout(b, k);
    }
  }

  ghost predicate Distinct<A>(s: seq<A>) {
    forall i, j :: 0 <= i < j < |s| ==> s[i] != s[j]
  }

  lemma {:induction false} DistinctByCount<A>(s: seq<A>)
    ensures Distinct(s) <==> forall x :: x in multiset(s) ==> multiset(s)[x] == 1
  {
    if s != [] {
      var n := |s| - 1;
      PullOut(s, n);
      assert Without(s, n) == s[..n];
      DistinctByCount(s[..n]);
      if Distinct(s) {
        assert s[n] !in s[..n];
      }
      if forall x :: x in multiset(s) ==> multiset(s)[x] == 1 {
        assert multiset(s)[s[n]] == 1;
        assert s[n] !in multiset(s[..n]);
        forall i | 0 <= i < n ensures s[i] != s[n] {
          assert s[..n][i] in multiset(s[..n]);
        }
        forall x | x in multiset(s[..n]) ensures multiset(s[..n])[x] == 1 {
          assert x in multiset(s);
        }
        assert forall i :: 0 <= i < n ==> s[..n][i] == s[i];
      }
    }
  }
}
