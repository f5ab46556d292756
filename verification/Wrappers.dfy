/** Optional values, outcomes, the choice of a set element and permutations, shared by every module
    of the model. */
module Wrappers {
  datatype Option<+T> = None | Some(value: T)

  datatype Result<+T, +E> = Success(value: T) | Failure(error: E)

  // Go walks a map in an order of its own choosing: any element may come next.
  method Next<T>(s: set<T>) returns (x: T)
    requires s != {}
    ensures x in s
  {
    x :| x in s;
  }

  lemma TheOnly<T>(s: set<T>) returns (x: T)
    requires |s| == 1
    ensures s == {x}
  {
    assert s != {};
    x :| x in s;
    assert |s - {x}| == 0;
    assert s == {x} + (s - {x});
  }

  lemma OnlyElement<T>(s: set<T>, x: T)
    requires x in s && forall y :: y in s ==> y == x
    ensures s == {x} && |s| == 1
  {
    assert s == {x};
  }

  lemma SubsetSize<T>(a: set<T>, b: set<T>)
    requires a <= b
    ensures |a| <= |b| && (a < b ==> |a| < |b|)
  {
    assert b == a + (b - a);
    assert a < b ==> b - a != {};
  }

  lemma ProductGrows(a: nat, b: nat, n: nat)
    requires a <= b
    ensures a * n <= b * n
  {}

  lemma DropSnoc<T>(s: seq<T>, k: nat)
    requires k < |s|
    ensures s[k..] == s[..|s| - 1][k..] + [s[|s| - 1]]
  {
    var init := s[..|s| - 1];
    assert s == init + [s[|s| - 1]];
  }

  // No two elements share a key.
  predicate DistinctBy<T, K(==)>(s: seq<T>, key: T -> K) {
    forall i, j :: 0 <= i < j < |s| ==> key(s[i]) != key(s[j])
  }

  lemma Occurs<T>(s: seq<T>, t: seq<T>, i: nat) returns (j: nat)
    requires multiset(s) == multiset(t) && i < |s|
    ensures j < |t| && t[j] == s[i]
  {
    assert s[i] in multiset(s) && s[i] in multiset(t);
    j :| 0 <= j < |t| && t[j] == s[i];
  }

  lemma TwoOccurrences<T>(s: seq<T>, i: nat, j: nat)
    requires i < j < |s| && s[i] == s[j]
    ensures multiset(s)[s[i]] >= 2
  {
    assert s == s[..j] + [s[j]] + s[j + 1..];
    assert s[i] == s[..j][i];
    assert s[i] in multiset(s[..j]);
  }

  lemma OneOccurrence<T, K>(s: seq<T>, key: T -> K, k: nat)
    requires k < |s| && DistinctBy(s, key)
    ensures multiset(s)[s[k]] == 1
  {
    assert s == s[..k] + [s[k]] + s[k + 1..];
    assert s[k] !in s[..k] && s[k] !in s[k + 1..];
  }

  // Distinct keys survive any reordering.
  lemma PermutationKeepsDistinct<T, K>(s: seq<T>, t: seq<T>, key: T -> K)
    requires multiset(s) == multiset(t) && DistinctBy(s, key)
    ensures DistinctBy(t, key)
  {
    forall i, j | 0 <= i < j < |t| ensures key(t[i]) != key(t[j]) {
      var k := Occurs(t, s, i);
      var l := Occurs(t, s, j);
      OneOccurrence(s, key, k);
      if k == l { TwoOccurrences(t, i, j); }
      assert k != l;
    }
  }

  function Map<T, U>(f: T -> U, s: seq<T>): (r: seq<U>)
    ensures |r| == |s| && forall i :: 0 <= i < |s| ==> r[i] == f(s[i])
  {
    seq(|s|, i requires 0 <= i < |s| => f(s[i]))
  }

  function Without<T>(s: seq<T>, j: nat): seq<T>
    requires j < |s|
  {
    s[..j] + s[j + 1..]
  }

  lemma WithoutElements<T>(s: seq<T>, j: nat)
    requires j < |s|
    ensures multiset(s) == multiset(Without(s, j)) + multiset{s[j]}
    ensures multiset(Without(s, j)) == multiset(s) - multiset{s[j]}
  {
    assert s == s[..j] + [s[j]] + s[j + 1..];
  }

  lemma MapWithout<T, U>(f: T -> U, s: seq<T>, j: nat)
    requires j < |s|
    ensures Map(f, Without(s, j)) == Without(Map(f, s), j)
  {}

  lemma {:induction false} MapPermutes<T, U>(f: T -> U, s: seq<T>, t: seq<T>)
    requires multiset(s) == multiset(t)
    ensures multiset(Map(f, s)) == multiset(Map(f, t))
    decreases |s|
  {
    assert |s| == |multiset(s)| == |multiset(t)| == |t|;
    if s == [] {
      assert Map(f, s) == Map(f, t);
    } else {
      var j := Occurs(s, t, 0);
      WithoutElements(s, 0);
      WithoutElements(t, j);
      MapPermutes(f, Without(s, 0), Without(t, j));
      MapWithout(f, s, 0);
      MapWithout(f, t, j);
      WithoutElements(Map(f, s), 0);
      WithoutElements(Map(f, t), j);
    }
  }
}
