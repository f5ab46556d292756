/** Sorted key lists: sort.Strings, and the one sorted list of a set of keys. */
module Ordering {
  import opened Text

  // Strictly increasing.
  predicate Increasing(s: seq<string>) {
    forall i, j :: 0 <= i < j < |s| ==> Less(s[i], s[j])
  }

  ghost predicate Elements(s: seq<string>, keys: set<string>) {
    forall k :: k in keys <==> k in s
  }

  // A set of keys has only one increasing list.
  lemma {:induction false} IncreasingUnique(s: seq<string>, t: seq<string>, keys: set<string>)
    requires Increasing(s) && Elements(s, keys) && Increasing(t) && Elements(t, keys)
    ensures s == t
  {
    if s == [] {
      if t != [] { NotEmpty(t, keys); }
    } else {
      assert s[0] in keys;
      var k :| 0 <= k < |t| && t[k] == s[0];
      FirstIsLeast(s, t, keys);
      FirstIsLeast(t, s, keys);
      LessTotal(s[0], t[0]);
      var rest := keys - {s[0]};
      RestElements(s, keys);
      RestElements(t, keys);
      IncreasingUnique(s[1..], t[1..], rest);
      assert s == [s[0]] + s[1..] && t == [t[0]] + t[1..];
    }
  }

  lemma NotEmpty(t: seq<string>, keys: set<string>)
    requires t != [] && Elements(t, keys)
    ensures t[0] in keys && exists k :: k in keys
  {
    assert t[0] in keys;
  }

  lemma FirstIsLeast(s: seq<string>, t: seq<string>, keys: set<string>)
    requires Increasing(s) && Elements(s, keys) && Elements(t, keys) && s != [] && t != []
    ensures !Less(t[0], s[0])
  {
    assert t[0] in keys && t[0] in s;
    var k :| 0 <= k < |s| && s[k] == t[0];
    LessTotal(s[0], t[0]);
  }

  lemma RestElements(s: seq<string>, keys: set<string>)
    requires s != [] && Increasing(s) && Elements(s, keys)
    ensures Increasing(s[1..]) && Elements(s[1..], keys - {s[0]})
  {
    forall k ensures k in keys - {s[0]} <==> k in s[1..] {
      assert k in s <==> k == s[0] || k in s[1..];
      if s[0] in s[1..] {
        var i :| 0 <= i < |s[1..]| && s[1..][i] == s[0];
        assert s[i + 1] == s[0];
        LessTotal(s[0], s[0]);
      }
    }
  }

  // Where a new key goes, and what putting it there keeps.
  function Insert(s: seq<string>, x: string): (r: seq<string>)
    ensures forall k :: k in r <==> k in s || k == x
  {
    if s == [] then [x]
    else if Less(x, s[0]) then [x] + s
    else
      assert s == [s[0]] + s[1..];
      [s[0]] + Insert(s[1..], x)
  }

  lemma {:induction false} InsertIncreasing(s: seq<string>, x: string)
    requires Increasing(s) && x !in s
    ensures Increasing(Insert(s, x))
  {
    if s != [] {
      LessTotal(x, s[0]);
      if Less(x, s[0]) {
        forall i | 0 <= i < |s| ensures Less(x, s[i]) { if i > 0 { LessTransitive(x, s[0], s[i]); } }
      } else {
        InsertIncreasing(s[1..], x);
        var r := Insert(s[1..], x);
        forall i | 0 <= i < |r| ensures Less(s[0], r[i]) {
          assert r[i] in r;
          if r[i] != x { var k :| 0 <= k < |s[1..]| && s[1..][k] == r[i]; assert s[k + 1] == r[i]; }
        }
      }
    }
  }

  // The keys of a map, sorted: whatever order the map is walked in, the list is the same.
  method SortedKeys(keys: set<string>) returns (s: seq<string>)
    ensures Increasing(s) && Elements(s, keys)
  {
    s := [];
    var todo := keys;
    while todo != {}
      invariant todo <= keys
      invariant Increasing(s) && Elements(s, keys - todo)
      decreases todo
    {
      var k :| k in todo;
      InsertIncreasing(s, k);
      s, todo := Insert(s, k), todo - {k};
    }
  }

  // That list.
  ghost function Sorted(keys: set<string>): (s: seq<string>)
    ensures Increasing(s) && Elements(s, keys)
  {
    SortedExists(keys);
    var s :| Increasing(s) && Elements(s, keys);
    s
  }

  lemma {:induction false} SortedExists(keys: set<string>)
    ensures exists s :: Increasing(s) && Elements(s, keys)
  {
    if keys == {} {
      assert Increasing([]) && Elements([], keys);
    } else {
      var k :| k in keys;
      SortedExists(keys - {k});
      var s :| Increasing(s) && Elements(s, keys - {k});
      InsertIncreasing(s, k);
      assert Elements(Insert(s, k), keys);
    }
  }
}
