/** The registry's map with its freeze flag, whatever it stores: one checked entry, a checked batch,
    and how they relate (registry.go, Register and RegisterProviderSet). */
module Store {
  import opened Wrappers

  datatype State<V> = State(frozen: bool, entries: map<string, V>)

  datatype Error = ProviderRequired | InvalidDescriptor | NoReconciler | Frozen | Duplicate

  datatype Keyed<V> = Keyed(key: string, value: V)

  // What the checks before the lock make of one provider.
  type Checked<V> = Result<Keyed<V>, Error>

  // RegisterProviderSet before the lock: in order, the first problem ends it.
  function Gather<V>(items: seq<Checked<V>>): Result<map<string, V>, Error> {
    if items == [] then Success(map[])
    else
      var before, item := Gather(items[..|items| - 1]), items[|items| - 1];
      if before.Failure? then before
      else if item.Failure? then Failure(item.error)
      else if item.value.key in before.value then Failure(Duplicate)
      else Success(before.value[item.value.key := item.value.value])
  }

  lemma {:induction false} GatherFailureSticks<V>(items: seq<Checked<V>>, n: nat)
    requires n <= |items| && Gather(items[..n]).Failure?
    ensures Gather(items) == Gather(items[..n])
    decreases |items|
  {
    if n < |items| {
      var init := items[..|items| - 1];
      assert init[..n] == items[..n];
      GatherFailureSticks(init, n);
    } else {
      assert items[..n] == items;
    }
  }

  lemma GatherStep<V>(items: seq<Checked<V>>, i: nat)
    requires i < |items| && Gather(items[..i]).Success?
    ensures Gather(items[..i + 1]) ==
      if items[i].Failure? then Failure(items[i].error)
      else if items[i].value.key in Gather(items[..i]).value then Failure(Duplicate)
      else Success(Gather(items[..i]).value[items[i].value.key := items[i].value.value])
  {
    assert items[..i + 1][..i] == items[..i];
  }

  // Under the lock: all of the batch or nothing.
  function Commit<V>(s: State<V>, batch: map<string, V>): (State<V>, Option<Error>) {
    if s.frozen then (s, Some(Frozen))
    else if batch.Keys !! s.entries.Keys then (s.(entries := s.entries + batch), None)
    else (s, Some(Duplicate))
  }

  function RegisterOne<V>(s: State<V>, item: Checked<V>): (State<V>, Option<Error>) {
    match item
    case Failure(e) => (s, Some(e))
    case Success(kv) => Commit(s, map[kv.key := kv.value])
  }

  function RegisterSet<V>(s: State<V>, items: seq<Checked<V>>): (State<V>, Option<Error>) {
    match Gather(items)
    case Failure(e) => (s, Some(e))
    case Success(batch) => Commit(s, batch)
  }

  // t holds everything s holds, and nothing more if s was frozen.
  ghost predicate Grows<V>(s: State<V>, t: State<V>) {
    (forall k :: k in s.entries ==> k in t.entries && t.entries[k] == s.entries[k])
    && (s.frozen ==> t == s)
  }

  lemma GrowsTransitive<V>(s: State<V>, t: State<V>, u: State<V>)
    requires Grows(s, t) && Grows(t, u)
    ensures Grows(s, u)
  {}

  // ----- A batch and its members

  // Registering the members one by one, all of them successfully.
  predicate AllRegister<V(==)>(s: State<V>, items: seq<Checked<V>>) {
    items == []
    || var init, item := items[..|items| - 1], items[|items| - 1];
       AllRegister(s, init) && RegisterOne(After(s, init), item).1 == None
  }

  function After<V>(s: State<V>, items: seq<Checked<V>>): State<V> {
    if items == [] then s else RegisterOne(After(s, items[..|items| - 1]), items[|items| - 1]).0
  }

  lemma {:induction false} MembersAndBatch<V>(s: State<V>, items: seq<Checked<V>>)
    ensures AllRegister(s, items) <==>
      items == [] || (!s.frozen && Gather(items).Success? && Gather(items).value.Keys !! s.entries.Keys)
    ensures AllRegister(s, items) ==>
      Gather(items).Success? && After(s, items) == s.(entries := s.entries + Gather(items).value)
  {
    if items == [] {
      assert s.entries + map[] == s.entries;
    } else {
      var init, item := items[..|items| - 1], items[|items| - 1];
      MembersAndBatch(s, init);
      if AllRegister(s, init) && item.Success? {
        var batch := Gather(init).value;
        var one := map[item.value.key := item.value.value];
        assert s.entries + batch + one == s.entries + batch[item.value.key := item.value.value];
      }
    }
  }

  // A batch succeeds exactly when registering its members one by one from the same state all
  // succeeds, with the same result; the one exception is the empty batch on a frozen registry,
  // which the batch call refuses. A refused batch changes nothing.
  lemma {:induction false} BatchIsAllMembers<V>(s: State<V>, items: seq<Checked<V>>)
    ensures (RegisterSet(s, items).1 == None <==> AllRegister(s, items)) <==> !(items == [] && s.frozen)
    ensures RegisterSet(s, items).1 == None ==> RegisterSet(s, items).0 == After(s, items)
    ensures RegisterSet(s, items).1 != None ==> RegisterSet(s, items).0 == s
  {
    MembersAndBatch(s, items);
    if items == [] { assert s.entries + map[] == s.entries; }
  }

  function KeyOf<V>(item: Checked<V>): string {
    if item.Success? then item.value.key else ""
  }

  ghost predicate AllSucceed<V>(items: seq<Checked<V>>) {
    forall i :: 0 <= i < |items| ==> items[i].Success?
  }

  // The batch holds each member under its key and nothing else.
  ghost predicate Holds<V>(batch: map<string, V>, items: seq<Checked<V>>)
    requires AllSucceed(items)
  {
    (forall i :: 0 <= i < |items| ==> KeyOf(items[i]) in batch && batch[KeyOf(items[i])] == items[i].value.value)
    && forall k :: k in batch ==> exists i :: 0 <= i < |items| && KeyOf(items[i]) == k
  }

  // The order-free reading of the loop before the lock.
  lemma {:induction false} GatherMeans<V>(items: seq<Checked<V>>)
    ensures Gather(items).Success? <==> AllSucceed(items) && DistinctBy(items, KeyOf<V>)
    ensures Gather(items).Success? ==> Holds(Gather(items).value, items)
  {
    if items != [] {
      hide Holds, KeyOf, DistinctBy;
      var init, item := items[..|items| - 1], items[|items| - 1];
      GatherMeans(init);
      assert items == init + [item];
      StillGood(init, item);
      if Gather(init).Success? && item.Success? {
        if item.value.key in Gather(init).value {
          KeyTaken(Gather(init).value, init, item);
        } else {
          HoldsExtends(Gather(init).value, init, item);
        }
      }
    }
  }

  lemma StillGood<V>(init: seq<Checked<V>>, item: Checked<V>)
    ensures AllSucceed(init + [item]) ==> AllSucceed(init) && item.Success?
    ensures DistinctBy(init + [item], KeyOf<V>) ==> DistinctBy(init, KeyOf<V>)
  {
    var items := init + [item];
    assert items[|init|] == item && forall i :: 0 <= i < |init| ==> items[i] == init[i];
  }

  lemma KeyTaken<V>(batch: map<string, V>, init: seq<Checked<V>>, item: Checked<V>)
    requires AllSucceed(init) && Holds(batch, init) && item.Success? && item.value.key in batch
    ensures !DistinctBy(init + [item], KeyOf<V>)
  {
    var items := init + [item];
    var i :| 0 <= i < |init| && KeyOf(init[i]) == item.value.key;
    assert KeyOf(items[i]) == KeyOf(items[|init|]);
  }

  lemma HoldsExtends<V>(batch: map<string, V>, items: seq<Checked<V>>, item: Checked<V>)
    requires AllSucceed(items) && Holds(batch, items) && DistinctBy(items, KeyOf<V>)
    requires item.Success? && item.value.key !in batch
    ensures AllSucceed(items + [item]) && DistinctBy(items + [item], KeyOf<V>)
    ensures Holds(batch[item.value.key := item.value.value], items + [item])
  {
    var longer, more := items + [item], batch[item.value.key := item.value.value];
    forall k | k in more ensures exists i :: 0 <= i < |longer| && KeyOf(longer[i]) == k {
      if k in batch {
        var i :| 0 <= i < |items| && KeyOf(items[i]) == k;
        assert KeyOf(longer[i]) == k;
      } else {
        assert KeyOf(longer[|items|]) == k;
      }
    }
  }

  lemma {:induction false} GatherIgnoresOrder<V>(items: seq<Checked<V>>, other: seq<Checked<V>>)
    requires multiset(items) == multiset(other) && Gather(items).Success?
    ensures Gather(other) == Gather(items)
  {
    hide Gather, Holds, KeyOf;
    GatherMeans(items);
    PermutationKeepsDistinct(items, other, KeyOf<V>);
    forall i | 0 <= i < |other| ensures other[i].Success? { var j := Occurs(other, items, i); }
    GatherMeans(other);
    var m, n := Gather(items).value, Gather(other).value;
    HeldElsewhere(m, items, n, other);
    HeldElsewhere(n, other, m, items);
    assert m == n;
  }

  // Whatever a batch holds for some members, a batch for the same members in another order holds too.
  lemma HeldElsewhere<V>(m: map<string, V>, items: seq<Checked<V>>, n: map<string, V>, other: seq<Checked<V>>)
    requires multiset(items) == multiset(other) && AllSucceed(items) && AllSucceed(other)
    requires Holds(m, items) && Holds(n, other)
    ensures forall k :: k in m ==> k in n && n[k] == m[k]
  {
    forall k | k in m ensures k in n && n[k] == m[k] {
      var i :| 0 <= i < |items| && KeyOf(items[i]) == k;
      var j := Occurs(items, other, i);
    }
  }

  // Success and the resulting registry are the same for every order of the batch.
  lemma BatchOrderIrrelevant<V>(s: State<V>, items: seq<Checked<V>>, other: seq<Checked<V>>)
    requires multiset(items) == multiset(other)
    ensures RegisterSet(s, items).0 == RegisterSet(s, other).0
    ensures RegisterSet(s, items).1 == None <==> RegisterSet(s, other).1 == None
  {
    if Gather(items).Success? { GatherIgnoresOrder(items, other); }
    if Gather(other).Success? { GatherIgnoresOrder(other, items); }
  }
}
