/** registry.go on the heap: the registry object, the adapters callers hand in and the frozen
    adapters it keeps. Every method is tied to the value model of RegistryModel and Store. */
module RegistryHeap {
  import opened Wrappers
  import opened Text
  import opened Ordering
  import opened Provider
  import opened Store
  import opened RegistryModel
  import opened Snapshots

  // A caller's adapter: it hands out its own descriptor and scope slices, and may change them at
  // any time. Repr names everything they are made of.
  class Adapter {
    const caps: Capabilities
    var descriptor: DescriptorRef
    var scopes: ScopeBook
    ghost var Repr: set<object>

    ghost predicate Valid()
      reads this, Repr
    {
      DescriptorIn(descriptor, Repr) && BookIn(scopes, Repr)
    }

    constructor (caps: Capabilities, descriptor: DescriptorRef, scopes: ScopeBook, ghost objects: set<object>)
      requires DescriptorIn(descriptor, objects) && BookIn(scopes, objects)
      ensures Valid() && Repr == objects && this.caps == caps && this.descriptor == descriptor && this.scopes == scopes
    {
      this.caps, this.descriptor, this.scopes, Repr := caps, descriptor, scopes, objects;
    }

    // What a registration sees of the adapter at this moment.
    function Read(): Candidate
      requires Valid()
      reads this, Repr
    {
      Candidate(ReadDescriptor(descriptor, Repr), caps, ReadTest(scopes, Repr), ReadOperations(scopes, Repr))
    }
  }

  // The adapter a registry keeps. Its fields never change; the theorem is that nothing behind them
  // does either.
  class FrozenAdapter {
    const descriptor: DescriptorRef
    const wrapper: Wrapper
    const scopes: ScopeBook
    const delegate: Adapter
    ghost const Repr: set<object>

    ghost predicate Valid()
      reads Repr
    {
      DescriptorIn(descriptor, Repr) && BookIn(scopes, Repr)
    }

    ghost function Stored(): Entry
      requires Valid()
      reads Repr
    {
      Entry(ReadDescriptor(descriptor, Repr), wrapper, ReadTest(scopes, Repr), ReadOperations(scopes, Repr))
    }

    constructor (delegate: Adapter, descriptor: DescriptorRef, wrapper: Wrapper, scopes: ScopeBook,
                 ghost objects: set<object>)
      ensures this.delegate == delegate && this.descriptor == descriptor
      ensures this.wrapper == wrapper && this.scopes == scopes
      ensures Repr == objects
    {
      this.delegate, this.descriptor, this.wrapper, this.scopes := delegate, descriptor, wrapper, scopes;
      Repr := objects;
    }

    // Each accessor returns the captured value in objects no one else has.
    method Descriptor() returns (d: DescriptorRef, ghost Q: set<object>)
      requires Valid()
      ensures fresh(Q) && DescriptorIn(d, Q) && ReadDescriptor(d, Q) == old(Stored().descriptor)
    {
      d, Q := CloneProviderDescriptor(descriptor, Repr);
    }

    method OAuthConnectionTestScopes() returns (s: ScopeRef, declared: bool, ghost Q: set<object>)
      requires Valid()
      ensures fresh(Q) && ScopesIn(s, Q) && declared == old(Stored()).testScopes.Some?
      ensures declared ==> ReadScopes(s, Q) == old(Stored()).testScopes.value
    {
      s, Q := CloneScopes(scopes.test, Repr);
      declared := scopes.declared;
    }

    method OAuthOperationScopes(key: string) returns (s: ScopeRef, declared: bool, ghost Q: set<object>)
      requires Valid()
      ensures fresh(Q) && ScopesIn(s, Q) && declared == (key in old(Stored()).operationScopes)
      ensures declared ==> ReadScopes(s, Q) == old(Stored()).operationScopes[key]
    {
      if key !in scopes.operations {
        return null, false, {};
      }
      s, Q := CloneScopes(scopes.operations[key], Repr);
      declared := true;
    }
  }

  // The value read off what a caller passes; None for a nil adapter.
  ghost predicate Reads(p: Adapter?, c: Option<Candidate>)
    reads p, if p == null then {} else p.Repr
  {
    if p == null then c == None else p.Valid() && c == Some(p.Read())
  }

  // f keeps e in the objects it owns.
  ghost predicate Keeps(f: FrozenAdapter, e: Entry)
    reads f.Repr
  {
    f.Valid() && f.Stored() == e
  }

  // freezeAdapter
  method FreezeAdapter(p: Adapter) returns (f: FrozenAdapter)
    requires p.Valid()
    ensures Keeps(f, old(Snapshot(p.Read()))) && fresh(f.Repr) && f.delegate == p
  {
    hide DescriptorIn, BookIn, ReadTest, ReadOperations;
    var d, descriptorQ := CloneProviderDescriptor(p.descriptor, p.Repr);
    var scopes, bookQ := CloneBook(p.descriptor.operations[..], p.scopes, p.Repr);
    ghost var Q := descriptorQ + bookQ;
    DescriptorGrows(d, descriptorQ, Q);
    BookGrows(scopes, bookQ, Q);
    f := new FrozenAdapter(p, d, Wrap(p.caps), scopes, Q);
  }

  lemma DescriptorGrows(d: DescriptorRef, R: set<object>, P: set<object>)
    requires DescriptorIn(d, R) && R <= P
    ensures DescriptorIn(d, P) && ReadDescriptor(d, P) == ReadDescriptor(d, R)
  {
    assert ReadFields(d.fields, P) == ReadFields(d.fields, R);
    assert ReadSecrets(d.secrets, P) == ReadSecrets(d.secrets, R);
  }

  lemma BookGrows(b: ScopeBook, R: set<object>, P: set<object>)
    requires BookIn(b, R) && R <= P
    ensures BookIn(b, P) && ReadTest(b, P) == ReadTest(b, R) && ReadOperations(b, P) == ReadOperations(b, R)
  {
    ScopesGrow(b.test, R, P);
    ScopeMapGrows(b.operations, R, P);
  }

  // ----- The registry

  // Each adapter of the map keeps its entry in objects of R.
  ghost predicate AllKeep(ps: map<string, FrozenAdapter>, es: map<string, Entry>, R: set<object>)
    reads R
  {
    ps.Keys == es.Keys && forall k :: k in ps ==> ps[k].Repr <= R && Keeps(ps[k], es[k])
  }

  lemma Together(ps: map<string, FrozenAdapter>, es: map<string, Entry>, R: set<object>,
                 qs: map<string, FrozenAdapter>, fs: map<string, Entry>, P: set<object>)
    requires AllKeep(ps, es, R) && AllKeep(qs, fs, P)
    ensures AllKeep(ps + qs, es + fs, R + P)
  {}

  lemma KeptAlone(key: string, f: FrozenAdapter, e: Entry)
    requires Keeps(f, e)
    ensures AllKeep(map[key := f], map[key := e], f.Repr)
  {}

  lemma SameKeys(ps: map<string, FrozenAdapter>, es: map<string, Entry>, R: set<object>)
    requires AllKeep(ps, es, R)
    ensures ps.Keys == es.Keys
  {}

  // The checks before the lock. Nothing is stored yet.
  method Precheck(p: Adapter?, ghost c: Option<Candidate>) returns (err: Option<Error>, key: string)
    requires Reads(p, c)
    ensures err.Some? ==> Admit(c) == Failure(err.value)
    ensures err == None ==> p != null && Admit(c) == Success(Keyed(key, Snapshot(c.value)))
  {
    err, key := None, "";
    if p == null {
      return Some(ProviderRequired), "";
    }
    var descriptor := ReadDescriptor(p.descriptor, p.Repr);
    if !ValidDescriptor(descriptor) {
      return Some(InvalidDescriptor), "";
    }
    if NeedsReconciler(descriptor) && !p.caps.reconciler {
      return Some(NoReconciler), "";
    }
    key := Identity(descriptor);
  }

  // Every member of a batch reads as its item says.
  ghost predicate Admits(p: Adapter?, item: Checked<Entry>)
    reads p, if p == null then {} else p.Repr
  {
    exists c :: Reads(p, c) && Admit(c) == item
  }

  // The loop of RegisterProviderSet before the lock: check, freeze and collect every member.
  method Collect(ps: seq<Adapter?>, ghost items: seq<Checked<Entry>>)
    returns (r: Result<map<string, FrozenAdapter>, Error>, ghost values: map<string, Entry>, ghost owned: set<object>)
    requires |ps| == |items| && forall i :: 0 <= i < |ps| ==> Admits(ps[i], items[i])
    ensures r.Failure? ==> Gather(items) == Failure(r.error)
    ensures r.Success? ==> Gather(items) == Success(values) && AllKeep(r.value, values, owned) && fresh(owned)
  {
    hide Keeps, Admits;
    var validated: map<string, FrozenAdapter> := map[];
    values, owned := map[], {};
    for i := 0 to |ps|
      invariant Gather(items[..i]) == Success(values)
      invariant AllKeep(validated, values, owned) && fresh(owned)
      invariant forall k :: 0 <= k < |ps| ==> Admits(ps[k], items[k])
    {
      GatherStep(items, i);
      var err: Option<Error>;
      err, validated, values, owned := CollectOne(ps[i], items[i], validated, values, owned);
      if err.Some? {
        GatherFailureSticks(items, i + 1);
        return Failure(err.value), values, owned;
      }
    }
    assert items[..|items|] == items;
    r := Success(validated);
  }

  // One turn of that loop.
  method CollectOne(p: Adapter?, ghost item: Checked<Entry>,
                    validated: map<string, FrozenAdapter>, ghost values: map<string, Entry>, ghost owned: set<object>)
    returns (err: Option<Error>, validated': map<string, FrozenAdapter>,
             ghost values': map<string, Entry>, ghost owned': set<object>)
    requires Admits(p, item) && AllKeep(validated, values, owned)
    ensures AllKeep(validated', values', owned') && fresh(owned' - owned)
    ensures item.Failure? ==> err == Some(item.error)
    ensures item.Success? && item.value.key in values ==> err == Some(Duplicate)
    ensures item.Success? && item.value.key !in values ==>
      err == None && values' == values[item.value.key := item.value.value]
  {
    hide Keeps, Admit, AllKeep;
    ghost var c :| Reads(p, c) && Admit(c) == item;
    validated', values', owned' := validated, values, owned;
    var key: string;
    err, key := Precheck(p, c);
    if err == None {
      SameKeys(validated, values, owned);
      if key in validated {
        err := Some(Duplicate);
      } else {
        validated', values', owned' := FreezeInto(p, c.value, key, validated, values, owned);
      }
    }
  }

  method FreezeInto(p: Adapter, ghost c: Candidate, key: string,
                    validated: map<string, FrozenAdapter>, ghost values: map<string, Entry>, ghost owned: set<object>)
    returns (validated': map<string, FrozenAdapter>, ghost values': map<string, Entry>, ghost owned': set<object>)
    requires p.Valid() && c == p.Read() && AllKeep(validated, values, owned)
    ensures AllKeep(validated', values', owned') && fresh(owned' - owned) && values' == values[key := Snapshot(c)]
  {
    hide Keeps, AllKeep, Snapshot;
    var f := FreezeAdapter(p);
    ghost var e := Snapshot(c);
    KeptAlone(key, f, e);
    Together(validated, values, owned, map[key := f], map[key := e], f.Repr);
    validated', values', owned' := validated + map[key := f], values + map[key := e], owned + f.Repr;
    assert values' == values[key := e];
  }

  class Registry {
    var frozen: bool
    var providers: map<string, FrozenAdapter>
    ghost var entries: map<string, Entry>
    ghost var Repr: set<object>

    ghost predicate Valid()
      reads this, Repr
    {
      this !in Repr && AllKeep(providers, entries, Repr)
    }

    // The value this registry stands for.
    ghost function Contents(): State<Entry>
      reads this
    {
      State(frozen, entries)
    }

    constructor ()
      ensures Valid() && fresh(Repr) && Contents() == State(false, map[])
    {
      frozen, providers, entries, Repr := false, map[], map[], {};
    }

    // r.providers[key] = f for every pair of the batch
    method Add(batch: map<string, FrozenAdapter>, ghost values: map<string, Entry>, ghost owned: set<object>)
      requires Valid() && this !in owned && AllKeep(batch, values, owned)
      modifies `providers, `entries, `Repr
      ensures Valid() && Repr == old(Repr) + owned
      ensures Contents() == State(frozen, old(entries) + values)
    {
      Together(providers, entries, Repr, batch, values, owned);
      SetAll(providers + batch, entries + values, Repr + owned);
    }

    method SetAll(ps: map<string, FrozenAdapter>, ghost es: map<string, Entry>, ghost R: set<object>)
      requires AllKeep(ps, es, R) && this !in R
      modifies `providers, `entries, `Repr
      ensures Valid() && providers == ps && entries == es && Repr == R
    {
      hide AllKeep;
      providers, entries, Repr := ps, es, R;
      assert AllKeep(ps, es, R) == old(AllKeep(ps, es, R));
    }

    method Register(p: Adapter?, ghost c: Option<Candidate>) returns (err: Option<Error>)
      requires Valid() && Reads(p, c)
      modifies `providers, `entries, `Repr
      ensures Valid() && fresh(Repr - old(Repr)) && old(Repr) <= Repr
      ensures (Contents(), err) == RegisterOne(old(Contents()), Admit(c))
    {
      var key: string;
      err, key := Precheck(p, c);
      if err == None {
        err := CommitOne(p, c.value, key);
      }
    }

    // The locked section of Register.
    method CommitOne(p: Adapter, ghost c: Candidate, key: string) returns (err: Option<Error>)
      requires Valid() && p.Valid() && c == p.Read()
      modifies `providers, `entries, `Repr
      ensures Valid() && fresh(Repr - old(Repr)) && old(Repr) <= Repr
      ensures (Contents(), err) == Commit(old(Contents()), map[key := Snapshot(c)])
    {
      if frozen {
        return Some(Frozen);
      }
      if key in providers {
        return Some(Duplicate);
      }
      var f := FreezeAdapter(p);
      Add(map[key := f], map[key := Snapshot(c)], f.Repr);
      return None;
    }

    method RegisterProviderSet(ps: seq<Adapter?>, ghost cs: seq<Option<Candidate>>) returns (err: Option<Error>)
      requires Valid() && |ps| == |cs| && forall i :: 0 <= i < |ps| ==> Reads(ps[i], cs[i])
      modifies `providers, `entries, `Repr
      ensures Valid() && fresh(Repr - old(Repr)) && old(Repr) <= Repr
      ensures (Contents(), err) == Store.RegisterSet(old(Contents()), AdmitAll(cs))
    {
      var collected, values, owned := Collect(ps, AdmitAll(cs));
      if collected.Failure? {
        return Some(collected.error);
      }
      err := CommitAll(collected.value, values, owned);
    }

    // The locked section of RegisterProviderSet: look at every key first, then store them all.
    method CommitAll(batch: map<string, FrozenAdapter>, ghost values: map<string, Entry>, ghost owned: set<object>)
      returns (err: Option<Error>)
      requires Valid() && AllKeep(batch, values, owned) && this !in owned
      modifies `providers, `entries, `Repr
      ensures Valid() && old(Repr) <= Repr <= old(Repr) + owned
      ensures (Contents(), err) == Commit(old(Contents()), values)
    {
      if frozen {
        return Some(Frozen);
      }
      var todo := batch.Keys;
      while todo != {}
        invariant todo <= batch.Keys && (batch.Keys - todo) !! providers.Keys
        decreases todo
      {
        var key :| key in todo;
        if key in providers {
          return Some(Duplicate);
        }
        todo := todo - {key};
      }
      Add(batch, values, owned);
      return None;
    }

    method Freeze()
      requires Valid()
      modifies `frozen
      ensures Valid() && Contents() == old(Contents()).(frozen := true)
    {
      frozen := true;
    }

    method Provider(connectorKey: string, providerKey: string) returns (f: FrozenAdapter?)
      requires Valid()
      ensures f == null <==> Find(Contents(), connectorKey, providerKey) == None
      ensures f != null ==>
        f.Repr <= Repr && exists e :: Keeps(f, e) && Find(Contents(), connectorKey, providerKey) == Some(e)
    {
      var key := ProviderIdentity(connectorKey, providerKey);
      if key !in providers {
        return null;
      }
      assert Keeps(providers[key], entries[key]);
      return providers[key];
    }

    // The stored adapters in increasing order of their keys, whatever order the map is walked in.
    method Providers() returns (fs: seq<FrozenAdapter>)
      requires Valid()
      ensures |fs| == |Listing(entries)|
      ensures forall i :: 0 <= i < |fs| ==> fs[i].Repr <= Repr && Keeps(fs[i], Listing(entries)[i])
      ensures forall i :: 0 <= i < |fs| ==> var k := Sorted(entries.Keys)[i]; k in providers && fs[i] == providers[k]
    {
      hide Keeps, Increasing, Elements;
      var keys := SortedKeys(providers.Keys);
      IncreasingUnique(keys, Sorted(entries.Keys), entries.Keys);
      fs := [];
      for i := 0 to |keys|
        invariant |fs| == i && forall k :: 0 <= k < i ==> keys[k] in providers && fs[k] == providers[keys[k]]
      {
        assert keys[i] in keys;
        fs := fs + [providers[keys[i]]];
      }
    }

    // A fresh copy of every stored descriptor, in the same order.
    method Descriptors() returns (ds: seq<DescriptorRef>, ghost Q: set<object>)
      requires Valid()
      ensures fresh(Q) && |ds| == |Listing(entries)|
      ensures forall i :: 0 <= i < |ds| ==>
        DescriptorIn(ds[i], Q) && ReadDescriptor(ds[i], Q) == Listing(entries)[i].descriptor
    {
      var fs := Providers();
      ds, Q := CopyDescriptors(fs, Listing(entries));
    }
  }

  method CopyDescriptors(fs: seq<FrozenAdapter>, ghost es: seq<Entry>)
    returns (ds: seq<DescriptorRef>, ghost Q: set<object>)
    requires |fs| == |es| && forall i :: 0 <= i < |fs| ==> Keeps(fs[i], es[i])
    ensures fresh(Q) && |ds| == |fs|
    ensures forall i :: 0 <= i < |ds| ==> DescriptorIn(ds[i], Q) && ReadDescriptor(ds[i], Q) == es[i].descriptor
  {
    ds, Q := [], {};
    for i := 0 to |fs|
      invariant fresh(Q) && |ds| == i
      invariant forall k :: 0 <= k < |fs| ==> Keeps(fs[k], es[k])
      invariant forall k :: 0 <= k < i ==> DescriptorIn(ds[k], Q) && ReadDescriptor(ds[k], Q) == es[k].descriptor
    {
      var d, more := fs[i].Descriptor();
      forall k | 0 <= k < i
        ensures DescriptorIn(ds[k], Q + more) && ReadDescriptor(ds[k], Q + more) == ReadDescriptor(ds[k], Q)
      {
        DescriptorGrows(ds[k], Q, Q + more);
      }
      DescriptorGrows(d, more, Q + more);
      ds, Q := ds + [d], Q + more;
    }
  }
}
