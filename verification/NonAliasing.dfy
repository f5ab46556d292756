/** What a caller can do to a registry through everything it holds: nothing. A provider is registered;
    then, in any order and number, the caller overwrites its adapter, everything it shares with it and
    everything the registry ever handed out, other providers are registered, the registry is frozen,
    and the stored values are read again. Every read returns what was captured. */
module NonAliasing {
  import opened Wrappers
  import opened Ordering
  import opened Provider
  import opened Store
  import opened RegistryModel
  import opened Snapshots
  import opened RegistryHeap

  datatype Action =
    | Overwrite
    | RegisterAnother
    | RegisterAnotherSet
    | FreezeIt
    | ReadDescriptor
    | ReadTestScopes
    | ReadOperationScopes(key: string)
    | ReadAllDescriptors
    | ReadListed(i: nat)

  // What a reading action saw.
  datatype Sight =
    | Nothing
    | OneDescriptor(descriptor: Descriptor)
    | TestScopes(scopes: Option<Scopes>)
    | OperationScopes(key: string, scopes: Option<Scopes>)
    | AllDescriptors(descriptors: seq<Descriptor>)
    | ListedDescriptor(i: nat, descriptor: Descriptor)

  // It is what was captured: e at the registration, es when the adapters were listed.
  ghost predicate AsCaptured(s: Sight, e: Entry, es: seq<Entry>) {
    match s
    case Nothing => true
    case OneDescriptor(d) => d == e.descriptor
    case TestScopes(scopes) => scopes == e.testScopes
    case OperationScopes(key, scopes) =>
      scopes == if key in e.operationScopes then Some(e.operationScopes[key]) else None
    case AllDescriptors(ds) => e.descriptor in ds
    case ListedDescriptor(i, d) => i < |es| && d == es[i].descriptor
  }

  // Each action is answered through the accessor it names, and every reading action is answered: n
  // adapters were listed.
  predicate Answers(s: Sight, a: Action, n: nat) {
    match a
    case ReadDescriptor => s.OneDescriptor?
    case ReadTestScopes => s.TestScopes?
    case ReadOperationScopes(key) => s.OperationScopes? && s.key == key
    case ReadAllDescriptors => s.AllDescriptors?
    case ReadListed(i) => if i < n then s.ListedDescriptor? && s.i == i else s.Nothing?
    case Overwrite | RegisterAnother | RegisterAnotherSet | FreezeIt => s.Nothing?
  }

  // The registry stores e under the pair of keys, the listed adapters still keep their entries, and
  // nothing the caller holds is owned by the registry.
  ghost predicate Apart(r: Registry, keys: (string, string), e: Entry, fs: seq<FrozenAdapter>, es: seq<Entry>,
                        held: set<object>)
    reads r, r.Repr
  {
    && r.Valid() && r !in held && held !! r.Repr
    && Find(r.Contents(), keys.0, keys.1) == Some(e)
    && Kept(fs, es, r.Repr)
  }

  ghost predicate Kept(fs: seq<FrozenAdapter>, es: seq<Entry>, R: set<object>)
    reads R
  {
    |fs| == |es| && forall i :: 0 <= i < |fs| ==> fs[i].Repr <= R && Keeps(fs[i], es[i])
  }

  // A caller may write anything to the objects it holds: all that is known afterwards is which
  // objects those were.
  method CallerWrites(ghost held: set<object>)
    modifies held
  {}

  // Whatever the heap becomes: as long as the writes stay within what the caller holds, nothing the
  // registry owns has moved.
  twostate lemma WritesStayOutside(r: Registry, keys: (string, string), e: Entry, fs: seq<FrozenAdapter>,
                                   es: seq<Entry>, held: set<object>)
    requires old(Apart(r, keys, e, fs, es, held))
    requires forall o: object :: old(allocated(o)) && o !in held ==> unchanged(o)
    ensures Apart(r, keys, e, fs, es, held)
  {
    hide Kept, AllKeep, Find;
    assert unchanged(r) && unchanged(r.Repr);
    assert Apart(r, keys, e, fs, es, held) == old(Apart(r, keys, e, fs, es, held));
  }

  // Another caller's adapter, of any value.
  method SomeAdapter() returns (q: Adapter)
    ensures fresh(q) && fresh(q.Repr) && q.Valid()
  {
    var fields, secrets, operations := new FieldRef[0], new SecretRef[0], new Operation[0];
    var d := DescriptorRef("", "", "", Manual, fields, secrets, operations);
    ghost var objects: set<object> := {fields};
    objects := objects + {secrets} + {operations};
    q := new Adapter(Capabilities(false, false, false, false), d, ScopeBook(null, false, map[]), objects);
  }

  lemma StillFound(s: State<Entry>, t: State<Entry>, keys: (string, string), e: Entry)
    requires Grows(s, t) && Find(s, keys.0, keys.1) == Some(e)
    ensures Find(t, keys.0, keys.1) == Some(e)
  {}

  lemma RegistrationsGrow(s: State<Entry>, items: seq<Checked<Entry>>, item: Checked<Entry>)
    ensures Grows(s, RegisterOne(s, item).0) && Grows(s, RegisterSet(s, items).0)
  {}

  lemma ListedIsFound(s: State<Entry>, keys: (string, string), e: Entry)
    requires Find(s, keys.0, keys.1) == Some(e)
    ensures e in Listing(s.entries)
  {
    var key := ProviderIdentity(keys.0, keys.1);
    var all := Sorted(s.entries.Keys);
    assert key in all;
    var i :| 0 <= i < |all| && all[i] == key;
    assert Listing(s.entries)[i] == e;
  }

  // ----- One action

  method Act(r: Registry, keys: (string, string), a: Action, fs: seq<FrozenAdapter>,
             ghost e: Entry, ghost es: seq<Entry>, ghost held: set<object>)
    returns (sight: Sight, ghost holding: set<object>)
    requires Apart(r, keys, e, fs, es, held)
    modifies r, held
    ensures Apart(r, keys, e, fs, es, holding) && held <= holding && fresh(holding - held)
    ensures AsCaptured(sight, e, es) && Answers(sight, a, |fs|)
  {
    hide AsCaptured, Apart;
    sight, holding := Nothing, held;
    ReadsNothing(e, es);
    match a
    case Overwrite => OverwriteAll(r, keys, fs, e, es, held);
    case RegisterAnother => holding := RegisterOther(r, keys, fs, false, e, es, held);
    case RegisterAnotherSet => holding := RegisterOther(r, keys, fs, true, e, es, held);
    case FreezeIt => FreezeNow(r, keys, fs, e, es, held);
    case ReadDescriptor => sight, holding := LookUpDescriptor(r, keys, fs, e, es, held);
    case ReadTestScopes => sight, holding := LookUpTestScopes(r, keys, fs, e, es, held);
    case ReadOperationScopes(key) => sight, holding := LookUpOperationScopes(r, keys, key, fs, e, es, held);
    case ReadAllDescriptors => sight, holding := LookUpAll(r, keys, fs, e, es, held);
    case ReadListed(i) =>
      if i < |fs| {
        sight, holding := ReadOneListed(r, keys, i, fs, e, es, held);
      }
  }

  lemma ReadsNothing(e: Entry, es: seq<Entry>)
    ensures AsCaptured(Nothing, e, es)
  {}

  method OverwriteAll(r: Registry, keys: (string, string), fs: seq<FrozenAdapter>,
                      ghost e: Entry, ghost es: seq<Entry>, ghost held: set<object>)
    requires Apart(r, keys, e, fs, es, held)
    modifies held
    ensures Apart(r, keys, e, fs, es, held)
  {
    hide Kept, AllKeep, Find;
    CallerWrites(held);
    assert Apart(r, keys, e, fs, es, held) == old(Apart(r, keys, e, fs, es, held));
  }

  // Either way of registering takes over fresh objects only and removes or replaces nothing.
  method RegisterSome(r: Registry, q: Adapter, asSet: bool)
    requires r.Valid() && q.Valid()
    modifies r
    ensures r.Valid() && old(r.Repr) <= r.Repr && fresh(r.Repr - old(r.Repr)) && Grows(old(r.Contents()), r.Contents())
  {
    hide Admit, AdmitAll, AllKeep, Keeps, Gather, Commit, Grows, Store.RegisterSet, RegisterOne;
    ghost var c := Some(q.Read());
    RegistrationsGrow(r.Contents(), AdmitAll([c]), Admit(c));
    if asSet {
      var err := r.RegisterProviderSet([q], [c]);
    } else {
      var err := r.Register(q, c);
    }
  }

  method RegisterOther(r: Registry, keys: (string, string), fs: seq<FrozenAdapter>, asSet: bool,
                       ghost e: Entry, ghost es: seq<Entry>, ghost held: set<object>)
    returns (ghost holding: set<object>)
    requires Apart(r, keys, e, fs, es, held)
    modifies r
    ensures Apart(r, keys, e, fs, es, holding) && held <= holding && fresh(holding - held)
  {
    hide Kept, AllKeep, Find, Grows;
    var q := SomeAdapter();
    holding := held + {q} + q.Repr;
    RegisterSome(r, q, asSet);
    StillFound(old(r.Contents()), r.Contents(), keys, e);
    assert Kept(fs, es, old(r.Repr)) == old(Kept(fs, es, r.Repr));
    KeptInMore(fs, es, old(r.Repr), r.Repr);
  }

  lemma KeptInMore(fs: seq<FrozenAdapter>, es: seq<Entry>, R: set<object>, P: set<object>)
    requires Kept(fs, es, R) && R <= P
    ensures Kept(fs, es, P)
  {}

  method FreezeNow(r: Registry, keys: (string, string), fs: seq<FrozenAdapter>,
                   ghost e: Entry, ghost es: seq<Entry>, ghost held: set<object>)
    requires Apart(r, keys, e, fs, es, held)
    modifies r
    ensures Apart(r, keys, e, fs, es, held)
  {
    r.Freeze();
  }

  method LookUpDescriptor(r: Registry, keys: (string, string), fs: seq<FrozenAdapter>,
                          ghost e: Entry, ghost es: seq<Entry>, ghost held: set<object>)
    returns (sight: Sight, ghost holding: set<object>)
    requires Apart(r, keys, e, fs, es, held)
    ensures Apart(r, keys, e, fs, es, holding) && held <= holding && fresh(holding - held)
    ensures AsCaptured(sight, e, es) && Answers(sight, ReadDescriptor, |fs|)
  {
    hide AllKeep, Kept, Find, DescriptorIn, BookIn;
    var f := r.Provider(keys.0, keys.1);
    var d, Q := f.Descriptor();
    sight, holding := OneDescriptor(Snapshots.ReadDescriptor(d, Q)), held + Q;
  }

  method LookUpTestScopes(r: Registry, keys: (string, string), fs: seq<FrozenAdapter>,
                          ghost e: Entry, ghost es: seq<Entry>, ghost held: set<object>)
    returns (sight: Sight, ghost holding: set<object>)
    requires Apart(r, keys, e, fs, es, held)
    ensures Apart(r, keys, e, fs, es, holding) && held <= holding && fresh(holding - held)
    ensures AsCaptured(sight, e, es) && Answers(sight, ReadTestScopes, |fs|)
  {
    hide AllKeep, Kept, Find, DescriptorIn, BookIn;
    var f := r.Provider(keys.0, keys.1);
    var s, declared, Q := f.OAuthConnectionTestScopes();
    sight, holding := TestScopes(if declared then Some(ReadScopes(s, Q)) else None), held + Q;
  }

  method LookUpOperationScopes(r: Registry, keys: (string, string), key: string, fs: seq<FrozenAdapter>,
                               ghost e: Entry, ghost es: seq<Entry>, ghost held: set<object>)
    returns (sight: Sight, ghost holding: set<object>)
    requires Apart(r, keys, e, fs, es, held)
    ensures Apart(r, keys, e, fs, es, holding) && held <= holding && fresh(holding - held)
    ensures AsCaptured(sight, e, es) && Answers(sight, ReadOperationScopes(key), |fs|)
  {
    hide AllKeep, Kept, Find, DescriptorIn, BookIn;
    var f := r.Provider(keys.0, keys.1);
    var s, declared, Q := f.OAuthOperationScopes(key);
    sight, holding := OperationScopes(key, if declared then Some(ReadScopes(s, Q)) else None), held + Q;
  }

  method LookUpAll(r: Registry, keys: (string, string), fs: seq<FrozenAdapter>,
                   ghost e: Entry, ghost es: seq<Entry>, ghost held: set<object>)
    returns (sight: Sight, ghost holding: set<object>)
    requires Apart(r, keys, e, fs, es, held)
    ensures Apart(r, keys, e, fs, es, holding) && held <= holding && fresh(holding - held)
    ensures AsCaptured(sight, e, es) && Answers(sight, ReadAllDescriptors, |fs|)
  {
    hide AllKeep, Kept, Find, DescriptorIn, BookIn;
    ListedIsFound(r.Contents(), keys, e);
    ghost var all := Listing(r.entries);
    var ds, Q := r.Descriptors();
    var read :=
      seq(|ds|, i requires 0 <= i < |ds| && DescriptorIn(ds[i], Q) reads Q => Snapshots.ReadDescriptor(ds[i], Q));
    ghost var i :| 0 <= i < |all| && all[i] == e;
    assert read[i] == e.descriptor;
    sight, holding := AllDescriptors(read), held + Q;
  }

  method ReadOneListed(r: Registry, keys: (string, string), i: nat, fs: seq<FrozenAdapter>,
                       ghost e: Entry, ghost es: seq<Entry>, ghost held: set<object>)
    returns (sight: Sight, ghost holding: set<object>)
    requires Apart(r, keys, e, fs, es, held) && i < |fs|
    ensures Apart(r, keys, e, fs, es, holding) && held <= holding && fresh(holding - held)
    ensures AsCaptured(sight, e, es) && Answers(sight, ReadListed(i), |fs|)
  {
    assert Keeps(fs[i], es[i]);
    var d, Q := fs[i].Descriptor();
    sight, holding := ListedDescriptor(i, Snapshots.ReadDescriptor(d, Q)), held + Q;
  }

  // ----- Any number of them

  lemma RegisteredIsFound(s: State<Entry>, c: Candidate)
    requires RegisterOne(s, Admit(Some(c))).1 == None
    ensures Find(RegisterOne(s, Admit(Some(c))).0, c.descriptor.connectorKey, c.descriptor.providerKey)
            == Some(Snapshot(c))
  {}

  lemma Entered(r: Registry, keys: (string, string), e: Entry, fs: seq<FrozenAdapter>, es: seq<Entry>,
                held: set<object>)
    requires r.Valid() && r !in held && held !! r.Repr && Find(r.Contents(), keys.0, keys.1) == Some(e)
    requires |fs| == |es| && forall i :: 0 <= i < |fs| ==> fs[i].Repr <= r.Repr && Keeps(fs[i], es[i])
    ensures Apart(r, keys, e, fs, es, held)
  {}

  method Enter(r: Registry, p: Adapter, ghost held: set<object>)
    returns (err: Option<Error>, keys: (string, string), fs: seq<FrozenAdapter>, ghost es: seq<Entry>)
    requires r.Valid() && p.Valid() && r !in held && held !! r.Repr
    modifies r
    ensures err == RegisterOne(old(r.Contents()), Admit(Some(old(p.Read())))).1
    ensures err == None ==>
      && keys == (old(p.Read()).descriptor.connectorKey, old(p.Read()).descriptor.providerKey)
      && Apart(r, keys, old(Snapshot(p.Read())), fs, es, held)
      && es == Listing(RegisterOne(old(r.Contents()), Admit(Some(old(p.Read())))).0.entries)
  {
    hide Apart, Listing, Admit, Snapshot, RegisterOne, AllKeep;
    ghost var c := p.Read();
    keys, fs, es := (p.descriptor.connectorKey, p.descriptor.providerKey), [], [];
    err := r.Register(p, Some(c));
    if err == None {
      RegisteredIsFound(old(r.Contents()), c);
      es := Listing(r.entries);
      fs := r.Providers();
      Entered(r, keys, Snapshot(c), fs, es, held);
    }
  }

  // Let everyone act as the script says. What the caller holds grows by whatever it is handed.
  method Play(r: Registry, keys: (string, string), fs: seq<FrozenAdapter>, script: seq<Action>,
              ghost e: Entry, ghost es: seq<Entry>, ghost objects: set<object>)
    returns (sights: seq<Sight>)
    requires Apart(r, keys, e, fs, es, objects) && |fs| == |es|
    modifies r, objects
    ensures |sights| == |script|
    ensures forall k :: 0 <= k < |script| ==> AsCaptured(sights[k], e, es) && Answers(sights[k], script[k], |es|)
    ensures r.Valid() && Find(r.Contents(), keys.0, keys.1) == Some(e)
  {
    hide AsCaptured, Answers, Apart;
    sights := [];
    ghost var held := objects;
    for k := 0 to |script|
      invariant Apart(r, keys, e, fs, es, held) && objects <= held && fresh(held - objects)
      invariant |sights| == k
      invariant forall i :: 0 <= i < k ==> AsCaptured(sights[i], e, es) && Answers(sights[i], script[i], |es|)
    {
      var sight: Sight;
      sight, held := Act(r, keys, script[k], fs, e, es, held);
      sights := sights + [sight];
    }
    StillStored(r, keys, e, fs, es, held);
  }

  lemma StillStored(r: Registry, keys: (string, string), e: Entry, fs: seq<FrozenAdapter>, es: seq<Entry>,
                    held: set<object>)
    requires Apart(r, keys, e, fs, es, held)
    ensures r.Valid() && Find(r.Contents(), keys.0, keys.1) == Some(e)
  {}

  // Register an adapter that belongs, with everything it is made of, to the caller; list the stored
  // adapters; then play the script. objects is all the caller holds at the start. Every sight is the
  // value captured at the registration, or when the adapters were listed, read through the accessor
  // its action names; and the registry still stores what it captured.
  method CallersCannotReachIn(r: Registry, p: Adapter, script: seq<Action>, ghost objects: set<object>)
    returns (err: Option<Error>, sights: seq<Sight>, ghost es: seq<Entry>)
    requires r.Valid() && p.Valid() && {p} + p.Repr <= objects && r !in objects && objects !! r.Repr
    modifies r, objects
    ensures err == RegisterOne(old(r.Contents()), Admit(Some(old(p.Read())))).1
    ensures err == None ==>
      && es == Listing(RegisterOne(old(r.Contents()), Admit(Some(old(p.Read())))).0.entries)
      && |sights| == |script|
      && forall k :: 0 <= k < |script| ==>
           AsCaptured(sights[k], old(Snapshot(p.Read())), es) && Answers(sights[k], script[k], |es|)
    ensures err == None ==>
      && r.Valid()
      && var d := old(p.Read()).descriptor;
         Find(r.Contents(), d.connectorKey, d.providerKey) == Some(old(Snapshot(p.Read())))
  {
    hide AsCaptured, Answers, Apart, Listing, Admit, Snapshot, RegisterOne, Find;
    ghost var e := Snapshot(p.Read());
    var keys, fs;
    err, keys, fs, es := Enter(r, p, objects);
    sights := [];
    if err == None {
      SameLength(r, keys, e, fs, es, objects);
      sights := Play(r, keys, fs, script, e, es, objects);
    }
  }

  lemma SameLength(r: Registry, keys: (string, string), e: Entry, fs: seq<FrozenAdapter>, es: seq<Entry>,
                   held: set<object>)
    requires Apart(r, keys, e, fs, es, held)
    ensures |fs| == |es|
  {}
}
