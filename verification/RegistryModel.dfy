/** registry.go on values: what a call checks before the lock and what it does under it. */
module RegistryModel {
  import opened Wrappers
  import opened Text
  import opened Ordering
  import opened Provider
  import opened Store

  // ----- Capabilities and the frozen wrappers

  datatype Capabilities = Capabilities(validator: bool, tester: bool, verifier: bool, reconciler: bool)

  datatype Wrapper =
    | Plain | ValidatorOnly | TesterOnly | VerifierOnly | ReconcilerOnly
    | ValidatorTester | ValidatorVerifier | ValidatorReconciler
    | TesterVerifier | TesterReconciler | VerifierReconciler
    | ValidatorTesterVerifier | ValidatorTesterReconciler | ValidatorVerifierReconciler
    | AllOptional | AllCapabilities

  // The interfaces a wrapper struct embeds.
  function Offers(w: Wrapper): Capabilities {
    match w
    case Plain => Capabilities(false, false, false, false)
    case ValidatorOnly => Capabilities(true, false, false, false)
    case TesterOnly => Capabilities(false, true, false, false)
    case VerifierOnly => Capabilities(false, false, true, false)
    case ReconcilerOnly => Capabilities(false, false, false, true)
    case ValidatorTester => Capabilities(true, true, false, false)
    case ValidatorVerifier => Capabilities(true, false, true, false)
    case ValidatorReconciler => Capabilities(true, false, false, true)
    case TesterVerifier => Capabilities(false, true, true, false)
    case TesterReconciler => Capabilities(false, true, false, true)
    case VerifierReconciler => Capabilities(false, false, true, true)
    case ValidatorTesterVerifier => Capabilities(true, true, true, false)
    case ValidatorTesterReconciler => Capabilities(true, true, false, true)
    case ValidatorVerifierReconciler => Capabilities(true, false, true, true)
    case AllOptional => Capabilities(false, true, true, true)
    case AllCapabilities => Capabilities(true, true, true, true)
  }

  // The switch of freezeAdapter, in its order: the wrapper offers what the adapter implements, no
  // more and no less.
  function Wrap(c: Capabilities): (w: Wrapper)
    ensures Offers(w) == c
  {
    if c.validator && c.tester && c.verifier && c.reconciler then AllCapabilities
    else if c.validator && c.tester && c.verifier then ValidatorTesterVerifier
    else if c.validator && c.tester && c.reconciler then ValidatorTesterReconciler
    else if c.validator && c.verifier && c.reconciler then ValidatorVerifierReconciler
    else if c.validator && c.tester then ValidatorTester
    else if c.validator && c.verifier then ValidatorVerifier
    else if c.validator && c.reconciler then ValidatorReconciler
    else if c.validator then ValidatorOnly
    else if c.tester && c.verifier && c.reconciler then AllOptional
    else if c.tester && c.verifier then TesterVerifier
    else if c.tester && c.reconciler then TesterReconciler
    else if c.verifier && c.reconciler then VerifierReconciler
    else if c.tester then TesterOnly
    else if c.verifier then VerifierOnly
    else if c.reconciler then ReconcilerOnly
    else Plain
  }

  // ----- Calls

  // OAuth scopes: alternatives of scopes, when declared.
  type Scopes = seq<seq<string>>

  // What a registration reads off an adapter.
  datatype Candidate = Candidate(
    descriptor: Descriptor, caps: Capabilities, testScopes: Option<Scopes>, operationScopes: map<string, Scopes>)

  // What a registry stores for it.
  datatype Entry = Entry(
    descriptor: Descriptor, wrapper: Wrapper, testScopes: Option<Scopes>, operationScopes: map<string, Scopes>)

  function OperationKeys(ops: seq<Operation>): set<string> { set o | o in ops :: o.key }

  // The declared scopes of the listed operations.
  function Pick(ops: seq<Operation>, m: map<string, Scopes>): map<string, Scopes> {
    map k | k in m && k in OperationKeys(ops) :: m[k]
  }

  // freezeAdapter
  function Snapshot(c: Candidate): Entry {
    Entry(c.descriptor, Wrap(c.caps), c.testScopes, Pick(c.descriptor.operations, c.operationScopes))
  }

  function ProviderIdentity(connectorKey: string, providerKey: string): string {
    TrimSpace(connectorKey) + ":" + TrimSpace(providerKey)
  }

  function Identity(d: Descriptor): string { ProviderIdentity(d.connectorKey, d.providerKey) }

  // Everything done before the lock for one provider; None is a nil adapter.
  function Admit(c: Option<Candidate>): Checked<Entry> {
    if c == None then Failure(ProviderRequired)
    else if !ValidDescriptor(c.value.descriptor) then Failure(InvalidDescriptor)
    else if NeedsReconciler(c.value.descriptor) && !c.value.caps.reconciler then Failure(NoReconciler)
    else Success(Keyed(Identity(c.value.descriptor), Snapshot(c.value)))
  }

  function AdmitAll(cs: seq<Option<Candidate>>): seq<Checked<Entry>> { Map(Admit, cs) }

  // ----- Calls

  datatype Call =
    | Register(provider: Option<Candidate>)
    | RegisterProviderSet(providers: seq<Option<Candidate>>)
    | Freeze
    | IsFrozen
    | Lookup(connectorKey: string, providerKey: string)
    | List

  datatype Answer =
    | Done | Failed(error: Error) | Flag(frozen: bool) | Found(entry: Option<Entry>) | Listed(entries: seq<Entry>)

  // What a call brings to the lock: its refusal, a checked batch, or just itself.
  datatype Prepared = Rejected(error: Error) | Batch(entries: map<string, Entry>) | Direct

  function Prepare(call: Call): Prepared {
    match call
    case Register(c) =>
      (match Admit(c) case Failure(e) => Rejected(e) case Success(kv) => Batch(map[kv.key := kv.value]))
    case RegisterProviderSet(cs) =>
      (match Gather(AdmitAll(cs)) case Failure(e) => Rejected(e) case Success(m) => Batch(m))
    case _ => Direct
  }

  // The section under the lock: a checked batch is committed, the other calls act directly.
  ghost function Locked(s: State<Entry>, call: Call, p: Prepared): (State<Entry>, Answer) {
    if p.Batch? then Answered(Commit(s, p.entries))
    else match call
      case Register(_) | RegisterProviderSet(_) => (s, Done)
      case Freeze => (s.(frozen := true), Done)
      case IsFrozen => (s, Flag(s.frozen))
      case Lookup(c, k) => (s, Found(Find(s, c, k)))
      case List => (s, Listed(Listing(s.entries)))
  }

  function Find(s: State<Entry>, connectorKey: string, providerKey: string): Option<Entry> {
    var key := ProviderIdentity(connectorKey, providerKey);
    if key in s.entries then Some(s.entries[key]) else None
  }

  function Answered(r: (State<Entry>, Option<Error>)): (State<Entry>, Answer) {
    (r.0, if r.1 == None then Done else Failed(r.1.value))
  }

  // One whole call with nothing in between.
  ghost function Atomic(s: State<Entry>, call: Call): (State<Entry>, Answer) {
    var p := Prepare(call);
    if p.Rejected? then (s, Failed(p.error)) else Locked(s, call, p)
  }

  // The entries of the map in increasing order of their keys.
  ghost function Listing(m: map<string, Entry>): seq<Entry> {
    var keys := Sorted(m.Keys);
    seq(|keys|, i requires 0 <= i < |keys| => assert keys[i] in keys; m[keys[i]])
  }

  // ----- Laws of one call

  // Entries are only ever added, a frozen registry stays as it is, and a failed call does nothing.
  lemma AtomicGrows(s: State<Entry>, call: Call)
    ensures Grows(s, Atomic(s, call).0)
    ensures Atomic(s, call).1.Failed? ==> Atomic(s, call).0 == s
  {}

  // The batch laws of the store, read as registry calls.
  lemma {:induction false} SetIsAllMembers(s: State<Entry>, cs: seq<Option<Candidate>>)
    ensures var (t, a) := Atomic(s, RegisterProviderSet(cs));
      && ((a == Done <==> AllRegister(s, AdmitAll(cs))) <==> !(cs == [] && s.frozen))
      && (a == Done ==> t == After(s, AdmitAll(cs)))
      && (a != Done ==> t == s)
  {
    BatchIsAllMembers(s, AdmitAll(cs));
  }

  lemma SetOrderIrrelevant(s: State<Entry>, cs: seq<Option<Candidate>>, ds: seq<Option<Candidate>>)
    requires multiset(cs) == multiset(ds)
    ensures Atomic(s, RegisterProviderSet(cs)).0 == Atomic(s, RegisterProviderSet(ds)).0
    ensures Atomic(s, RegisterProviderSet(cs)).1 == Done <==> Atomic(s, RegisterProviderSet(ds)).1 == Done
  {
    MapPermutes(Admit, cs, ds);
    BatchOrderIrrelevant(s, AdmitAll(cs), AdmitAll(ds));
  }

  // The other calls: a freeze sets the flag and nothing else, and the readers change nothing. A lookup
  // answers with what lies under the trimmed pair of keys, and a listing with everything stored, in
  // the one increasing order of the keys.
  lemma ReadsExactly(s: State<Entry>, connectorKey: string, providerKey: string, keys: seq<string>)
    requires Increasing(keys) && (forall k :: k in keys <==> k in s.entries)
    ensures Atomic(s, Freeze) == (State(true, s.entries), Done)
    ensures Atomic(s, IsFrozen) == (s, Flag(s.frozen))
    ensures var key := TrimSpace(connectorKey) + ":" + TrimSpace(providerKey);
      var found := if key in s.entries then Some(s.entries[key]) else None;
      Atomic(s, Lookup(connectorKey, providerKey)) == (s, Found(found))
    ensures exists es: seq<Entry> ::
      && Atomic(s, List) == (s, Listed(es)) && |es| == |keys|
      && forall i :: 0 <= i < |keys| ==> keys[i] in s.entries && es[i] == s.entries[keys[i]]
  {
    hide TrimSpace;
    IncreasingUnique(keys, Sorted(s.entries.Keys), s.entries.Keys);
    assert Atomic(s, List) == (s, Listed(Listing(s.entries)));
  }

  // ----- Which providers are registered, and why not

  // Some operation is to be looked up at the provider after an unknown outcome.
  predicate AsksForLookup(d: Descriptor) {
    exists i :: 0 <= i < |d.operations| && d.operations[i].reliability.reconciliation == ProviderLookup
  }

  // Nothing stands against this provider itself: it is there, its descriptor is valid, and it can
  // reconcile if one of its operations asks for that.
  predicate Fit(c: Option<Candidate>) {
    c.Some? && ValidDescriptor(c.value.descriptor) && (AsksForLookup(c.value.descriptor) ==> c.value.caps.reconciler)
  }

  function Place(c: Candidate): string {
    TrimSpace(c.descriptor.connectorKey) + ":" + TrimSpace(c.descriptor.providerKey)
  }

  // What is stored for it: its descriptor, exactly its capabilities, its scopes for connection tests,
  // and those it declares for operations of the descriptor.
  ghost predicate StoredFor(e: Entry, c: Candidate) {
    && e.descriptor == c.descriptor && Offers(e.wrapper) == c.caps && e.testScopes == c.testScopes
    && (forall k :: k in e.operationScopes <==>
          && k in c.operationScopes
          && exists i :: 0 <= i < |c.descriptor.operations| && c.descriptor.operations[i].key == k)
    && forall k :: k in e.operationScopes ==> e.operationScopes[k] == c.operationScopes[k]
  }

  // What stands against a provider that is not fit.
  predicate Against(c: Option<Candidate>, e: Error) {
    match e
    case ProviderRequired => c.None?
    case InvalidDescriptor => c.Some? && !ValidDescriptor(c.value.descriptor)
    case NoReconciler =>
      c.Some? && ValidDescriptor(c.value.descriptor) && AsksForLookup(c.value.descriptor) && !c.value.caps.reconciler
    case _ => false
  }

  lemma AdmitsExactly(c: Option<Candidate>)
    ensures Admit(c).Success? <==> Fit(c)
    ensures Admit(c).Success? ==> Admit(c).value.key == Place(c.value) && StoredFor(Admit(c).value.value, c.value)
    ensures forall e :: Admit(c) == Failure(e) <==> Against(c, e)
  {
    hide ValidDescriptor, TrimSpace;
    if Fit(c) { ScopesPicked(c.value); }
  }

  lemma ScopesPicked(c: Candidate)
    ensures StoredFor(Snapshot(c), c)
  {
    forall k
      ensures k in OperationKeys(c.descriptor.operations) <==>
        exists i :: 0 <= i < |c.descriptor.operations| && c.descriptor.operations[i].key == k
    {
      if i :| 0 <= i < |c.descriptor.operations| && c.descriptor.operations[i].key == k {
        assert c.descriptor.operations[i] in c.descriptor.operations;
      }
    }
  }

  // One registration: done exactly for a fit provider whose place is free in an open registry, which
  // then holds that provider in that place beside what it held. Every refusal has its one cause, in
  // the order of the checks.
  lemma RegistersExactly(s: State<Entry>, c: Option<Candidate>)
    ensures var (t, a) := Atomic(s, Register(c));
      && (a == Done <==> Fit(c) && !s.frozen && Place(c.value) !in s.entries)
      && (a == Done ==>
            exists e :: StoredFor(e, c.value) && t == s.(entries := s.entries[Place(c.value) := e]))
      && (a != Done ==> t == s)
      && (a == Failed(Error.Frozen) <==> Fit(c) && s.frozen)
      && (a == Failed(Duplicate) <==> Fit(c) && !s.frozen && Place(c.value) in s.entries)
      && forall e :: e != Error.Frozen && e != Duplicate ==> (a == Failed(e) <==> Against(c, e))
  {
    hide Fit, Against, StoredFor, Admit, Place;
    AdmitsExactly(c);
    FitIsNotAgainst(c);
    if Admit(c).Success? {
      var kv := Admit(c).value;
      assert s.entries + map[kv.key := kv.value] == s.entries[kv.key := kv.value];
      assert map[kv.key := kv.value].Keys == {kv.key};
    }
  }

  lemma FitIsNotAgainst(c: Option<Candidate>)
    ensures forall e :: Against(c, e) ==> !Fit(c) && e != Error.Frozen && e != Duplicate
  {}

  // A set: done exactly when every member is fit, no two share a place, and all places are free in an
  // open registry. Then each member is stored in its place, and nothing else changes.
  lemma {:induction false} RegistersSetExactly(s: State<Entry>, cs: seq<Option<Candidate>>)
    ensures var (t, a) := Atomic(s, RegisterProviderSet(cs));
      && (a == Done <==>
            && !s.frozen && (forall i :: 0 <= i < |cs| ==> Fit(cs[i]) && Place(cs[i].value) !in s.entries)
            && forall i, j :: 0 <= i < j < |cs| ==> Place(cs[i].value) != Place(cs[j].value))
      && (a == Done ==>
            && !t.frozen
            && (forall i :: 0 <= i < |cs| ==>
                  Place(cs[i].value) in t.entries && StoredFor(t.entries[Place(cs[i].value)], cs[i].value))
            && (forall k :: k in s.entries ==> k in t.entries && t.entries[k] == s.entries[k])
            && forall k :: k in t.entries ==> k in s.entries || exists i :: 0 <= i < |cs| && Place(cs[i].value) == k)
      && (a != Done ==> t == s)
  {
    hide ValidDescriptor, AsksForLookup, StoredFor, Admit, Place, Gather, Holds;
    var items := AdmitAll(cs);
    forall i | 0 <= i < |cs|
      ensures items[i] == Admit(cs[i]) && (items[i].Success? <==> Fit(cs[i]))
      ensures Fit(cs[i]) ==> KeyOf(items[i]) == Place(cs[i].value) && StoredFor(items[i].value.value, cs[i].value)
    {
      AdmitsExactly(cs[i]);
    }
    GatherMeans(items);
    if Gather(items).Success? {
      HeldInPlace(cs, items, Gather(items).value);
    }
  }

  lemma HeldInPlace(cs: seq<Option<Candidate>>, items: seq<Checked<Entry>>, batch: map<string, Entry>)
    requires |items| == |cs| && AllSucceed(items) && Holds(batch, items)
    requires forall i :: 0 <= i < |cs| ==>
      cs[i].Some? && KeyOf(items[i]) == Place(cs[i].value) && StoredFor(items[i].value.value, cs[i].value)
    ensures forall i :: 0 <= i < |cs| ==>
      Place(cs[i].value) in batch && StoredFor(batch[Place(cs[i].value)], cs[i].value)
    ensures forall k :: k in batch ==> exists i :: 0 <= i < |cs| && Place(cs[i].value) == k
  {
    hide StoredFor, Place;
  }

  // Which member stops a set, and with what: the first that is not fit, with what stands against it,
  // or that shares its place with one before it, as a duplicate. If none does, a frozen registry
  // refuses, and then a place that is taken.
  lemma {:induction false} SetStopsAtFirst(s: State<Entry>, cs: seq<Option<Candidate>>, n: nat)
    requires n < |cs| && Gathers(cs[..n])
    ensures !Fit(cs[n]) ==>
      exists e :: Against(cs[n], e) && Atomic(s, RegisterProviderSet(cs)) == (s, Failed(e))
    ensures Fit(cs[n]) && (exists i :: 0 <= i < n && Place(cs[i].value) == Place(cs[n].value)) ==>
      Atomic(s, RegisterProviderSet(cs)) == (s, Failed(Duplicate))
  {
    hide ValidDescriptor, AsksForLookup, Against, StoredFor, Admit, Place, Gather, Holds;
    var items := AdmitAll(cs);
    MembersGather(cs[..n]);
    assert items[..n] == AdmitAll(cs[..n]);
    GatherStep(items, n);
    AdmitsExactly(cs[n]);
    var batch := Gather(items[..n]).value;
    if Fit(cs[n]) {
      if i :| 0 <= i < n && Place(cs[i].value) == Place(cs[n].value) {
        assert Place(cs[..n][i].value) in batch;
        GatherFailureSticks(items, n + 1);
      }
    } else {
      GatherFailureSticks(items, n + 1);
    }
  }

  // Every member is fit and no two share a place.
  predicate Gathers(cs: seq<Option<Candidate>>) {
    (forall i :: 0 <= i < |cs| ==> Fit(cs[i]))
    && forall i, j :: 0 <= i < j < |cs| ==> Place(cs[i].value) != Place(cs[j].value)
  }

  lemma {:induction false} MembersGather(cs: seq<Option<Candidate>>)
    requires Gathers(cs)
    ensures Gather(AdmitAll(cs)).Success?
    ensures forall k :: k in Gather(AdmitAll(cs)).value <==> exists i :: 0 <= i < |cs| && Place(cs[i].value) == k
  {
    hide ValidDescriptor, AsksForLookup, StoredFor, Admit, Place, Gather, Holds;
    var items := AdmitAll(cs);
    forall i | 0 <= i < |cs|
      ensures items[i] == Admit(cs[i]) && items[i].Success? && KeyOf(items[i]) == Place(cs[i].value)
      ensures StoredFor(items[i].value.value, cs[i].value)
    {
      AdmitsExactly(cs[i]);
    }
    GatherMeans(items);
    HeldInPlace(cs, items, Gather(items).value);
  }

  lemma {:induction false} GatheredSetStops(s: State<Entry>, cs: seq<Option<Candidate>>)
    requires Gathers(cs)
    ensures s.frozen ==> Atomic(s, RegisterProviderSet(cs)) == (s, Failed(Error.Frozen))
    ensures !s.frozen && (exists i :: 0 <= i < |cs| && Place(cs[i].value) in s.entries) ==>
      Atomic(s, RegisterProviderSet(cs)) == (s, Failed(Duplicate))
  {
    hide ValidDescriptor, AsksForLookup, Place, Gather;
    MembersGather(cs);
    var batch := Gather(AdmitAll(cs)).value;
    if i :| 0 <= i < |cs| && Place(cs[i].value) in s.entries {
      assert Place(cs[i].value) in batch.Keys * s.entries.Keys;
    }
  }

  // ----- Identities

  lemma CanonicalTrimmed(s: string)
    requires CanonicalKey(s)
    ensures TrimSpace(s) == s && ':' !in s
  {
    TrimmedIsFixed(s);
  }

  // A lookup key meets the key of a valid descriptor only when both halves match exactly.
  lemma IdentityExact(connectorKey: string, providerKey: string, d: Descriptor)
    requires CanonicalKey(d.connectorKey) && CanonicalKey(d.providerKey)
    ensures ProviderIdentity(connectorKey, providerKey) == Identity(d) <==>
      TrimSpace(connectorKey) == d.connectorKey && TrimSpace(providerKey) == d.providerKey
  {
    CanonicalTrimmed(d.connectorKey);
    CanonicalTrimmed(d.providerKey);
    var a, b, x, y := TrimSpace(connectorKey), TrimSpace(providerKey), d.connectorKey, d.providerKey;
    if a + ":" + b == x + ":" + y {
      OneColon(a, b, x, y);
    }
  }

  lemma OneColon(a: string, b: string, x: string, y: string)
    requires a + ":" + b == x + ":" + y && ':' !in x && ':' !in y
    ensures a == x && b == y
  {
    var s := x + ":" + y;
    assert s == a + ":" + b;
    assert s[|a|] == ':' && s[|x|] == ':';
    assert forall i :: 0 <= i < |x| ==> s[i] == x[i];
    assert forall i :: |x| < i < |s| ==> s[i] == y[i - |x| - 1];
    assert |a| == |x|;
    assert a == s[..|a|] && x == s[..|x|];
    assert b == s[|a| + 1..] && y == s[|x| + 1..];
  }

  // ----- What a registry may hold

  // Everything the checks before the lock established about a stored entry.
  predicate SoundEntry(key: string, e: Entry) {
    key == Identity(e.descriptor) && ValidDescriptor(e.descriptor)
    && (NeedsReconciler(e.descriptor) ==> Offers(e.wrapper).reconciler)
  }

  ghost predicate Sound(s: State<Entry>) {
    forall k :: k in s.entries ==> SoundEntry(k, s.entries[k])
  }

  lemma AdmittedIsSound(c: Option<Candidate>)
    requires Admit(c).Success?
    ensures SoundEntry(Admit(c).value.key, Admit(c).value.value)
  {}

  lemma {:induction false} GatheredIsSound(items: seq<Checked<Entry>>)
    requires Gather(items).Success?
    requires forall i :: 0 <= i < |items| && items[i].Success? ==> SoundEntry(items[i].value.key, items[i].value.value)
    ensures forall k :: k in Gather(items).value ==> SoundEntry(k, Gather(items).value[k])
  {
    GatherMeans(items);
  }

  lemma PreparedIsSound(call: Call)
    requires Prepare(call).Batch?
    ensures forall k :: k in Prepare(call).entries ==> SoundEntry(k, Prepare(call).entries[k])
  {
    hide SoundEntry, Admit;
    if call.Register? {
      AdmittedIsSound(call.provider);
    } else {
      var items := AdmitAll(call.providers);
      forall i | 0 <= i < |items| && items[i].Success? ensures SoundEntry(items[i].value.key, items[i].value.value) {
        AdmittedIsSound(call.providers[i]);
      }
      GatheredIsSound(items);
    }
  }

  lemma AtomicKeepsSound(s: State<Entry>, call: Call)
    requires Sound(s)
    ensures Sound(Atomic(s, call).0)
  {
    hide SoundEntry, Prepare;
    if Prepare(call).Batch? { PreparedIsSound(call); }
  }

  // A lookup finds exactly the entry stored for that pair of keys.
  lemma LookupIsExact(s: State<Entry>, connectorKey: string, providerKey: string, k: string)
    requires Sound(s) && k in s.entries
    ensures var d := s.entries[k].descriptor;
      Find(s, connectorKey, providerKey) == Some(s.entries[k]) <==>
        TrimSpace(connectorKey) == d.connectorKey && TrimSpace(providerKey) == d.providerKey
  {
    var key := ProviderIdentity(connectorKey, providerKey);
    SoundKeys(k, s.entries[k]);
    if key in s.entries { SoundKeys(key, s.entries[key]); }
    IdentityExact(connectorKey, providerKey, s.entries[k].descriptor);
  }

  lemma SoundKeys(k: string, e: Entry)
    requires SoundEntry(k, e)
    ensures k == Identity(e.descriptor)
    ensures CanonicalKey(e.descriptor.connectorKey) && CanonicalKey(e.descriptor.providerKey)
  {}

  // In whatever a registry holds, a declared compensation leads in one step to its one target, and
  // the stored wrapper offers a Reconciler.
  lemma CompensationIsServed(s: State<Entry>, k: string, i: nat) returns (j: nat)
    requires Sound(s) && k in s.entries
    requires var ops := s.entries[k].descriptor.operations;
      i < |ops| && !ops[i].reliability.compensation.NoCompensation?
    ensures var ops := s.entries[k].descriptor.operations;
      && j < |ops| && j != i && Compensates(ops[i], ops[j]) && GoodTarget(ops[j])
      && (forall p :: Walk(ops, p) && |p| > 0 && p[0] == i ==> p == [i] || p == [i, j])
      && Offers(s.entries[k].wrapper).reconciler
  {
    hide ValidDescriptor, NeedsReconciler, Walk, Compensates, CanonicalKey;
    var d := s.entries[k].descriptor;
    assert SoundEntry(k, s.entries[k]);
    j := UniqueTarget(d, i);
    CompensationNeedsReconciler(d, i);
    forall p | Walk(d.operations, p) && |p| > 0 && p[0] == i ensures p == [i] || p == [i, j] {
      WalksEnd(d, i, j, p);
    }
  }

  lemma WalksEnd(d: Descriptor, i: nat, j: nat, p: seq<nat>)
    requires ValidDescriptor(d) && i < |d.operations| && Walk(d.operations, p) && |p| > 0 && p[0] == i
    requires forall k :: 0 <= k < |d.operations| && Compensates(d.operations[i], d.operations[k]) ==> k == j
    ensures p == [i] || p == [i, j]
  {
    hide ValidDescriptor, Compensates;
    NoCompensationChain(d, p);
    if |p| == 2 { assert Compensates(d.operations[p[0]], d.operations[p[1]]); }
  }
}
