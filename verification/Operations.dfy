/** operation.go and the bound provider of provider.go: typed operations, their erasure to untyped
    invocations, and the call that goes through both. JSON is any codec; a handler is any function
    of its request. */
module Operations {
  import opened Wrappers
  import opened Text
  import opened Provider

  // ----- Requests and results

  // json.Marshal and the strict decoder for one Go type.
  datatype Codec<!T> = Codec(encode: T -> Option<string>, decode: string -> Option<T>)

  // decodeStrict: an absent payload reads as null.
  function DecodeStrict<T>(c: Codec<T>, raw: string): Option<T> {
    c.decode(if raw == "" then "null" else raw)
  }

  // Decoding undoes encoding for this value, and its encoding is not empty.
  predicate Undone<T(==)>(c: Codec<T>, x: T) {
    c.encode(x).Some? ==> c.encode(x).value != "" && c.decode(c.encode(x).value) == Some(x)
  }

  // What travels beside the payload: connection, references, headers, secrets, principal.
  datatype Envelope = Envelope(
    connection: string, requestRef: string, headers: Option<map<string, string>>,
    secrets: Option<map<string, string>>, delivery: bool, principal: string)

  const NO_ENVELOPE := Envelope("", "", None, None, false, "")

  datatype CallRequest = CallRequest(
    connectorKey: string, providerKey: string, operationKey: string, contract: string, mode: Mode,
    payload: string, envelope: Envelope)

  // What travels back beside the output.
  datatype Trailer = Trailer(responseRef: string, secretUpdates: Option<map<string, string>>, health: Option<string>)

  const NO_TRAILER := Trailer("", None, None)

  datatype CallError =
    | GatewayRequired | InvalidOperation | HandlerRequired | ProviderMismatch | OperationMismatch
    | ModeMismatch | HashMismatch | NotRegistered | InputEncoding | InputDecoding | OutputEncoding
    | OutputDecoding | HandlerFailed(cause: string)

  // The untyped result, the error beside it, and the operations whose handlers ran.
  datatype Reply = Reply(payload: string, trailer: Trailer, error: Option<CallError>, runs: seq<Operation>)

  datatype TypedRequest<I> = TypedRequest(input: I, envelope: Envelope)

  // A delivery handler is one without output: O is then a type of one value.
  datatype TypedReply<O> = TypedReply(output: O, trailer: Trailer, failure: Option<string>)

  type Handler<!I, !O> = TypedRequest<I> -> TypedReply<O>

  // map[string]string
  class StringMap {
    var entries: map<string, string>

    constructor ()
      ensures entries == map[]
    {
      entries := map[];
    }
  }

  // cloneStrings: the same pairs in a map of its own; nil stays nil.
  method CloneStrings(input: StringMap?) returns (result: StringMap?)
    ensures result == null <==> input == null
    ensures input != null ==> fresh(result) && result.entries == old(input.entries) == input.entries
  {
    if input == null {
      return null;
    }
    result := new StringMap();
    var todo := input.entries.Keys;
    while todo != {}
      invariant fresh(result) && todo <= input.entries.Keys && input.entries == old(input.entries)
      invariant result.entries == map k | k in input.entries.Keys - todo :: input.entries[k]
      decreases todo
    {
      var k := Next(todo);
      result.entries, todo := result.entries[k := input.entries[k]], todo - {k};
    }
    assert result.entries == input.entries;
  }

  // ----- Erasure

  // CallOperation, EnqueueOperation and StartOperation differ in their mode only.
  datatype Declaration = Declaration(
    connectorKey: string, providerKey: string, key: string, contract: string, reliability: Reliability)

  function Describe(o: Declaration, mode: Mode): Operation {
    Operation(TrimSpace(o.connectorKey), TrimSpace(o.providerKey), TrimSpace(o.key), mode, o.contract, o.reliability)
  }

  datatype BoundOperation = BoundOperation(descriptor: Operation, invoke: CallRequest -> Reply)

  function Refuse(e: CallError): Reply { Reply("", NO_TRAILER, Some(e), []) }

  // validateInvocation
  function ValidateInvocation(d: Operation, r: CallRequest): Option<CallError> {
    if TrimSpace(r.connectorKey) != d.connectorKey || TrimSpace(r.providerKey) != d.providerKey then
      Some(ProviderMismatch)
    else if TrimSpace(r.operationKey) != d.key then Some(OperationMismatch)
    else if r.mode != d.mode then Some(ModeMismatch)
    else if r.contract != d.contract then Some(HashMismatch)
    else None
  }

  // The closure of bindTypedOperation.
  function InvokeTyped<I, O>(
    d: Operation, cin: Codec<I>, cout: Codec<O>, handler: Handler<I, O>, r: CallRequest): Reply
  {
    var refusal := ValidateInvocation(d, r);
    if refusal.Some? then Refuse(refusal.value)
    else match DecodeStrict(cin, r.payload)
      case None => Refuse(InputDecoding)
      case Some(input) =>
        var result := handler(TypedRequest(input, r.envelope));
        if result.failure.Some? then Reply("", result.trailer, Some(HandlerFailed(result.failure.value)), [d])
        else match cout.encode(result.output)
          case None => Reply("", NO_TRAILER, Some(OutputEncoding), [d])
          case Some(payload) => Reply(payload, result.trailer, None, [d])
  }

  // The closure of bindDeliveryOperation: no output is encoded.
  function InvokeDelivery<I>(d: Operation, cin: Codec<I>, handler: Handler<I, ()>, r: CallRequest): Reply {
    var refusal := ValidateInvocation(d, r);
    if refusal.Some? then Refuse(refusal.value)
    else match DecodeStrict(cin, r.payload)
      case None => Refuse(InputDecoding)
      case Some(input) =>
        var result := handler(TypedRequest(input, r.envelope));
        Reply("", result.trailer, if result.failure.Some? then Some(HandlerFailed(result.failure.value)) else None, [d])
  }

  function BindCall<I, O>(
    o: Declaration, cin: Codec<I>, cout: Codec<O>, handler: Option<Handler<I, O>>): Result<BoundOperation, CallError>
  {
    var d := Describe(o, CallMode);
    if !ValidOperation(d) then Failure(InvalidOperation)
    else if handler.None? then Failure(HandlerRequired)
    else Success(BoundOperation(d, (r: CallRequest) => InvokeTyped(d, cin, cout, handler.value, r)))
  }

  // BindEnqueueDelivery and BindStartOperationDelivery.
  function BindDelivery<I>(
    o: Declaration, mode: Mode, cin: Codec<I>, handler: Option<Handler<I, ()>>): Result<BoundOperation, CallError>
  {
    var d := Describe(o, mode);
    if !ValidOperation(d) then Failure(InvalidOperation)
    else if handler.None? then Failure(HandlerRequired)
    else Success(BoundOperation(d, (r: CallRequest) => InvokeDelivery(d, cin, handler.value, r)))
  }

  // A declaration binds exactly when it is valid with its keys trimmed and a handler is given, under
  // those keys and with its contract and reliability as declared.
  lemma BindsExactly<I, O>(
    o: Declaration, mode: Mode, cin: Codec<I>, cout: Codec<O>,
    handler: Option<Handler<I, O>>, delivery: Option<Handler<I, ()>>)
    ensures Describe(o, mode) == Operation(
      TrimSpace(o.connectorKey), TrimSpace(o.providerKey), TrimSpace(o.key), mode, o.contract, o.reliability)
    ensures var b := BindCall(o, cin, cout, handler); var valid := ValidOperation(Describe(o, CallMode));
      && (b == Failure(InvalidOperation) <==> !valid)
      && (b == Failure(HandlerRequired) <==> valid && handler.None?)
      && (b.Success? <==> valid && handler.Some?) && (b.Success? ==> b.value.descriptor == Describe(o, CallMode))
    ensures var b := BindDelivery(o, mode, cin, delivery); var valid := ValidOperation(Describe(o, mode));
      && (b == Failure(InvalidOperation) <==> !valid)
      && (b == Failure(HandlerRequired) <==> valid && delivery.None?)
      && (b.Success? <==> valid && delivery.Some?) && (b.Success? ==> b.value.descriptor == Describe(o, mode))
  {
    hide ValidOperation, TrimSpace;
  }

  // The request names exactly this operation: connector, provider, key, mode and contract hash.
  predicate Names(r: CallRequest, d: Operation) {
    TrimSpace(r.connectorKey) == d.connectorKey && TrimSpace(r.providerKey) == d.providerKey
    && TrimSpace(r.operationKey) == d.key && r.mode == d.mode && r.contract == d.contract
  }

  // A handler runs only for a request that names its operation, then once; whatever is refused
  // before it carries an error and nothing else.
  ghost predicate Guarded(b: BoundOperation) {
    forall r :: GuardedFor(b, r)
  }

  ghost predicate GuardedFor(b: BoundOperation, r: CallRequest) {
    (b.invoke(r).runs == [b.descriptor] && Names(r, b.descriptor))
    || (b.invoke(r).error.Some? && b.invoke(r) == Refuse(b.invoke(r).error.value))
  }

  // Every binding yields a trimmed descriptor and a guarded handler, run exactly when the request
  // names the operation and its payload decodes, an absent payload as null.
  lemma BindCallGuards<I, O>(o: Declaration, cin: Codec<I>, cout: Codec<O>, handler: Option<Handler<I, O>>)
    requires BindCall(o, cin, cout, handler).Success?
    ensures var b := BindCall(o, cin, cout, handler).value;
      && Guarded(b) && TrimSpace(b.descriptor.key) == b.descriptor.key
      && forall r :: b.invoke(r).runs == [b.descriptor] <==>
           Names(r, b.descriptor) && (if r.payload == "" then cin.decode("null") else cin.decode(r.payload)).Some?
  {
    hide InvokeTyped, ValidOperation, Names, DecodeStrict;
    TrimSpaceIdempotent(o.key);
    var b := BindCall(o, cin, cout, handler).value;
    forall r
      ensures GuardedFor(b, r)
      ensures b.invoke(r).runs == [b.descriptor] <==>
        Names(r, b.descriptor) && (if r.payload == "" then cin.decode("null") else cin.decode(r.payload)).Some?
    {
      TypedRunsExactly(b.descriptor, cin, cout, handler.value, r);
    }
  }

  lemma TypedRunsExactly<I, O>(d: Operation, cin: Codec<I>, cout: Codec<O>, handler: Handler<I, O>, r: CallRequest)
    ensures var reply := InvokeTyped(d, cin, cout, handler, r);
      var runs := Names(r, d) && (if r.payload == "" then cin.decode("null") else cin.decode(r.payload)).Some?;
      if runs then reply.runs == [d] else reply.error.Some? && reply == Refuse(reply.error.value)
  {}

  lemma BindDeliveryGuards<I>(o: Declaration, mode: Mode, cin: Codec<I>, handler: Option<Handler<I, ()>>)
    requires BindDelivery(o, mode, cin, handler).Success?
    ensures var b := BindDelivery(o, mode, cin, handler).value;
      && Guarded(b) && TrimSpace(b.descriptor.key) == b.descriptor.key
      && forall r :: b.invoke(r).runs == [b.descriptor] <==>
           Names(r, b.descriptor) && (if r.payload == "" then cin.decode("null") else cin.decode(r.payload)).Some?
  {
    TrimSpaceIdempotent(o.key);
    var b := BindDelivery(o, mode, cin, handler).value;
    forall r ensures GuardedFor(b, r) {}
  }

  // ----- Providers

  datatype BoundProvider = BoundProvider(descriptor: Descriptor, operations: map<string, BoundOperation>)

  function Descriptors(bounds: seq<BoundOperation>): (r: seq<Operation>)
    ensures |r| == |bounds| && forall i :: 0 <= i < |bounds| ==> r[i] == bounds[i].descriptor
  {
    Map((b: BoundOperation) => b.descriptor, bounds)
  }

  predicate Belongs(o: Operation, schema: Descriptor) {
    o.connectorKey == schema.connectorKey && o.providerKey == schema.providerKey
  }

  predicate SortedByKey(ops: seq<Operation>) {
    forall i, j :: 0 <= i < j < |ops| ==> !Less(ops[j].key, ops[i].key)
  }

  // The provider offers each bound operation under its key and no others, its descriptor lists
  // them by key, and it is valid.
  ghost predicate Offers(p: BoundProvider, schema: Descriptor, bounds: seq<BoundOperation>) {
    p.descriptor == schema.(operations := p.descriptor.operations)
    && ValidDescriptor(p.descriptor)
    && SortedByKey(p.descriptor.operations)
    && multiset(p.descriptor.operations) == multiset(Descriptors(bounds))
    && (forall i :: 0 <= i < |bounds| ==>
          Belongs(bounds[i].descriptor, schema)
          && bounds[i].descriptor.key in p.operations && p.operations[bounds[i].descriptor.key] == bounds[i])
    && (forall k :: k in p.operations ==> exists i :: 0 <= i < |bounds| && bounds[i].descriptor.key == k)
  }

  // sort.Slice by key; equal keys keep no particular order.
  method SortByKey(ops: seq<Operation>) returns (r: seq<Operation>)
    ensures SortedByKey(r) && multiset(r) == multiset(ops)
  {
    r := [];
    for i := 0 to |ops|
      invariant SortedByKey(r) && multiset(r) == multiset(ops[..i])
    {
      assert ops[..i + 1] == ops[..i] + [ops[i]];
      var k := |r|;
      while k > 0 && Less(ops[i].key, r[k - 1].key)
        invariant 0 <= k <= |r|
        invariant forall j :: k <= j < |r| ==> Less(ops[i].key, r[j].key)
      {
        k := k - 1;
      }
      InsertSorted(r, ops[i], k);
      r := r[..k] + [ops[i]] + r[k..];
    }
    assert ops[..|ops|] == ops;
  }

  lemma InsertSorted(r: seq<Operation>, x: Operation, k: nat)
    requires k <= |r| && SortedByKey(r)
    requires forall j :: k <= j < |r| ==> Less(x.key, r[j].key)
    requires k > 0 ==> !Less(x.key, r[k - 1].key)
    ensures var s := r[..k] + [x] + r[k..]; SortedByKey(s) && multiset(s) == multiset(r) + multiset{x}
  {
    hide Less;
    assert r == r[..k] + r[k..];
    forall j | k <= j < |r| ensures !Less(r[j].key, x.key) {
      LessTotal(r[j].key, x.key);
    }
    forall i | 0 <= i < k ensures !Less(x.key, r[i].key) {
      if Less(x.key, r[i].key) { NotAboveLater(x.key, r[i].key, r[k - 1].key, i == k - 1); }
    }
    Joined(r[..k], x, r[k..]);
  }

  lemma Joined(a: seq<Operation>, x: Operation, b: seq<Operation>)
    requires SortedByKey(a + b)
    requires forall i :: 0 <= i < |a| ==> !Less(x.key, a[i].key)
    requires forall i :: 0 <= i < |b| ==> !Less(b[i].key, x.key)
    ensures SortedByKey(a + [x] + b)
  {
    hide Less;
    var s, r := a + [x] + b, a + b;
    forall i, j | 0 <= i < j < |s| ensures !Less(s[j].key, s[i].key) {
      if i == |a| {
        assert s[j] == b[j - |a| - 1];
      } else if j == |a| {
        assert s[i] == a[i];
      } else {
        var m, n := if i < |a| then i else i - 1, if j < |a| then j else j - 1;
        assert r[m] == s[i] && r[n] == s[j];
      }
    }
  }

  lemma {:induction false} NotAboveLater(x: string, a: string, b: string, same: bool)
    requires Less(x, a) && (same ==> a == b) && (!same ==> !Less(b, a))
    ensures Less(x, b)
  {
    LessTotal(a, b);
    if Less(a, b) { LessTransitive(x, a, b); }
  }

  // Validity of a descriptor does not depend on the order of its operations.
  lemma ValidityIgnoresOrder(d: Descriptor, e: Descriptor)
    requires e == d.(operations := e.operations) && multiset(d.operations) == multiset(e.operations)
    requires ValidDescriptor(d)
    ensures ValidDescriptor(e)
  {
    var ops, other := d.operations, e.operations;
    assert |ops| == |multiset(ops)| == |multiset(other)| == |other|;
    PermutationKeepsDistinct(ops, other, (o: Operation) => o.key);
    assert DistinctOperations(other) by {
      forall i, j | 0 <= i < j < |other| ensures other[i].key != other[j].key {
        assert ((o: Operation) => o.key)(other[i]) != ((o: Operation) => o.key)(other[j]);
      }
    }
    forall i | 0 <= i < |other| ensures ValidOperation(other[i]) && CompensationSound(other, i) {
      var k := Occurs(other, ops, i);
      assert ValidOperation(ops[k]) && CompensationSound(ops, k);
      SoundElsewhere(ops, other, k, i);
    }
    SameSchema(d, e);
  }

  lemma SameSchema(d: Descriptor, e: Descriptor)
    requires e == d.(operations := e.operations)
    ensures ValidSchema(d) == ValidSchema(e)
  {}

  lemma SoundElsewhere(ops: seq<Operation>, other: seq<Operation>, k: nat, i: nat)
    requires multiset(ops) == multiset(other) && k < |ops| && i < |other| && ops[k] == other[i]
    requires CompensationSound(ops, k)
    ensures CompensationSound(other, i)
  {
    if !ops[k].reliability.compensation.NoCompensation? {
      var j :| 0 <= j < |ops| && Compensates(ops[k], ops[j]) && GoodTarget(ops[j]);
      var l := Occurs(ops, other, j);
      assert Compensates(other[i], other[l]);
    }
  }

  // NewProvider succeeds exactly for a valid descriptor made of operations that all belong to it,
  // in whatever order they are bound.
  method NewProvider(schema: Descriptor, bounds: seq<BoundOperation>) returns (p: Option<BoundProvider>)
    ensures p.Some? <==>
      && ValidDescriptor(schema.(operations := Descriptors(bounds)))
      && forall i :: 0 <= i < |bounds| ==>
           && bounds[i].descriptor.connectorKey == schema.connectorKey
           && bounds[i].descriptor.providerKey == schema.providerKey
    ensures p.Some? ==> Offers(p.value, schema, bounds)
  {
    hide ValidDescriptor, ValidSchema, SortedByKey, Filed;
    var all := schema.(operations := Descriptors(bounds));
    SchemaFirst(schema, all);
    if !ValidSchema(schema) {
      return None;
    }
    var collected := CollectBounds(schema, bounds);
    if collected == None {
      return None;
    }
    var (ops, byKey) := collected.value;
    var sorted := SortByKey(ops);
    var descriptor := schema.(operations := sorted);
    if !ValidDescriptor(descriptor) {
      if ValidDescriptor(all) { ValidityIgnoresOrder(all, descriptor); }
      return None;
    }
    ValidityIgnoresOrder(descriptor, all);
    ValidHasDistinctKeys(all);
    LastIsOnly(bounds, byKey, schema);
    return Some(BoundProvider(descriptor, byKey));
  }

  predicate AllBelong(bounds: seq<BoundOperation>, schema: Descriptor) {
    forall i :: 0 <= i < |bounds| ==> Belongs(bounds[i].descriptor, schema)
  }

  // Every key leads to a binding with that key, and every binding's key is there.
  ghost predicate Filed(byKey: map<string, BoundOperation>, bounds: seq<BoundOperation>) {
    (forall k :: 0 <= k < |bounds| ==> bounds[k].descriptor.key in byKey)
    && forall k :: k in byKey ==> FiledFrom(byKey, bounds, k)
  }

  ghost predicate FiledFrom(byKey: map<string, BoundOperation>, bounds: seq<BoundOperation>, k: string)
    requires k in byKey
  {
    exists j :: 0 <= j < |bounds| && bounds[j].descriptor.key == k && byKey[k] == bounds[j]
  }

  // The loop over the operations.
  method CollectBounds(schema: Descriptor, bounds: seq<BoundOperation>)
    returns (r: Option<(seq<Operation>, map<string, BoundOperation>)>)
    ensures r.Some? <==> AllBelong(bounds, schema)
    ensures r.Some? ==> r.value.0 == Descriptors(bounds) && Filed(r.value.1, bounds)
  {
    hide Filed;
    var ops: seq<Operation> := [];
    var byKey: map<string, BoundOperation> := map[];
    NothingFiled(bounds);
    for i := 0 to |bounds|
      invariant forall k :: 0 <= k < i ==> Belongs(bounds[k].descriptor, schema)
      invariant ops == Descriptors(bounds)[..i]
      invariant Filed(byKey, bounds[..i])
    {
      var current := bounds[i].descriptor;
      if !Belongs(current, schema) {
        return None;
      }
      FileStep(byKey, bounds, i);
      ops := ops + [current];
      byKey := byKey[current.key := bounds[i]];
    }
    assert bounds[..|bounds|] == bounds;
    return Some((ops, byKey));
  }

  lemma NothingFiled(bounds: seq<BoundOperation>)
    ensures Filed(map[], bounds[..0])
  {}

  lemma FileStep(byKey: map<string, BoundOperation>, bounds: seq<BoundOperation>, i: nat)
    requires i < |bounds| && Filed(byKey, bounds[..i])
    ensures Filed(byKey[bounds[i].descriptor.key := bounds[i]], bounds[..i + 1])
  {
    var more, longer := byKey[bounds[i].descriptor.key := bounds[i]], bounds[..i + 1];
    forall k | k in more ensures FiledFrom(more, longer, k) {
      if k == bounds[i].descriptor.key {
        assert longer[i] == bounds[i];
      } else {
        assert FiledFrom(byKey, bounds[..i], k);
        var j :| 0 <= j < i && bounds[..i][j].descriptor.key == k && byKey[k] == bounds[..i][j];
        assert longer[j] == bounds[..i][j];
      }
    }
  }

  lemma SchemaFirst(schema: Descriptor, all: Descriptor)
    requires all == schema.(operations := all.operations)
    ensures ValidDescriptor(all) ==> ValidSchema(schema)
  {
    SameSchema(schema, all);
  }

  lemma ValidHasDistinctKeys(d: Descriptor)
    requires ValidDescriptor(d)
    ensures DistinctOperations(d.operations)
  {}

  // With distinct keys no binding is lost by filling a map.
  lemma LastIsOnly(bounds: seq<BoundOperation>, byKey: map<string, BoundOperation>, schema: Descriptor)
    requires DistinctOperations(Descriptors(bounds)) && Filed(byKey, bounds) && AllBelong(bounds, schema)
    ensures forall i :: 0 <= i < |bounds| ==>
      Belongs(bounds[i].descriptor, schema)
      && bounds[i].descriptor.key in byKey && byKey[bounds[i].descriptor.key] == bounds[i]
    ensures forall k :: k in byKey ==> exists i :: 0 <= i < |bounds| && bounds[i].descriptor.key == k
  {
    var ops := Descriptors(bounds);
    forall i | 0 <= i < |bounds| ensures byKey[bounds[i].descriptor.key] == bounds[i] {
      var key := bounds[i].descriptor.key;
      assert FiledFrom(byKey, bounds, key);
      var j :| 0 <= j < |bounds| && bounds[j].descriptor.key == key && byKey[key] == bounds[j];
      assert ops[i].key == ops[j].key;
    }
    forall k | k in byKey ensures exists i :: 0 <= i < |bounds| && bounds[i].descriptor.key == k {
      assert FiledFrom(byKey, bounds, k);
    }
  }

  predicate Addresses(r: CallRequest, d: Descriptor) {
    TrimSpace(r.connectorKey) == d.connectorKey && TrimSpace(r.providerKey) == d.providerKey
  }

  // boundProvider.Call
  function ProviderCall(p: BoundProvider, r: CallRequest): Reply {
    if !Addresses(r, p.descriptor) then Refuse(ProviderMismatch)
    else if TrimSpace(r.operationKey) !in p.operations then Refuse(NotRegistered)
    else p.operations[TrimSpace(r.operationKey)].invoke(r)
  }

  // A provider runs a handler only for a request that names its operation exactly; there is then
  // only one such operation. Any other request is answered by an error and runs nothing.
  lemma OnlyTheNamedHandlerRuns(p: BoundProvider, schema: Descriptor, bounds: seq<BoundOperation>, r: CallRequest)
    requires Offers(p, schema, bounds) && forall i :: 0 <= i < |bounds| ==> Guarded(bounds[i])
    ensures var reply := ProviderCall(p, r);
      && (reply.runs != [] ==> exists i :: RunsAlone(bounds, i, r) && reply == bounds[i].invoke(r))
      && (reply.runs == [] ==> reply.error.Some? && reply == Refuse(reply.error.value))
  {
    var key := TrimSpace(r.operationKey);
    if key in p.operations && Addresses(r, p.descriptor) {
      var i :| 0 <= i < |bounds| && bounds[i].descriptor.key == key;
      assert GuardedFor(bounds[i], r);
      assert ProviderCall(p, r) == bounds[i].invoke(r);
      if ProviderCall(p, r).runs != [] { NamedOnce(p, schema, bounds, i, r); }
    }
  }

  ghost predicate RunsAlone(bounds: seq<BoundOperation>, i: int, r: CallRequest) {
    0 <= i < |bounds| && bounds[i].invoke(r).runs == [bounds[i].descriptor] && Names(r, bounds[i].descriptor)
    && forall j :: 0 <= j < |bounds| && j != i ==> !Names(r, bounds[j].descriptor)
  }

  lemma NamedOnce(p: BoundProvider, schema: Descriptor, bounds: seq<BoundOperation>, i: nat, r: CallRequest)
    requires Offers(p, schema, bounds) && i < |bounds| && Names(r, bounds[i].descriptor)
    ensures forall j :: 0 <= j < |bounds| && j != i ==> !Names(r, bounds[j].descriptor)
  {
    var ops := Descriptors(bounds);
    PermutationKeepsDistinct(p.descriptor.operations, ops, (o: Operation) => o.key);
    forall j | 0 <= j < |bounds| && j != i ensures bounds[j].descriptor.key != bounds[i].descriptor.key {
      assert ((o: Operation) => o.key)(ops[i]) != ((o: Operation) => o.key)(ops[j]);
    }
  }

  // What a provider does with any request at all: one for another provider is refused as such, one for
  // a key that was not bound as not registered, and any other goes to the one binding of its key.
  lemma ProviderRoutes(p: BoundProvider, schema: Descriptor, bounds: seq<BoundOperation>, r: CallRequest)
    requires Offers(p, schema, bounds)
    ensures var reply := ProviderCall(p, r);
      var ours := TrimSpace(r.connectorKey) == schema.connectorKey && TrimSpace(r.providerKey) == schema.providerKey;
      && (!ours ==> reply == Refuse(ProviderMismatch))
      && (ours && (forall i :: 0 <= i < |bounds| ==> bounds[i].descriptor.key != TrimSpace(r.operationKey)) ==>
            reply == Refuse(NotRegistered))
      && forall i :: ours && 0 <= i < |bounds| && bounds[i].descriptor.key == TrimSpace(r.operationKey) ==>
           reply == bounds[i].invoke(r)
  {
    hide ValidDescriptor, SortedByKey, TrimSpace;
  }

  // The whole answer of a bound call to any request that reaches it through its provider: another
  // mode, then another contract, then a payload that does not decode are refused and run nothing;
  // otherwise the handler runs once on the decoded input, null where the payload is absent.
  lemma BoundCallAnswers<I, O>(
    p: BoundProvider, schema: Descriptor, bounds: seq<BoundOperation>, i: nat,
    o: Declaration, cin: Codec<I>, cout: Codec<O>, handler: Handler<I, O>, r: CallRequest)
    requires Offers(p, schema, bounds) && i < |bounds|
    requires BindCall(o, cin, cout, Some(handler)) == Success(bounds[i])
    requires TrimSpace(r.connectorKey) == TrimSpace(o.connectorKey)
    requires TrimSpace(r.providerKey) == TrimSpace(o.providerKey) && TrimSpace(r.operationKey) == TrimSpace(o.key)
    ensures var reply := ProviderCall(p, r);
      var input := cin.decode(if r.payload == "" then "null" else r.payload);
      if r.mode != CallMode then reply == Refuse(ModeMismatch)
      else if r.contract != o.contract then reply == Refuse(HashMismatch)
      else if input.None? then reply == Refuse(InputDecoding)
      else
        var result := handler(TypedRequest(input.value, r.envelope));
        var payload := cout.encode(result.output);
        && reply.runs == [bounds[i].descriptor]
        && (result.failure.Some? ==>
              reply.error == Some(HandlerFailed(result.failure.value)) && reply.trailer == result.trailer)
        && (result.failure.None? && payload.None? ==>
              reply.error == Some(OutputEncoding) && reply.trailer == NO_TRAILER)
        && (result.failure.None? && payload.Some? ==>
              reply.error == None && reply.trailer == result.trailer && reply.payload == payload.value)
        && (reply.error.Some? ==> reply.payload == "")
  {
    hide ValidDescriptor, SortedByKey, ValidOperation, TrimSpace;
    assert Belongs(bounds[i].descriptor, schema);
    ProviderRoutes(p, schema, bounds, r);
  }

  // The same for a delivery, bound for either of the two modes: it has no output to encode.
  lemma BoundDeliveryAnswers<I>(
    p: BoundProvider, schema: Descriptor, bounds: seq<BoundOperation>, i: nat,
    o: Declaration, mode: Mode, cin: Codec<I>, handler: Handler<I, ()>, r: CallRequest)
    requires Offers(p, schema, bounds) && i < |bounds|
    requires BindDelivery(o, mode, cin, Some(handler)) == Success(bounds[i])
    requires TrimSpace(r.connectorKey) == TrimSpace(o.connectorKey)
    requires TrimSpace(r.providerKey) == TrimSpace(o.providerKey) && TrimSpace(r.operationKey) == TrimSpace(o.key)
    ensures var reply := ProviderCall(p, r);
      var input := cin.decode(if r.payload == "" then "null" else r.payload);
      if r.mode != mode then reply == Refuse(ModeMismatch)
      else if r.contract != o.contract then reply == Refuse(HashMismatch)
      else if input.None? then reply == Refuse(InputDecoding)
      else
        var result := handler(TypedRequest(input.value, r.envelope));
        && reply.runs == [bounds[i].descriptor] && reply.trailer == result.trailer && reply.payload == ""
        && (result.failure.Some? ==> reply.error == Some(HandlerFailed(result.failure.value)))
        && (result.failure.None? ==> reply.error == None)
  {
    hide ValidDescriptor, SortedByKey, ValidOperation, TrimSpace;
    assert Belongs(bounds[i].descriptor, schema);
    ProviderRoutes(p, schema, bounds, r);
  }

  // ----- Typed calls

  type Gateway = CallRequest -> Reply

  // What a typed caller gets: an output or an error, and the handlers that ran on its behalf.
  datatype Outcome<O> = Outcome(result: Result<O, CallError>, runs: seq<Operation>)

  function Request(d: Operation, payload: string): CallRequest {
    CallRequest(d.connectorKey, d.providerKey, d.key, d.contract, d.mode, payload, NO_ENVELOPE)
  }

  // Call
  function TypedCall<I, O>(
    gateway: Option<Gateway>, o: Declaration, cin: Codec<I>, cout: Codec<O>, input: I): Outcome<O>
  {
    var d := Describe(o, CallMode);
    if gateway.None? then Outcome(Failure(GatewayRequired), [])
    else if !ValidOperation(d) then Outcome(Failure(InvalidOperation), [])
    else match cin.encode(input)
      case None => Outcome(Failure(InputEncoding), [])
      case Some(payload) =>
        var reply := gateway.value(Request(d, payload));
        if reply.error.Some? then Outcome(Failure(reply.error.value), reply.runs)
        else match DecodeStrict(cout, reply.payload)
          case None => Outcome(Failure(OutputDecoding), reply.runs)
          case Some(output) => Outcome(Success(output), reply.runs)
  }

  // What a typed caller sends through any gateway, and what it makes of the answer. Nothing is sent
  // without a gateway, for a declaration that is not valid, or for an input that cannot be encoded;
  // otherwise one request under the trimmed keys, with nothing beside the payload. An error comes
  // back as it is, and an answer is the decoded output, null where it has no payload.
  lemma TypedCallExactly<I, O>(
    gateway: Option<Gateway>, o: Declaration, cin: Codec<I>, cout: Codec<O>, input: I)
    ensures var out := TypedCall(gateway, o, cin, cout, input);
      if gateway.None? then out == Outcome(Failure(GatewayRequired), [])
      else if !ValidOperation(Describe(o, CallMode)) then out == Outcome(Failure(InvalidOperation), [])
      else if cin.encode(input).None? then out == Outcome(Failure(InputEncoding), [])
      else
        var sent := CallRequest(
          TrimSpace(o.connectorKey), TrimSpace(o.providerKey), TrimSpace(o.key), o.contract, CallMode,
          cin.encode(input).value, Envelope("", "", None, None, false, ""));
        var reply := gateway.value(sent);
        var output := cout.decode(if reply.payload == "" then "null" else reply.payload);
        && out.runs == reply.runs
        && (reply.error.Some? ==> out.result == Failure(reply.error.value))
        && (reply.error.None? && output.None? ==> out.result == Failure(OutputDecoding))
        && (reply.error.None? && output.Some? ==> out.result == Success(output.value))
  {
    hide ValidOperation, TrimSpace;
  }

  // What the caller would get by calling the handler directly, without any erasure.
  function Direct<I, O>(d: Operation, cin: Codec<I>, cout: Codec<O>, handler: Handler<I, O>, input: I): Outcome<O> {
    if cin.encode(input).None? then Outcome(Failure(InputEncoding), [])
    else
      var result := handler(TypedRequest(input, NO_ENVELOPE));
      if result.failure.Some? then Outcome(Failure(HandlerFailed(result.failure.value)), [d])
      else if cout.encode(result.output).None? then Outcome(Failure(OutputEncoding), [d])
      else Outcome(Success(result.output), [d])
  }

  // Type erasure preserves meaning: a typed call through the provider that binds the operation is
  // a direct call of its handler, run once, for every codec that undoes its own encodings.
  lemma ErasurePreservesCalls<I, O>(
    p: BoundProvider, schema: Descriptor, bounds: seq<BoundOperation>, i: nat,
    o: Declaration, cin: Codec<I>, cout: Codec<O>, handler: Handler<I, O>, input: I)
    requires Offers(p, schema, bounds) && i < |bounds|
    requires BindCall(o, cin, cout, Some(handler)) == Success(bounds[i])
    requires Undone(cin, input) && Undone(cout, handler(TypedRequest(input, NO_ENVELOPE)).output)
    ensures TypedCall(Some((r: CallRequest) => ProviderCall(p, r)), o, cin, cout, input)
            == Direct(Describe(o, CallMode), cin, cout, handler, input)
  {
    hide ValidDescriptor, SortedByKey, ValidOperation, TrimSpace;
    var d := Describe(o, CallMode);
    DescribedIsTrimmed(o, CallMode);
    if cin.encode(input).Some? {
      var r := Request(d, cin.encode(input).value);
      assert Belongs(bounds[i].descriptor, schema);
      assert ProviderCall(p, r) == bounds[i].invoke(r) == InvokeTyped(d, cin, cout, handler, r);
    }
  }

  // Any request that names a bound call and carries an encoded input reaches the handler once, with
  // that input and the request's own envelope. What the handler reports beside its output comes
  // back with the encoded output or with its failure, and not with an output that cannot be encoded.
  lemma CallReachesHandler<I, O>(
    p: BoundProvider, schema: Descriptor, bounds: seq<BoundOperation>, i: nat,
    o: Declaration, cin: Codec<I>, cout: Codec<O>, handler: Handler<I, O>, input: I, r: CallRequest)
    requires Offers(p, schema, bounds) && i < |bounds|
    requires BindCall(o, cin, cout, Some(handler)) == Success(bounds[i])
    requires Names(r, bounds[i].descriptor) && Undone(cin, input) && cin.encode(input) == Some(r.payload)
    ensures var reply, result := ProviderCall(p, r), handler(TypedRequest(input, r.envelope));
      && reply.runs == [bounds[i].descriptor]
      && (reply.error == None <==> result.failure == None && cout.encode(result.output).Some?)
      && (reply.error == None ==> Some(reply.payload) == cout.encode(result.output) && reply.trailer == result.trailer)
      && (result.failure.Some? ==>
            reply.error == Some(HandlerFailed(result.failure.value))
            && reply.payload == "" && reply.trailer == result.trailer)
      && (reply.error == Some(OutputEncoding) ==> reply.payload == "" && reply.trailer == NO_TRAILER)
  {
    assert Belongs(bounds[i].descriptor, schema);
    assert ProviderCall(p, r) == bounds[i].invoke(r);
  }

  // A delivery request with an encoded input reaches the bound handler with that input and the
  // request's own envelope, and reports what the handler reported.
  lemma DeliveryReachesHandler<I>(
    p: BoundProvider, schema: Descriptor, bounds: seq<BoundOperation>, i: nat,
    o: Declaration, mode: Mode, cin: Codec<I>, handler: Handler<I, ()>, input: I, r: CallRequest)
    requires Offers(p, schema, bounds) && i < |bounds|
    requires BindDelivery(o, mode, cin, Some(handler)) == Success(bounds[i])
    requires Names(r, bounds[i].descriptor) && Undone(cin, input) && cin.encode(input) == Some(r.payload)
    ensures var reply, result := ProviderCall(p, r), handler(TypedRequest(input, r.envelope));
      && reply.runs == [bounds[i].descriptor] && reply.trailer == result.trailer
      && (reply.error == None <==> result.failure == None)
      && (result.failure.Some? ==> reply.error == Some(HandlerFailed(result.failure.value)))
  {
    assert Belongs(bounds[i].descriptor, schema);
    assert ProviderCall(p, r) == bounds[i].invoke(r);
  }

  lemma DescribedIsTrimmed(o: Declaration, mode: Mode)
    ensures var d := Describe(o, mode);
      TrimSpace(d.connectorKey) == d.connectorKey && TrimSpace(d.providerKey) == d.providerKey
      && TrimSpace(d.key) == d.key
  {
    TrimSpaceIdempotent(o.connectorKey);
    TrimSpaceIdempotent(o.providerKey);
    TrimSpaceIdempotent(o.key);
  }

  // A caller whose operation the provider does not bind, under exactly this key, mode and contract
  // hash, gets an error and runs nothing: in particular a caller built against another contract.
  lemma StaleCallersRunNothing<I, O>(
    p: BoundProvider, schema: Descriptor, bounds: seq<BoundOperation>,
    o: Declaration, cin: Codec<I>, cout: Codec<O>, input: I)
    requires Offers(p, schema, bounds) && forall i :: 0 <= i < |bounds| ==> Guarded(bounds[i])
    requires var d := Describe(o, CallMode);
      forall i :: 0 <= i < |bounds| ==>
        var b := bounds[i].descriptor;
        (b.connectorKey, b.providerKey, b.key, b.mode, b.contract)
        != (d.connectorKey, d.providerKey, d.key, d.mode, d.contract)
    ensures var out := TypedCall(Some((r: CallRequest) => ProviderCall(p, r)), o, cin, cout, input);
      out.result.Failure? && out.runs == []
  {
    var d := Describe(o, CallMode);
    DescribedIsTrimmed(o, CallMode);
    if cin.encode(input).Some? {
      var r := Request(d, cin.encode(input).value);
      OnlyTheNamedHandlerRuns(p, schema, bounds, r);
    }
  }
}
