/** provider.go, reliability.go and the validation half of schema.go, on values: what a provider
    descriptor must satisfy before a registry stores it. */
module Provider {
  import opened Wrappers
  import opened Text

  // ----- Configuration fields

  // A decoded JSON value, as far as the rules look at it. A number records whether it reads as an
  // int64, whether it reads as a finite float64, and its value.
  datatype Value = Null | Str(text: string) | Number(int64: bool, finite: bool, value: real) | Bool(b: bool) | Composite

  // A raw default is the sequence of JSON values its bytes spell, Bad where they spell none.
  datatype Lexeme = Bad | Good(value: Value)

  type Raw = seq<Lexeme>

  // decodeConfigDefault: exactly one value, and not null
  function DecodeDefault(raw: Raw): (r: Option<Value>)
    ensures r.Some? ==> !r.value.Null?
  {
    if |raw| == 1 && raw[0].Good? && !raw[0].value.Null? then Some(raw[0].value) else None
  }

  datatype FieldType =
    | TextType | EmailType | IntegerType | DecimalType | BooleanType | SelectType | JsonType | UnknownType

  // A float64 bound.
  datatype Bound = NotFinite | Finite(value: real)

  // A pattern, as far as the rules look at it: blank, no regular expression, or one that matches or
  // does not match the text of the field's own default.
  datatype Pattern = NoPattern | Broken | Compiled(acceptsDefault: bool)

  datatype Rules = Rules(
    minLength: int, maxLength: int, pattern: Pattern, min: Option<Bound>, max: Option<Bound>, options: seq<string>)

  datatype Localization = Localization(name: string, description: string)

  datatype ConfigField = ConfigField(
    key: string, name: string, kind: FieldType, required: bool, raw: Raw, rules: Rules,
    requiredWith: seq<string>, i18n: map<string, Localization>)

  // lifecycle: credential kind, material format, rotation, expiry and test requirement are all known
  datatype SecretField = SecretField(
    key: string, name: string, required: bool, lifecycle: bool, i18n: map<string, Localization>)

  // publicIdentityPattern
  predicate CanonicalKey(s: string) {
    1 <= |s| <= 128 && 'a' <= s[0] <= 'z'
    && forall i :: 0 <= i < |s| ==> 'a' <= s[i] <= 'z' || '0' <= s[i] <= '9' || s[i] == '_' || s[i] == '-'
  }

  predicate Localized(i18n: map<string, Localization>) {
    forall l :: l in i18n ==>
      !Blank(l) && TrimSpace(l) == l && (!Blank(i18n[l].name) || !Blank(i18n[l].description))
  }

  // validateConfigRules
  predicate ValidRules(f: ConfigField) {
    var r := f.rules;
    && (r.minLength != 0 || r.maxLength != 0 || !r.pattern.NoPattern? ==> f.kind.TextType? || f.kind.EmailType?)
    && (r.min.Some? || r.max.Some? ==> f.kind.IntegerType? || f.kind.DecimalType?)
    && r.minLength >= 0 && r.maxLength >= 0 && (r.maxLength > 0 ==> r.minLength <= r.maxLength)
    && (r.min.Some? ==> r.min.value.Finite?) && (r.max.Some? ==> r.max.value.Finite?)
    && (r.min.Some? && r.max.Some? ==> r.min.value.value <= r.max.value.value)
    && !r.pattern.Broken?
    && (forall i :: 0 <= i < |r.options| ==> !Blank(r.options[i]) && TrimSpace(r.options[i]) == r.options[i])
    && Unique(r.options)
    && (f.kind.SelectType? <==> r.options != [])
  }

  // configDefaultMatchesType
  predicate MatchesType(v: Value, kind: FieldType) {
    match kind
    case TextType | EmailType | SelectType => v.Str?
    case IntegerType => v.Number? && v.int64
    case DecimalType => v.Number? && v.finite
    case BooleanType => v.Bool?
    case JsonType => true
    case UnknownType => false
  }

  predicate AtMost(a: Bound, b: Bound) { a.Finite? && b.Finite? && a.value <= b.value }

  // validateConfigDefaultRules, on rules that are valid
  predicate MeetsRules(f: ConfigField, v: Value) {
    (f.kind.SelectType? && v.Str? ==> v.text in f.rules.options)
    && (v.Str? ==> (f.rules.minLength > 0 ==> |v.text| >= f.rules.minLength)
                   && (f.rules.maxLength > 0 ==> |v.text| <= f.rules.maxLength)
                   && (f.rules.pattern.Compiled? ==> f.rules.pattern.acceptsDefault))
    && (v.Number? ==> v.finite && (f.rules.min.Some? ==> AtMost(f.rules.min.value, Finite(v.value)))
                      && (f.rules.max.Some? ==> AtMost(Finite(v.value), f.rules.max.value)))
  }

  predicate ValidField(f: ConfigField) {
    CanonicalKey(f.key) && !Blank(f.name) && !f.kind.UnknownType? && Localized(f.i18n) && ValidRules(f)
    && (f.raw != [] ==>
          var v := DecodeDefault(f.raw);
          v.Some? && MatchesType(v.value, f.kind) && MeetsRules(f, v.value))
    && (forall i :: 0 <= i < |f.requiredWith| ==> CanonicalKey(f.requiredWith[i]) && f.requiredWith[i] != f.key)
    && Unique(f.requiredWith)
  }

  predicate ValidSecret(f: SecretField) {
    CanonicalKey(f.key) && !Blank(f.name) && Localized(f.i18n) && f.lifecycle
  }

  // ----- Reliability

  datatype Effect = Read | Reserve | Write | UnknownEffect

  datatype Strategy = NoIdempotency | Natural | ProviderKey | UnknownStrategy

  datatype Reconciliation = NoLookup | ProviderLookup | UnknownLookup

  datatype Compensation = NoCompensation | Explicit | Saga | UnknownCompensation

  datatype Reliability = Reliability(
    effect: Effect, strategy: Strategy, retention: int, reconciliation: Reconciliation,
    compensation: Compensation, compensationKey: string)

  // ReliabilityContract.Validate
  predicate ValidReliability(c: Reliability, operationKey: string) {
    var target := TrimSpace(c.compensationKey);
    && !c.effect.UnknownEffect? && !c.strategy.UnknownStrategy?
    && (if c.strategy.ProviderKey? then c.retention > 0 else c.retention == 0)
    && (c.effect.Read? ==> c.strategy.Natural?)
    && !c.reconciliation.UnknownLookup? && (c.reconciliation.ProviderLookup? ==> !c.effect.Read?)
    && match c.compensation
       case NoCompensation => target == ""
       case Explicit | Saga => !c.effect.Read? && target != "" && target != TrimSpace(operationKey)
       case UnknownCompensation => false
  }

  // ----- Operations and descriptors

  datatype Mode = CallMode | EnqueueMode | StartMode | UnknownMode

  datatype Operation = Operation(
    connectorKey: string, providerKey: string, key: string, mode: Mode, contract: string, reliability: Reliability)

  // operationContractSHA256Pattern
  predicate ContractHash(s: string) {
    |s| == 64 && forall i :: 0 <= i < 64 ==> 'a' <= s[i] <= 'f' || '0' <= s[i] <= '9'
  }

  predicate ValidOperation(o: Operation) {
    !Blank(o.connectorKey) && !Blank(o.providerKey) && !Blank(o.key) && !o.mode.UnknownMode?
    && ContractHash(o.contract) && ValidReliability(o.reliability, o.key)
  }

  datatype Startup = Manual | DefaultSafe | UnknownStartup

  datatype Descriptor = Descriptor(
    connectorKey: string, providerKey: string, revision: string, startup: Startup,
    fields: seq<ConfigField>, secrets: seq<SecretField>, operations: seq<Operation>)

  function FieldKeys(fields: seq<ConfigField>): seq<string> {
    seq(|fields|, i requires 0 <= i < |fields| => fields[i].key)
  }

  function SecretKeys(secrets: seq<SecretField>): seq<string> {
    seq(|secrets|, i requires 0 <= i < |secrets| => secrets[i].key)
  }

  // ProviderSchema.Validate
  predicate ValidSchema(d: Descriptor) {
    CanonicalKey(d.connectorKey) && CanonicalKey(d.providerKey)
    && !Blank(d.revision) && TrimSpace(d.revision) == d.revision && !d.startup.UnknownStartup?
    && (forall i :: 0 <= i < |d.fields| ==> ValidField(d.fields[i]))
    && (forall i :: 0 <= i < |d.secrets| ==> ValidSecret(d.secrets[i]))
    && Unique(FieldKeys(d.fields) + SecretKeys(d.secrets))
    && (forall i, k :: 0 <= i < |d.fields| && 0 <= k < |d.fields[i].requiredWith| ==>
          d.fields[i].requiredWith[k] in FieldKeys(d.fields))
    && (d.startup.DefaultSafe? ==>
          (forall i :: 0 <= i < |d.fields| && d.fields[i].required ==> d.fields[i].raw != [])
          && (forall i :: 0 <= i < |d.secrets| ==> !d.secrets[i].required))
  }

  predicate DistinctOperations(ops: seq<Operation>) {
    forall i, j :: 0 <= i < j < |ops| ==> ops[i].key != ops[j].key
  }

  predicate AllValid(ops: seq<Operation>) {
    forall i :: 0 <= i < |ops| ==> ValidOperation(ops[i])
  }

  // What the descriptor rules demand of a compensation target.
  predicate GoodTarget(o: Operation) {
    o.mode.EnqueueMode? && o.reliability.effect.Write? && !o.reliability.strategy.NoIdempotency?
    && o.reliability.reconciliation.ProviderLookup? && o.reliability.compensation.NoCompensation?
  }

  predicate Compensates(from: Operation, to: Operation) {
    !from.reliability.compensation.NoCompensation? && to.key == TrimSpace(from.reliability.compensationKey)
  }

  predicate CompensationSound(ops: seq<Operation>, i: nat)
    requires i < |ops|
  {
    !ops[i].reliability.compensation.NoCompensation? ==>
      exists j :: 0 <= j < |ops| && Compensates(ops[i], ops[j]) && GoodTarget(ops[j])
  }

  // ProviderDescriptor.Validate
  predicate ValidDescriptor(d: Descriptor) {
    ValidSchema(d) && d.operations != []
    && AllValid(d.operations) && DistinctOperations(d.operations)
    && (forall i :: 0 <= i < |d.operations| ==> CompensationSound(d.operations, i))
  }

  ghost predicate IndexOf(seen: map<string, Operation>, ops: seq<Operation>) {
    (forall k :: 0 <= k < |ops| ==> ops[k].key in seen && seen[ops[k].key] == ops[k])
    && forall key :: key in seen ==> exists k :: 0 <= k < |ops| && ops[k].key == key
  }

  // The code's two passes over the operations: index them by key, then look every target up.
  method ValidateOperations(ops: seq<Operation>) returns (ok: bool)
    ensures ok <==> AllValid(ops) && DistinctOperations(ops)
                    && forall i :: 0 <= i < |ops| ==> CompensationSound(ops, i)
  {
    hide AllValid, DistinctOperations, IndexOf, CompensationSound;
    var seen := IndexOperations(ops);
    if seen == None {
      return false;
    }
    for i := 0 to |ops|
      invariant forall k :: 0 <= k < i ==> CompensationSound(ops, k)
    {
      var sound := TargetSound(ops, seen.value, i);
      if !sound {
        return false;
      }
    }
    return true;
  }

  method IndexOperations(ops: seq<Operation>) returns (index: Option<map<string, Operation>>)
    ensures index.Some? <==> AllValid(ops) && DistinctOperations(ops)
    ensures index.Some? ==> IndexOf(index.value, ops)
  {
    var seen: map<string, Operation> := map[];
    for i := 0 to |ops|
      invariant AllValid(ops[..i]) && DistinctOperations(ops[..i]) && IndexOf(seen, ops[..i])
    {
      assert ops[..i + 1] == ops[..i] + [ops[i]];
      if !ValidOperation(ops[i]) || ops[i].key in seen {
        Refused(ops, i, seen);
        return None;
      }
      IndexExtends(seen, ops[..i], ops[i]);
      seen := seen[ops[i].key := ops[i]];
    }
    assert ops[..|ops|] == ops;
    index := Some(seen);
  }

  lemma Refused(ops: seq<Operation>, i: nat, seen: map<string, Operation>)
    requires i < |ops| && IndexOf(seen, ops[..i])
    requires !ValidOperation(ops[i]) || ops[i].key in seen
    ensures !(AllValid(ops) && DistinctOperations(ops))
  {
    if ops[i].key in seen {
      var k :| 0 <= k < i && ops[..i][k].key == ops[i].key;
      assert ops[k].key == ops[i].key;
    }
  }

  lemma IndexExtends(seen: map<string, Operation>, ops: seq<Operation>, o: Operation)
    requires IndexOf(seen, ops) && AllValid(ops) && DistinctOperations(ops)
    requires ValidOperation(o) && o.key !in seen
    ensures IndexOf(seen[o.key := o], ops + [o]) && AllValid(ops + [o]) && DistinctOperations(ops + [o])
  {
    hide ValidOperation, IndexOf;
    KeysExtend(seen, ops, o);
    KnownKeys(seen, ops);
  }

  lemma KnownKeys(seen: map<string, Operation>, ops: seq<Operation>)
    requires IndexOf(seen, ops)
    ensures forall k :: 0 <= k < |ops| ==> ops[k].key in seen
  {}

  lemma KeysExtend(seen: map<string, Operation>, ops: seq<Operation>, o: Operation)
    requires IndexOf(seen, ops) && o.key !in seen
    ensures IndexOf(seen[o.key := o], ops + [o])
  {
    var more, longer := seen[o.key := o], ops + [o];
    forall key | key in more ensures exists k :: 0 <= k < |longer| && longer[k].key == key {
      if key == o.key {
        assert longer[|ops|].key == key;
      } else {
        var k :| 0 <= k < |ops| && ops[k].key == key;
        assert longer[k].key == key;
      }
    }
  }

  method TargetSound(ops: seq<Operation>, seen: map<string, Operation>, i: nat) returns (sound: bool)
    requires i < |ops| && IndexOf(seen, ops)
    ensures sound == CompensationSound(ops, i)
  {
    if ops[i].reliability.compensation.NoCompensation? {
      return true;
    }
    var target := TrimSpace(ops[i].reliability.compensationKey);
    if target !in seen {
      return false;
    }
    ghost var k :| 0 <= k < |ops| && ops[k].key == target;
    assert Compensates(ops[i], ops[k]);
    assert forall j :: 0 <= j < |ops| && Compensates(ops[i], ops[j]) ==> ops[j] == ops[k];
    return GoodTarget(seen[target]);
  }

  method RequiresReconciler(d: Descriptor) returns (r: bool)
    ensures r <==> NeedsReconciler(d)
  {
    for i := 0 to |d.operations|
      invariant forall k :: 0 <= k < i ==> !d.operations[k].reliability.reconciliation.ProviderLookup?
    {
      if d.operations[i].reliability.reconciliation.ProviderLookup? {
        return true;
      }
    }
    return false;
  }

  predicate NeedsReconciler(d: Descriptor) {
    exists i :: 0 <= i < |d.operations| && d.operations[i].reliability.reconciliation.ProviderLookup?
  }

  // ----- Which operations are valid

  // What may be declared for each effect. A read is naturally idempotent and asks for nothing else;
  // a reservation or a write may retain provider keys for some time, be looked up, and name another
  // operation that compensates it.
  lemma EffectAllows(c: Reliability, operationKey: string)
    ensures ValidReliability(c, operationKey) <==>
      && Settled(c, operationKey)
      && match c.effect
         case Read =>
           c.strategy.Natural? && c.reconciliation.NoLookup? && c.compensation.NoCompensation?
         case Reserve | Write =>
           (c.strategy.NoIdempotency? || c.strategy.Natural? || c.strategy.ProviderKey?)
           && (c.reconciliation.NoLookup? || c.reconciliation.ProviderLookup?)
           && !c.compensation.UnknownCompensation?
         case UnknownEffect => false
  {
    hide TrimSpace;
  }

  // A retention exactly for provider keys, and the key of another operation exactly where one
  // compensates.
  predicate Settled(c: Reliability, operationKey: string) {
    && (c.strategy == ProviderKey <==> c.retention > 0) && c.retention >= 0
    && (c.compensation.NoCompensation? <==> TrimSpace(c.compensationKey) == "")
    && (c.compensation.NoCompensation? || TrimSpace(c.compensationKey) != TrimSpace(operationKey))
  }

  // An operation is valid when its three keys are not just spaces, its mode is known, its contract is
  // 64 lower-case hexadecimal digits, and its effect allows what it declares.
  lemma OperationIsValid(o: Operation)
    ensures ValidOperation(o) <==>
      && (forall key :: key in {o.connectorKey, o.providerKey, o.key} ==>
            exists i :: 0 <= i < |key| && !IsSpace(key[i]))
      && o.mode in {CallMode, EnqueueMode, StartMode}
      && |o.contract| == 64 && (forall i :: 0 <= i < 64 ==> o.contract[i] in "0123456789abcdef")
      && ValidReliability(o.reliability, o.key)
  {
    hide TrimSpace, ValidReliability;
    BlankIsSpace(o.connectorKey);
    BlankIsSpace(o.providerKey);
    BlankIsSpace(o.key);
    forall c: char ensures c in "0123456789abcdef" <==> 'a' <= c <= 'f' || '0' <= c <= '9' { HexDigits(c); }
  }

  lemma HexDigits(c: char)
    ensures c in "0123456789abcdef" <==> 'a' <= c <= 'f' || '0' <= c <= '9'
  {
    var s := "0123456789abcdef";
    if '0' <= c <= '9' { assert s[c as int - '0' as int] == c; }
    if 'a' <= c <= 'f' { assert s[c as int - 'a' as int + 10] == c; }
  }

  // ----- The compensation graph

  // The operation leads to a listed enqueue write that is idempotent, can be looked up and has no
  // compensation of its own.
  predicate Compensated(ops: seq<Operation>, o: Operation) {
    exists j :: 0 <= j < |ops| && ops[j].key == TrimSpace(o.reliability.compensationKey)
      && ops[j].mode == EnqueueMode
      && ops[j].reliability.effect == Write
      && ops[j].reliability.strategy in {Natural, ProviderKey}
      && ops[j].reliability.reconciliation == ProviderLookup
      && ops[j].reliability.compensation == NoCompensation
  }

  // Of operations that are valid one by one the compensations are accepted exactly when each declared
  // one leads to such a target. Nothing else is asked of either end.
  lemma CompensationsExactly(ops: seq<Operation>)
    requires AllValid(ops)
    ensures (forall i :: 0 <= i < |ops| ==> CompensationSound(ops, i)) <==>
      forall i :: 0 <= i < |ops| && ops[i].reliability.compensation in {Explicit, Saga} ==> Compensated(ops, ops[i])
  {
    hide TrimSpace, Blank, ContractHash;
    forall i | 0 <= i < |ops|
      ensures CompensationSound(ops, i) <==>
        (ops[i].reliability.compensation in {Explicit, Saga} ==> Compensated(ops, ops[i]))
    {
      assert ValidOperation(ops[i]);
      forall j | 0 <= j < |ops| ensures !ops[j].reliability.strategy.UnknownStrategy? { assert ValidOperation(ops[j]); }
    }
  }

  // A descriptor is its schema and at least one operation, valid one by one and with different keys,
  // whose compensations lead to such targets.
  lemma DescriptorIsValid(d: Descriptor)
    ensures ValidDescriptor(d) <==>
      && ValidSchema(d) && |d.operations| >= 1
      && (forall i :: 0 <= i < |d.operations| ==> ValidOperation(d.operations[i]))
      && (forall i, j :: 0 <= i < j < |d.operations| ==> d.operations[i].key != d.operations[j].key)
      && forall i :: 0 <= i < |d.operations| && d.operations[i].reliability.compensation in {Explicit, Saga} ==>
           Compensated(d.operations, d.operations[i])
  {
    hide ValidSchema, ValidOperation, CompensationSound, Compensated;
    if AllValid(d.operations) { CompensationsExactly(d.operations); }
  }

  // A walk along compensation edges, as indices of operations.
  predicate Walk(ops: seq<Operation>, p: seq<nat>) {
    (forall i :: 0 <= i < |p| ==> p[i] < |ops|)
    && forall i :: 0 < i < |p| ==> Compensates(ops[p[i - 1]], ops[p[i]])
  }

  // Every declared compensation has exactly one target, another operation, which is an idempotent,
  // reconcilable enqueue write.
  lemma UniqueTarget(d: Descriptor, i: nat) returns (j: nat)
    requires ValidDescriptor(d) && i < |d.operations|
    requires !d.operations[i].reliability.compensation.NoCompensation?
    ensures j < |d.operations| && j != i && Compensates(d.operations[i], d.operations[j])
    ensures forall k :: 0 <= k < |d.operations| && Compensates(d.operations[i], d.operations[k]) ==> k == j
    ensures var t := d.operations[j];
      && t.mode.EnqueueMode? && t.reliability.effect.Write? && t.reliability.reconciliation.ProviderLookup?
      && (t.reliability.strategy.Natural? || t.reliability.strategy.ProviderKey?)
      && t.reliability.compensation.NoCompensation?
  {
    var ops := d.operations;
    assert CompensationSound(ops, i);
    j :| 0 <= j < |ops| && Compensates(ops[i], ops[j]) && GoodTarget(ops[j]);
    assert ValidOperation(ops[j]);
  }

  // So no walk has more than one edge, and in particular there is no cycle.
  lemma NoCompensationChain(d: Descriptor, p: seq<nat>)
    requires ValidDescriptor(d) && Walk(d.operations, p)
    ensures |p| <= 2 && (|p| == 2 ==> p[0] != p[1])
  {
    if |p| >= 2 {
      assert Compensates(d.operations[p[0]], d.operations[p[1]]);
      var j := UniqueTarget(d, p[0]);
      assert |p| >= 3 ==> Compensates(d.operations[p[1]], d.operations[p[2]]);
    }
  }

  // A declared compensation makes the provider need a Reconciler, though the operation that
  // declares it may ask for no reconciliation itself.
  lemma CompensationNeedsReconciler(d: Descriptor, i: nat)
    requires ValidDescriptor(d) && i < |d.operations|
    requires !d.operations[i].reliability.compensation.NoCompensation?
    ensures NeedsReconciler(d)
  {
    var j := UniqueTarget(d, i);
  }
}
