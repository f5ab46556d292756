/** The heap side of provider.go and oauth.go: descriptors and scope lists as Go lays them out, in
    slices, pointers and maps that callers share, and the clone functions that cut the sharing.
    R names a set of objects that holds everything a value is made of. */
module Snapshots {
  import opened Wrappers
  import opened Provider
  import opened RegistryModel

  // *float64
  class Cell {
    var value: Bound

    constructor (v: Bound)
      ensures value == v
    {
      value := v;
    }
  }

  // map[string]FieldLocalization
  class Localizations {
    var entries: map<string, Localization>

    constructor (m: map<string, Localization>)
      ensures entries == m
    {
      entries := m;
    }
  }

  datatype FieldRef = FieldRef(
    key: string, name: string, kind: FieldType, required: bool, raw: array<Lexeme>,
    minLength: int, maxLength: int, pattern: Pattern, min: Cell?, max: Cell?, options: array<string>,
    requiredWith: array<string>, i18n: Localizations?)

  datatype SecretRef = SecretRef(key: string, name: string, required: bool, lifecycle: bool, i18n: Localizations?)

  datatype DescriptorRef = DescriptorRef(
    connectorKey: string, providerKey: string, revision: string, startup: Startup,
    fields: array<FieldRef>, secrets: array<SecretRef>, operations: array<Operation>)

  // ----- Cells and maps

  ghost predicate CellIn(c: Cell?, R: set<object>) { c != null ==> c in R }

  function ReadCell(c: Cell?, ghost R: set<object>): Option<Bound>
    requires CellIn(c, R)
    reads R
  {
    if c == null then None else Some(c.value)
  }

  method CloneCell(c: Cell?, ghost R: set<object>) returns (r: Cell?, ghost Q: set<object>)
    requires CellIn(c, R)
    ensures fresh(Q) && CellIn(r, Q) && ReadCell(r, Q) == old(ReadCell(c, R))
  {
    r, Q := null, {};
    if c != null {
      r := new Cell(c.value);
      Q := {r};
    }
  }

  ghost predicate MapIn(m: Localizations?, R: set<object>) { m != null ==> m in R }

  function ReadMap(m: Localizations?, ghost R: set<object>): map<string, Localization>
    requires MapIn(m, R)
    reads R
  {
    if m == null then map[] else m.entries
  }

  method CloneMap(m: Localizations?, ghost R: set<object>) returns (r: Localizations?, ghost Q: set<object>)
    requires MapIn(m, R)
    ensures fresh(Q) && MapIn(r, Q) && ReadMap(r, Q) == old(ReadMap(m, R))
  {
    r, Q := null, {};
    if m != null {
      r := new Localizations(m.entries);
      Q := {r};
    }
  }

  // append([]T(nil), a...)
  method CloneArray<T>(a: array<T>) returns (b: array<T>)
    ensures fresh(b) && b[..] == old(a[..])
  {
    b := new T[a.Length](i requires 0 <= i < a.Length reads a => a[i]);
  }

  // ----- Fields

  ghost predicate FieldIn(f: FieldRef, R: set<object>) {
    f.raw in R && f.options in R && f.requiredWith in R && CellIn(f.min, R) && CellIn(f.max, R) && MapIn(f.i18n, R)
  }

  function ReadField(f: FieldRef, ghost R: set<object>): ConfigField
    requires FieldIn(f, R)
    reads R
  {
    ConfigField(f.key, f.name, f.kind, f.required, f.raw[..],
                Rules(f.minLength, f.maxLength, f.pattern, ReadCell(f.min, R), ReadCell(f.max, R), f.options[..]),
                f.requiredWith[..], ReadMap(f.i18n, R))
  }

  method CloneField(f: FieldRef, ghost R: set<object>) returns (r: FieldRef, ghost Q: set<object>)
    requires FieldIn(f, R)
    ensures fresh(Q) && FieldIn(r, Q) && ReadField(r, Q) == old(ReadField(f, R))
  {
    var raw := CloneArray(f.raw);
    var options := CloneArray(f.options);
    var min, minQ := CloneCell(f.min, R);
    var max, maxQ := CloneCell(f.max, R);
    var requiredWith := CloneArray(f.requiredWith);
    var i18n, mapQ := CloneMap(f.i18n, R);
    r := f.(raw := raw, options := options, min := min, max := max, requiredWith := requiredWith, i18n := i18n);
    Q := {raw} + {options, requiredWith} + minQ + maxQ + mapQ;
  }

  ghost predicate FieldsIn(a: array<FieldRef>, R: set<object>)
    reads R
  {
    a in R && forall i :: 0 <= i < a.Length ==> FieldIn(a[i], R)
  }

  function ReadFields(a: array<FieldRef>, ghost R: set<object>): (r: seq<ConfigField>)
    requires FieldsIn(a, R)
    reads R
    ensures |r| == a.Length && forall i :: 0 <= i < a.Length ==> r[i] == ReadField(a[i], R)
  {
    seq(a.Length, i requires 0 <= i < a.Length && FieldsIn(a, R) reads R => ReadField(a[i], R))
  }

  method CloneConfigFields(a: array<FieldRef>, ghost R: set<object>) returns (b: array<FieldRef>, ghost Q: set<object>)
    requires FieldsIn(a, R)
    ensures fresh(Q) && FieldsIn(b, Q) && ReadFields(b, Q) == old(ReadFields(a, R))
  {
    hide ReadField, FieldIn;
    var clones: seq<FieldRef> := [];
    Q := {};
    for i := 0 to a.Length
      invariant |clones| == i && fresh(Q)
      invariant forall k :: 0 <= k < i ==> FieldIn(clones[k], Q) && ReadField(clones[k], Q) == old(ReadField(a[k], R))
    {
      var r, more := CloneField(a[i], R);
      forall k | 0 <= k < i
        ensures FieldIn(clones[k], Q + more) && ReadField(clones[k], Q + more) == ReadField(clones[k], Q)
      {
        FieldGrows(clones[k], Q, Q + more);
      }
      FieldGrows(r, more, Q + more);
      clones := clones + [r];
      Q := Q + more;
    }
    b := new FieldRef[a.Length](i requires 0 <= i < a.Length => clones[i]);
    forall k | 0 <= k < a.Length
      ensures FieldIn(clones[k], Q + {b}) && ReadField(clones[k], Q + {b}) == ReadField(clones[k], Q)
    {
      FieldGrows(clones[k], Q, Q + {b});
    }
    Q := Q + {b};
  }

  // Naming more objects than needed changes nothing.
  lemma FieldGrows(f: FieldRef, R: set<object>, P: set<object>)
    requires FieldIn(f, R) && R <= P
    ensures FieldIn(f, P) && ReadField(f, P) == ReadField(f, R)
  {}

  ghost predicate SecretsIn(a: array<SecretRef>, R: set<object>)
    reads R
  {
    a in R && forall i :: 0 <= i < a.Length ==> MapIn(a[i].i18n, R)
  }

  function ReadSecret(f: SecretRef, ghost R: set<object>): SecretField
    requires MapIn(f.i18n, R)
    reads R
  {
    SecretField(f.key, f.name, f.required, f.lifecycle, ReadMap(f.i18n, R))
  }

  function ReadSecrets(a: array<SecretRef>, ghost R: set<object>): (r: seq<SecretField>)
    requires SecretsIn(a, R)
    reads R
    ensures |r| == a.Length && forall i :: 0 <= i < a.Length ==> r[i] == ReadSecret(a[i], R)
  {
    seq(a.Length, i requires 0 <= i < a.Length && SecretsIn(a, R) reads R => ReadSecret(a[i], R))
  }

  method CloneSecretFields(a: array<SecretRef>, ghost R: set<object>)
    returns (b: array<SecretRef>, ghost Q: set<object>)
    requires SecretsIn(a, R)
    ensures fresh(Q) && SecretsIn(b, Q) && ReadSecrets(b, Q) == old(ReadSecrets(a, R))
  {
    var clones: seq<SecretRef> := [];
    Q := {};
    for i := 0 to a.Length
      invariant |clones| == i && fresh(Q)
      invariant forall k :: 0 <= k < i ==>
        MapIn(clones[k].i18n, Q) && ReadSecret(clones[k], Q) == old(ReadSecret(a[k], R))
    {
      var i18n, more := CloneMap(a[i].i18n, R);
      clones := clones + [a[i].(i18n := i18n)];
      Q := Q + more;
    }
    b := new SecretRef[a.Length](i requires 0 <= i < a.Length => clones[i]);
    Q := Q + {b};
  }

  lemma FieldsGrow(a: array<FieldRef>, R: set<object>, P: set<object>)
    requires FieldsIn(a, R) && R <= P
    ensures FieldsIn(a, P) && ReadFields(a, P) == ReadFields(a, R)
  {
    forall i | 0 <= i < a.Length ensures FieldIn(a[i], P) && ReadField(a[i], P) == ReadField(a[i], R) {}
  }

  lemma SecretsGrow(a: array<SecretRef>, R: set<object>, P: set<object>)
    requires SecretsIn(a, R) && R <= P
    ensures SecretsIn(a, P) && ReadSecrets(a, P) == ReadSecrets(a, R)
  {}

  // ----- Descriptors

  ghost predicate DescriptorIn(d: DescriptorRef, R: set<object>)
    reads R
  {
    FieldsIn(d.fields, R) && SecretsIn(d.secrets, R) && d.operations in R
  }

  function ReadDescriptor(d: DescriptorRef, ghost R: set<object>): Descriptor
    requires DescriptorIn(d, R)
    reads R
  {
    Descriptor(d.connectorKey, d.providerKey, d.revision, d.startup,
               ReadFields(d.fields, R), ReadSecrets(d.secrets, R), d.operations[..])
  }

  // cloneProviderDescriptor: the same value in objects no one else has.
  method CloneProviderDescriptor(d: DescriptorRef, ghost R: set<object>)
    returns (r: DescriptorRef, ghost Q: set<object>)
    requires DescriptorIn(d, R)
    ensures fresh(Q) && DescriptorIn(r, Q) && ReadDescriptor(r, Q) == old(ReadDescriptor(d, R))
  {
    hide FieldsIn, ReadFields, SecretsIn, ReadSecrets;
    var fields, fieldQ := CloneConfigFields(d.fields, R);
    var secrets, secretQ := CloneSecretFields(d.secrets, R);
    var operations := CloneArray(d.operations);
    r := DescriptorRef(d.connectorKey, d.providerKey, d.revision, d.startup, fields, secrets, operations);
    Q := fieldQ + secretQ + {operations};
    FieldsGrow(fields, fieldQ, Q);
    SecretsGrow(secrets, secretQ, Q);
  }

  // ----- OAuth scope alternatives: two levels of slices, nil allowed outside

  type ScopeRef = array?<array<string>>

  ghost predicate ScopesIn(s: ScopeRef, R: set<object>)
    reads R
  {
    s != null ==> s in R && forall i :: 0 <= i < s.Length ==> s[i] in R
  }

  function ReadScopes(s: ScopeRef, ghost R: set<object>): (r: Scopes)
    requires ScopesIn(s, R)
    reads R
    ensures s != null ==> |r| == s.Length && forall i :: 0 <= i < s.Length ==> r[i] == s[i][..]
  {
    if s == null then []
    else seq(s.Length, i requires 0 <= i < s.Length && ScopesIn(s, R) reads R => s[i][..])
  }

  // cloneOAuthScopeAlternatives: both levels are copied, and nil stays nil.
  method CloneScopes(s: ScopeRef, ghost R: set<object>) returns (r: ScopeRef, ghost Q: set<object>)
    requires ScopesIn(s, R)
    ensures fresh(Q) && ScopesIn(r, Q) && ReadScopes(r, Q) == old(ReadScopes(s, R))
    ensures r == null <==> s == null
  {
    Q := {};
    if s == null {
      return null, Q;
    }
    var clones: seq<array<string>> := [];
    for i := 0 to s.Length
      invariant |clones| == i && fresh(Q)
      invariant forall k :: 0 <= k < i ==> clones[k] in Q && clones[k][..] == old(s[k][..])
    {
      var inner := CloneArray(s[i]);
      clones := clones + [inner];
      Q := Q + {inner};
    }
    r := new array<string>[s.Length](i requires 0 <= i < s.Length => clones[i]);
    Q := Q + {r};
  }

  // ----- All the scopes of one adapter: the connection test's and each operation's

  datatype ScopeBook = ScopeBook(test: ScopeRef, declared: bool, operations: map<string, ScopeRef>)

  ghost predicate ScopeMapIn(m: map<string, ScopeRef>, R: set<object>)
    reads R
  {
    forall k :: k in m ==> ScopesIn(m[k], R)
  }

  function ReadScopeMap(m: map<string, ScopeRef>, ghost R: set<object>): (r: map<string, Scopes>)
    requires ScopeMapIn(m, R)
    reads R
    ensures r.Keys == m.Keys
  {
    map k | k in m :: ReadScopes(m[k], R)
  }

  lemma ScopesGrow(s: ScopeRef, R: set<object>, P: set<object>)
    requires ScopesIn(s, R) && R <= P
    ensures ScopesIn(s, P) && ReadScopes(s, P) == ReadScopes(s, R)
  {}

  lemma ScopeMapGrows(m: map<string, ScopeRef>, R: set<object>, P: set<object>)
    requires ScopeMapIn(m, R) && R <= P
    ensures ScopeMapIn(m, P) && ReadScopeMap(m, P) == ReadScopeMap(m, R)
  {
    forall k | k in m ensures ScopesIn(m[k], P) && ReadScopes(m[k], P) == ReadScopes(m[k], R) {
      ScopesGrow(m[k], R, P);
    }
  }

  lemma PickNone(ops: seq<Operation>, m: map<string, Scopes>)
    ensures Pick(ops[..0], m) == map[]
  {}

  lemma PickNext(ops: seq<Operation>, i: nat, m: map<string, Scopes>)
    requires i < |ops|
    ensures var key := ops[i].key;
      Pick(ops[..i + 1], m) == if key in m then Pick(ops[..i], m)[key := m[key]] else Pick(ops[..i], m)
  {
    assert ops[..i + 1] == ops[..i] + [ops[i]];
    assert OperationKeys(ops[..i + 1]) == OperationKeys(ops[..i]) + {ops[i].key};
  }

  method NoScopes() returns (r: map<string, ScopeRef>, ghost Q: set<object>)
    ensures Q == {} && ScopeMapIn(r, Q) && ReadScopeMap(r, Q) == map[]
  {
    r, Q := map[], {};
  }

  // The loop of freezeAdapter: the declared scopes of the descriptor's operations, each cloned.
  method CloneScopeMap(ops: seq<Operation>, m: map<string, ScopeRef>, ghost R: set<object>)
    returns (r: map<string, ScopeRef>, ghost Q: set<object>)
    requires ScopeMapIn(m, R)
    ensures fresh(Q) && ScopeMapIn(r, Q)
    ensures ReadScopeMap(r, Q) == Pick(ops, old(ReadScopeMap(m, R)))
  {
    hide ScopeMapIn, ReadScopeMap, Pick;
    r, Q := NoScopes();
    PickNone(ops, ReadScopeMap(m, R));
    for i := 0 to |ops|
      invariant fresh(Q) && ScopeMapIn(r, Q)
      invariant ReadScopeMap(r, Q) == Pick(ops[..i], old(ReadScopeMap(m, R)))
    {
      assert ReadScopeMap(m, R) == old(ReadScopeMap(m, R));
      r, Q := CloneNext(ops[i].key, m, R, r, Q);
      PickNext(ops, i, old(ReadScopeMap(m, R)));
    }
    assert ops[..|ops|] == ops;
  }

  method CloneNext(key: string, m: map<string, ScopeRef>, ghost R: set<object>,
                   r: map<string, ScopeRef>, ghost Q: set<object>)
    returns (r': map<string, ScopeRef>, ghost Q': set<object>)
    requires ScopeMapIn(m, R) && ScopeMapIn(r, Q)
    ensures Q <= Q' && fresh(Q' - Q) && ScopeMapIn(r', Q')
    ensures var before := old(ReadScopeMap(r, Q));
      ReadScopeMap(r', Q') == if key in m then before[key := old(ReadScopeMap(m, R))[key]] else before
  {
    r', Q' := r, Q;
    if key in m {
      var scopes, more := CloneScopes(m[key], R);
      Q' := Q + more;
      ScopeMapGrows(r, Q, Q');
      ScopesGrow(scopes, more, Q');
      r' := r[key := scopes];
    }
  }

  ghost predicate BookIn(b: ScopeBook, R: set<object>)
    reads R
  {
    ScopesIn(b.test, R) && ScopeMapIn(b.operations, R)
  }

  function ReadTest(b: ScopeBook, ghost R: set<object>): Option<Scopes>
    requires BookIn(b, R)
    reads R
  {
    if b.declared then Some(ReadScopes(b.test, R)) else None
  }

  function ReadOperations(b: ScopeBook, ghost R: set<object>): map<string, Scopes>
    requires BookIn(b, R)
    reads R
  {
    ReadScopeMap(b.operations, R)
  }

  // ResolveOAuthConnectionTestScopes, then the operations.
  method CloneBook(ops: seq<Operation>, b: ScopeBook, ghost R: set<object>) returns (r: ScopeBook, ghost Q: set<object>)
    requires BookIn(b, R)
    ensures fresh(Q) && BookIn(r, Q) && ReadTest(r, Q) == old(ReadTest(b, R))
    ensures ReadOperations(r, Q) == Pick(ops, old(ReadOperations(b, R)))
  {
    var test: ScopeRef := null;
    ghost var testQ: set<object> := {};
    if b.declared {
      test, testQ := CloneScopes(b.test, R);
    }
    var operations, mapQ := CloneScopeMap(ops, b.operations, R);
    r := ScopeBook(test, b.declared, operations);
    Q := testQ + mapQ;
    ScopesGrow(test, testQ, Q);
    ScopeMapGrows(operations, mapQ, Q);
  }
}
