/** ApplyConfigDefaults of schema.go: one pass over the fields, and the least fixpoint that
    repeated passes reach. */
module ConfigDefaults {
  import opened Wrappers
  import opened Text
  import opened Provider

  type Config = map<string, Value>

  // configValuePresent
  predicate Present(c: Config, key: string) {
    var k := TrimSpace(key);
    k in c && !c[k].Null? && (c[k].Str? ==> !Blank(c[k].text))
  }

  predicate Ready(f: ConfigField, c: Config) {
    forall i :: 0 <= i < |f.requiredWith| ==> Present(c, f.requiredWith[i])
  }

  // The field would be given its default now.
  predicate Enabled(f: ConfigField, c: Config) { f.key !in c && f.raw != [] && Ready(f, c) }

  function Fill(f: ConfigField, c: Config): Result<Config, string> {
    if !Enabled(f, c) then Success(c)
    else match DecodeDefault(f.raw)
      case None => Failure(f.key)
      case Some(v) => Success(c[f.key := v])
  }

  // One call: the fields in order, stopping at the first default that does not decode.
  function Pass(fields: seq<ConfigField>, c: Config): Result<Config, string> {
    if fields == [] then Success(c)
    else match Pass(fields[..|fields| - 1], c)
      case Failure(key) => Failure(key)
      case Success(m) => Fill(fields[|fields| - 1], m)
  }

  method ApplyConfigDefaults(fields: seq<ConfigField>, config: Config) returns (r: Result<Config, string>)
    ensures r == Pass(fields, config)
  {
    hide Ready, DecodeDefault;
    var result: Config := map[];
    var keys := config.Keys;
    while keys != {}
      invariant keys <= config.Keys
      invariant result == map k | k in config.Keys - keys :: config[k]
      decreases keys
    {
      var k := Next(keys);
      result, keys := result[k := config[k]], keys - {k};
    }
    assert result == config;
    for i := 0 to |fields|
      invariant Pass(fields[..i], config) == Success(result)
    {
      var f := fields[i];
      assert fields[..i + 1][..i] == fields[..i];
      if f.key !in result && f.raw != [] {
        var ready := CheckReady(f, result);
        if ready {
          var value := DecodeDefault(f.raw);
          if value == None {
            FailureSticks(fields, i + 1, config);
            return Failure(f.key);
          }
          result := result[f.key := value.value];
        }
      }
    }
    assert fields[..|fields|] == fields;
    return Success(result);
  }

  // The inner loop, which stops at the first dependency that is not there.
  method CheckReady(f: ConfigField, c: Config) returns (ready: bool)
    ensures ready == Ready(f, c)
  {
    hide Present;
    ready := true;
    var d := 0;
    while d < |f.requiredWith| && ready
      invariant 0 <= d <= |f.requiredWith|
      invariant ready <==> forall k :: 0 <= k < d ==> Present(c, f.requiredWith[k])
      decreases |f.requiredWith| - d
    {
      ready := Present(c, f.requiredWith[d]);
      d := d + 1;
    }
  }

  lemma {:induction false} FailureSticks(fields: seq<ConfigField>, n: nat, c: Config)
    requires n <= |fields| && Pass(fields[..n], c).Failure?
    ensures Pass(fields, c) == Pass(fields[..n], c)
    decreases |fields|
  {
    if n < |fields| {
      var init := fields[..|fields| - 1];
      assert init[..n] == fields[..n];
      FailureSticks(init, n, c);
    } else {
      assert fields[..n] == fields;
    }
  }

  // ----- What one position does

  lemma PresentExactly(c: Config, key: string)
    ensures Present(c, key) <==>
      var d := TrimSpace(key);
      && d in c && c[d] != Null
      && (c[d].Str? ==> exists j :: 0 <= j < |c[d].text| && !IsSpace(c[d].text[j]))
  {
    hide IsSpace;
    var d := TrimSpace(key);
    if d in c && c[d].Str? { BlankIsSpace(c[d].text); }
  }

  // The pass at any position of any list of fields, over the configuration it has reached there. The
  // field is filled exactly when its key is absent, it has a default, and each dependency, without
  // the space around its key, is there with a value that is neither null nor a text of nothing but
  // space. It is filled with its default, which must be one JSON value other than null; whatever
  // else the default spells ends the pass with the field's key. Otherwise nothing happens.
  lemma {:induction false} FilledExactly(fields: seq<ConfigField>, i: nat, c: Config, m: Config)
    requires i < |fields| && Pass(fields[..i], c) == Success(m)
    ensures var f, after := fields[i], Pass(fields[..i + 1], c);
      var due :=
        && f.key !in m && f.raw != []
        && forall k :: 0 <= k < |f.requiredWith| ==>
             var d := TrimSpace(f.requiredWith[k]);
             && d in m && m[d] != Null
             && (m[d].Str? ==> exists j :: 0 <= j < |m[d].text| && !IsSpace(m[d].text[j]));
      && (!due ==> after == Success(m))
      && (due ==> forall v :: f.raw == [Good(v)] && v != Null ==> after == Success(m[f.key := v]))
      && (due && !(exists v :: f.raw == [Good(v)] && v != Null) ==> after == Failure(f.key))
  {
    hide Present;
    var f := fields[i];
    assert fields[..i + 1][..i] == fields[..i];
    forall k | 0 <= k < |f.requiredWith|
      ensures Present(m, f.requiredWith[k]) <==>
        var d := TrimSpace(f.requiredWith[k]);
        && d in m && m[d] != Null
        && (m[d].Str? ==> exists j :: 0 <= j < |m[d].text| && !IsSpace(m[d].text[j]))
    {
      PresentExactly(m, f.requiredWith[k]);
    }
    assert DecodeDefault(f.raw).Some? ==> f.raw == [Good(f.raw[0].value)];
  }

  // ----- Fields one can use

  // What the passes need of their fields: distinct keys, defaults that decode, and dependencies
  // that are trimmed and name other fields.
  predicate Usable(fields: seq<ConfigField>) {
    (forall i, j :: 0 <= i < j < |fields| ==> fields[i].key != fields[j].key)
    && (forall i :: 0 <= i < |fields| ==> Sane(fields[i]))
  }

  predicate Sane(f: ConfigField) {
    (f.raw != [] ==> DecodeDefault(f.raw).Some?)
    && forall k :: 0 <= k < |f.requiredWith| ==>
         TrimSpace(f.requiredWith[k]) == f.requiredWith[k] && f.requiredWith[k] != f.key
  }

  // The schema check already guarantees it.
  lemma ValidSchemaIsUsable(d: Descriptor)
    requires ValidSchema(d)
    ensures Usable(d.fields)
  {
    forall i | 0 <= i < |d.fields| ensures Sane(d.fields[i]) {
      var f := d.fields[i];
      assert ValidField(f);
      forall k | 0 <= k < |f.requiredWith| ensures TrimSpace(f.requiredWith[k]) == f.requiredWith[k] {
        CanonicalIsTrimmed(f.requiredWith[k]);
      }
    }
    var keys := FieldKeys(d.fields) + SecretKeys(d.secrets);
    forall i, j | 0 <= i < j < |d.fields| ensures d.fields[i].key != d.fields[j].key {
      assert keys[i] == d.fields[i].key && keys[j] == d.fields[j].key;
    }
  }

  lemma CanonicalIsTrimmed(s: string)
    requires CanonicalKey(s)
    ensures TrimSpace(s) == s
  {
    TrimmedIsFixed(s);
  }

  function Default(f: ConfigField): Value
    requires Sane(f) && f.raw != []
  {
    DecodeDefault(f.raw).value
  }

  lemma UsablePrefix(fields: seq<ConfigField>)
    requires Usable(fields) && fields != []
    ensures Usable(fields[..|fields| - 1]) && Sane(fields[|fields| - 1])
  {}

  // On usable fields a pass cannot fail.
  function Filled(fields: seq<ConfigField>, c: Config): (m: Config)
    requires Usable(fields)
    ensures Pass(fields, c) == Success(m)
  {
    if fields == [] then c
    else
      var f := fields[|fields| - 1];
      UsablePrefix(fields);
      var m := Filled(fields[..|fields| - 1], c);
      if Enabled(f, m) then m[f.key := Default(f)] else m
  }

  // ----- Growth

  predicate Extends(a: Config, b: Config) { forall k :: k in a ==> k in b && b[k] == a[k] }

  lemma PresentGrows(a: Config, b: Config, f: ConfigField)
    requires Extends(a, b)
    ensures Ready(f, a) ==> Ready(f, b)
  {
    if Ready(f, a) {
      forall i | 0 <= i < |f.requiredWith| ensures Present(b, f.requiredWith[i]) {
        assert Present(a, f.requiredWith[i]);
      }
    }
  }

  predicate DefaultOfSome(fields: seq<ConfigField>, key: string, v: Value)
    requires Usable(fields)
  {
    exists i :: 0 <= i < |fields| && fields[i].key == key && fields[i].raw != [] && v == Default(fields[i])
  }

  // A pass never replaces a value, and what it adds are defaults of the fields it ran over.
  lemma {:induction false} FilledExtends(fields: seq<ConfigField>, c: Config)
    requires Usable(fields)
    ensures Extends(c, Filled(fields, c))
    ensures forall k :: k in Filled(fields, c) && k !in c ==> DefaultOfSome(fields, k, Filled(fields, c)[k])
  {
    if fields != [] {
      var init, f := fields[..|fields| - 1], fields[|fields| - 1];
      UsablePrefix(fields);
      FilledExtends(init, c);
      forall k | k in Filled(fields, c) && k !in c ensures DefaultOfSome(fields, k, Filled(fields, c)[k]) {
        if k in Filled(init, c) {
          assert DefaultOfSome(init, k, Filled(init, c)[k]);
          var i :| 0 <= i < |init| && init[i].key == k && init[i].raw != [] && Filled(init, c)[k] == Default(init[i]);
          assert fields[i] == init[i];
        } else {
          assert fields[|fields| - 1].key == k;
        }
      }
    }
  }

  // ----- The least fixpoint

  predicate Closed(fields: seq<ConfigField>, c: Config) {
    forall i :: 0 <= i < |fields| ==> !Enabled(fields[i], c)
  }

  // m keeps everything supplied and fills no field with anything but its default.
  predicate Admissible(fields: seq<ConfigField>, base: Config, m: Config)
    requires Usable(fields)
  {
    Extends(base, m)
    && forall i :: 0 <= i < |fields| && fields[i].raw != [] && fields[i].key in m && fields[i].key !in base
         ==> m[fields[i].key] == Default(fields[i])
  }

  // An admissible configuration to which no default can be added any more.
  predicate Model(fields: seq<ConfigField>, base: Config, m: Config)
    requires Usable(fields)
  {
    Admissible(fields, base, m) && Closed(fields, m)
  }

  // A pass stays below every model.
  lemma {:induction false} FilledBelow(fields: seq<ConfigField>, n: nat, base: Config, c: Config, m: Config)
    requires Usable(fields) && n <= |fields| && Model(fields, base, m)
    requires Extends(base, c) && Extends(c, m)
    ensures Usable(fields[..n]) && Extends(Filled(fields[..n], c), m)
  {
    if n > 0 {
      hide Enabled, Model, Sane, Default;
      FilledBelow(fields, n - 1, base, c, m);
      var before := Filled(fields[..n - 1], c);
      assert fields[..n][..n - 1] == fields[..n - 1];
      FilledExtends(fields[..n - 1], c);
      BelowStep(fields, n - 1, base, before, m);
    }
  }

  lemma BelowStep(fields: seq<ConfigField>, i: nat, base: Config, before: Config, m: Config)
    requires Usable(fields) && i < |fields| && Model(fields, base, m)
    requires Extends(base, before) && Extends(before, m)
    ensures Enabled(fields[i], before) ==> Extends(before[fields[i].key := Default(fields[i])], m)
  {
    if Enabled(fields[i], before) {
      PresentGrows(before, m, fields[i]);
      assert !Enabled(fields[i], m);
    }
  }

  // A pass that adds nothing has found a closed configuration.
  lemma {:induction false} UnchangedIsClosed(fields: seq<ConfigField>, c: Config)
    requires Usable(fields) && Filled(fields, c).Keys == c.Keys
    ensures Closed(fields, c) && Filled(fields, c) == c
  {
    if fields != [] {
      var init := fields[..|fields| - 1];
      UsablePrefix(fields);
      FilledExtends(init, c);
      assert Filled(init, c).Keys == c.Keys;
      UnchangedIsClosed(init, c);
      forall i | 0 <= i < |fields| ensures !Enabled(fields[i], c) {
        if i < |init| { assert fields[i] == init[i]; }
      }
    }
  }

  lemma {:induction false} ClosedIsUnchanged(fields: seq<ConfigField>, c: Config)
    requires Usable(fields) && Closed(fields, c)
    ensures Filled(fields, c) == c
  {
    if fields != [] {
      var init := fields[..|fields| - 1];
      UsablePrefix(fields);
      forall i | 0 <= i < |init| ensures !Enabled(init[i], c) { assert init[i] == fields[i]; }
      ClosedIsUnchanged(init, c);
      assert !Enabled(fields[|fields| - 1], c);
    }
  }

  // n calls, each on the result of the one before.
  function Repeat(fields: seq<ConfigField>, c: Config, n: nat): Config
    requires Usable(fields)
  {
    if n == 0 then c else Filled(fields, Repeat(fields, c, n - 1))
  }

  // The keys a pass could still set.
  function Unset(fields: seq<ConfigField>, c: Config): set<string> {
    set i | 0 <= i < |fields| && fields[i].raw != [] && fields[i].key !in c :: fields[i].key
  }

  lemma {:induction false} PassShrinksUnset(fields: seq<ConfigField>, c: Config)
    requires Usable(fields) && !Closed(fields, c)
    ensures Unset(fields, Filled(fields, c)) < Unset(fields, c)
  {
    var m := Filled(fields, c);
    FilledExtends(fields, c);
    if m.Keys == c.Keys { UnchangedIsClosed(fields, c); }
    var k :| k in m && k !in c;
    assert k in Unset(fields, c) && k !in Unset(fields, m);
  }

  // As many calls as there are unset fields with a default are enough to close the configuration.
  lemma {:induction false} RepeatCloses(fields: seq<ConfigField>, c: Config, n: nat)
    requires Usable(fields)
    ensures Closed(fields, Repeat(fields, c, n)) || |Unset(fields, Repeat(fields, c, n))| + n <= |Unset(fields, c)|
  {
    if n > 0 {
      hide Closed, Filled, Unset;
      RepeatCloses(fields, c, n - 1);
      var before := Repeat(fields, c, n - 1);
      if Closed(fields, before) {
        ClosedIsUnchanged(fields, before);
      } else {
        PassShrinksUnset(fields, before);
        SubsetSize(Unset(fields, Filled(fields, before)), Unset(fields, before));
      }
    }
  }

  lemma {:induction false} RepeatBetween(fields: seq<ConfigField>, c: Config, n: nat)
    requires Usable(fields)
    ensures Admissible(fields, c, Repeat(fields, c, n))
    ensures forall m :: Model(fields, c, m) ==> Extends(Repeat(fields, c, n), m)
  {
    if n > 0 {
      var before, after := Repeat(fields, c, n - 1), Repeat(fields, c, n);
      RepeatBetween(fields, c, n - 1);
      FilledExtends(fields, before);
      forall i | 0 <= i < |fields| && fields[i].raw != [] && fields[i].key in after && fields[i].key !in c
        ensures after[fields[i].key] == Default(fields[i])
      {
        if fields[i].key !in before {
          var key := fields[i].key;
          assert DefaultOfSome(fields, key, after[key]);
          var j :| 0 <= j < |fields| && fields[j].key == key && fields[j].raw != [] && after[key] == Default(fields[j]);
          assert i == j;
        }
      }
      forall m | Model(fields, c, m) ensures Extends(after, m) {
        assert fields[..|fields|] == fields;
        FilledBelow(fields, |fields|, c, before, m);
      }
    }
  }

  function Fixpoint(fields: seq<ConfigField>, c: Config): Config
    requires Usable(fields)
  {
    Repeat(fields, c, |Unset(fields, c)|)
  }

  // Repeating the call once per unset field with a default reaches the least model: supplied values
  // are kept, nothing more can be filled, and every configuration with those two properties
  // contains it.
  lemma FixpointIsLeastModel(fields: seq<ConfigField>, c: Config)
    requires Usable(fields)
    ensures Model(fields, c, Fixpoint(fields, c))
    ensures forall m :: Model(fields, c, m) ==> Extends(Fixpoint(fields, c), m)
    ensures |Unset(fields, c)| <= |fields|
  {
    var n := |Unset(fields, c)|;
    RepeatCloses(fields, c, n);
    RepeatBetween(fields, c, n);
    var u := Unset(fields, Repeat(fields, c, n));
    if !Closed(fields, Repeat(fields, c, n)) {
      assert u == {};
      NothingUnsetIsClosed(fields, Repeat(fields, c, n));
    }
    UnsetBound(fields, c);
  }

  lemma NothingUnsetIsClosed(fields: seq<ConfigField>, c: Config)
    requires Unset(fields, c) == {}
    ensures Closed(fields, c)
  {
    forall i | 0 <= i < |fields| ensures !Enabled(fields[i], c) {
      UnsetMember(fields, c, i);
    }
  }

  lemma UnsetMember(fields: seq<ConfigField>, c: Config, i: nat)
    requires i < |fields|
    ensures fields[i].raw != [] && fields[i].key !in c ==> fields[i].key in Unset(fields, c)
  {}

  lemma {:induction false} UnsetBound(fields: seq<ConfigField>, c: Config)
    ensures |Unset(fields, c)| <= |fields|
  {
    if fields != [] {
      var init, f := fields[..|fields| - 1], fields[|fields| - 1];
      UnsetBound(init, c);
      forall k | k in Unset(fields, c) ensures k in Unset(init, c) + {f.key} {
        var i :| 0 <= i < |fields| && fields[i].raw != [] && fields[i].key !in c && fields[i].key == k;
        if i < |init| { assert init[i].key == k; }
      }
      assert |Unset(fields, c)| <= |Unset(init, c) + {f.key}| by {
        var a, b := Unset(fields, c), Unset(init, c) + {f.key};
        assert b == a + (b - a);
      }
    }
  }

  // The fixpoint is the same for every order of the fields.
  lemma FixpointIgnoresOrder(fields: seq<ConfigField>, other: seq<ConfigField>, c: Config)
    requires Usable(fields) && multiset(fields) == multiset(other)
    ensures Usable(other) && Fixpoint(fields, c) == Fixpoint(other, c)
  {
    UsableIgnoresOrder(fields, other);
    FixpointIsLeastModel(fields, c);
    FixpointIsLeastModel(other, c);
    ModelIgnoresOrder(fields, other, c, Fixpoint(other, c));
    ModelIgnoresOrder(other, fields, c, Fixpoint(fields, c));
  }

  function FieldKey(f: ConfigField): string { f.key }

  lemma UsableIgnoresOrder(fields: seq<ConfigField>, other: seq<ConfigField>)
    requires Usable(fields) && multiset(fields) == multiset(other)
    ensures Usable(other)
  {
    PermutationKeepsDistinct(fields, other, FieldKey);
    forall i | 0 <= i < |other| ensures Sane(other[i]) {
      var j := Occurs(other, fields, i);
    }
    forall i, j | 0 <= i < j < |other| ensures other[i].key != other[j].key {
      assert FieldKey(other[i]) != FieldKey(other[j]);
    }
  }

  lemma ModelIgnoresOrder(fields: seq<ConfigField>, other: seq<ConfigField>, c: Config, m: Config)
    requires Usable(fields) && Usable(other) && multiset(fields) == multiset(other)
    requires Model(other, c, m)
    ensures Model(fields, c, m)
  {
    forall i | 0 <= i < |fields|
      ensures !Enabled(fields[i], m)
      ensures fields[i].raw != [] && fields[i].key in m && fields[i].key !in c ==>
        m[fields[i].key] == Default(fields[i])
    {
      var j := Occurs(fields, other, i);
    }
  }

  // ----- When one pass is enough

  predicate Visible(v: Value) { !v.Null? && (v.Str? ==> !Blank(v.text)) }

  // Some field comes before one it needs, and that later field can supply itself without it.
  predicate LateDependency(fields: seq<ConfigField>)
    requires Usable(fields)
  {
    exists i, j :: 0 <= i < j < |fields| && Late(fields, i, j)
  }

  predicate Late(fields: seq<ConfigField>, i: nat, j: nat)
    requires Usable(fields) && i < |fields| && j < |fields|
  {
    fields[i].raw != [] && fields[j].raw != [] && Visible(Default(fields[j]))
    && fields[j].key in fields[i].requiredWith && fields[i].key !in fields[j].requiredWith
  }

  // A field left enabled after a pass was waiting for a later field that the pass then filled.
  lemma {:induction false} MissedIsLate(fields: seq<ConfigField>, c: Config, i: nat)
    requires Usable(fields) && i < |fields| && Enabled(fields[i], Filled(fields, c))
    ensures LateDependency(fields)
  {
    var f, end := fields[i], Filled(fields, c);
    PrefixBelow(fields, i, c);
    PrefixBelow(fields, i + 1, c);
    var at := Filled(fields[..i], c);
    assert fields[..i + 1][..i] == fields[..i];
    assert f.key !in Filled(fields[..i + 1], c);
    assert !Enabled(f, at);
    var k :| 0 <= k < |f.requiredWith| && !Present(at, f.requiredWith[k]);
    var d := f.requiredWith[k];
    assert Present(end, d) && d !in at;
    var j := FilledLater(fields, i, c, d);
    assert Visible(Default(fields[j])) by { assert end[d] == Default(fields[j]); }
    PrefixBelow(fields, j, c);
    var before := Filled(fields[..j], c);
    forall q | 0 <= q < |fields[j].requiredWith| ensures fields[j].requiredWith[q] != f.key {
      assert Present(before, fields[j].requiredWith[q]);
    }
    assert d in fields[i].requiredWith;
    assert j != i;
    assert Late(fields, i, j);
  }

  lemma {:induction false} PrefixBelow(fields: seq<ConfigField>, n: nat, c: Config)
    requires Usable(fields) && n <= |fields|
    ensures Usable(fields[..n]) && Extends(Filled(fields[..n], c), Filled(fields, c))
    decreases |fields|
  {
    if n < |fields| {
      var init := fields[..|fields| - 1];
      assert init[..n] == fields[..n];
      PrefixBelow(init, n, c);
    } else {
      assert fields[..n] == fields;
    }
  }

  // What the fields before the last one supplied, the last one leaves alone.
  lemma {:induction false} UnenabledKeeps(fields: seq<ConfigField>, c: Config, d: string)
    requires Usable(fields) && fields != [] && Usable(fields[..|fields| - 1])
    requires d in Filled(fields[..|fields| - 1], c)
    ensures d in Filled(fields, c) && Filled(fields, c)[d] == Filled(fields[..|fields| - 1], c)[d]
  {}

  // The field that supplied a key after position i.
  lemma {:induction false} FilledLater(fields: seq<ConfigField>, i: nat, c: Config, d: string) returns (j: nat)
    requires Usable(fields) && i < |fields| && Usable(fields[..i])
    requires d !in Filled(fields[..i], c) && d in Filled(fields, c)
    ensures i <= j < |fields| && fields[j].key == d && Usable(fields[..j])
    ensures Enabled(fields[j], Filled(fields[..j], c)) && Filled(fields, c)[d] == Default(fields[j])
    decreases |fields|
  {
    hide Enabled, Sane, Default;
    var init := fields[..|fields| - 1];
    UsablePrefix(fields);
    assert i == |fields| - 1 ==> fields[..i] == init;
    if i < |fields| - 1 && d in Filled(init, c) {
      assert init[..i] == fields[..i];
      j := FilledLater(init, i, c, d);
      assert fields[..j] == init[..j] && fields[j] == init[j];
      UnenabledKeeps(fields, c, d);
    } else {
      j := |fields| - 1;
    }
  }

  // A configuration supplying all that the two fields of a late dependency need, but not them.
  function Supplied(f: ConfigField, g: ConfigField): Config {
    map k | k in f.requiredWith + g.requiredWith && k != f.key && k != g.key :: Str("x")
  }

  lemma SuppliedPresent(f: ConfigField, g: ConfigField, c: Config, k: string)
    requires Extends(Supplied(f, g), c) && k in f.requiredWith + g.requiredWith && k != f.key && k != g.key
    requires TrimSpace(k) == k
    ensures Present(c, k)
  {
    assert c[k] == Str("x");
    TrimmedIsFixed("x");
  }

  lemma {:induction false} LateIsMissed(fields: seq<ConfigField>, i: nat, j: nat)
    requires Usable(fields) && i < j < |fields| && Late(fields, i, j)
    ensures Enabled(fields[i], Filled(fields, Supplied(fields[i], fields[j])))
  {
    EarlierNotFilled(fields, i, j);
    LaterFilled(fields, i, j);
    var f, g := fields[i], fields[j];
    var end := Filled(fields, Supplied(f, g));
    FilledExtends(fields, Supplied(f, g));
    forall k | 0 <= k < |f.requiredWith| ensures Present(end, f.requiredWith[k]) {
      var d := f.requiredWith[k];
      assert d in f.requiredWith && TrimSpace(d) == d;
      if d != g.key { SuppliedPresent(f, g, end, d); }
    }
  }

  // The earlier field is looked at before the later one is there, and never again.
  lemma {:induction false} EarlierNotFilled(fields: seq<ConfigField>, i: nat, j: nat)
    requires Usable(fields) && i < j < |fields| && Late(fields, i, j)
    ensures fields[i].key !in Filled(fields, Supplied(fields[i], fields[j]))
  {
    var f, g := fields[i], fields[j];
    var c := Supplied(f, g);
    PrefixBelow(fields, i, c);
    NotFilledBefore(fields, i, j, c);
    var k :| 0 <= k < |f.requiredWith| && f.requiredWith[k] == g.key;
    assert !Present(Filled(fields[..i], c), f.requiredWith[k]);
    NotReadyNotFilled(fields, i, c);
  }

  lemma {:induction false} NotReadyNotFilled(fields: seq<ConfigField>, i: nat, c: Config)
    requires Usable(fields) && i < |fields| && Usable(fields[..i]) && fields[i].key !in c
    requires !Enabled(fields[i], Filled(fields[..i], c))
    ensures fields[i].key !in Filled(fields, c)
  {
    assert fields[..0] == [];
    if fields[i].key in Filled(fields, c) {
      var at := FilledLater(fields, 0, c, fields[i].key);
    }
  }

  // The later field finds everything it needs.
  lemma {:induction false} LaterFilled(fields: seq<ConfigField>, i: nat, j: nat)
    requires Usable(fields) && i < j < |fields| && Late(fields, i, j)
    ensures var end := Filled(fields, Supplied(fields[i], fields[j]));
      fields[j].key in end && end[fields[j].key] == Default(fields[j])
  {
    var f, g := fields[i], fields[j];
    var c := Supplied(f, g);
    PrefixBelow(fields, j, c);
    PrefixBelow(fields, j + 1, c);
    NotFilledBefore(fields, j, j, c);
    var before := Filled(fields[..j], c);
    FilledExtends(fields[..j], c);
    forall k | 0 <= k < |g.requiredWith| ensures Present(before, g.requiredWith[k]) {
      assert g.requiredWith[k] in g.requiredWith && TrimSpace(g.requiredWith[k]) == g.requiredWith[k];
      SuppliedPresent(f, g, before, g.requiredWith[k]);
    }
    assert fields[..j + 1][..j] == fields[..j];
  }

  lemma {:induction false} NotFilledBefore(fields: seq<ConfigField>, n: nat, j: nat, c: Config)
    requires Usable(fields) && n <= j < |fields| && fields[j].key !in c && Usable(fields[..n])
    ensures fields[j].key !in Filled(fields[..n], c)
  {
    FilledExtends(fields[..n], c);
  }

  lemma {:induction false} ClosedPassIsFixpoint(fields: seq<ConfigField>, c: Config)
    requires Usable(fields) && Closed(fields, Filled(fields, c))
    ensures Filled(fields, c) == Fixpoint(fields, c)
  {
    FixpointIsLeastModel(fields, c);
    RepeatBetween(fields, c, 1);
    assert Repeat(fields, c, 0) == c;
    assert Filled(fields, c) == Repeat(fields, c, 1);
    assert Model(fields, c, Filled(fields, c));
  }

  // One call reaches the fixpoint from every configuration exactly when no field comes before one
  // it needs that can supply itself without it.
  lemma {:induction false} OnePassSufficesExactly(fields: seq<ConfigField>)
    requires Usable(fields)
    ensures (forall c :: Filled(fields, c) == Fixpoint(fields, c)) <==> !LateDependency(fields)
  {
    if LateDependency(fields) {
      var i, j :| 0 <= i < j < |fields| && Late(fields, i, j);
      LateIsMissed(fields, i, j);
      var c := Supplied(fields[i], fields[j]);
      FixpointIsLeastModel(fields, c);
      assert Filled(fields, c) != Fixpoint(fields, c);
    } else {
      forall c ensures Filled(fields, c) == Fixpoint(fields, c) {
        forall i | 0 <= i < |fields| ensures !Enabled(fields[i], Filled(fields, c)) {
          if Enabled(fields[i], Filled(fields, c)) { MissedIsLate(fields, c, i); }
        }
        ClosedPassIsFixpoint(fields, c);
      }
    }
  }

  // The field rules do not forbid such an order: a field may come before one it needs.
  lemma FieldRulesAllowLateDependency(a: ConfigField, b: ConfigField)
    requires ValidField(a) && ValidField(b) && a.key == "a" && b.key == "b"
    requires a.requiredWith == ["b"] && b.requiredWith == []
    requires a.raw == [Good(Bool(true))] == b.raw
    ensures Usable([a, b]) && LateDependency([a, b])
  {
    CanonicalIsTrimmed("b");
    assert Sane(a) && Sane(b);
    assert a.requiredWith[0] == "b";
    assert Late([a, b], 0, 1);
  }

  // In particular a list in which every dependency comes first needs only one call.
  lemma {:induction false} DependenciesFirst(fields: seq<ConfigField>, c: Config)
    requires Usable(fields)
    requires forall i, j :: 0 <= i < |fields| && 0 <= j < |fields| && fields[j].key in fields[i].requiredWith ==> j < i
    ensures Filled(fields, c) == Fixpoint(fields, c)
  {
    OnePassSufficesExactly(fields);
  }
}
