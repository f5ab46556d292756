/** The loops of schema.go that decide the schema rules: each is proved to decide exactly the rule
    stated of the whole list. */
module SchemaCheck {
  import opened Wrappers
  import opened Text
  import opened Provider

  // The strings seen so far.
  function Seen(s: seq<string>): set<string> { set x | x in s }

  lemma {:induction false} UniqueStep(s: seq<string>, i: nat)
    requires i < |s|
    ensures Unique(s[..i + 1]) <==> Unique(s[..i]) && s[i] !in Seen(s[..i])
    ensures Seen(s[..i + 1]) == Seen(s[..i]) + {s[i]}
    ensures !Unique(s[..i + 1]) ==> !Unique(s)
  {
    var shorter, longer := s[..i], s[..i + 1];
    assert longer == shorter + [s[i]];
    if s[i] in shorter {
      var k :| 0 <= k < i && shorter[k] == s[i];
      assert longer[k] == longer[i];
    }
    assert forall k :: 0 <= k < i ==> longer[k] == shorter[k] && shorter[k] in shorter;
  }

  predicate CleanOption(o: string) { !Blank(o) && TrimSpace(o) == o }

  // validateConfigRules
  method ValidateRules(f: ConfigField) returns (ok: bool)
    ensures ok <==> ValidRules(f)
  {
    hide Blank, TrimSpace, Unique, Seen;
    var r := f.rules;
    if (r.minLength != 0 || r.maxLength != 0 || !r.pattern.NoPattern?) && !f.kind.TextType? && !f.kind.EmailType? {
      return false;
    }
    if (r.min.Some? || r.max.Some?) && !f.kind.IntegerType? && !f.kind.DecimalType? {
      return false;
    }
    if r.minLength < 0 || r.maxLength < 0 || (r.maxLength > 0 && r.minLength > r.maxLength) {
      return false;
    }
    if (r.min.Some? && r.min.value.NotFinite?) || (r.max.Some? && r.max.value.NotFinite?) {
      return false;
    }
    if r.min.Some? && r.max.Some? && r.min.value.value > r.max.value.value {
      return false;
    }
    if r.pattern.Broken? {
      return false;
    }
    var options := CheckOptions(r.options);
    if !options {
      return false;
    }
    if f.kind.SelectType? && |r.options| == 0 {
      return false;
    }
    if !f.kind.SelectType? && |r.options| > 0 {
      return false;
    }
    return true;
  }

  method CheckOptions(options: seq<string>) returns (ok: bool)
    ensures ok <==> (forall i :: 0 <= i < |options| ==> CleanOption(options[i])) && Unique(options)
  {
    var seen: set<string> := {};
    for i := 0 to |options|
      invariant forall k :: 0 <= k < i ==> CleanOption(options[k])
      invariant Unique(options[..i]) && seen == Seen(options[..i])
    {
      UniqueStep(options, i);
      if !CleanOption(options[i]) || options[i] in seen {
        return false;
      }
      seen := seen + {options[i]};
    }
    assert options[..|options|] == options;
    return true;
  }

  // ConfigField.validate
  method ValidateField(f: ConfigField) returns (ok: bool)
    ensures ok <==> ValidField(f)
  {
    hide Blank, Localized, CanonicalKey, ValidRules, MatchesType, MeetsRules, Unique;
    if !CanonicalKey(f.key) || Blank(f.name) || f.kind.UnknownType? || !Localized(f.i18n) {
      return false;
    }
    var rules := ValidateRules(f);
    if !rules {
      return false;
    }
    if |f.raw| > 0 {
      var value := DecodeDefault(f.raw);
      if value == None || !MatchesType(value.value, f.kind) || !MeetsRules(f, value.value) {
        return false;
      }
    }
    ok := CheckDependencies(f);
  }

  method CheckDependencies(f: ConfigField) returns (ok: bool)
    ensures ok <==>
      (forall i :: 0 <= i < |f.requiredWith| ==> CanonicalKey(f.requiredWith[i]) && f.requiredWith[i] != f.key)
      && Unique(f.requiredWith)
  {
    hide CanonicalKey;
    var seen: set<string> := {};
    var all := f.requiredWith;
    for i := 0 to |all|
      invariant forall k :: 0 <= k < i ==> CanonicalKey(all[k]) && all[k] != f.key
      invariant Unique(all[..i]) && seen == Seen(all[..i])
    {
      UniqueStep(all, i);
      if !CanonicalKey(all[i]) || all[i] == f.key || all[i] in seen {
        return false;
      }
      seen := seen + {all[i]};
    }
    assert all[..|all|] == all;
    return true;
  }

  // ProviderSchema.Validate: the fields, the secrets, the dependencies, the startup rule.
  method ValidateSchema(d: Descriptor) returns (ok: bool)
    ensures ok <==> ValidSchema(d)
  {
    hide CanonicalKey, Blank, TrimSpace, ValidField, ValidSecret, Unique;
    if !CanonicalKey(d.connectorKey) || !CanonicalKey(d.providerKey) || Blank(d.revision)
       || TrimSpace(d.revision) != d.revision || d.startup.UnknownStartup? {
      return false;
    }
    var fields := CheckFields(d);
    if !fields {
      EarlierDuplicate(d);
      return false;
    }
    var secrets := CheckSecrets(d);
    if !secrets {
      return false;
    }
    var known := CheckKnown(d);
    if !known {
      return false;
    }
    ok := CheckStartup(d);
  }

  method CheckFields(d: Descriptor) returns (ok: bool)
    ensures ok <==> (forall i :: 0 <= i < |d.fields| ==> ValidField(d.fields[i])) && Unique(FieldKeys(d.fields))
  {
    hide ValidField, Unique, Seen;
    var seen: set<string> := {};
    ghost var keys := FieldKeys(d.fields);
    NothingSeen(keys);
    for i := 0 to |d.fields|
      invariant forall k :: 0 <= k < i ==> ValidField(d.fields[k])
      invariant Unique(keys[..i]) && seen == Seen(keys[..i])
    {
      UniqueStep(keys, i);
      var valid := ValidateField(d.fields[i]);
      if !valid || d.fields[i].key in seen {
        return false;
      }
      seen := seen + {d.fields[i].key};
    }
    assert keys[..|d.fields|] == keys;
    return true;
  }

  lemma NothingSeen(s: seq<string>)
    ensures Unique(s[..0]) && Seen(s[..0]) == {}
  {}

  // A secret may repeat no secret and no field.
  method CheckSecrets(d: Descriptor) returns (ok: bool)
    requires Unique(FieldKeys(d.fields))
    ensures ok <==> (forall i :: 0 <= i < |d.secrets| ==> ValidSecret(d.secrets[i]))
                    && Unique(FieldKeys(d.fields) + SecretKeys(d.secrets))
  {
    hide ValidSecret, Unique, Seen;
    ghost var fields := FieldKeys(d.fields);
    ghost var keys := fields + SecretKeys(d.secrets);
    var configKeys, secretKeys := ConfigKeys(d), {};
    assert keys[..|fields|] == fields;
    for i := 0 to |d.secrets|
      invariant forall k :: 0 <= k < i ==> ValidSecret(d.secrets[k])
      invariant Unique(keys[..|fields| + i]) && configKeys + secretKeys == Seen(keys[..|fields| + i])
    {
      assert keys[|fields| + i] == d.secrets[i].key;
      UniqueStep(keys, |fields| + i);
      if !ValidSecret(d.secrets[i]) || d.secrets[i].key in configKeys || d.secrets[i].key in secretKeys {
        return false;
      }
      secretKeys := secretKeys + {d.secrets[i].key};
    }
    assert keys[..|keys|] == keys;
    return true;
  }

  function ConfigKeys(d: Descriptor): (r: set<string>)
    ensures r == Seen(FieldKeys(d.fields))
  {
    set k | k in FieldKeys(d.fields)
  }

  lemma EarlierDuplicate(d: Descriptor)
    requires !Unique(FieldKeys(d.fields)) || exists i :: 0 <= i < |d.fields| && !ValidField(d.fields[i])
    ensures !ValidSchema(d)
  {
    if !Unique(FieldKeys(d.fields)) {
      var keys := FieldKeys(d.fields) + SecretKeys(d.secrets);
      var i, j :| 0 <= i < j < |d.fields| && FieldKeys(d.fields)[i] == FieldKeys(d.fields)[j];
      assert keys[i] == keys[j];
    }
  }

  method CheckKnown(d: Descriptor) returns (ok: bool)
    ensures ok <==> forall i, k :: 0 <= i < |d.fields| && 0 <= k < |d.fields[i].requiredWith| ==>
      d.fields[i].requiredWith[k] in FieldKeys(d.fields)
  {
    var known := ConfigKeys(d);
    for i := 0 to |d.fields|
      invariant forall j, k :: 0 <= j < i && 0 <= k < |d.fields[j].requiredWith| ==>
        d.fields[j].requiredWith[k] in FieldKeys(d.fields)
    {
      var all := d.fields[i].requiredWith;
      for k := 0 to |all|
        invariant forall q :: 0 <= q < k ==> all[q] in FieldKeys(d.fields)
      {
        if all[k] !in known {
          return false;
        }
      }
    }
    return true;
  }

  method CheckStartup(d: Descriptor) returns (ok: bool)
    ensures ok <==> (d.startup.DefaultSafe? ==>
      (forall i :: 0 <= i < |d.fields| && d.fields[i].required ==> d.fields[i].raw != [])
      && (forall i :: 0 <= i < |d.secrets| ==> !d.secrets[i].required))
  {
    if d.startup.DefaultSafe? {
      for i := 0 to |d.fields|
        invariant forall k :: 0 <= k < i && d.fields[k].required ==> d.fields[k].raw != []
      {
        if d.fields[i].required && |d.fields[i].raw| == 0 {
          return false;
        }
      }
      for i := 0 to |d.secrets|
        invariant forall k :: 0 <= k < i ==> !d.secrets[k].required
      {
        if d.secrets[i].required {
          return false;
        }
      }
    }
    return true;
  }

  // ----- What the rules come to

  // A key is a small letter and at most 127 more small letters, digits, underscores and hyphens.
  lemma KeysExactly(s: string)
    ensures CanonicalKey(s) <==> exists first, rest :: s == [first] + rest && KeyText(first, rest)
  {
    hide CanonicalKey, KeyText;
    if s != "" {
      assert s == [s[0]] + s[1..];
      KeyTextIsKey(s[0], s[1..]);
    } else {
      assert !CanonicalKey(s) by { NoKey(); }
    }
    forall first, rest | s == [first] + rest && KeyText(first, rest) ensures CanonicalKey(s) {
      KeyTextIsKey(first, rest);
    }
  }

  predicate KeyText(first: char, rest: string) {
    && first in LETTERS && |rest| <= 127
    && forall i :: 0 <= i < |rest| ==> rest[i] in LETTERS || rest[i] in "0123456789_-"
  }

  lemma NoKey()
    ensures !CanonicalKey("")
  {}

  lemma KeyTextIsKey(first: char, rest: string)
    ensures KeyText(first, rest) <==> CanonicalKey([first] + rest)
  {
    var s := [first] + rest;
    Letters(first);
    forall i | 0 <= i < |rest|
      ensures rest[i] == s[i + 1]
      ensures rest[i] in LETTERS || rest[i] in "0123456789_-" <==>
        'a' <= rest[i] <= 'z' || '0' <= rest[i] <= '9' || rest[i] == '_' || rest[i] == '-'
    {
      Letters(rest[i]);
      OtherKeyChars(rest[i]);
    }
  }

  const LETTERS := "abcdefghijklmnopqrstuvwxyz"

  lemma Letters(c: char)
    ensures c in LETTERS <==> 'a' <= c <= 'z'
  {
    if 'a' <= c <= 'z' { assert LETTERS[c as int - 'a' as int] == c; }
  }

  lemma OtherKeyChars(c: char)
    ensures c in "0123456789_-" <==> '0' <= c <= '9' || c == '_' || c == '-'
  {
    if '0' <= c <= '9' { assert "0123456789_-"[c as int - '0' as int] == c; }
    assert "0123456789_-"[10] == '_' && "0123456789_-"[11] == '-';
  }

  // Every locale is a trimmed name, with a name or a description that is not just space.
  lemma LocalesExactly(i18n: map<string, Localization>)
    ensures Localized(i18n) <==>
      forall l :: l in i18n ==>
        && l != "" && Trimmed(l)
        && exists s, i :: s in {i18n[l].name, i18n[l].description} && 0 <= i < |s| && !IsSpace(s[i])
  {
    hide TrimSpace, Blank, Trimmed, IsSpace;
    forall l | l in i18n
      ensures !Blank(l) && TrimSpace(l) == l <==> l != "" && Trimmed(l)
      ensures !Blank(i18n[l].name) || !Blank(i18n[l].description) <==>
        exists s, i :: s in {i18n[l].name, i18n[l].description} && 0 <= i < |s| && !IsSpace(s[i])
    {
      CleanIsTrimmed(l);
      BlankIsSpace(i18n[l].name);
      BlankIsSpace(i18n[l].description);
    }
  }

  // What every field states, whatever its kind.
  predicate Described(f: ConfigField) {
    && CanonicalKey(f.key) && (exists i :: 0 <= i < |f.name| && !IsSpace(f.name[i])) && Localized(f.i18n)
    && (forall i :: 0 <= i < |f.requiredWith| ==> CanonicalKey(f.requiredWith[i]) && f.requiredWith[i] != f.key)
    && forall i, j :: 0 <= i < j < |f.requiredWith| ==> f.requiredWith[i] != f.requiredWith[j]
  }

  predicate NoTextRules(r: Rules) { r.minLength == 0 == r.maxLength && r.pattern == NoPattern }

  predicate NoBounds(r: Rules) { r.min == None == r.max }

  // Lengths that leave room, zero meaning none, and a pattern that compiles.
  predicate TextRules(r: Rules) {
    r.minLength >= 0 && (r.maxLength == 0 || r.minLength <= r.maxLength) && r.pattern != Broken
  }

  predicate TextFits(r: Rules, text: string) {
    r.minLength <= |text| && (r.maxLength == 0 || |text| <= r.maxLength) && r.pattern != Compiled(false)
  }

  // Finite bounds in order.
  predicate BoundRules(r: Rules) {
    r.min != Some(NotFinite) && r.max != Some(NotFinite)
    && (r.min.Some? && r.max.Some? ==> r.min.value.value <= r.max.value.value)
  }

  predicate NumberFits(r: Rules, x: real)
    requires BoundRules(r)
  {
    (r.min.Some? ==> r.min.value.value <= x) && (r.max.Some? ==> x <= r.max.value.value)
  }

  // A field is valid when it is described and carries only what its kind knows: lengths and a pattern
  // for texts, bounds for numbers, options for a choice. A default is one value of the kind that
  // meets the field's own rules.
  lemma FieldByKind(f: ConfigField)
    ensures ValidField(f) <==>
      && Described(f)
      && var r := f.rules;
      match f.kind
      case TextType | EmailType =>
        NoBounds(r) && r.options == [] && TextRules(r)
        && (f.raw == [] || exists text :: f.raw == [Good(Str(text))] && TextFits(r, text))
      case IntegerType =>
        NoTextRules(r) && r.options == [] && BoundRules(r)
        && (f.raw == [] || exists x :: f.raw == [Good(Number(true, true, x))] && NumberFits(r, x))
      case DecimalType =>
        NoTextRules(r) && r.options == [] && BoundRules(r)
        && (f.raw == [] || exists whole, x :: f.raw == [Good(Number(whole, true, x))] && NumberFits(r, x))
      case BooleanType =>
        NoTextRules(r) && NoBounds(r) && r.options == [] && (f.raw == [] || exists b :: f.raw == [Good(Bool(b))])
      case SelectType =>
        NoTextRules(r) && NoBounds(r) && r.options != []
        && (forall i :: 0 <= i < |r.options| ==> r.options[i] != "" && Trimmed(r.options[i]))
        && (forall i, j :: 0 <= i < j < |r.options| ==> r.options[i] != r.options[j])
        && (f.raw == [] || exists text :: f.raw == [Good(Str(text))] && text in r.options)
      case JsonType =>
        NoTextRules(r) && NoBounds(r) && r.options == []
        && (f.raw == [] || exists v :: f.raw == [Good(v)] && !v.Null? && (v.Number? ==> v.finite))
      case UnknownType => false
  {
    hide TrimSpace, Blank, CanonicalKey, Localized, Trimmed, IsSpace;
    BlankIsSpace(f.name);
    forall i | 0 <= i < |f.rules.options|
      ensures !Blank(f.rules.options[i]) && TrimSpace(f.rules.options[i]) == f.rules.options[i]
              <==> f.rules.options[i] != "" && Trimmed(f.rules.options[i])
    {
      CleanIsTrimmed(f.rules.options[i]);
    }
  }

  lemma CleanIsTrimmed(o: string)
    ensures !Blank(o) && TrimSpace(o) == o <==> o != "" && Trimmed(o)
  {
    if Trimmed(o) { TrimmedIsFixed(o); }
    var before, after := TrimSpaceSplits(o);
  }

  // A schema is valid when its keys are canonical, its revision is trimmed, its fields and secrets are
  // valid one by one, no two of them share a key, every dependency is the key of a field, and
  // whatever a safe default start needs is there without being asked for.
  lemma SchemaIsValid(d: Descriptor)
    ensures ValidSchema(d) <==>
      && CanonicalKey(d.connectorKey) && CanonicalKey(d.providerKey)
      && d.revision != "" && Trimmed(d.revision) && d.startup in {Manual, DefaultSafe}
      && (forall i :: 0 <= i < |d.fields| ==> ValidField(d.fields[i]))
      && (forall i :: 0 <= i < |d.secrets| ==>
            var f := d.secrets[i];
            && CanonicalKey(f.key) && (exists k :: 0 <= k < |f.name| && !IsSpace(f.name[k]))
            && Localized(f.i18n) && f.lifecycle)
      && (forall i, j :: 0 <= i < j < |d.fields| ==> d.fields[i].key != d.fields[j].key)
      && (forall i, j :: 0 <= i < j < |d.secrets| ==> d.secrets[i].key != d.secrets[j].key)
      && (forall i, j :: 0 <= i < |d.fields| && 0 <= j < |d.secrets| ==> d.fields[i].key != d.secrets[j].key)
      && (forall i, k :: 0 <= i < |d.fields| && 0 <= k < |d.fields[i].requiredWith| ==>
            exists j :: 0 <= j < |d.fields| && d.fields[j].key == d.fields[i].requiredWith[k])
      && (d.startup == DefaultSafe ==>
            (forall i :: 0 <= i < |d.fields| && d.fields[i].required ==> d.fields[i].raw != [])
            && (forall i :: 0 <= i < |d.secrets| ==> !d.secrets[i].required))
  {
    hide TrimSpace, Blank, CanonicalKey, Localized, Trimmed, IsSpace, ValidField, Unique;
    CleanIsTrimmed(d.revision);
    KeysDiffer(d);
    forall i | 0 <= i < |d.secrets|
      ensures Blank(d.secrets[i].name) <==> forall k :: 0 <= k < |d.secrets[i].name| ==> IsSpace(d.secrets[i].name[k])
    {
      BlankIsSpace(d.secrets[i].name);
    }
    forall key: string
      ensures key in FieldKeys(d.fields) <==> exists j :: 0 <= j < |d.fields| && d.fields[j].key == key
    {
      KeyOfField(d, key);
    }
  }

  lemma KeyOfField(d: Descriptor, key: string)
    ensures key in FieldKeys(d.fields) <==> exists j :: 0 <= j < |d.fields| && d.fields[j].key == key
  {
    var keys := FieldKeys(d.fields);
    if j :| 0 <= j < |d.fields| && d.fields[j].key == key { assert keys[j] == key; }
    if key in keys {
      var j :| 0 <= j < |keys| && keys[j] == key;
      assert d.fields[j].key == key;
    }
  }

  lemma KeysDiffer(d: Descriptor)
    ensures Unique(FieldKeys(d.fields) + SecretKeys(d.secrets)) <==>
      && (forall i, j :: 0 <= i < j < |d.fields| ==> d.fields[i].key != d.fields[j].key)
      && (forall i, j :: 0 <= i < j < |d.secrets| ==> d.secrets[i].key != d.secrets[j].key)
      && (forall i, j :: 0 <= i < |d.fields| && 0 <= j < |d.secrets| ==> d.fields[i].key != d.secrets[j].key)
  {
    var n := |d.fields|;
    var keys := FieldKeys(d.fields) + SecretKeys(d.secrets);
    assert forall i :: 0 <= i < n ==> keys[i] == d.fields[i].key;
    assert forall i :: 0 <= i < |d.secrets| ==> keys[n + i] == d.secrets[i].key;
    if Unique(keys) {
      forall i, j | 0 <= i < j < |d.secrets| ensures d.secrets[i].key != d.secrets[j].key {
        assert keys[n + i] != keys[n + j];
      }
      forall i, j | 0 <= i < n && 0 <= j < |d.secrets| ensures d.fields[i].key != d.secrets[j].key {
        assert keys[i] != keys[n + j];
      }
    }
  }
}
