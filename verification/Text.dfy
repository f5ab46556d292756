/** Go text as the model sees it: a string is the sequence of its Unicode scalar values, so every
    string here is valid UTF-8, and ByteLen is what Go's len reports. */
module Text {
  predicate Unique(s: seq<string>) { forall i, j :: 0 <= i < j < |s| ==> s[i] != s[j] }

  // unicode.IsSpace
  predicate IsSpace(c: char) {
    var n := c as int;
    0x09 <= n <= 0x0d || n == 0x20 || n == 0x85 || n == 0xa0 || n == 0x1680 || 0x2000 <= n <= 0x200a
    || n == 0x2028 || n == 0x2029 || n == 0x202f || n == 0x205f || n == 0x3000
  }

  // unicode.IsControl
  predicate IsControl(c: char) {
    var n := c as int;
    n < 0x20 || 0x7f <= n < 0xa0
  }

  // The number of bytes UTF-8 spends on one scalar value.
  function CharLen(c: char): nat {
    var n := c as int;
    if n < 0x80 then 1 else if n < 0x800 then 2 else if n < 0x1_0000 then 3 else 4
  }

  function ByteLen(s: string): nat {
    if s == "" then 0 else CharLen(s[0]) + ByteLen(s[1..])
  }

  lemma {:induction false} ByteLenConcat(a: string, b: string)
    ensures ByteLen(a + b) == ByteLen(a) + ByteLen(b)
  {
    if a == "" {
      assert a + b == b;
    } else {
      assert (a + b)[1..] == a[1..] + b;
      ByteLenConcat(a[1..], b);
    }
  }

  predicate Ascii(s: string) { forall i :: 0 <= i < |s| ==> s[i] as int < 0x80 }

  function AsciiLower(c: char): char { if 'A' <= c <= 'Z' then (c as int + 32) as char else c }

  // strings.TrimSpace, one end at a time
  function TrimLeft(s: string): string {
    if s != "" && IsSpace(s[0]) then TrimLeft(s[1..]) else s
  }

  function TrimRight(s: string): string {
    if s != "" && IsSpace(s[|s| - 1]) then TrimRight(s[..|s| - 1]) else s
  }

  function TrimSpace(s: string): string {
    TrimRight(TrimLeft(s))
  }

  predicate AllSpace(s: string) {
    forall i :: 0 <= i < |s| ==> IsSpace(s[i])
  }

  // No space at either end.
  predicate Trimmed(s: string) {
    s != "" ==> !IsSpace(s[0]) && !IsSpace(s[|s| - 1])
  }

  predicate Blank(s: string) {
    TrimSpace(s) == ""
  }

  lemma {:induction false} TrimLeftSplits(s: string)
    ensures |TrimLeft(s)| <= |s|
    ensures var k := |s| - |TrimLeft(s)|; AllSpace(s[..k]) && TrimLeft(s) == s[k..]
    ensures TrimLeft(s) != "" ==> !IsSpace(TrimLeft(s)[0])
  {
    if s != "" && IsSpace(s[0]) {
      TrimLeftSplits(s[1..]);
      var k := |s| - |TrimLeft(s)|;
      assert s[..k] == [s[0]] + s[1..][..k - 1];
      assert s[k..] == s[1..][k - 1..];
    }
  }

  lemma {:induction false} TrimRightSplits(s: string)
    ensures |TrimRight(s)| <= |s|
    ensures var k := |TrimRight(s)|; TrimRight(s) == s[..k] && AllSpace(s[k..])
    ensures TrimRight(s) != "" ==> !IsSpace(TrimRight(s)[|TrimRight(s)| - 1])
  {
    hide IsSpace;
    if s != "" && IsSpace(s[|s| - 1]) {
      var init := s[..|s| - 1];
      TrimRightSplits(init);
      var k := |TrimRight(s)|;
      assert s[k..] == init[k..] + [s[|s| - 1]];
      assert s[..k] == init[..k];
    }
  }

  // TrimSpace cuts spaces off both ends and leaves a trimmed middle.
  lemma TrimSpaceSplits(s: string) returns (before: string, after: string)
    ensures s == before + TrimSpace(s) + after
    ensures AllSpace(before) && AllSpace(after) && Trimmed(TrimSpace(s))
    ensures |TrimSpace(s)| <= |s|
  {
    TrimLeftSplits(s);
    var t := TrimLeft(s);
    TrimRightSplits(t);
    before, after := s[..|s| - |t|], t[|TrimRight(t)|..];
    if TrimSpace(s) != "" { assert TrimSpace(s)[0] == t[0]; }
  }

  // Conversely, whatever trimmed middle one finds between spaces is what TrimSpace returns.
  lemma {:induction false} TrimSpaceUnique(before: string, core: string, after: string)
    requires AllSpace(before) && AllSpace(after) && Trimmed(core)
    ensures TrimSpace(before + core + after) == core
    decreases |before| + |after|
  {
    var s := before + core + after;
    if before != "" {
      assert s[1..] == before[1..] + core + after;
      assert s[0] == before[0];
      TrimSpaceUnique(before[1..], core, after);
    } else if core == "" {
      assert s == after;
      TrimAllSpace(after);
    } else {
      assert s == core + after && s[0] == core[0];
      TrimRightUnique(core, after);
    }
  }

  lemma {:induction false} TrimAllSpace(s: string)
    requires AllSpace(s)
    ensures TrimLeft(s) == "" && TrimSpace(s) == ""
  {
    if s != "" { TrimAllSpace(s[1..]); }
  }

  lemma {:induction false} TrimRightUnique(core: string, after: string)
    requires AllSpace(after) && Trimmed(core)
    ensures TrimRight(core + after) == core
  {
    if after == "" {
      assert core + after == core;
    } else {
      var s := core + after;
      assert s[..|s| - 1] == core + after[..|after| - 1];
      TrimRightUnique(core, after[..|after| - 1]);
    }
  }

  lemma TrimmedIsFixed(s: string)
    requires Trimmed(s)
    ensures TrimSpace(s) == s
  {
    TrimSpaceUnique("", s, "");
    assert "" + s + "" == s;
  }

  lemma BlankIsSpace(s: string)
    ensures Blank(s) <==> forall i :: 0 <= i < |s| ==> IsSpace(s[i])
  {
    hide IsSpace;
    if AllSpace(s) { TrimAllSpace(s); }
    var before, after := TrimSpaceSplits(s);
    if Blank(s) { assert s == before + after; }
  }

  lemma TrimSpaceIdempotent(s: string)
    ensures TrimSpace(TrimSpace(s)) == TrimSpace(s)
  {
    var before, after := TrimSpaceSplits(s);
    TrimmedIsFixed(TrimSpace(s));
  }

  // The bounded-text rule that the mail, calendar and web packages share.
  predicate Bounded(s: string, limit: nat, multiline: bool) {
    ByteLen(s) <= limit
    && forall i :: 0 <= i < |s| ==> !IsControl(s[i]) || (multiline && s[i] in "\n\r\t")
  }

  // Go's < on strings. UTF-8 keeps code point order, so bytes and scalar values agree.
  predicate Less(a: string, b: string) {
    if b == "" then false
    else if a == "" then true
    else a[0] < b[0] || (a[0] == b[0] && Less(a[1..], b[1..]))
  }

  lemma {:induction false} LessTotal(a: string, b: string)
    ensures Less(a, b) || Less(b, a) || a == b
    ensures !(Less(a, b) && Less(b, a)) && !Less(a, a)
  {
    if a != "" && b != "" {
      LessTotal(a[1..], b[1..]);
      if a[1..] == b[1..] && a[0] == b[0] { assert a == [a[0]] + a[1..] && b == [b[0]] + b[1..]; }
    }
    if a != "" { LessTotal(a[1..], a[1..]); }
  }

  lemma {:induction false} LessTransitive(a: string, b: string, c: string)
    requires Less(a, b) && Less(b, c)
    ensures Less(a, c)
  {
    if a != "" && a[0] == b[0] == c[0] { LessTransitive(a[1..], b[1..], c[1..]); }
  }

  // strings.Split at a one-character separator
  function Split(s: string, sep: char): (parts: seq<string>)
    ensures parts != []
  {
    if s == "" then [""]
    else if s[0] == sep then [""] + Split(s[1..], sep)
    else
      var parts := Split(s[1..], sep);
      [[s[0]] + parts[0]] + parts[1..]
  }

  function Join(parts: seq<string>, sep: char): string {
    if parts == [] then ""
    else if |parts| == 1 then parts[0]
    else parts[0] + [sep] + Join(parts[1..], sep)
  }

  lemma {:induction false} PrependJoins(c: char, parts: seq<string>, sep: char)
    requires parts != []
    ensures Join([[c] + parts[0]] + parts[1..], sep) == [c] + Join(parts, sep)
  {
    var longer := [[c] + parts[0]] + parts[1..];
    assert longer[1..] == parts[1..];
  }

  // The parts are free of the separator, rejoin to the string, and are as many as it has
  // separators, and one.
  lemma {:induction false} SplitJoins(s: string, sep: char)
    ensures Join(Split(s, sep), sep) == s
    ensures forall i :: 0 <= i < |Split(s, sep)| ==> sep !in Split(s, sep)[i]
    ensures sep in s <==> |Split(s, sep)| >= 2
  {
    if s != "" {
      hide Join;
      var rest := Split(s[1..], sep);
      SplitJoins(s[1..], sep);
      assert s == [s[0]] + s[1..];
      if s[0] == sep {
        EmptyFirstJoins(rest, sep);
      } else {
        PrependJoins(s[0], rest, sep);
      }
    }
  }

  // And there are no other such parts.
  lemma {:induction false} JoinSplits(parts: seq<string>, sep: char)
    requires parts != [] && forall i :: 0 <= i < |parts| ==> sep !in parts[i]
    ensures Split(Join(parts, sep), sep) == parts
    decreases |parts|, |parts[0]|
  {
    var s := Join(parts, sep);
    if parts[0] != "" {
      var c, less := parts[0][0], [parts[0][1..]] + parts[1..];
      assert less[1..] == parts[1..] && [c] + less[0] == parts[0];
      PrependJoins(c, less, sep);
      assert [[c] + less[0]] + less[1..] == parts;
      JoinSplits(less, sep);
      assert s == [c] + Join(less, sep) && s[1..] == Join(less, sep);
      assert c in parts[0];
    } else if |parts| > 1 {
      JoinSplits(parts[1..], sep);
      assert s == [sep] + Join(parts[1..], sep) && s[1..] == Join(parts[1..], sep);
      assert parts == [""] + parts[1..];
    } else {
      assert parts == [""];
    }
  }

  lemma {:induction false} EmptyFirstJoins(parts: seq<string>, sep: char)
    requires parts != []
    ensures Join([""] + parts, sep) == [sep] + Join(parts, sep)
  {
    assert ([""] + parts)[1..] == parts;
  }
}
