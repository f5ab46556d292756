/** The subject normal form of mailwrite/validation.go: what is left of a subject without its
    surrounding space and leading "re:" marks. */
module Subjects {
  import opened Text

  // strings.EqualFold(s[:3], "re:"): no character outside ASCII folds to r, e or a colon.
  predicate HasMark(s: string) {
    |s| >= 3 && (s[0] == 'r' || s[0] == 'R') && (s[1] == 'e' || s[1] == 'E') && s[2] == ':'
  }

  // The mark is the three letters in any case.
  lemma MarkInAnyCase(s: string)
    ensures HasMark(s) <==> |s| >= 3 && exists a, b :: a in "rR" && b in "eE" && s[..3] == [a, b, ':']
  {
    if HasMark(s) { assert s[..3] == [s[0], s[1], ':']; }
    if |s| >= 3 {
      if a, b :| a in "rR" && b in "eE" && s[..3] == [a, b, ':'] {
        assert s[0] == s[..3][0] && s[1] == s[..3][1] && s[2] == s[..3][2];
      }
    }
  }

  // replySubject
  function Subject(s: string): string
    decreases |s|
  {
    var t := TrimSpace(s);
    TrimSpaceShrinks(s);
    if HasMark(t) then Subject(t[3..]) else t
  }

  lemma TrimSpaceShrinks(s: string)
    ensures |TrimSpace(s)| <= |s|
  {
    var before, after := TrimSpaceSplits(s);
  }

  method ReplySubject(s: string) returns (value: string)
    ensures value == Subject(s)
  {
    SubjectOfTrimmed(s);
    value := TrimSpace(s);
    while HasMark(value)
      invariant TrimSpace(value) == value && Subject(value) == Subject(s)
      decreases |value|
    {
      TrimSpaceShrinks(value[3..]);
      SubjectOfTrimmed(value[3..]);
      value := TrimSpace(value[3..]);
    }
  }

  lemma {:induction false} SubjectOfTrimmed(s: string)
    ensures TrimSpace(TrimSpace(s)) == TrimSpace(s) && Subject(TrimSpace(s)) == Subject(s)
  {
    TrimSpaceIdempotent(s);
  }

  // A subject is in normal form when it starts and ends with no space and bears no mark.
  predicate Normal(c: string) { Trimmed(c) && !HasMark(c) }

  // Nothing but spaces and marks.
  predicate Preamble(p: string) {
    p == "" || (IsSpace(p[0]) && Preamble(p[1..])) || (HasMark(p) && Preamble(p[3..]))
  }

  // Every subject splits into a preamble, its normal form and trailing space.
  lemma {:induction false} SubjectSplits(s: string) returns (p: string, after: string)
    ensures s == p + Subject(s) + after
    ensures Preamble(p) && Normal(Subject(s)) && AllSpace(after)
    decreases |s|
  {
    var before, tail := TrimSpaceSplits(s);
    var t := TrimSpace(s);
    if HasMark(t) {
      var q, rest := SubjectSplits(t[3..]);
      p, after := before + t[..3] + q, rest + tail;
      MarkThenPreamble(t[..3], q);
      SpacesThenPreamble(before, t[..3] + q);
      assert before + (t[..3] + q) == p;
      Regroup(s, before, t, tail, q, Subject(s), rest);
    } else {
      p, after := before, tail;
      SpacesThenPreamble(before, "");
      assert before + "" == before;
    }
  }

  lemma Regroup(s: string, before: string, t: string, tail: string, q: string, core: string, rest: string)
    requires s == before + t + tail && |t| >= 3 && t[3..] == q + core + rest
    ensures s == (before + t[..3] + q) + core + (rest + tail)
  {
    assert t == t[..3] + t[3..];
  }

  lemma {:induction false} MarkThenPreamble(mark: string, p: string)
    requires |mark| == 3 && HasMark(mark) && Preamble(p)
    ensures Preamble(mark + p)
  {
    assert (mark + p)[3..] == p;
  }

  lemma {:induction false} SpacesThenPreamble(spaces: string, p: string)
    requires AllSpace(spaces) && Preamble(p)
    ensures Preamble(spaces + p)
  {
    if spaces == "" {
      assert spaces + p == p;
    } else {
      assert (spaces + p)[1..] == spaces[1..] + p;
      SpacesThenPreamble(spaces[1..], p);
    }
  }

  // And there is no other such split: whatever stands in normal form between a preamble and
  // trailing space is what the code returns.
  lemma {:induction false} SubjectUnique(p: string, core: string, after: string)
    requires Preamble(p) && Normal(core) && AllSpace(after)
    ensures Subject(p + core + after) == core
    decreases |p|
  {
    var s := p + core + after;
    if p == "" {
      TrimSpaceUnique("", core, after);
      assert s == "" + core + after;
    } else if IsSpace(p[0]) {
      assert s[1..] == p[1..] + core + after;
      SubjectUnique(p[1..], core, after);
    } else {
      assert s[3..] == p[3..] + core + after;
      SubjectUnique(p[3..], core, after);
      MarkIsDropped(s);
    }
  }

  // Spaces before or after a subject do not matter to it.
  lemma {:induction false} SpacesIgnored(s: string, after: string)
    requires AllSpace(after)
    ensures Subject(s + after) == Subject(s)
  {
    var before, tail := TrimSpaceSplits(s);
    assert s + after == before + TrimSpace(s) + (tail + after);
    TrimSpaceUnique(before, TrimSpace(s), tail + after);
  }

  lemma {:induction false} MarkIsDropped(s: string)
    requires HasMark(s)
    ensures Subject(s) == Subject(s[3..])
  {
    var before, after := TrimSpaceSplits(s);
    var t := TrimSpace(s);
    assert forall i :: 0 <= i < |before| ==> s[i] == before[i];
    assert forall i :: |s| - |after| <= i < |s| ==> s[i] == after[i - (|s| - |after|)];
    assert before == "" && s == t + after;
    assert HasMark(t);
    assert s[3..] == t[3..] + after;
    SpacesIgnored(t[3..], after);
  }

  lemma {:induction false} SubjectIdempotent(s: string)
    ensures Subject(Subject(s)) == Subject(s)
  {
    var p, after := SubjectSplits(s);
    SubjectUnique("", Subject(s), "");
    assert "" + Subject(s) + "" == Subject(s);
  }

  // n added "Re: " prefixes.
  function Marked(n: nat, s: string): string { if n == 0 then s else "Re: " + Marked(n - 1, s) }

  lemma {:induction false} MarksChangeNothing(n: nat, s: string)
    ensures Subject(Marked(n, s)) == Subject(s)
  {
    if n > 0 {
      hide Subject, HasMark;
      var m := Marked(n - 1, s);
      MarksChangeNothing(n - 1, s);
      MarkedHasMark(m);
      MarkIsDropped("Re: " + m);
      LeadingSpaceIgnored(m);
    }
  }

  lemma MarkedHasMark(m: string)
    ensures HasMark("Re: " + m) && ("Re: " + m)[3..] == " " + m
  {}

  lemma {:induction false} LeadingSpaceIgnored(s: string)
    ensures Subject(" " + s) == Subject(s)
  {
    assert (" " + s)[1..] == s;
  }
}
