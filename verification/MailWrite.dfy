/** mailwrite/validation.go: which outgoing messages and replies are accepted. */
module MailWrite {
  import opened Wrappers
  import opened Text
  import opened Subjects

  const MAXIMUM_RECIPIENTS := 50
  const MAXIMUM_SUBJECT_BYTES := 2048
  const MAXIMUM_TEXT_BYTES := 65536

  // ----- Addresses

  datatype Address = Address(name: string, address: string)

  // What the library decides: whether a text is exactly one bare mailbox, and the two case mappings
  // of a character, to lower case and to the representative of its folding class.
  datatype Library = Library(mailbox: string -> bool, lower: char -> char, fold: char -> char)

  // The empty text is no mailbox, and on ASCII both mappings are the usual one.
  ghost predicate Lawful(lib: Library) {
    !lib.mailbox("") && forall c: char :: c as int < 0x80 ==> lib.lower(c) == AsciiLower(c) == lib.fold(c)
  }

  // strings.ToLower
  function ToLower(lib: Library, s: string): string { Map(lib.lower, s) }

  // strings.EqualFold
  predicate EqualFold(lib: Library, s: string, t: string) { Map(lib.fold, s) == Map(lib.fold, t) }

  predicate ValidAddress(lib: Library, a: Address) {
    lib.mailbox(a.address) && Bounded(a.address, 320, false) && Bounded(a.name, 512, false)
  }

  // On ASCII folding and lower case agree.
  lemma AsciiFoldsToLower(lib: Library, s: string, t: string)
    requires Lawful(lib) && Ascii(s) && Ascii(t)
    ensures EqualFold(lib, s, t) <==> ToLower(lib, s) == ToLower(lib, t)
  {
    assert Map(lib.fold, s) == Map(lib.lower, s) && Map(lib.fold, t) == Map(lib.lower, t);
  }

  // ----- Messages

  datatype Message = Message(
    to: Option<seq<Address>>, cc: Option<seq<Address>>, bcc: Option<seq<Address>>, subject: string, text: string)

  function Group(g: Option<seq<Address>>): seq<Address> { if g.Some? then g.value else [] }

  function Recipients(m: Message): seq<Address> { Group(m.to) + Group(m.cc) + Group(m.bcc) }

  // Valid recipients, no two of them alike in lower case.
  predicate Listable(lib: Library, s: seq<Address>) {
    (forall i :: 0 <= i < |s| ==> ValidAddress(lib, s[i]))
    && forall i, j :: 0 <= i < j < |s| ==> ToLower(lib, s[i].address) != ToLower(lib, s[j].address)
  }

  predicate ValidMessage(lib: Library, m: Message) {
    Bounded(m.subject, MAXIMUM_SUBJECT_BYTES, false) && Bounded(m.text, MAXIMUM_TEXT_BYTES, true)
    && !(Blank(m.subject) && Blank(m.text))
    && m.to.Some? && m.cc.Some? && m.bcc.Some?
    && 1 <= |Recipients(m)| <= MAXIMUM_RECIPIENTS
    && Listable(lib, Recipients(m))
  }

  // What a message must be: bounded texts of which one says something, three groups that are there,
  // and in them 1 to 50 bare mailboxes, no two alike in lower case.
  lemma MessagesExactly(lib: Library, m: Message)
    ensures ValidMessage(lib, m) <==>
      && ByteLen(m.subject) <= 2048 && (forall i :: 0 <= i < |m.subject| ==> !IsControl(m.subject[i]))
      && ByteLen(m.text) <= 65536
      && (forall i :: 0 <= i < |m.text| ==> m.text[i] in {'\n', '\r', '\t'} || !IsControl(m.text[i]))
      && (exists s, i :: s in {m.subject, m.text} && 0 <= i < |s| && !IsSpace(s[i]))
      && m.to.Some? && m.cc.Some? && m.bcc.Some?
      && 1 <= |m.to.value| + |m.cc.value| + |m.bcc.value| <= 50
      && var all := m.to.value + m.cc.value + m.bcc.value;
         && (forall i :: 0 <= i < |all| ==>
               && lib.mailbox(all[i].address)
               && Bounded(all[i].address, 320, false) && Bounded(all[i].name, 512, false))
         && forall i, j :: 0 <= i < j < |all| ==> Map(lib.lower, all[i].address) != Map(lib.lower, all[j].address)
  {
    hide IsSpace, IsControl, ByteLen, Blank;
    BlankIsSpace(m.subject);
    BlankIsSpace(m.text);
    assert forall c: char :: c in {'\n', '\r', '\t'} <==> c in "\n\r\t";
    forall s, i | s in {m.subject, m.text} && 0 <= i < |s| && !IsSpace(s[i])
      ensures !(Blank(m.subject) && Blank(m.text))
    {
      assert s == m.subject || s == m.text;
    }
  }

  ghost predicate SeenAre(lib: Library, seen: set<string>, s: seq<Address>) {
    (forall i :: 0 <= i < |s| ==> ToLower(lib, s[i].address) in seen)
    && forall k :: k in seen ==> exists i :: 0 <= i < |s| && ToLower(lib, s[i].address) == k
  }

  lemma ListableStep(lib: Library, s: seq<Address>, a: Address, seen: set<string>)
    requires Listable(lib, s) && SeenAre(lib, seen, s)
    ensures Listable(lib, s + [a]) <==> ValidAddress(lib, a) && ToLower(lib, a.address) !in seen
    ensures SeenAre(lib, seen + {ToLower(lib, a.address)}, s + [a])
  {
    hide ToLower, ValidAddress;
    var longer, key := s + [a], ToLower(lib, a.address);
    assert longer[|s|] == a;
    assert forall i :: 0 <= i < |s| ==> longer[i] == s[i];
    if key in seen {
      var i :| 0 <= i < |s| && ToLower(lib, s[i].address) == key;
      assert ToLower(lib, longer[i].address) == key;
    }
    forall k | k in seen + {key} ensures exists i :: 0 <= i < |longer| && ToLower(lib, longer[i].address) == k {
      if k != key {
        var i :| 0 <= i < |s| && ToLower(lib, s[i].address) == k;
        assert ToLower(lib, longer[i].address) == k;
      }
    }
  }

  lemma ListablePrefix(lib: Library, s: seq<Address>, t: seq<Address>)
    requires Listable(lib, s + t)
    ensures Listable(lib, s)
  {
    assert forall i :: 0 <= i < |s| ==> (s + t)[i] == s[i];
  }

  // One of the three groups, after the recipients before it.
  method CheckGroup(lib: Library, group: seq<Address>, seen: set<string>, ghost before: seq<Address>)
    returns (ok: bool, after: set<string>)
    requires Listable(lib, before) && SeenAre(lib, seen, before)
    ensures ok <==> Listable(lib, before + group)
    ensures ok ==> SeenAre(lib, after, before + group)
  {
    hide Listable, SeenAre, ValidAddress, ToLower;
    after := seen;
    assert before + group[..0] == before;
    for i := 0 to |group|
      invariant Listable(lib, before + group[..i]) && SeenAre(lib, after, before + group[..i])
    {
      var key := ToLower(lib, group[i].address);
      ListableStep(lib, before + group[..i], group[i], after);
      assert before + group[..i] + [group[i]] == before + group[..i + 1];
      assert before + group == (before + group[..i + 1]) + group[i + 1..];
      if !ValidAddress(lib, group[i]) || key in after {
        if Listable(lib, before + group) { ListablePrefix(lib, before + group[..i + 1], group[i + 1..]); }
        return false, after;
      }
      after := after + {key};
    }
    assert group[..|group|] == group;
    return true, after;
  }

  // Message.Validate
  method ValidateMessage(lib: Library, m: Message) returns (ok: bool)
    ensures ok <==> ValidMessage(lib, m)
  {
    if !Bounded(m.subject, MAXIMUM_SUBJECT_BYTES, false) || !Bounded(m.text, MAXIMUM_TEXT_BYTES, true)
       || (Blank(m.subject) && Blank(m.text)) {
      return false;
    }
    if m.to == None || m.cc == None || m.bcc == None {
      return false;
    }
    var count := |m.to.value| + |m.cc.value| + |m.bcc.value|;
    if count < 1 || count > MAXIMUM_RECIPIENTS {
      return false;
    }
    var groups, seen := [m.to.value, m.cc.value, m.bcc.value], {};
    ghost var before: seq<Address> := [];
    for g := 0 to 3
      invariant Listable(lib, before) && SeenAre(lib, seen, before)
      invariant g == 0 ==> before == []
      invariant g == 1 ==> before == m.to.value
      invariant g == 2 ==> before == m.to.value + m.cc.value
      invariant g == 3 ==> before == Recipients(m)
    {
      var fine, more := CheckGroup(lib, groups[g], seen, before);
      if !fine {
        NotListable(lib, m, g, before);
        return false;
      }
      seen, before := more, before + groups[g];
    }
    return true;
  }

  lemma NotListable(lib: Library, m: Message, g: nat, before: seq<Address>)
    requires m.to.Some? && m.cc.Some? && m.bcc.Some? && g < 3
    requires before == [[], m.to.value, m.to.value + m.cc.value][g]
    requires !Listable(lib, before + [m.to.value, m.cc.value, m.bcc.value][g])
    ensures !Listable(lib, Recipients(m))
  {
    var rest := [m.cc.value + m.bcc.value, m.bcc.value, []][g];
    assert Recipients(m) == (before + [m.to.value, m.cc.value, m.bcc.value][g]) + rest;
    if Listable(lib, Recipients(m)) { ListablePrefix(lib, before + [m.to.value, m.cc.value, m.bcc.value][g], rest); }
  }

  // ----- Replies

  // mail.ValidID
  predicate ValidID(s: string) {
    s != "" && TrimSpace(s) == s && Bounded(s, 2048, false)
    && "." !in Split(s, '/') && ".." !in Split(s, '/')
  }

  // The freshly read original. dates says that both dates are absent or RFC 3339.
  datatype Summary = Summary(
    id: string, threadID: string, internetMessageID: string, subject: string,
    from: Option<seq<Address>>, to: Option<seq<Address>>, cc: Option<seq<Address>>, replyTo: Option<seq<Address>>,
    dates: bool, isDraft: Option<bool>, metadataComplete: bool)

  predicate ValidList(s: Option<seq<Address>>) {
    s.Some? && |s.value| <= 50
    && forall i :: 0 <= i < |s.value| ==>
         s.value[i].address != "" && Bounded(s.value[i].address, 320, false) && Bounded(s.value[i].name, 512, false)
  }

  // mail.Summary.Validate
  predicate ValidSummary(s: Summary) {
    ValidID(s.id) && (s.threadID != "" ==> ValidID(s.threadID))
    && Bounded(s.internetMessageID, 2048, false) && Bounded(s.subject, 2048, false)
    && s.dates && ValidList(s.from) && ValidList(s.to) && ValidList(s.cc) && ValidList(s.replyTo)
  }

  datatype ReplyRequest = ReplyRequest(messageID: string, message: Message)

  predicate ValidReply(lib: Library, r: ReplyRequest) { ValidID(r.messageID) && ValidMessage(lib, r.message) }

  // An identifier is trimmed text of at most 2048 bytes, none of whose parts between slashes steps to
  // the same or the parent directory.
  lemma {:induction false} IdentifiersExactly(s: string)
    ensures ValidID(s) <==>
      && s != "" && Trimmed(s) && ByteLen(s) <= 2048 && (forall i :: 0 <= i < |s| ==> !IsControl(s[i]))
      && forall parts :: parts != [] && Join(parts, '/') == s && (forall i :: 0 <= i < |parts| ==> '/' !in parts[i]) ==>
           "." !in parts && ".." !in parts
  {
    hide TrimSpace, Trimmed, ByteLen, IsControl, Split, Join;
    if Trimmed(s) { TrimmedIsFixed(s); }
    var before, after := TrimSpaceSplits(s);
    SplitJoins(s, '/');
    forall parts | parts != [] && Join(parts, '/') == s && (forall i :: 0 <= i < |parts| ==> '/' !in parts[i])
      ensures parts == Split(s, '/')
    {
      JoinSplits(parts, '/');
    }
  }

  // What a reply can be checked against: identified, bounded, dated or not dated at all, and with all
  // four address lists there, of at most 50 bounded addresses each.
  lemma OriginalsExactly(s: Summary)
    ensures ValidSummary(s) <==>
      && ValidID(s.id) && (s.threadID == "" || ValidID(s.threadID))
      && Bounded(s.internetMessageID, 2048, false) && Bounded(s.subject, 2048, false)
      && s.dates && GivenList(s.from) && GivenList(s.to) && GivenList(s.cc) && GivenList(s.replyTo)
  {
    hide ValidID, Bounded, ValidList, GivenList;
    GivenIsValid(s.from);
    GivenIsValid(s.to);
    GivenIsValid(s.cc);
    GivenIsValid(s.replyTo);
  }

  lemma GivenIsValid(list: Option<seq<Address>>)
    ensures ValidList(list) <==> GivenList(list)
  {
    hide Bounded;
  }

  predicate GivenList(list: Option<seq<Address>>) {
    && list != None && |list.value| <= 50
    && forall a :: a in list.value ==> a.address != "" && Bounded(a.address, 320, false) && Bounded(a.name, 512, false)
  }

  function Targets(o: Summary): seq<Address> {
    if Group(o.replyTo) != [] then Group(o.replyTo) else Group(o.from)
  }

  ghost predicate Matches(lib: Library, t: Address, s: seq<Address>, i: int) {
    0 <= i < |s| && EqualFold(lib, t.address, s[i].address)
  }

  // ReplyRequest.ValidateAgainst
  ghost predicate Accepted(lib: Library, r: ReplyRequest, o: Summary) {
    ValidReply(lib, r) && ValidSummary(o)
    && o.id == r.messageID && o.metadataComplete && o.isDraft == Some(false)
    && Subject(r.message.subject) == Subject(o.subject)
    && Targets(o) != []
    && forall k :: 0 <= k < |Targets(o)| ==> Served(lib, Targets(o)[k], r.message.to.value)
  }

  ghost predicate Served(lib: Library, t: Address, to: seq<Address>) {
    ValidAddress(lib, t) && exists i :: Matches(lib, t, to, i)
  }

  method ValidateAgainst(lib: Library, r: ReplyRequest, o: Summary) returns (ok: bool)
    ensures ok <==> Accepted(lib, r, o)
  {
    hide ValidID, Bounded, Blank, Listable, ValidAddress, EqualFold, Subject;
    if !ValidID(r.messageID) {
      return false;
    }
    var valid := ValidateMessage(lib, r.message);
    if !valid || !ValidSummary(o) {
      return false;
    }
    var ours := ReplySubject(r.message.subject);
    var theirs := ReplySubject(o.subject);
    if o.id != r.messageID || !o.metadataComplete || o.isDraft == None || o.isDraft.value || ours != theirs {
      return false;
    }
    var targets := if |o.replyTo.value| == 0 then o.from.value else o.replyTo.value;
    assert targets == Targets(o);
    if |targets| == 0 {
      return false;
    }
    var to := r.message.to.value;
    for k := 0 to |targets|
      invariant forall q :: 0 <= q < k ==> Served(lib, targets[q], to)
    {
      if !ValidAddress(lib, targets[k]) {
        return false;
      }
      var found := false;
      for i := 0 to |to|
        invariant found <==> exists q :: q < i && Matches(lib, targets[k], to, q)
      {
        assert Matches(lib, targets[k], to, i) <==> EqualFold(lib, targets[k].address, to[i].address);
        found := found || EqualFold(lib, targets[k].address, to[i].address);
      }
      if !found {
        assert !Served(lib, targets[k], to);
        return false;
      }
    }
    return true;
  }

  // Whom a reply must serve: everyone the original asked to be answered at, or, where it asked for
  // nobody, everyone it came from. Each of them must be a usable mailbox that some To recipient folds
  // to; a valid reply to a valid, complete, sent original of that id and subject needs nothing else.
  lemma RepliesExactly(lib: Library, r: ReplyRequest, o: Summary)
    ensures Accepted(lib, r, o) <==>
      && ValidReply(lib, r) && ValidSummary(o)
      && o.id == r.messageID && o.metadataComplete && o.isDraft == Some(false)
      && Subject(r.message.subject) == Subject(o.subject)
      && (o.replyTo.value != [] ==> AllAddressed(lib, o.replyTo.value, r.message.to.value))
      && (o.replyTo.value == [] ==> o.from.value != [] && AllAddressed(lib, o.from.value, r.message.to.value))
  {
    hide ValidID, Bounded, Blank, Listable, ValidAddress, EqualFold, Subject;
    if ValidReply(lib, r) && ValidSummary(o) {
      var list, to := if o.replyTo.value != [] then o.replyTo.value else o.from.value, r.message.to.value;
      assert Targets(o) == list;
      forall k | 0 <= k < |list| ensures Served(lib, list[k], to) <==> Addressed(lib, list[k], to) {
        ServedIsAddressed(lib, list[k], to);
      }
    }
  }

  predicate AllAddressed(lib: Library, list: seq<Address>, to: seq<Address>) {
    forall k :: 0 <= k < |list| ==> Addressed(lib, list[k], to)
  }

  // A bare mailbox of bounded length that equals the address of a recipient up to folding.
  predicate Addressed(lib: Library, a: Address, to: seq<Address>) {
    lib.mailbox(a.address) && Bounded(a.address, 320, false) && Bounded(a.name, 512, false)
    && exists i :: 0 <= i < |to| && Map(lib.fold, a.address) == Map(lib.fold, to[i].address)
  }

  lemma ServedIsAddressed(lib: Library, a: Address, to: seq<Address>)
    ensures Served(lib, a, to) <==> Addressed(lib, a, to)
  {
    hide Bounded;
    if i :| Matches(lib, a, to, i) { assert Map(lib.fold, a.address) == Map(lib.fold, to[i].address); }
    if i :| 0 <= i < |to| && Map(lib.fold, a.address) == Map(lib.fold, to[i].address) {
      assert Matches(lib, a, to, i);
    }
  }

  // ----- Who an accepted reply goes to

  // The target is exactly one of the recipients, and that one stands in To.
  ghost predicate ReachedOnce(lib: Library, t: Address, m: Message) {
    exists i :: 0 <= i < |Group(m.to)| && Matches(lib, t, Recipients(m), i)
      && forall j :: Matches(lib, t, Recipients(m), j) ==> j == i
  }

  // No recipient in To folds to the same text as another recipient.
  predicate FoldsApart(lib: Library, m: Message) {
    forall i, j :: 0 <= i < |Group(m.to)| && 0 <= j < |Recipients(m)| && i != j
      ==> !EqualFold(lib, Recipients(m)[i].address, Recipients(m)[j].address)
  }

  lemma AcceptedReachesOnce(lib: Library, r: ReplyRequest, o: Summary, k: nat)
    requires Accepted(lib, r, o) && k < |Targets(o)| && FoldsApart(lib, r.message)
    ensures ReachedOnce(lib, Targets(o)[k], r.message)
  {
    var t, all := Targets(o)[k], Recipients(r.message);
    var i :| Matches(lib, t, r.message.to.value, i);
    assert all[i] == r.message.to.value[i];
    assert Matches(lib, t, all, i);
    forall j | Matches(lib, t, all, j) ensures j == i {
      assert EqualFold(lib, all[i].address, all[j].address);
    }
  }

  // With ASCII addresses every original target of an accepted reply is exactly one of its
  // recipients, and that one stands in To: duplicates were refused by lower case.
  lemma AsciiTargetsReachedOnce(lib: Library, r: ReplyRequest, o: Summary, k: nat)
    requires Lawful(lib) && Accepted(lib, r, o) && k < |Targets(o)|
    requires forall i :: 0 <= i < |Recipients(r.message)| ==> Ascii(Recipients(r.message)[i].address)
    ensures ReachedOnce(lib, Targets(o)[k], r.message)
  {
    var all := Recipients(r.message);
    forall i, j | 0 <= i < |Group(r.message.to)| && 0 <= j < |all| && i != j
      ensures !EqualFold(lib, all[i].address, all[j].address)
    {
      AsciiFoldsToLower(lib, all[i].address, all[j].address);
    }
    AcceptedReachesOnce(lib, r, o, k);
  }

  // Beyond ASCII the duplicate check and the target check differ. A reply reaches every target of
  // every original it may answer exactly once if and only if its To recipients fold apart.
  lemma ReachedOnceExactly(lib: Library, r: ReplyRequest)
    requires Lawful(lib) && ValidReply(lib, r)
    ensures (forall o, k :: Accepted(lib, r, o) && 0 <= k < |Targets(o)| ==> ReachedOnce(lib, Targets(o)[k], r.message))
            <==> FoldsApart(lib, r.message)
  {
    if FoldsApart(lib, r.message) {
      forall o, k | Accepted(lib, r, o) && 0 <= k < |Targets(o)| ensures ReachedOnce(lib, Targets(o)[k], r.message) {
        AcceptedReachesOnce(lib, r, o, k);
      }
    } else {
      var all := Recipients(r.message);
      var i, j :| 0 <= i < |Group(r.message.to)| && 0 <= j < |all| && i != j
                  && EqualFold(lib, all[i].address, all[j].address);
      var o := From(r, all[i]);
      AnswersFrom(lib, r, i);
      assert Matches(lib, all[i], all, i) && Matches(lib, all[i], all, j);
      assert !ReachedOnce(lib, Targets(o)[0], r.message);
    }
  }

  // An original from one sender that the reply answers.
  function From(r: ReplyRequest, a: Address): Summary {
    Summary(r.messageID, "", "", r.message.subject, Some([a]), Some([]), Some([]), Some([]), true, Some(false), true)
  }

  lemma AnswersFrom(lib: Library, r: ReplyRequest, i: nat)
    requires Lawful(lib) && ValidReply(lib, r) && i < |Group(r.message.to)|
    ensures var a := Recipients(r.message)[i]; Accepted(lib, r, From(r, a)) && Targets(From(r, a)) == [a]
  {
    var all := Recipients(r.message);
    assert all[i] == r.message.to.value[i];
    assert ValidAddress(lib, all[i]) && all[i].address != "";
    assert Matches(lib, all[i], r.message.to.value, i);
  }

  // The long s folds to s but is already lower case, so a valid reply may address both.
  lemma LongSReachedTwice(lib: Library, text: string)
    requires Lawful(lib) && lib.fold('\U{017f}') == 's' && lib.lower('\U{017f}') == '\U{017f}'
    requires lib.mailbox("s@x") && lib.mailbox("\U{017f}@x")
    requires Bounded(text, MAXIMUM_TEXT_BYTES, true) && !Blank(text)
    ensures ValidMessage(lib, ToBoth(text)) && !FoldsApart(lib, ToBoth(text))
  {
    hide Bounded, Blank, EqualFold, ToLower;
    var a, b := Address("", "s@x"), Address("", "\U{017f}@x");
    assert Recipients(ToBoth(text)) == [a, b];
    ShortIsBounded();
    LongSFolds(lib);
    assert EqualFold(lib, Recipients(ToBoth(text))[0].address, Recipients(ToBoth(text))[1].address);
  }

  function ToBoth(text: string): Message {
    Message(Some([Address("", "s@x"), Address("", "\U{017f}@x")]), Some([]), Some([]), "", text)
  }

  lemma ShortIsBounded()
    ensures Bounded("s@x", 320, false) && Bounded("\U{017f}@x", 320, false)
    ensures Bounded("", 512, false) && Bounded("", 2048, false)
  {}

  lemma LongSFolds(lib: Library)
    requires Lawful(lib) && lib.fold('\U{017f}') == 's' && lib.lower('\U{017f}') == '\U{017f}'
    ensures EqualFold(lib, "s@x", "\U{017f}@x") && ToLower(lib, "s@x") != ToLower(lib, "\U{017f}@x")
  {
    assert ToLower(lib, "s@x")[0] == 's' && ToLower(lib, "\U{017f}@x")[0] == '\U{017f}';
  }

  // ----- Chains

  // A chain of replies, each accepted against the message before it as its provider stored it.
  ghost predicate Chain(lib: Library, rs: seq<ReplyRequest>, os: seq<Summary>) {
    |rs| == |os|
    && (forall i :: 0 <= i < |rs| ==> Accepted(lib, rs[i], os[i]))
    && forall i :: 0 < i < |rs| ==> os[i].subject == rs[i - 1].message.subject
  }

  // Along a chain every reply keeps the subject of the first message, whatever marks were added.
  lemma {:induction false} ChainKeepsSubject(lib: Library, rs: seq<ReplyRequest>, os: seq<Summary>, i: nat)
    requires Chain(lib, rs, os) && i < |rs|
    ensures Subject(rs[i].message.subject) == Subject(os[0].subject)
  {
    hide ValidReply, ValidSummary, Served, Subject, Targets;
    if i > 0 {
      ChainKeepsSubject(lib, rs, os, i - 1);
      assert Accepted(lib, rs[i], os[i]);
    } else {
      assert Accepted(lib, rs[0], os[0]);
    }
  }
}
