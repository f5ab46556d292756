/** calendarwrite/validation.go: attendee lists, drafts, patches and the snapshot an update is
    checked against. */
module CalendarRequests {
  import opened Wrappers
  import opened Text
  import opened CalendarWrite
  import Availability
  import LocalTime
  import MailWrite

  const MAXIMUM_ATTENDEES := 100
  const MAXIMUM_TITLE_BYTES := 1024
  const MAXIMUM_DESCRIPTION_BYTES := 65536
  const MAXIMUM_LOCATION_BYTES := 4096

  // What the libraries decide: addresses and case, RFC 3339 texts, zones, and links.
  datatype Library = Library(
    addresses: MailWrite.Library, parse: string -> Option<LocalTime.DateTime>,
    db: map<string, LocalTime.Zone>, link: string -> bool)

  // ----- Attendees

  datatype Attendee = Attendee(address: string, name: string, kind: string)

  function Mailbox(a: Attendee): MailWrite.Address { MailWrite.Address(a.name, a.address) }

  predicate KnownKind(a: Attendee) { a.kind == "required" || a.kind == "optional" || a.kind == "resource" }

  predicate ValidAttendees(lib: Library, values: Option<seq<Attendee>>) {
    values.Some? && |values.value| <= MAXIMUM_ATTENDEES
    && (forall i :: 0 <= i < |values.value| ==> KnownKind(values.value[i]))
    && MailWrite.Listable(lib.addresses, Map(Mailbox, values.value))
  }

  // attendees
  method CheckAttendees(lib: Library, values: Option<seq<Attendee>>) returns (ok: bool)
    ensures ok <==> ValidAttendees(lib, values)
  {
    hide MailWrite.Listable, MailWrite.ValidAddress, MailWrite.ToLower, MailWrite.SeenAre;
    if values == None || |values.value| > MAXIMUM_ATTENDEES {
      return false;
    }
    var list, seen := values.value, {};
    ghost var boxes := Map(Mailbox, list);
    NoneSeen(lib.addresses);
    assert boxes[..0] == [];
    for i := 0 to |list|
      invariant forall k :: 0 <= k < i ==> KnownKind(list[k])
      invariant MailWrite.Listable(lib.addresses, boxes[..i]) && MailWrite.SeenAre(lib.addresses, seen, boxes[..i])
    {
      var a := list[i];
      var key := MailWrite.ToLower(lib.addresses, a.address);
      MailWrite.ListableStep(lib.addresses, boxes[..i], Mailbox(a), seen);
      assert boxes[..i + 1] == boxes[..i] + [Mailbox(a)];
      assert boxes == boxes[..i + 1] + boxes[i + 1..];
      if !MailWrite.ValidAddress(lib.addresses, Mailbox(a)) || !KnownKind(a) || key in seen {
        if MailWrite.Listable(lib.addresses, boxes) {
          MailWrite.ListablePrefix(lib.addresses, boxes[..i + 1], boxes[i + 1..]);
        }
        return false;
      }
      seen := seen + {key};
    }
    assert boxes[..|list|] == boxes;
    return true;
  }

  // A complete list of at most 100 bare mailboxes of the three known kinds, no two alike in lower case.
  lemma AttendeesExactly(lib: Library, values: Option<seq<Attendee>>)
    ensures ValidAttendees(lib, values) <==>
      && values.Some? && |values.value| <= 100
      && (forall i :: 0 <= i < |values.value| ==>
            var a := values.value[i];
            && a.kind in {"required", "optional", "resource"} && lib.addresses.mailbox(a.address)
            && Bounded(a.address, 320, false) && Bounded(a.name, 512, false))
      && forall i, j :: 0 <= i < j < |values.value| ==>
           Map(lib.addresses.lower, values.value[i].address) != Map(lib.addresses.lower, values.value[j].address)
  {
    hide Bounded;
    if values.Some? {
      var list, boxes := values.value, Map(Mailbox, values.value);
      assert forall i :: 0 <= i < |list| ==> boxes[i] == MailWrite.Address(list[i].name, list[i].address);
    }
  }

  lemma NoneSeen(lib: MailWrite.Library)
    ensures MailWrite.Listable(lib, []) && MailWrite.SeenAre(lib, {}, [])
  {}

  // ----- Moments and bounds

  datatype MomentText = MomentText(date: string, dateTime: string, zone: string)

  function Read(lib: Library, m: MomentText): Moment {
    var clock := if m.dateTime == "" then Absent
                 else match lib.parse(m.dateTime) case None => Broken case Some(at) => Clock(at);
    Moment(m.date, clock, m.zone)
  }

  predicate WriteBounds(lib: Library, start: MomentText, end: MomentText) {
    Bounds(Read(lib, start), Read(lib, end), lib.db)
  }

  // ----- Requests

  // validID: the calendar package's rule, bounded text, and no path escapes
  predicate ValidTarget(id: string) {
    Availability.ValidID(id) && Bounded(id, 1024, false) && "." !in Split(id, '/') && ".." !in Split(id, '/')
  }

  predicate ValidTag(version: string) { ByteLen(version) <= 1024 && OneTag(version) }

  predicate Titled(title: string) { !Blank(title) && Bounded(title, MAXIMUM_TITLE_BYTES, false) }

  predicate Described(description: string) { Bounded(description, MAXIMUM_DESCRIPTION_BYTES, true) }

  predicate Located(location: string) { Bounded(location, MAXIMUM_LOCATION_BYTES, false) }

  datatype Draft = Draft(
    title: string, description: string, location: string, start: MomentText, end: MomentText,
    attendees: Option<seq<Attendee>>)

  predicate ValidDraft(lib: Library, d: Draft) {
    Titled(d.title) && Described(d.description) && Located(d.location)
    && WriteBounds(lib, d.start, d.end) && ValidAttendees(lib, d.attendees)
  }

  datatype CreateRequest = CreateRequest(calendarID: string, event: Draft, notifications: string)

  predicate ValidCreate(lib: Library, r: CreateRequest) {
    ValidTarget(r.calendarID) && r.notifications == "notify_attendees" && ValidDraft(lib, r.event)
  }

  // None leaves a field as it is.
  datatype Patch = Patch(
    title: Option<string>, description: Option<string>, location: Option<string>,
    start: Option<MomentText>, end: Option<MomentText>, attendees: Option<seq<Attendee>>)

  predicate ValidPatch(lib: Library, p: Patch) {
    !(p.title.None? && p.description.None? && p.location.None? && p.start.None? && p.end.None? && p.attendees.None?)
    && (p.title.Some? ==> Titled(p.title.value))
    && (p.description.Some? ==> Described(p.description.value))
    && (p.location.Some? ==> Located(p.location.value))
    && (p.start.Some? <==> p.end.Some?)
    && (p.start.Some? ==> WriteBounds(lib, p.start.value, p.end.value))
    && (p.attendees.Some? ==> ValidAttendees(lib, p.attendees))
  }

  datatype UpdateRequest = UpdateRequest(
    calendarID: string, eventID: string, version: string, scope: string, changes: Patch, notifications: string)

  predicate ValidUpdate(lib: Library, r: UpdateRequest) {
    ValidTarget(r.calendarID) && ValidTarget(r.eventID) && ValidTag(r.version)
    && r.notifications == "notify_attendees" && (r.scope == "event" || r.scope == "series")
    && ValidPatch(lib, r.changes)
  }

  // ----- The snapshot of the event to be changed

  datatype Event = Event(
    id: string, calendarID: string, title: string, description: string, location: string, url: string,
    status: string, start: MomentText, end: MomentText, seriesID: string, originalStart: Option<MomentText>)

  // calendar.Event.Validate
  predicate ValidEvent(lib: Library, e: Event) {
    Availability.ValidID(e.id) && Availability.ValidID(e.calendarID)
    && EventBounds(Read(lib, e.start), Read(lib, e.end))
    && (e.originalStart.Some? ==> ValidMoment(Read(lib, e.originalStart.value)))
  }

  datatype Snapshot = Snapshot(event: Event, version: string, kind: string, attendees: Option<seq<Attendee>>)

  // Snapshot.Validate for the event named by an inspection; its zone is checked with the request.
  predicate ValidSnapshot(lib: Library, s: Snapshot, calendarID: string, eventID: string) {
    var e := s.event;
    && ValidTarget(calendarID) && ValidTarget(eventID) && ValidEvent(lib, e)
    && e.calendarID == calendarID && e.id == eventID && ValidTag(s.version)
    && (e.status == "confirmed" || e.status == "tentative") && lib.link(e.url)
    && Bounded(e.title, MAXIMUM_TITLE_BYTES, false) && Described(e.description) && Located(e.location)
    && (if s.kind == "single" || s.kind == "series" then e.seriesID == "" && e.originalStart.None?
        else (s.kind == "occurrence" || s.kind == "exception")
             && ValidTarget(e.seriesID) && e.seriesID != e.id && e.originalStart.Some?)
    && ValidAttendees(lib, s.attendees)
  }

  // UpdateRequest.ValidateAgainst
  predicate Accepted(lib: Library, r: UpdateRequest, s: Snapshot) {
    ValidUpdate(lib, r) && ValidSnapshot(lib, s, r.calendarID, r.eventID)
    && r.version == s.version && (s.kind == "series" <==> r.scope == "series")
  }

  // ----- The same rules from the fields

  // A target is trimmed text of at most 1024 bytes without control characters, none of whose parts
  // between slashes steps to the same or the parent directory.
  predicate Target(id: string) {
    && id != "" && Trimmed(id) && ByteLen(id) <= 1024 && (forall i :: 0 <= i < |id| ==> !IsControl(id[i]))
    && "." !in Split(id, '/') && ".." !in Split(id, '/')
  }

  lemma TargetsExactly(id: string)
    ensures ValidTarget(id) <==> Target(id)
  {
    hide TrimSpace, Trimmed, ByteLen;
    if Trimmed(id) { TrimmedIsFixed(id); }
    var before, after := TrimSpaceSplits(id);
    assert Split(".", '/') == ["."] && Split("..", '/') == [".."] by { DotsStay(); }
  }

  lemma DotsStay()
    ensures Split(".", '/') == ["."] && Split("..", '/') == [".."]
  {
    JoinSplits(["."], '/');
    JoinSplits([".."], '/');
  }

  predicate TextOf(s: string, limit: nat, multiline: bool) {
    ByteLen(s) <= limit && forall i :: 0 <= i < |s| ==> !IsControl(s[i]) || (multiline && s[i] in {'\n', '\r', '\t'})
  }

  predicate TitleOf(s: string) { TextOf(s, 1024, false) && exists i :: 0 <= i < |s| && !IsSpace(s[i]) }

  lemma TextsExactly(s: string)
    ensures (Titled(s) <==> TitleOf(s)) && (Described(s) <==> TextOf(s, 65536, true))
    ensures (Located(s) <==> TextOf(s, 4096, false)) && (Bounded(s, 1024, false) <==> TextOf(s, 1024, false))
  {
    hide IsSpace, IsControl, ByteLen, Blank;
    BlankIsSpace(s);
    assert forall c: char :: c in {'\n', '\r', '\t'} <==> c in "\n\r\t";
  }

  // A create names one calendar, asks for the attendees to be notified, and drafts a titled event with
  // bounds and attendees.
  lemma CreatesExactly(lib: Library, r: CreateRequest)
    ensures ValidCreate(lib, r) <==>
      var d := r.event;
      && Target(r.calendarID) && r.notifications == "notify_attendees"
      && TitleOf(d.title) && TextOf(d.description, 65536, true) && TextOf(d.location, 4096, false)
      && Bounds(Read(lib, d.start), Read(lib, d.end), lib.db) && ValidAttendees(lib, d.attendees)
  {
    hide ValidTarget, Target, Titled, TitleOf, Described, Located, TextOf, Bounds, ValidAttendees, Bounded;
    TargetsExactly(r.calendarID);
    TextsExactly(r.event.title);
    TextsExactly(r.event.description);
    TextsExactly(r.event.location);
  }

  // A patch changes something, both bounds or neither, and only to what a draft may hold.
  lemma PatchesExactly(lib: Library, p: Patch)
    ensures ValidPatch(lib, p) <==>
      && (|| p.title.Some? || p.description.Some? || p.location.Some? || p.attendees.Some?
          || (p.start.Some? && p.end.Some?))
      && (p.title.Some? ==> TitleOf(p.title.value))
      && (p.description.Some? ==> TextOf(p.description.value, 65536, true))
      && (p.location.Some? ==> TextOf(p.location.value, 4096, false))
      && (p.start.Some? || p.end.Some? ==>
            p.start.Some? && p.end.Some? && Bounds(Read(lib, p.start.value), Read(lib, p.end.value), lib.db))
      && (p.attendees.Some? ==> ValidAttendees(lib, p.attendees))
  {
    hide Titled, TitleOf, Described, Located, TextOf, Bounds, ValidAttendees, Bounded, Read;
    if p.title.Some? { TextsExactly(p.title.value); }
    if p.description.Some? { TextsExactly(p.description.value); }
    if p.location.Some? { TextsExactly(p.location.value); }
  }

  // An update is accepted against a snapshot exactly when the two agree on the event and on one entity
  // tag, a series is changed as a series and everything else as an event, the changes are sound,
  // and the snapshot is a live event that could be shown.
  lemma UpdatesExactly(lib: Library, r: UpdateRequest, s: Snapshot)
    ensures Accepted(lib, r, s) <==>
      var e := s.event;
      && Target(r.calendarID) && Target(r.eventID) && e.calendarID == r.calendarID && e.id == r.eventID
      && r.version == s.version && ByteLen(r.version) <= 1024
      && (exists weak, body :: TagBody(body) && r.version == Tag(weak, body))
      && r.notifications == "notify_attendees" && ValidPatch(lib, r.changes)
      && ((r.scope == "series" && s.kind == "series")
          || (r.scope == "event" && s.kind in {"single", "occurrence", "exception"}))
      && e.status in {"confirmed", "tentative"} && lib.link(e.url)
      && TextOf(e.title, 1024, false) && TextOf(e.description, 65536, true) && TextOf(e.location, 4096, false)
      && EventBounds(Read(lib, e.start), Read(lib, e.end)) && ValidAttendees(lib, s.attendees)
      && (s.kind in {"single", "series"} ==> e.seriesID == "" && e.originalStart == None)
      && (s.kind in {"occurrence", "exception"} ==>
            && Target(e.seriesID) && e.seriesID != e.id
            && e.originalStart.Some? && ValidMoment(Read(lib, e.originalStart.value)))
  {
    hide ValidTarget, Target, Titled, Described, Located, TextOf, EventBounds, ValidAttendees, Bounded, Read, ByteLen;
    hide ValidPatch, TagBody, OneTag, ValidMoment, Availability.ValidID;
    TargetsExactly(r.calendarID);
    TargetsExactly(r.eventID);
    TargetsExactly(s.event.seriesID);
    TargetIsID(r.calendarID);
    TargetIsID(r.eventID);
    TagIsQuoted(r.version);
    TextsExactly(s.event.title);
    TextsExactly(s.event.description);
    TextsExactly(s.event.location);
  }

  lemma TargetIsID(id: string)
    ensures ValidTarget(id) ==> Availability.ValidID(id)
  {}

  function Or<T>(change: Option<T>, value: T): T { if change.Some? then change.value else value }

  // What a provider reads after the write: the patch's fields in place of the event's own, the rest
  // as it was, under whatever version the provider then gives it.
  function Written(p: Patch, s: Snapshot, version: string): Snapshot {
    var e := s.event;
    var event := e.(title := Or(p.title, e.title), description := Or(p.description, e.description),
                    location := Or(p.location, e.location), start := Or(p.start, e.start), end := Or(p.end, e.end));
    Snapshot(event, version, s.kind, if p.attendees.Some? then p.attendees else s.attendees)
  }

  // Write bounds are also event bounds, so an accepted update leads to a valid event under every
  // version the provider may give it. The version guards the repeat: the same update is accepted
  // again if and only if the write left the version as it was.
  lemma AcceptedOncePerVersion(lib: Library, r: UpdateRequest, s: Snapshot, version: string)
    requires Accepted(lib, r, s) && ValidTag(version)
    ensures ValidSnapshot(lib, Written(r.changes, s, version), r.calendarID, r.eventID)
    ensures Accepted(lib, r, Written(r.changes, s, version)) <==> version == s.version
  {
    hide ValidAttendees, ValidTarget, ValidTag, Bounds, EventBounds, Bounded, Availability.ValidID;
    var p := r.changes;
    if p.start.Some? {
      BoundsAreEventBounds(Read(lib, p.start.value), Read(lib, p.end.value), lib.db);
    }
  }

  lemma BoundsAreEventBounds(start: Moment, end: Moment, db: map<string, LocalTime.Zone>)
    requires Bounds(start, end, db)
    ensures EventBounds(start, end)
  {
    LessTotal(start.date, end.date);
  }
}
