/** decode.go of mailwrite and calendarwrite: the requests as JSON, the 1 MiB limit before decoding,
    and which valid requests stay under it. */
module RequestSize {
  import opened Wrappers
  import opened Text
  import opened JsonText
  import opened MailWrite
  import opened CalendarRequests
  import CalendarWrite
  import Dates

  const MAXIMUM_REQUEST_BYTES := 1048576

  // ----- Decoding

  // decode, before the JSON decoder reads anything
  predicate Admitted(raw: string) {
    raw != "" && ByteLen(raw) <= MAXIMUM_REQUEST_BYTES && TrimSpace(raw) != "null"
  }

  // The variable that UnmarshalJSON fills in place. read is the strict decoder for its type.
  class Receiver<T> {
    var value: T

    constructor (initial: T)
      ensures value == initial
    {
      value := initial;
    }

    // What decodes is stored before it is checked, so a refused request may still have replaced the
    // value; what does not decode leaves it alone.
    method UnmarshalJSON(raw: string, read: string -> Option<T>, check: T -> bool) returns (ok: bool)
      modifies this
      ensures var tried := raw != "" && ByteLen(raw) <= 1_048_576 && TrimSpace(raw) != "null";
        && (ok <==> tried && read(raw).Some? && check(read(raw).value))
        && value == if tried && read(raw).Some? then read(raw).value else old(value)
    {
      if raw == "" || ByteLen(raw) > MAXIMUM_REQUEST_BYTES || TrimSpace(raw) == "null" {
        return false;
      }
      var decoded := read(raw);
      if decoded == None {
        return false;
      }
      value := decoded.value;
      ok := check(value);
    }
  }

  // An object that is small enough is admitted.
  lemma ObjectAdmitted(members: string)
    requires ByteLen(Object(members)) <= MAXIMUM_REQUEST_BYTES
    ensures Admitted(Object(members))
  {
    var raw := Object(members);
    assert raw[0] == '{' && raw[|raw| - 1] == '}';
    TrimmedIsFixed(raw);
  }

  // ----- Mail

  function EncodeAddress(esc: Escaper, a: Address): string {
    Object(OptionalMember(esc, "name", a.name, TextMember(esc, "address", a.address, "")))
  }

  function EncodeAddresses(esc: Escaper, s: seq<Address>): string {
    Array(Map((a: Address) => EncodeAddress(esc, a), s))
  }

  function EncodeMessage(esc: Escaper, m: Message): string {
    Object(Member("to", EncodeAddresses(esc, Group(m.to)),
           Member("cc", EncodeAddresses(esc, Group(m.cc)),
           Member("bcc", EncodeAddresses(esc, Group(m.bcc)),
           TextMember(esc, "subject", m.subject,
           TextMember(esc, "text", m.text, ""))))))
  }

  function EncodeSend(esc: Escaper, m: Message): string { Object(SendMembers(esc, m)) }

  function SendMembers(esc: Escaper, m: Message): string { Member("message", EncodeMessage(esc, m), "") }

  function EncodeReply(esc: Escaper, r: ReplyRequest): string { Object(ReplyMembers(esc, r)) }

  function ReplyMembers(esc: Escaper, r: ReplyRequest): string {
    TextMember(esc, "message_id", r.messageID, Member("message", EncodeMessage(esc, r.message), ""))
  }

  const ADDRESS_BYTES := 6 * (320 + 512) + 64

  lemma AddressBound(lib: MailWrite.Library, esc: Escaper, a: Address)
    requires SixFold(esc) && ValidAddress(lib, a)
    ensures ByteLen(EncodeAddress(esc, a)) <= ADDRESS_BYTES
  {
    hide ByteLen, Escape, OptionalMember, TextMember, Object, SixFold;
    EscapeBound(esc, a.name);
    EscapeBound(esc, a.address);
  }

  lemma GroupBound(lib: MailWrite.Library, esc: Escaper, s: seq<Address>, all: seq<Address>, from: nat)
    requires SixFold(esc) && Listable(lib, all) && from + |s| <= |all| && s == all[from..from + |s|]
    ensures ByteLen(EncodeAddresses(esc, s)) <= |s| * (ADDRESS_BYTES + 1) + 2
  {
    hide EncodeAddress, ByteLen, ValidAddress, SixFold, Join, ToLower;
    var items := Map((a: Address) => EncodeAddress(esc, a), s);
    forall i | 0 <= i < |items| ensures ByteLen(items[i]) <= ADDRESS_BYTES {
      assert s[i] == all[from + i];
      AddressBound(lib, esc, s[i]);
    }
    ArrayBound(items, ADDRESS_BYTES);
  }

  // The fifty recipients are shared by the three groups.
  lemma GroupsBound(lib: MailWrite.Library, esc: Escaper, m: Message)
    requires SixFold(esc) && ValidMessage(lib, m)
    ensures ByteLen(EncodeAddresses(esc, Group(m.to))) + ByteLen(EncodeAddresses(esc, Group(m.cc)))
            + ByteLen(EncodeAddresses(esc, Group(m.bcc))) <= MAXIMUM_RECIPIENTS * (ADDRESS_BYTES + 1) + 6
  {
    hide EncodeAddresses, ByteLen, SixFold, Listable;
    var to, cc, bcc, all := Group(m.to), Group(m.cc), Group(m.bcc), Recipients(m);
    GroupBound(lib, esc, to, all, 0);
    GroupBound(lib, esc, cc, all, |to|);
    GroupBound(lib, esc, bcc, all, |to| + |cc|);
    assert |all| == |to| + |cc| + |bcc|;
    Shared(|to|, |cc|, |bcc|, MAXIMUM_RECIPIENTS, ADDRESS_BYTES + 1);
  }

  lemma Shared(a: nat, b: nat, c: nat, n: nat, k: nat)
    requires a + b + c <= n
    ensures a * k + b * k + c * k <= n * k
  {
    assert a * k + b * k + c * k == (a + b + c) * k;
  }

  lemma MessageBound(lib: MailWrite.Library, esc: Escaper, m: Message)
    requires SixFold(esc) && ValidMessage(lib, m)
    ensures ByteLen(EncodeMessage(esc, m)) <= 700000
  {
    hide EncodeAddresses, ByteLen, Escape, TextMember, Member, Object, SixFold, Listable;
    GroupsBound(lib, esc, m);
    EscapeBound(esc, m.subject);
    EscapeBound(esc, m.text);
  }

  // Every valid send or reply stays under the limit, summed over all recipients, whatever the
  // escaping: the decoder never refuses one for its size.
  lemma ValidSendFits(lib: MailWrite.Library, esc: Escaper, m: Message)
    requires SixFold(esc) && ValidMessage(lib, m)
    ensures ByteLen(EncodeSend(esc, m)) <= MAXIMUM_REQUEST_BYTES && Admitted(EncodeSend(esc, m))
  {
    MessageBound(lib, esc, m);
    ObjectAdmitted(SendMembers(esc, m));
  }

  lemma ValidReplyFits(lib: MailWrite.Library, esc: Escaper, r: ReplyRequest)
    requires SixFold(esc) && ValidReply(lib, r)
    ensures ByteLen(EncodeReply(esc, r)) <= MAXIMUM_REQUEST_BYTES && Admitted(EncodeReply(esc, r))
  {
    MessageBound(lib, esc, r.message);
    EscapeBound(esc, r.messageID);
    ObjectAdmitted(ReplyMembers(esc, r));
  }

  // ----- Calendar

  function EncodeMoment(esc: Escaper, m: MomentText): string {
    Object(OptionalMember(esc, "date", m.date,
           OptionalMember(esc, "date_time", m.dateTime,
           OptionalMember(esc, "time_zone", m.zone, ""))))
  }

  function EncodeAttendee(esc: Escaper, a: Attendee): string {
    Object(TextMember(esc, "address", a.address,
           OptionalMember(esc, "name", a.name,
           TextMember(esc, "kind", a.kind, ""))))
  }

  function EncodeAttendees(esc: Escaper, s: seq<Attendee>): string {
    Array(Map((a: Attendee) => EncodeAttendee(esc, a), s))
  }

  function EncodeDraft(esc: Escaper, d: Draft): string {
    Object(TextMember(esc, "title", d.title,
           OptionalMember(esc, "description", d.description,
           OptionalMember(esc, "location", d.location,
           Member("start", EncodeMoment(esc, d.start),
           Member("end", EncodeMoment(esc, d.end),
           Member("attendees", EncodeAttendees(esc, if d.attendees.Some? then d.attendees.value else []), "")))))))
  }

  function EncodeCreate(esc: Escaper, r: CreateRequest): string { Object(CreateMembers(esc, r)) }

  function CreateMembers(esc: Escaper, r: CreateRequest): string {
    TextMember(esc, "calendar_id", r.calendarID,
    Member("event", EncodeDraft(esc, r.event),
    TextMember(esc, "notifications", r.notifications, "")))
  }

  function OptionalChange(key: string, value: Option<string>, rest: string): (r: string)
    ensures ByteLen(r) <= 4 * |key| + 4 + Cost(value) + ByteLen(rest)
  {
    if value.Some? then Member(key, value.value, rest) else rest
  }

  function Cost(value: Option<string>): nat { if value.Some? then ByteLen(value.value) else 0 }

  function Quoted(esc: Escaper, s: Option<string>): Option<string> {
    if s.Some? then Some(Quote(esc, s.value)) else None
  }

  function Encoded(esc: Escaper, m: Option<MomentText>): Option<string> {
    if m.Some? then Some(EncodeMoment(esc, m.value)) else None
  }

  function Listed(esc: Escaper, s: Option<seq<Attendee>>): Option<string> {
    if s.Some? then Some(EncodeAttendees(esc, s.value)) else None
  }

  function EncodePatch(esc: Escaper, p: Patch): string {
    Object(OptionalChange("title", Quoted(esc, p.title),
           OptionalChange("description", Quoted(esc, p.description),
           OptionalChange("location", Quoted(esc, p.location),
           OptionalChange("start", Encoded(esc, p.start),
           OptionalChange("end", Encoded(esc, p.end),
           OptionalChange("attendees", Listed(esc, p.attendees), "")))))))
  }

  function EncodeUpdate(esc: Escaper, r: UpdateRequest): string { Object(UpdateMembers(esc, r)) }

  function UpdateMembers(esc: Escaper, r: UpdateRequest): string {
    TextMember(esc, "calendar_id", r.calendarID,
    TextMember(esc, "event_id", r.eventID,
    TextMember(esc, "expected_version", r.version,
    TextMember(esc, "scope", r.scope,
    Member("changes", EncodePatch(esc, r.changes),
    TextMember(esc, "notifications", r.notifications, ""))))))
  }

  const ATTENDEE_BYTES := 6 * (320 + 512 + 8) + 96

  lemma AttendeesBound(lib: CalendarRequests.Library, esc: Escaper, values: Option<seq<Attendee>>)
    requires SixFold(esc) && ValidAttendees(lib, values)
    ensures ByteLen(EncodeAttendees(esc, values.value)) <= MAXIMUM_ATTENDEES * (ATTENDEE_BYTES + 1) + 2
  {
    hide EncodeAttendee, ByteLen, ValidAddress, SixFold, Join, KnownKind, ToLower;
    var s := values.value;
    var items := Map((a: Attendee) => EncodeAttendee(esc, a), s);
    forall i | 0 <= i < |items| ensures ByteLen(items[i]) <= ATTENDEE_BYTES {
      assert ValidAddress(lib.addresses, Map(Mailbox, s)[i]);
      AttendeeBound(lib, esc, s[i]);
    }
    ArrayBound(items, ATTENDEE_BYTES);
  }

  lemma AttendeeBound(lib: CalendarRequests.Library, esc: Escaper, a: Attendee)
    requires SixFold(esc) && ValidAddress(lib.addresses, Mailbox(a)) && KnownKind(a)
    ensures ByteLen(EncodeAttendee(esc, a)) <= ATTENDEE_BYTES
  {
    hide ByteLen, Escape, OptionalMember, TextMember, Object, SixFold;
    EscapeBound(esc, a.address);
    EscapeBound(esc, a.name);
    EscapeBound(esc, a.kind);
    KindBytes(a);
  }

  lemma KindBytes(a: Attendee)
    requires KnownKind(a)
    ensures ByteLen(a.kind) == 8
  {
    AsciiBytes(a.kind);
  }

  // A moment is as long as its date_time makes it: nothing else in it can grow.
  lemma MomentBound(lib: CalendarRequests.Library, esc: Escaper, m: MomentText)
    requires SixFold(esc) && CalendarWrite.WriteMoment(Read(lib, m), lib.db)
    ensures ByteLen(EncodeMoment(esc, m)) <= 6 * ByteLen(m.dateTime) + 6 * 138 + 110
  {
    hide ByteLen, Escape, OptionalMember, Object, SixFold;
    EscapeBound(esc, m.date);
    EscapeBound(esc, m.dateTime);
    EscapeBound(esc, m.zone);
    NoBytes(esc);
    if m.date != "" { DateBytes(m.date); }
  }

  lemma NoBytes(esc: Escaper)
    ensures ByteLen("") == 0 == ByteLen(Escape(esc, ""))
  {}

  lemma {:induction false} DateBytes(s: string)
    requires Dates.ParseDate(s).Some?
    ensures ByteLen(s) == 10
  {
    assert s == s[..4] + "-" + s[5..7] + "-" + s[8..];
    assert Ascii(s);
    AsciiBytes(s);
  }

  // Everything of a valid draft or patch but its date_time texts.
  const EVENT_BYTES := 941_000

  lemma DraftBound(lib: CalendarRequests.Library, esc: Escaper, d: Draft)
    requires SixFold(esc) && ValidDraft(lib, d)
    ensures ByteLen(EncodeDraft(esc, d)) <= EVENT_BYTES + 6 * (ByteLen(d.start.dateTime) + ByteLen(d.end.dateTime))
  {
    hide EncodeAttendees, EncodeMoment, ByteLen, Escape, OptionalMember, TextMember, Member, Object, SixFold, Listable;
    hide CalendarWrite.WriteMoment;
    EscapeBound(esc, d.title);
    EscapeBound(esc, d.description);
    EscapeBound(esc, d.location);
    MomentBound(lib, esc, d.start);
    MomentBound(lib, esc, d.end);
    AttendeesBound(lib, esc, d.attendees);
  }

  // The calendar id, the notifications and the names around the event.
  const CREATE_BYTES := EVENT_BYTES + 7_000

  // Every valid create is bounded by a constant and its date_time texts, so it fits whenever those
  // take at most 16762 bytes together.
  lemma ValidCreateFits(lib: CalendarRequests.Library, esc: Escaper, r: CreateRequest)
    requires SixFold(esc) && ValidCreate(lib, r)
    ensures var clocks := ByteLen(r.event.start.dateTime) + ByteLen(r.event.end.dateTime);
      && ByteLen(EncodeCreate(esc, r)) <= CREATE_BYTES + 6 * clocks
      && (clocks <= 16762 ==> Admitted(EncodeCreate(esc, r)))
  {
    hide EncodeDraft, ValidDraft, ByteLen, Escape, TextMember, Member, Object, SixFold, Admitted;
    DraftBound(lib, esc, r.event);
    EscapeBound(esc, r.calendarID);
    EscapeBound(esc, r.notifications);
    FourBytesEach(r.notifications);
    if ByteLen(EncodeCreate(esc, r)) <= MAXIMUM_REQUEST_BYTES { ObjectAdmitted(CreateMembers(esc, r)); }
  }

  lemma TextChangeBound(esc: Escaper, s: Option<string>, limit: nat, multiline: bool)
    requires SixFold(esc) && (s.Some? ==> Bounded(s.value, limit, multiline))
    ensures Cost(Quoted(esc, s)) <= 6 * limit + 2
  {
    if s.Some? { EscapeBound(esc, s.value); }
  }

  function ClockBytes(m: Option<MomentText>): nat { if m.Some? then ByteLen(m.value.dateTime) else 0 }

  lemma MomentChangeBound(lib: CalendarRequests.Library, esc: Escaper, m: Option<MomentText>)
    requires SixFold(esc) && (m.Some? ==> CalendarWrite.WriteMoment(Read(lib, m.value), lib.db))
    ensures Cost(Encoded(esc, m)) <= 6 * ClockBytes(m) + 6 * 138 + 110
  {
    if m.Some? { MomentBound(lib, esc, m.value); }
  }

  lemma AttendeesChangeBound(lib: CalendarRequests.Library, esc: Escaper, s: Option<seq<Attendee>>)
    requires SixFold(esc) && (s.Some? ==> ValidAttendees(lib, s))
    ensures Cost(Listed(esc, s)) <= MAXIMUM_ATTENDEES * (ATTENDEE_BYTES + 1) + 2
  {
    if s.Some? { AttendeesBound(lib, esc, s); }
  }

  lemma PatchBound(lib: CalendarRequests.Library, esc: Escaper, p: Patch)
    requires SixFold(esc) && ValidPatch(lib, p)
    ensures ByteLen(EncodePatch(esc, p)) <= EVENT_BYTES + 6 * (ClockBytes(p.start) + ClockBytes(p.end))
  {
    hide CalendarWrite.WriteMoment, ValidAttendees, Bounded, Blank, ByteLen, SixFold;
    hide Cost, Quoted, Encoded, Listed, ClockBytes, OptionalChange, Object;
    TextChangeBound(esc, p.title, MAXIMUM_TITLE_BYTES, false);
    TextChangeBound(esc, p.description, MAXIMUM_DESCRIPTION_BYTES, true);
    TextChangeBound(esc, p.location, MAXIMUM_LOCATION_BYTES, false);
    MomentChangeBound(lib, esc, p.start);
    MomentChangeBound(lib, esc, p.end);
    AttendeesChangeBound(lib, esc, p.attendees);
    NoBytes(esc);
  }

  // The ids, the version, the scope, the notifications and the names around the patch.
  const UPDATE_BYTES := EVENT_BYTES + 20_000

  // The same for every valid update, with at most 14596 bytes of date_time texts.
  lemma ValidUpdateFits(lib: CalendarRequests.Library, esc: Escaper, r: UpdateRequest)
    requires SixFold(esc) && ValidUpdate(lib, r)
    ensures var clocks := ClockBytes(r.changes.start) + ClockBytes(r.changes.end);
      && ByteLen(EncodeUpdate(esc, r)) <= UPDATE_BYTES + 6 * clocks
      && (clocks <= 14596 ==> Admitted(EncodeUpdate(esc, r)))
  {
    hide EncodePatch, ValidPatch, ByteLen, Escape, TextMember, Member, Object, SixFold, Admitted, ClockBytes;
    PatchBound(lib, esc, r.changes);
    EscapeBound(esc, r.calendarID);
    EscapeBound(esc, r.eventID);
    EscapeBound(esc, r.version);
    EscapeBound(esc, r.scope);
    EscapeBound(esc, r.notifications);
    FourBytesEach(r.scope);
    FourBytesEach(r.notifications);
    if ByteLen(EncodeUpdate(esc, r)) <= MAXIMUM_REQUEST_BYTES { ObjectAdmitted(UpdateMembers(esc, r)); }
  }

  // ----- Without a limit on date_time

  function Zeros(n: nat): string { seq(n, _ => '0') }

  // The same request with n more zeros inside its start text.
  function Stretched(r: CreateRequest, prefix: string, n: nat, suffix: string): CreateRequest {
    r.(event := r.event.(start := r.event.start.(dateTime := prefix + Zeros(n) + suffix)))
  }

  lemma {:induction false} ZerosEscaped(esc: Escaper, n: nat)
    requires esc('0') == "0"
    ensures ByteLen(Escape(esc, Zeros(n))) == n
  {
    if n > 0 {
      assert Zeros(n)[1..] == Zeros(n - 1);
      ZerosEscaped(esc, n - 1);
      assert ("0" + Escape(esc, Zeros(n - 1)))[1..] == Escape(esc, Zeros(n - 1));
    }
  }

  lemma {:induction false} TextStretched(esc: Escaper, prefix: string, n: nat, suffix: string)
    requires esc('0') == "0"
    ensures ByteLen(Escape(esc, prefix + Zeros(n) + suffix)) == ByteLen(Escape(esc, prefix + suffix)) + n
  {
    EscapeConcat(esc, prefix, Zeros(n));
    EscapeConcat(esc, prefix + Zeros(n), suffix);
    EscapeConcat(esc, prefix, suffix);
    ByteLenConcat(Escape(esc, prefix), Escape(esc, Zeros(n)));
    ByteLenConcat(Escape(esc, prefix) + Escape(esc, Zeros(n)), Escape(esc, suffix));
    ByteLenConcat(Escape(esc, prefix), Escape(esc, suffix));
    ZerosEscaped(esc, n);
  }

  lemma SizeIsLinear(esc: Escaper, r: CreateRequest, prefix: string, n: nat, suffix: string)
    requires esc('0') == "0" && r.event.start.dateTime == prefix + suffix != ""
    ensures ByteLen(EncodeCreate(esc, Stretched(r, prefix, n, suffix))) == ByteLen(EncodeCreate(esc, r)) + n
  {
    hide ByteLen, Escape, Quote, Member, Object, EncodeAttendees;
    TextStretched(esc, prefix, n, suffix);
    MomentStretched(esc, r.event.start, prefix + Zeros(n) + suffix);
  }

  lemma {:induction false} MomentStretched(esc: Escaper, m: MomentText, longer: string)
    requires m.dateTime != "" && longer != ""
    ensures ByteLen(EncodeMoment(esc, m.(dateTime := longer))) - ByteLen(EncodeMoment(esc, m))
            == ByteLen(Escape(esc, longer)) - ByteLen(Escape(esc, m.dateTime))
  {
    hide ByteLen, Escape, Quote, Member, Object;
  }

  // The rules put no limit on date_time. Where zeros in the fraction of a second do not change what
  // a text denotes, every such stretched request is as valid as the original, and the decoder
  // admits it exactly while the zeros fit in what the rest leaves of the limit.
  lemma LongClocksRefusedExactly(
    lib: CalendarRequests.Library, esc: Escaper, r: CreateRequest, prefix: string, n: nat, suffix: string)
    requires esc('0') == "0" && r.event.start.dateTime == prefix + suffix != ""
    requires ValidCreate(lib, r) && lib.parse(prefix + Zeros(n) + suffix) == lib.parse(prefix + suffix)
    ensures var s := Stretched(r, prefix, n, suffix);
      ValidCreate(lib, s)
      && (Admitted(EncodeCreate(esc, s)) <==> n <= MAXIMUM_REQUEST_BYTES - ByteLen(EncodeCreate(esc, r)))
  {
    hide ByteLen, EncodeDraft, TextMember, Member, Titled, Described, Located, ValidAttendees, CalendarWrite.Bounds;
    var s := Stretched(r, prefix, n, suffix);
    SizeIsLinear(esc, r, prefix, n, suffix);
    assert Read(lib, s.event.start) == Read(lib, r.event.start);
    if n <= MAXIMUM_REQUEST_BYTES - ByteLen(EncodeCreate(esc, r)) { ObjectAdmitted(CreateMembers(esc, s)); }
  }

  // ----- Encoding, then decoding

  // Where the decoder reads what the encoder wrote, every valid request of the sizes above is
  // accepted and stored as it was sent.
  method ReceiveSend(
    rcv: Receiver<Message>, lib: MailWrite.Library, esc: Escaper, m: Message, read: string -> Option<Message>)
    returns (ok: bool)
    requires SixFold(esc) && ValidMessage(lib, m) && read(EncodeSend(esc, m)) == Some(m)
    modifies rcv
    ensures ok && rcv.value == m
  {
    hide ValidMessage, EncodeSend;
    ValidSendFits(lib, esc, m);
    ok := rcv.UnmarshalJSON(EncodeSend(esc, m), read, x => ValidMessage(lib, x));
  }

  method ReceiveReply(
    rcv: Receiver<ReplyRequest>, lib: MailWrite.Library, esc: Escaper, r: ReplyRequest,
    read: string -> Option<ReplyRequest>)
    returns (ok: bool)
    requires SixFold(esc) && ValidReply(lib, r) && read(EncodeReply(esc, r)) == Some(r)
    modifies rcv
    ensures ok && rcv.value == r
  {
    hide ValidReply, EncodeReply;
    ValidReplyFits(lib, esc, r);
    ok := rcv.UnmarshalJSON(EncodeReply(esc, r), read, x => ValidReply(lib, x));
  }

  // A create is accepted and stored if and only if its text is within the limit; otherwise the
  // receiver keeps what it had.
  method ReceiveCreate(
    rcv: Receiver<CreateRequest>, lib: CalendarRequests.Library, esc: Escaper, r: CreateRequest,
    read: string -> Option<CreateRequest>)
    returns (ok: bool)
    requires SixFold(esc) && ValidCreate(lib, r) && read(EncodeCreate(esc, r)) == Some(r)
    modifies rcv
    ensures ok <==> ByteLen(EncodeCreate(esc, r)) <= MAXIMUM_REQUEST_BYTES
    ensures ByteLen(r.event.start.dateTime) + ByteLen(r.event.end.dateTime) <= 16762 ==> ok
    ensures rcv.value == if ok then r else old(rcv.value)
  {
    hide ValidCreate, CreateMembers, ByteLen;
    ValidCreateFits(lib, esc, r);
    if ByteLen(EncodeCreate(esc, r)) <= MAXIMUM_REQUEST_BYTES { ObjectAdmitted(CreateMembers(esc, r)); }
    ok := rcv.UnmarshalJSON(EncodeCreate(esc, r), read, x => ValidCreate(lib, x));
  }

  method ReceiveUpdate(
    rcv: Receiver<UpdateRequest>, lib: CalendarRequests.Library, esc: Escaper, r: UpdateRequest,
    read: string -> Option<UpdateRequest>)
    returns (ok: bool)
    requires SixFold(esc) && ValidUpdate(lib, r) && read(EncodeUpdate(esc, r)) == Some(r)
    modifies rcv
    ensures ok <==> ByteLen(EncodeUpdate(esc, r)) <= MAXIMUM_REQUEST_BYTES
    ensures ClockBytes(r.changes.start) + ClockBytes(r.changes.end) <= 14596 ==> ok
    ensures rcv.value == if ok then r else old(rcv.value)
  {
    hide ValidUpdate, UpdateMembers, ByteLen;
    ValidUpdateFits(lib, esc, r);
    if ByteLen(EncodeUpdate(esc, r)) <= MAXIMUM_REQUEST_BYTES { ObjectAdmitted(UpdateMembers(esc, r)); }
    ok := rcv.UnmarshalJSON(EncodeUpdate(esc, r), read, x => ValidUpdate(lib, x));
  }
}
