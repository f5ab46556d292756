/** calendarwrite/validation.go: time bounds of a calendar write and its entity tag. */
module CalendarWrite {
  import opened Wrappers
  import opened Text
  import opened Dates
  import LocalTime

  // A date_time text: absent, not RFC 3339, or a clock reading with its offset.
  datatype ClockText = Absent | Broken | Clock(at: LocalTime.DateTime)

  datatype Moment = Moment(date: string, dateTime: ClockText, zone: string)

  // calendar.Moment.Validate
  predicate ValidMoment(m: Moment) {
    (m.date == "") != m.dateTime.Absent?
    && (if m.date != "" then ParseDate(m.date).Some? else m.dateTime.Clock?)
  }

  // moment: also a known zone, whose offset at the instant is the one written
  predicate WriteMoment(m: Moment, db: map<string, LocalTime.Zone>) {
    ValidMoment(m)
    && LocalTime.ZoneName(m.zone) && m.zone in db
    && (m.dateTime.Clock? ==> LocalTime.MomentAccepts(db[m.zone], m.dateTime.at))
  }

  function Instant(m: Moment): int
    requires m.dateTime.Clock?
  {
    LocalTime.Denotes(m.dateTime.at)
  }

  function Day(m: Moment): nat
    requires ParseDate(m.date).Some?
  {
    DayNumber(ParseDate(m.date).value)
  }

  // bounds: dates are compared as strings, instants as instants
  predicate Bounds(start: Moment, end: Moment, db: map<string, LocalTime.Zone>) {
    WriteMoment(start, db) && WriteMoment(end, db)
    && (start.date == "") == (end.date == "")
    && (if start.date != "" then start.zone == end.zone && !Less(end.date, start.date) && start.date != end.date
        else Instant(end) > Instant(start))
  }

  // calendar.Event.Validate, its time rules: an instant event may be empty, an all-day one may not
  predicate EventBounds(start: Moment, end: Moment) {
    ValidMoment(start) && ValidMoment(end)
    && (start.date == "") == (end.date == "")
    && (if start.date != "" then !(Less(end.date, start.date) || end.date == start.date)
        else Instant(end) >= Instant(start))
  }

  // Accepted writes are exactly the well-formed pairs that span time: at least one whole day in one
  // zone, or a positive duration with both offsets true of their zones.
  lemma BoundsSpanTime(start: Moment, end: Moment, db: map<string, LocalTime.Zone>)
    ensures Bounds(start, end, db) <==>
      && WriteMoment(start, db) && WriteMoment(end, db)
      && (|| (ParseDate(start.date).Some? && ParseDate(end.date).Some? && start.zone == end.zone
              && Day(start) + 1 <= Day(end))
          || (start.dateTime.Clock? && end.dateTime.Clock? && Instant(start) < Instant(end)))
  {
    if WriteMoment(start, db) && WriteMoment(end, db) && start.date != "" && end.date != "" {
      TextOrderIsDayOrder(start.date, end.date);
      TextOrderIsDayOrder(end.date, start.date);
    }
  }

  // The offset written beside a reading is the one the zone has at the instant the two denote.
  predicate TrueOffset(m: Moment, db: map<string, LocalTime.Zone>)
    requires m.dateTime.Clock? && m.zone in db
  {
    var (reading, minutes) := (m.dateTime.at.reading, m.dateTime.at.minutes);
    LocalTime.OffsetAt(db[m.zone], reading - 60_000_000_000 * minutes) == 60 * minutes
  }

  predicate KnownZone(zone: string, db: map<string, LocalTime.Zone>) {
    zone !in ["", "Local"] && ByteLen(zone) <= 128 && zone in db
  }

  // Exactly the pairs of bounds a write may carry: two calendar dates in one known zone, the end at
  // least a day after the start; or two instants in known zones, each written with the offset its
  // zone has then, the end after the start. No moment carries both a date and an instant.
  lemma BoundsExactly(start: Moment, end: Moment, db: map<string, LocalTime.Zone>)
    ensures Bounds(start, end, db) <==>
      && KnownZone(start.zone, db) && KnownZone(end.zone, db)
      && (|| (&& start.dateTime == Absent == end.dateTime && start.zone == end.zone
              && ParseDate(start.date).Some? && ParseDate(end.date).Some?
              && DayNumber(ParseDate(start.date).value) < DayNumber(ParseDate(end.date).value))
          || (&& start.date == "" == end.date && start.dateTime.Clock? && end.dateTime.Clock?
              && TrueOffset(start, db) && TrueOffset(end, db)
              && start.dateTime.at.reading - 60_000_000_000 * start.dateTime.at.minutes
                 < end.dateTime.at.reading - 60_000_000_000 * end.dateTime.at.minutes))
  {
    hide LocalTime.OffsetAt, ByteLen, DayNumber;
    BoundsSpanTime(start, end, db);
    assert ParseDate("").None?;
  }

  // Exactly the pairs of bounds an event may have: two dates at least a day apart, or two instants in
  // order, which may coincide. Zones do not matter to them.
  lemma EventBoundsExactly(start: Moment, end: Moment)
    ensures EventBounds(start, end) <==>
      || (&& start.dateTime == Absent == end.dateTime && ParseDate(start.date).Some? && ParseDate(end.date).Some?
          && DayNumber(ParseDate(start.date).value) < DayNumber(ParseDate(end.date).value))
      || (&& start.date == "" == end.date && start.dateTime.Clock? && end.dateTime.Clock?
          && start.dateTime.at.reading - 60_000_000_000 * start.dateTime.at.minutes
             <= end.dateTime.at.reading - 60_000_000_000 * end.dateTime.at.minutes)
  {
    hide DayNumber;
    assert ParseDate("").None?;
    if ParseDate(start.date).Some? && ParseDate(end.date).Some? {
      TextOrderIsDayOrder(start.date, end.date);
      TextOrderIsDayOrder(end.date, start.date);
    }
  }

  // A moment is a date or an instant, not both.
  lemma MomentsExactly(m: Moment)
    ensures ValidMoment(m) <==>
      (m.dateTime == Absent && ParseDate(m.date).Some?) || (m.date == "" && m.dateTime.Clock?)
  {
    assert ParseDate("").None?;
  }

  // ----- Entity tags

  predicate TagChar(c: char) { '!' <= c <= '~' && c != '"' }

  predicate TagBody(body: string) { body != "" && forall i :: 0 <= i < |body| ==> TagChar(body[i]) }

  function Tag(weak: bool, body: string): string { (if weak then "W/" else "") + "\"" + body + "\"" }

  // One opaque tag, weak or strong, of at most 1024 bytes.
  method ValidVersion(version: string) returns (ok: bool)
    ensures ok <==> ByteLen(version) <= 1024 && exists weak, body :: TagBody(body) && version == Tag(weak, body)
  {
    var value := version;
    if ByteLen(value) > 1024 {
      return false;
    }
    if |value| >= 2 && value[..2] == "W/" {
      value := value[2..];
    }
    TagIsQuoted(version);
    if |value| < 3 || value[0] != '"' || value[|value| - 1] != '"' {
      return false;
    }
    for i := 1 to |value| - 1
      invariant forall k :: 1 <= k < i ==> TagChar(value[k])
    {
      if !TagChar(value[i]) {
        return false;
      }
    }
    return true;
  }

  predicate Quoted(value: string) {
    |value| >= 3 && value[0] == '"' == value[|value| - 1] && forall k :: 1 <= k < |value| - 1 ==> TagChar(value[k])
  }

  // strings.TrimPrefix of the weakness mark
  function Unmarked(version: string): string {
    if |version| >= 2 && version[..2] == "W/" then version[2..] else version
  }

  predicate OneTag(version: string) { Quoted(Unmarked(version)) }

  lemma TagIsQuoted(version: string)
    ensures OneTag(version) <==> exists weak, body :: TagBody(body) && version == Tag(weak, body)
  {
    var value := Unmarked(version);
    if Quoted(value) {
      var body := value[1..|value| - 1];
      assert value == "\"" + body + "\"";
      assert TagBody(body) && version == Tag(value != version, body);
    }
    if weak, body :| TagBody(body) && version == Tag(weak, body) {
      if weak { assert version[..2] == "W/"; } else { assert version[0] == '"'; }
      assert value == "\"" + body + "\"";
    }
  }

  // A list of tags is never one tag, so it cannot weaken the version check.
  lemma TagListIsNoTag(weak: bool, first: string, more: string)
    requires TagBody(first)
    ensures !exists weak', body :: TagBody(body) && Tag(weak, first) + "," + more == Tag(weak', body)
  {
    var list := Tag(weak, first) + "," + more;
    var value := Unmarked(list);
    if weak { assert list[..2] == "W/"; } else { assert list[0] == '"'; }
    TagIsQuoted(list);
    assert value[|first| + 1] == '"' && |first| + 1 < |value| - 1;
  }
}
