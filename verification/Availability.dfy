/** calendar/availability.go and the window rules of calendar/validation.go: free time of several
    calendars over one window, all or nothing. */
module Availability {
  import opened Wrappers
  import opened Intervals
  import LocalTime
  import Text

  // An RFC 3339 text, reduced to what time.Parse makes of it: nothing, or an instant.
  datatype Stamp = Unreadable | At(nanos: int)

  datatype Window = Window(start: Stamp, end: Stamp)

  datatype Request = Request(ids: seq<string>, window: Window, zone: string)

  datatype CalendarBusy = CalendarBusy(id: string, busy: seq<Window>, complete: bool, errorCodes: seq<string>)

  datatype Answer = Answer(window: Window, calendars: seq<CalendarBusy>, free: seq<Window>, complete: bool)

  datatype Error = InvalidRequest | DuplicateCalendar | InvalidWindow | UnexpectedCalendar

  const MAXIMUM_CALENDARS := 20
  const MAXIMUM_WINDOW := 93 * 24 * 3600 * 1_000_000_000

  // The UTC instants whose year time.Format prints with four digits: year 0 up to year 10000.
  const YEAR_0 := -62167219200 * 1_000_000_000
  const YEAR_10000 := 253402300800 * 1_000_000_000

  // ----- Requests

  predicate ValidID(id: string) {
    id != "" && id != "." && id != ".." && Text.ByteLen(id) <= 1024 && Text.TrimSpace(id) == id
    && forall i :: 0 <= i < |id| ==> id[i] >= ' ' && id[i] != '\U{7f}'
  }

  function Instants(w: Window): (r: Option<Interval>)
    ensures r.Some? ==> Proper(r.value)
  {
    if w.start.At? && w.end.At? && w.start.nanos < w.end.nanos
    then Some(Interval(w.start.nanos, w.end.nanos))
    else None
  }

  predicate ValidZone(zone: string, zones: set<string>) {
    LocalTime.ZoneName(zone) && zone in zones
  }

  // The zone database is a parameter: the names time.LoadLocation accepts.
  predicate ValidRequest(r: Request, zones: set<string>) {
    1 <= |r.ids| <= MAXIMUM_CALENDARS
    && (forall i :: 0 <= i < |r.ids| ==> ValidID(r.ids[i]))
    && Text.Unique(r.ids)
    && Instants(r.window).Some?
    && r.window.end.nanos - r.window.start.nanos <= MAXIMUM_WINDOW
    && ValidZone(r.zone, zones)
  }

  method ValidateRequest(r: Request, zones: set<string>) returns (ok: bool)
    ensures ok == ValidRequest(r, zones)
  {
    if !(1 <= |r.ids| <= MAXIMUM_CALENDARS) {
      return false;
    }
    var seen: set<string> := {};
    for i := 0 to |r.ids|
      invariant seen == set j | 0 <= j < i :: r.ids[j]
      invariant forall j :: 0 <= j < i ==> ValidID(r.ids[j])
      invariant Text.Unique(r.ids[..i])
    {
      if !ValidID(r.ids[i]) {
        return false;
      }
      if r.ids[i] in seen {
        ghost var j :| 0 <= j < i && r.ids[j] == r.ids[i];
        return false;
      }
      seen := seen + {r.ids[i]};
    }
    assert r.ids[..|r.ids|] == r.ids;
    var instants := Instants(r.window);
    ok := instants.Some? && instants.value.end - instants.value.start <= MAXIMUM_WINDOW && ValidZone(r.zone, zones);
  }

  // ----- What the answer must be

  predicate DistinctCalendars(cs: seq<CalendarBusy>) {
    forall i, j :: 0 <= i < j < |cs| ==> cs[i].id != cs[j].id
  }

  // The report used for one requested calendar: the given one, or an explicit "unavailable".
  function Report(cs: seq<CalendarBusy>, id: string): (c: CalendarBusy)
    ensures c.id == id
    ensures c in cs
            || ((forall k :: 0 <= k < |cs| ==> cs[k].id != id) && c == CalendarBusy(id, [], false, ["unavailable"]))
  {
    if cs == [] then CalendarBusy(id, [], false, ["unavailable"])
    else if cs[0].id == id then cs[0] else Report(cs[1..], id)
  }

  function Reports(r: Request, cs: seq<CalendarBusy>): seq<CalendarBusy> {
    seq(|r.ids|, i requires 0 <= i < |r.ids| => Report(cs, r.ids[i]))
  }

  predicate ReadableWindows(ws: seq<Window>) {
    forall i :: 0 <= i < |ws| ==> Instants(ws[i]).Some?
  }

  predicate Known(reports: seq<CalendarBusy>) {
    forall i :: 0 <= i < |reports| ==> reports[i].complete && reports[i].errorCodes == []
  }

  // The instant t is busy in some report, whatever window it falls in.
  ghost predicate BusyAt(reports: seq<CalendarBusy>, t: int) {
    exists i, k :: 0 <= i < |reports| && 0 <= k < |reports[i].busy| && BusyIn(reports[i].busy[k], t)
  }

  predicate BusyIn(w: Window, t: int) {
    Instants(w).Some? && Inside(Instants(w).value, t)
  }

  // Every interval of a list of readable windows, in order.
  function Readings(ws: seq<Window>): (r: seq<Interval>)
    requires ReadableWindows(ws)
    ensures AllProper(r) && |r| == |ws|
  {
    seq(|ws|, i requires 0 <= i < |ws| => Instants(ws[i]).value)
  }

  predicate AllReadable(reports: seq<CalendarBusy>) {
    forall i :: 0 <= i < |reports| ==> ReadableWindows(reports[i].busy)
  }

  predicate AllRequested(r: Request, cs: seq<CalendarBusy>) {
    forall k :: 0 <= k < |cs| ==> cs[k].id in r.ids
  }

  function AllReadings(reports: seq<CalendarBusy>): (r: seq<Interval>)
    requires AllReadable(reports)
    ensures AllProper(r)
  {
    if reports == [] then [] else AllReadings(reports[..|reports| - 1]) + Readings(reports[|reports| - 1].busy)
  }

  lemma ReadingsPoints(ws: seq<Window>, t: int)
    requires ReadableWindows(ws)
    ensures Covers(Readings(ws), t) <==> exists k :: 0 <= k < |ws| && BusyIn(ws[k], t)
  {
    if k :| 0 <= k < |ws| && BusyIn(ws[k], t) { assert Inside(Readings(ws)[k], t); }
    if k :| 0 <= k < |ws| && Inside(Readings(ws)[k], t) { assert BusyIn(ws[k], t); }
  }

  lemma {:induction false} AllReadingsPoints(reports: seq<CalendarBusy>, t: int)
    requires AllReadable(reports)
    ensures Covers(AllReadings(reports), t) <==> BusyAt(reports, t)
  {
    if reports != [] {
      var init, last := reports[..|reports| - 1], reports[|reports| - 1];
      AllReadingsPoints(init, t);
      ReadingsPoints(last.busy, t);
      CoversConcat(AllReadings(init), Readings(last.busy), t);
      if BusyAt(init, t) {
        var i, k :| 0 <= i < |init| && 0 <= k < |init[i].busy| && BusyIn(init[i].busy[k], t);
        assert reports[i] == init[i];
      }
      if BusyAt(reports, t) {
        var i, k :| 0 <= i < |reports| && 0 <= k < |reports[i].busy| && BusyIn(reports[i].busy[k], t);
        assert i < |init| ==> init[i] == reports[i];
      }
    }
  }

  // time.Format of a UTC instant with RFC3339Nano. Outside years 0 to 9999 it prints a text that
  // time.Parse refuses.
  function FormatUTC(nanos: int): Stamp {
    if YEAR_0 <= nanos < YEAR_10000 then At(nanos) else Unreadable
  }

  function Render(xs: seq<Interval>): (ws: seq<Window>)
    ensures |ws| == |xs|
  {
    seq(|xs|, i requires 0 <= i < |xs| => Window(FormatUTC(xs[i].start), FormatUTC(xs[i].end)))
  }

  // The whole promise of ResolveAvailability, in the order the code decides it.
  function Resolve(r: Request, cs: seq<CalendarBusy>, zones: set<string>): Result<Answer, Error> {
    if ValidRequest(r, zones) then Decide(r, cs, Reports(r, cs)) else Failure(InvalidRequest)
  }

  function Decide(r: Request, cs: seq<CalendarBusy>, reports: seq<CalendarBusy>): Result<Answer, Error>
    requires Instants(r.window).Some?
  {
    if !DistinctCalendars(cs) then Failure(DuplicateCalendar)
    else if !AllReadable(reports) then Failure(InvalidWindow)
    else if !AllRequested(r, cs) then Failure(UnexpectedCalendar)
    else if !Known(reports) then Success(Answer(r.window, reports, [], false))
    else Success(Answer(r.window, reports, Render(FreeOf(Instants(r.window).value, AllReadings(reports))), true))
  }

  // ----- The algorithm

  predicate SortedByStart(s: seq<Interval>) {
    forall i, j :: 0 <= i < j < |s| ==> s[i].start <= s[j].start
  }

  // sort.Slice: sorted by start and a permutation of its input. Ties keep no particular order, and
  // no caller learns more than this contract.
  method SortByStart(s: seq<Interval>) returns (r: seq<Interval>)
    ensures SortedByStart(r) && multiset(r) == multiset(s)
  {
    r := [];
    for i := 0 to |s|
      invariant SortedByStart(r) && multiset(r) == multiset(s[..i])
    {
      assert s[..i + 1] == s[..i] + [s[i]];
      r := InsertByStart(r, s[i]);
    }
    assert s[..|s|] == s;
  }

  method InsertByStart(r: seq<Interval>, x: Interval) returns (out: seq<Interval>)
    requires SortedByStart(r)
    ensures SortedByStart(out) && multiset(out) == multiset(r) + multiset{x}
  {
    var k := |r|;
    while k > 0 && r[k - 1].start > x.start
      invariant 0 <= k <= |r|
      invariant k < |r| ==> x.start < r[k].start
    {
      k := k - 1;
    }
    out := Inserted(r, x, k);
  }

  function Inserted(r: seq<Interval>, x: Interval, k: nat): (out: seq<Interval>)
    requires k <= |r| && SortedByStart(r)
    requires k < |r| ==> x.start < r[k].start
    requires k > 0 ==> r[k - 1].start <= x.start
    ensures SortedByStart(out) && multiset(out) == multiset(r) + multiset{x}
  {
    InsertKeepsElements(r, x, k);
    assert r[..k] + r[k..] == r;
    InsertKeepsSorted(r[..k], x, r[k..]);
    r[..k] + [x] + r[k..]
  }

  lemma InsertKeepsElements(r: seq<Interval>, x: Interval, k: nat)
    requires k <= |r|
    ensures multiset(r[..k] + [x] + r[k..]) == multiset(r) + multiset{x}
  {
    assert r == r[..k] + r[k..];
  }

  lemma InsertKeepsSorted(a: seq<Interval>, x: Interval, c: seq<Interval>)
    requires SortedByStart(a + c)
    requires c != [] ==> x.start < c[0].start
    requires a != [] ==> a[|a| - 1].start <= x.start
    ensures SortedByStart(a + [x] + c)
  {
    var r, out := a + c, a + [x] + c;
    forall i, j | 0 <= i < j < |out| ensures out[i].start <= out[j].start {
      var i', j' := if i <= |a| then i else i - 1, if j <= |a| then j else j - 1;
      assert i != |a| ==> out[i] == r[i'];
      assert j != |a| ==> out[j] == r[j'];
      assert a != [] ==> r[|a| - 1] == a[|a| - 1];
      assert c != [] ==> r[|a|] == c[0];
    }
  }

  lemma SamePoints(a: seq<Interval>, b: seq<Interval>, t: int)
    requires multiset(a) == multiset(b)
    ensures Covers(a, t) ==> Covers(b, t)
  {
    if i :| 0 <= i < |a| && Inside(a[i], t) {
      assert a[i] in multiset(b);
      var j :| 0 <= j < |b| && b[j] == a[i];
      assert Inside(b[j], t);
    }
  }

  // Before turn i of the sweep: the free list is canonical below the cursor, ends before it and before
  // every interval still to come, and holds exactly what no earlier interval made busy.
  ghost predicate Swept(busy: seq<Interval>, w: Interval, i: int, free: seq<Interval>, cursor: int)
    requires 0 <= i <= |busy|
  {
    w.start <= cursor <= w.end
    && Canonical(free, Interval(w.start, cursor))
    && (forall k :: 0 <= k < |free| ==> free[k].end < cursor)
    && (forall k, j :: 0 <= k < |free| && i <= j < |busy| ==> free[k].end <= busy[j].start)
    && (forall k :: 0 <= k < i ==> busy[k].end <= cursor)
    && forall t :: Covers(free, t) <==> w.start <= t < cursor && !Covers(busy[..i], t)
  }

  // The cursor sweep over busy intervals sorted by start.
  method Sweep(busy: seq<Interval>, w: Interval) returns (free: seq<Interval>)
    requires Proper(w) && AllProper(busy) && SortedByStart(busy)
    requires forall i :: 0 <= i < |busy| ==> w.start <= busy[i].start && busy[i].end <= w.end
    ensures free == FreeOf(w, busy)
  {
    hide Swept, Canonical, SortedByStart, AllProper;
    free := [];
    var cursor := w.start;
    SweepStarts(busy, w);
    for i := 0 to |busy|
      invariant Swept(busy, w, i, free, cursor)
    {
      var b := busy[i];
      SweepTurns(busy, w, i, free, cursor);
      if b.start > cursor {
        free := free + [Interval(cursor, b.start)];
      }
      if b.end > cursor {
        cursor := b.end;
      }
    }
    SweepEnds(busy, w, free, cursor);
    if cursor < w.end {
      free := free + [Interval(cursor, w.end)];
    }
  }

  lemma SweepStarts(busy: seq<Interval>, w: Interval)
    requires Proper(w)
    ensures Swept(busy, w, 0, [], w.start)
  {}

  // What the two branches of a turn make of the free list and the cursor.
  function Lengthened(free: seq<Interval>, cursor: int, start: int): seq<Interval> {
    if start > cursor then free + [Interval(cursor, start)] else free
  }

  function Advanced(cursor: int, end: int): int { if end > cursor then end else cursor }

  lemma SweepTurns(busy: seq<Interval>, w: Interval, i: nat, free: seq<Interval>, cursor: int)
    requires AllProper(busy) && SortedByStart(busy) && i < |busy| && Swept(busy, w, i, free, cursor)
    requires w.start <= busy[i].start && busy[i].end <= w.end
    ensures Swept(busy, w, i + 1, Lengthened(free, cursor, busy[i].start), Advanced(cursor, busy[i].end))
  {
    var b := busy[i];
    var free', cursor' := Lengthened(free, cursor, b.start), Advanced(cursor, b.end);
    forall t ensures Covers(free', t) <==> w.start <= t < cursor' && !Covers(busy[..i + 1], t) {
      SweepStep(busy, i, free, cursor, t);
    }
  }

  lemma {:induction false} SweepEnds(busy: seq<Interval>, w: Interval, free: seq<Interval>, cursor: int)
    requires Proper(w) && AllProper(busy) && Swept(busy, w, |busy|, free, cursor)
    ensures Lengthened(free, cursor, w.end) == FreeOf(w, busy)
  {
    var all := Lengthened(free, cursor, w.end);
    assert busy[..|busy|] == busy;
    forall t ensures Covers(all, t) <==> Inside(w, t) && !Covers(busy, t) {
      CoversConcat(free, [Interval(cursor, w.end)], t);
      CoversSingle(Interval(cursor, w.end), t);
      if Covers(busy, t) { var k :| 0 <= k < |busy| && Inside(busy[k], t); }
    }
    FreeOfUnique(w, busy, all);
  }

  lemma CoversSingle(b: Interval, t: int)
    ensures Covers([b], t) <==> Inside(b, t)
  {
    if Inside(b, t) { assert Inside([b][0], t); }
  }

  // One turn of the sweep keeps "free below the cursor is exactly what is not busy so far".
  lemma SweepStep(busy: seq<Interval>, i: nat, free: seq<Interval>, cursor: int, t: int)
    requires i < |busy| && Proper(busy[i])
    requires forall k :: 0 <= k < |free| ==> free[k].end <= busy[i].start
    requires forall k :: 0 <= k < i ==> busy[k].end <= cursor
    requires forall u :: Covers(free, u) ==> u < cursor
    requires Covers(free, t) ==> !Covers(busy[..i], t)
    ensures var b := busy[i];
            var free' := if b.start > cursor then free + [Interval(cursor, b.start)] else free;
            && (Covers(busy[..i + 1], t) <==> Covers(busy[..i], t) || Inside(b, t))
            && (Covers(free', t) <==> Covers(free, t) || cursor <= t < b.start)
            && (Covers(free, t) ==> !Inside(b, t))
            && (Covers(busy[..i], t) ==> t < cursor)
  {
    var b := busy[i];
    assert busy[..i + 1] == busy[..i] + [b];
    CoversConcat(busy[..i], [b], t);
    CoversSingle(b, t);
    CoversConcat(free, [Interval(cursor, b.start)], t);
    CoversSingle(Interval(cursor, b.start), t);
    if Covers(busy[..i], t) { var k :| 0 <= k < i && Inside(busy[..i][k], t); }
    if Covers(free, t) { var k :| 0 <= k < |free| && Inside(free[k], t); }
  }

  // Clip the windows of one calendar to the requested window, dropping what falls outside.
  method ClipWindows(ws: seq<Window>, w: Interval) returns (clipped: Option<seq<Interval>>)
    requires Proper(w)
    ensures clipped.Some? <==> ReadableWindows(ws)
    ensures clipped.Some? ==>
      && AllProper(clipped.value)
      && (forall i :: 0 <= i < |clipped.value| ==> w.start <= clipped.value[i].start && clipped.value[i].end <= w.end)
      && forall t :: Covers(clipped.value, t) <==> Inside(w, t) && Covers(Readings(ws), t)
  {
    var xs := [];
    for i := 0 to |ws|
      invariant ReadableWindows(ws[..i])
      invariant AllProper(xs)
      invariant forall k :: 0 <= k < |xs| ==> w.start <= xs[k].start && xs[k].end <= w.end
      invariant forall t :: Covers(xs, t) <==> Inside(w, t) && Covers(Readings(ws[..i]), t)
    {
      var reading := Instants(ws[i]);
      if reading == None {
        return None;
      }
      assert Readings(ws[..i + 1]) == Readings(ws[..i]) + [reading.value];
      var a, b := reading.value.start, reading.value.end;
      if a < w.start {
        a := w.start;
      }
      if b > w.end {
        b := w.end;
      }
      forall t
        ensures Covers(Readings(ws[..i + 1]), t) <==> Covers(Readings(ws[..i]), t) || Inside(reading.value, t)
        ensures Covers(xs + [Interval(a, b)], t) <==> Covers(xs, t) || Inside(Interval(a, b), t)
      {
        CoversConcat(Readings(ws[..i]), [reading.value], t);
        CoversConcat(xs, [Interval(a, b)], t);
        CoversSingle(reading.value, t);
        CoversSingle(Interval(a, b), t);
      }
      if b > a {
        xs := xs + [Interval(a, b)];
      }
    }
    assert ws[..|ws|] == ws;
    clipped := Some(xs);
  }

  lemma {:induction false} IdsBound(ids: seq<string>)
    ensures |set i | 0 <= i < |ids| :: ids[i]| <= |ids|
  {
    if ids != [] {
      var init := ids[..|ids| - 1];
      IdsBound(init);
      assert (set i | 0 <= i < |ids| :: ids[i]) == (set i | 0 <= i < |init| :: init[i]) + {ids[|ids| - 1]};
    }
  }

  // Some provided calendar was not asked for: by counting first, then one by one.
  method Unexpected(byID: map<string, CalendarBusy>, ids: seq<string>) returns (unexpected: bool)
    ensures unexpected <==> exists id :: id in byID && id !in ids
  {
    ghost var asked := set i | 0 <= i < |ids| :: ids[i];
    IdsBound(ids);
    if |byID| > |ids| {
      if byID.Keys <= asked { SubsetSize(byID.Keys, asked); }
      var id :| id in byID.Keys && id !in ids;
      return true;
    }
    var todo := byID.Keys;
    while todo != {}
      invariant todo <= byID.Keys
      invariant forall id :: id in byID.Keys - todo ==> id in ids
      decreases todo
    {
      var id :| id in todo;
      var found := false;
      for k := 0 to |ids|
        invariant found <==> id in ids[..k]
      {
        found := found || id == ids[k];
      }
      assert ids[..|ids|] == ids;
      if !found {
        return true;
      }
      todo := todo - {id};
    }
    return false;
  }

  method IndexCalendars(cs: seq<CalendarBusy>) returns (byID: Option<map<string, CalendarBusy>>)
    ensures byID.Some? <==> DistinctCalendars(cs)
    ensures byID.Some? ==> IndexOf(byID.value, cs)
  {
    hide DistinctCalendars, IndexOf;
    var m: map<string, CalendarBusy> := map[];
    NothingIndexed(cs);
    for i := 0 to |cs|
      invariant DistinctCalendars(cs[..i]) && IndexOf(m, cs[..i])
    {
      IndexStep(m, cs, i);
      if cs[i].id in m {
        return None;
      }
      m := m[cs[i].id := cs[i]];
    }
    assert cs[..|cs|] == cs;
    byID := Some(m);
  }

  lemma NothingIndexed(cs: seq<CalendarBusy>)
    ensures DistinctCalendars(cs[..0]) && IndexOf(map[], cs[..0])
  {}

  lemma IndexStep(m: map<string, CalendarBusy>, cs: seq<CalendarBusy>, i: nat)
    requires i < |cs| && DistinctCalendars(cs[..i]) && IndexOf(m, cs[..i])
    ensures cs[i].id in m ==> !DistinctCalendars(cs)
    ensures cs[i].id !in m ==> DistinctCalendars(cs[..i + 1]) && IndexOf(m[cs[i].id := cs[i]], cs[..i + 1])
  {
    var shorter, longer := cs[..i], cs[..i + 1];
    assert longer == shorter + [cs[i]];
    if cs[i].id in m {
      var j :| 0 <= j < i && shorter[j].id == cs[i].id;
      assert cs[j].id == cs[i].id;
    } else {
      var more := m[cs[i].id := cs[i]];
      forall id | id in more ensures exists j :: 0 <= j < |longer| && longer[j].id == id {
        if id == cs[i].id {
          assert longer[i].id == id;
        } else {
          var j :| 0 <= j < i && shorter[j].id == id;
          assert longer[j].id == id;
        }
      }
    }
  }

  predicate IndexOf(m: map<string, CalendarBusy>, cs: seq<CalendarBusy>) {
    (forall j :: 0 <= j < |cs| ==> cs[j].id in m && m[cs[j].id] == cs[j])
    && forall id :: id in m ==> exists j :: 0 <= j < |cs| && cs[j].id == id
  }

  lemma {:induction false} IndexGivesReport(m: map<string, CalendarBusy>, cs: seq<CalendarBusy>, id: string)
    requires IndexOf(m, cs)
    ensures Report(cs, id) == if id in m then m[id] else CalendarBusy(id, [], false, ["unavailable"])
  {}

  // Everything the requested calendars report, with the busy time clipped to the window.
  method Gather(r: Request, byID: map<string, CalendarBusy>, ghost cs: seq<CalendarBusy>, w: Interval)
    returns (gathered: Option<(seq<CalendarBusy>, seq<Interval>, bool)>)
    requires IndexOf(byID, cs) && Proper(w)
    ensures gathered.Some? <==> AllReadable(Reports(r, cs))
    ensures gathered.Some? ==> var (reports, busy, complete) := gathered.value;
      && reports == Reports(r, cs) && complete == Known(reports)
      && AllProper(busy)
      && (forall k :: 0 <= k < |busy| ==> w.start <= busy[k].start && busy[k].end <= w.end)
      && forall t :: Covers(busy, t) <==> Inside(w, t) && Covers(AllReadings(reports), t)
  {
    ghost var expected := Reports(r, cs);
    var busy, reports, complete := [], [], true;
    for i := 0 to |r.ids|
      invariant reports == expected[..i]
      invariant AllReadable(reports)
      invariant complete == Known(reports)
      invariant AllProper(busy)
      invariant forall k :: 0 <= k < |busy| ==> w.start <= busy[k].start && busy[k].end <= w.end
      invariant forall t :: Covers(busy, t) <==> Inside(w, t) && Covers(AllReadings(reports), t)
    {
      IndexGivesReport(byID, cs, r.ids[i]);
      var c := if r.ids[i] in byID then byID[r.ids[i]] else CalendarBusy(r.ids[i], [], false, ["unavailable"]);
      complete := complete && c.complete && c.errorCodes == [];
      var clipped := ClipWindows(c.busy, w);
      if clipped == None {
        assert !ReadableWindows(expected[i].busy);
        return None;
      }
      GatherStep(reports, c, busy, clipped.value);
      busy := busy + clipped.value;
      reports := reports + [c];
    }
    assert reports == expected;
    gathered := Some((reports, busy, complete));
  }

  lemma {:induction false} GatherStep(
    reports: seq<CalendarBusy>, c: CalendarBusy, busy: seq<Interval>, clipped: seq<Interval>)
    requires ReadableWindows(c.busy) && AllReadable(reports)
    ensures var more := reports + [c];
      && AllReadable(more)
      && forall t :: Covers(AllReadings(more), t) <==> Covers(AllReadings(reports), t) || Covers(Readings(c.busy), t)
    ensures forall t :: Covers(busy + clipped, t) <==> Covers(busy, t) || Covers(clipped, t)
    ensures Known(reports + [c]) <==> Known(reports) && c.complete && c.errorCodes == []
  {
    var more := reports + [c];
    assert more[|reports|] == c;
    if Known(more) { assert forall i :: 0 <= i < |reports| ==> reports[i] == more[i]; }
    assert more[..|more| - 1] == reports;
    forall t
      ensures Covers(AllReadings(more), t) <==> Covers(AllReadings(reports), t) || Covers(Readings(c.busy), t)
      ensures Covers(busy + clipped, t) <==> Covers(busy, t) || Covers(clipped, t)
    {
      CoversConcat(AllReadings(reports), Readings(c.busy), t);
      CoversConcat(busy, clipped, t);
    }
  }

  // Sort, then sweep: the free time of the window, whatever order the busy intervals came in.
  method FreeTime(busy: seq<Interval>, w: Interval) returns (free: seq<Interval>)
    requires Proper(w) && AllProper(busy)
    requires forall k :: 0 <= k < |busy| ==> w.start <= busy[k].start && busy[k].end <= w.end
    ensures free == FreeOf(w, busy)
  {
    var sorted := SortByStart(busy);
    assert forall i :: 0 <= i < |sorted| ==> sorted[i] in multiset(busy);
    forall t ensures Covers(sorted, t) <==> Covers(busy, t) {
      SamePoints(busy, sorted, t);
      SamePoints(sorted, busy, t);
    }
    free := Sweep(sorted, w);
    FreeOfDependsOnPointsOnly(w, sorted, busy);
  }

  method ResolveAvailability(r: Request, cs: seq<CalendarBusy>, zones: set<string>) returns (out: Result<Answer, Error>)
    ensures out == Resolve(r, cs, zones)
  {
    var valid := ValidateRequest(r, zones);
    if !valid {
      return Failure(InvalidRequest);
    }
    var byID := IndexCalendars(cs);
    if byID == None {
      return Failure(DuplicateCalendar);
    }
    var w := Instants(r.window).value;
    var gathered := Gather(r, byID.value, cs, w);
    if gathered == None {
      return Failure(InvalidWindow);
    }
    var (reports, busy, complete) := gathered.value;
    var unexpected := Unexpected(byID.value, r.ids);
    if unexpected {
      return Failure(UnexpectedCalendar);
    }
    if !complete {
      return Success(Answer(r.window, reports, [], false));
    }
    var free := FreeTime(busy, w);
    FreeOfDependsOnPointsOnly(w, busy, AllReadings(reports));
    out := Success(Answer(r.window, reports, Render(free), true));
  }
}
