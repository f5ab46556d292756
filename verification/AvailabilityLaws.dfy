/** What ResolveAvailability promises, proved of the outcome the method computes. */
module AvailabilityLaws {
  import opened Wrappers
  import opened Intervals
  import opened Availability
  import Dates
  import Text

  ghost predicate Complete(r: Request, cs: seq<CalendarBusy>, zones: set<string>) {
    Resolve(r, cs, zones).Success? && Resolve(r, cs, zones).value.complete
  }

  function Free(r: Request, cs: seq<CalendarBusy>, zones: set<string>): seq<Window>
    requires Resolve(r, cs, zones).Success?
  {
    Resolve(r, cs, zones).value.free
  }

  function Span(r: Request): Interval
    requires Instants(r.window).Some?
  {
    Instants(r.window).value
  }

  // ----- When the call answers, and why it does not

  // What the package demands of a request, field by field: 1 to 20 different ids, each trimmed, at
  // most 1024 bytes, no path step and without control characters; two readable instants at most 93
  // days apart, the later one second; and an explicit zone the database knows.
  predicate WellPosed(r: Request, zones: set<string>) {
    && 1 <= |r.ids| <= 20
    && (forall i :: 0 <= i < |r.ids| ==> WellNamed(r.ids[i]))
    && (forall i, j :: 0 <= i < j < |r.ids| ==> r.ids[i] != r.ids[j])
    && Ordered(r.window) && r.window.end.nanos - r.window.start.nanos <= 8_035_200 * 1_000_000_000
    && r.zone !in ["", "Local"] && Text.ByteLen(r.zone) <= 128 && r.zone in zones
  }

  predicate WellNamed(id: string) {
    && id !in ["", ".", ".."] && Text.ByteLen(id) <= 1024 && Text.Trimmed(id)
    && forall i :: 0 <= i < |id| ==> 0x20 <= id[i] as int != 0x7f
  }

  predicate Ordered(w: Window) { w.start.At? && w.end.At? && w.start.nanos < w.end.nanos }

  predicate NoTwoAlike(cs: seq<CalendarBusy>) { forall i, j :: 0 <= i < j < |cs| ==> cs[i].id != cs[j].id }

  // A requested calendar was given with a window that is unreadable or not ordered.
  predicate Unread(r: Request, cs: seq<CalendarBusy>) {
    exists k, q :: 0 <= k < |cs| && 0 <= q < |cs[k].busy| && cs[k].id in r.ids && !Ordered(cs[k].busy[q])
  }

  predicate Uninvited(r: Request, cs: seq<CalendarBusy>) { exists k :: 0 <= k < |cs| && cs[k].id !in r.ids }

  lemma ValidIsWellPosed(r: Request, zones: set<string>)
    ensures ValidRequest(r, zones) <==> WellPosed(r, zones)
  {
    forall i | 0 <= i < |r.ids| ensures ValidID(r.ids[i]) <==> WellNamed(r.ids[i]) { NamesAgree(r.ids[i]); }
  }

  lemma NamesAgree(id: string)
    ensures ValidID(id) <==> WellNamed(id)
  {
    hide Text.TrimSpace, Text.ByteLen;
    if Text.Trimmed(id) { Text.TrimmedIsFixed(id); }
    var before, after := Text.TrimSpaceSplits(id);
  }

  // Each refusal, from the request and the given calendars alone. A missing, partial or failing
  // calendar is never a refusal.
  lemma RefusesExactly(r: Request, cs: seq<CalendarBusy>, zones: set<string>)
    ensures var out := Resolve(r, cs, zones);
      && (out == Failure(InvalidRequest) <==> !WellPosed(r, zones))
      && (out == Failure(DuplicateCalendar) <==> WellPosed(r, zones) && !NoTwoAlike(cs))
      && (out == Failure(InvalidWindow) <==> WellPosed(r, zones) && NoTwoAlike(cs) && Unread(r, cs))
      && (out == Failure(UnexpectedCalendar) <==>
            WellPosed(r, zones) && NoTwoAlike(cs) && !Unread(r, cs) && Uninvited(r, cs))
      && (out.Success? <==> WellPosed(r, zones) && NoTwoAlike(cs) && !Unread(r, cs) && !Uninvited(r, cs))
  {
    hide ValidRequest, WellPosed, Reports, AllReadable, Unread, FreeOf;
    ValidIsWellPosed(r, zones);
    if NoTwoAlike(cs) { UnreadableIsReported(r, cs); }
  }

  lemma UnreadableIsReported(r: Request, cs: seq<CalendarBusy>)
    requires NoTwoAlike(cs)
    ensures AllReadable(Reports(r, cs)) <==> !Unread(r, cs)
  {
    var reports := Reports(r, cs);
    if Unread(r, cs) {
      var k, q :| 0 <= k < |cs| && 0 <= q < |cs[k].busy| && cs[k].id in r.ids && !Ordered(cs[k].busy[q]);
      var i :| 0 <= i < |r.ids| && r.ids[i] == cs[k].id;
      UniqueReport(cs, r.ids[i]);
      assert reports[i] == cs[k] && Instants(reports[i].busy[q]).None?;
    } else {
      forall i | 0 <= i < |reports| ensures ReadableWindows(reports[i].busy) {
        if reports[i] in cs {
          var k :| 0 <= k < |cs| && cs[k] == reports[i];
          assert forall q :: 0 <= q < |cs[k].busy| ==> Ordered(cs[k].busy[q]);
        }
      }
    }
  }

  // So the call answers exactly when the request is well posed, no two given calendars are alike,
  // each was asked for and every given window can be read. The answer then shows each requested
  // calendar in order, as it was given or as unavailable, and says whether all of them were given
  // completely and without errors.
  lemma AnswersExactly(r: Request, cs: seq<CalendarBusy>, zones: set<string>)
    ensures Resolve(r, cs, zones).Success? <==>
      && WellPosed(r, zones) && NoTwoAlike(cs)
      && (forall k :: 0 <= k < |cs| ==> cs[k].id in r.ids)
      && forall k, q :: 0 <= k < |cs| && 0 <= q < |cs[k].busy| ==> Ordered(cs[k].busy[q])
    ensures Resolve(r, cs, zones).Success? ==>
      var a := Resolve(r, cs, zones).value;
      && a.window == r.window && |a.calendars| == |r.ids|
      && (forall i, k :: 0 <= i < |r.ids| && 0 <= k < |cs| && cs[k].id == r.ids[i] ==> a.calendars[i] == cs[k])
      && (forall i :: 0 <= i < |r.ids| && (forall k :: 0 <= k < |cs| ==> cs[k].id != r.ids[i]) ==>
            a.calendars[i] == CalendarBusy(r.ids[i], [], false, ["unavailable"]))
      && (a.complete <==> forall i :: 0 <= i < |r.ids| ==> Answered(cs, r.ids[i]))
      && (!a.complete ==> a.free == [])
  {
    hide ValidRequest, WellPosed, FreeOf;
    RefusesExactly(r, cs, zones);
    if Resolve(r, cs, zones).Success? {
      UnknownIsNeverFree(r, cs, zones);
      ShownAsGiven(r, cs);
    }
  }

  lemma ShownAsGiven(r: Request, cs: seq<CalendarBusy>)
    requires NoTwoAlike(cs)
    ensures var reports := Reports(r, cs);
      && (forall i, k :: 0 <= i < |r.ids| && 0 <= k < |cs| && cs[k].id == r.ids[i] ==> reports[i] == cs[k])
      && (forall i :: 0 <= i < |r.ids| && (forall k :: 0 <= k < |cs| ==> cs[k].id != r.ids[i]) ==>
            reports[i] == CalendarBusy(r.ids[i], [], false, ["unavailable"]))
  {
    forall i, k | 0 <= i < |r.ids| && 0 <= k < |cs| && cs[k].id == r.ids[i] ensures Reports(r, cs)[i] == cs[k] {
      UniqueReport(cs, r.ids[i]);
    }
  }

  // A complete answer renders the free time left by some busy list with the calendars' points.
  lemma CompleteAnswer(r: Request, cs: seq<CalendarBusy>, zones: set<string>) returns (busy: seq<Interval>)
    requires Complete(r, cs, zones)
    ensures ValidRequest(r, zones) && AllProper(busy)
    ensures Free(r, cs, zones) == Render(FreeOf(Span(r), busy))
    ensures forall t :: Covers(busy, t) <==> BusyAt(cs, t)
  {
    busy := AllReadings(Reports(r, cs));
    forall t ensures Covers(busy, t) <==> BusyAt(cs, t) {
      AllReadingsPoints(Reports(r, cs), t);
      ReportsHoldAllBusyTime(r, cs, t);
    }
  }

  // A complete answer lists exactly the window's instants that no provided calendar holds busy,
  // in canonical form.
  lemma FreeIsExactComplement(r: Request, cs: seq<CalendarBusy>, zones: set<string>)
    requires Complete(r, cs, zones)
    ensures exists free ::
      && Canonical(free, Span(r)) && Free(r, cs, zones) == Render(free)
      && forall t :: Covers(free, t) <==> Inside(Span(r), t) && !BusyAt(cs, t)
  {
    var busy := CompleteAnswer(r, cs, zones);
    FreeOfIsComplement(Span(r), busy);
  }

  // The answer is complete exactly when every requested calendar reported completely and without
  // an error, and an incomplete answer never shows free time.
  lemma UnknownIsNeverFree(r: Request, cs: seq<CalendarBusy>, zones: set<string>)
    requires Resolve(r, cs, zones).Success?
    ensures Complete(r, cs, zones) <==> forall i :: 0 <= i < |r.ids| ==> Answered(cs, r.ids[i])
    ensures !Complete(r, cs, zones) ==> Free(r, cs, zones) == []
  {
    var reports := Reports(r, cs);
    forall i | 0 <= i < |r.ids| ensures Answered(cs, r.ids[i]) <==> reports[i].complete && reports[i].errorCodes == [] {
      UniqueReport(cs, r.ids[i]);
    }
  }

  // The calendar was reported, completely and without an error.
  ghost predicate Answered(cs: seq<CalendarBusy>, id: string) {
    exists k :: 0 <= k < |cs| && cs[k].id == id && cs[k].complete && cs[k].errorCodes == []
  }

  lemma {:induction false} UniqueReport(cs: seq<CalendarBusy>, id: string)
    requires DistinctCalendars(cs)
    ensures forall k :: 0 <= k < |cs| && cs[k].id == id ==> Report(cs, id) == cs[k]
    ensures Answered(cs, id) <==> Report(cs, id).complete && Report(cs, id).errorCodes == []
  {}

  lemma ReportsHoldAllBusyTime(r: Request, cs: seq<CalendarBusy>, t: int)
    requires DistinctCalendars(cs) && AllRequested(r, cs)
    ensures BusyAt(Reports(r, cs), t) <==> BusyAt(cs, t)
  {
    var reports := Reports(r, cs);
    if BusyAt(cs, t) {
      var k, j :| 0 <= k < |cs| && 0 <= j < |cs[k].busy| && BusyIn(cs[k].busy[j], t);
      var i :| 0 <= i < |r.ids| && r.ids[i] == cs[k].id;
      UniqueReport(cs, r.ids[i]);
      assert reports[i] == cs[k];
    }
    if BusyAt(reports, t) {
      var i, j :| 0 <= i < |reports| && 0 <= j < |reports[i].busy| && BusyIn(reports[i].busy[j], t);
      assert reports[i] in cs;
      var k :| 0 <= k < |cs| && cs[k] == reports[i];
      assert BusyIn(cs[k].busy[j], t);
    }
  }

  // Two complete answers over one window agree whenever the calendars are busy at the same
  // instants: splitting, merging, repeating, reordering or moving busy windows between calendars,
  // or asking for other calendars, cannot show in Free.
  lemma FreeDependsOnBusyInstantsOnly(
    r1: Request, cs1: seq<CalendarBusy>, r2: Request, cs2: seq<CalendarBusy>, zones: set<string>)
    requires Complete(r1, cs1, zones) && Complete(r2, cs2, zones)
    requires Span(r1) == Span(r2)
    requires forall t :: Inside(Span(r1), t) ==> (BusyAt(cs1, t) <==> BusyAt(cs2, t))
    ensures Free(r1, cs1, zones) == Free(r2, cs2, zones)
  {
    var busy1 := CompleteAnswer(r1, cs1, zones);
    var busy2 := CompleteAnswer(r2, cs2, zones);
    FreeOfDependsOnPointsOnly(Span(r1), busy1, busy2);
  }

  // The whole outcome, errors included, is the same for every order of the calendar list.
  lemma CalendarOrderIrrelevant(r: Request, cs: seq<CalendarBusy>, ds: seq<CalendarBusy>, zones: set<string>)
    requires multiset(cs) == multiset(ds)
    ensures Resolve(r, cs, zones) == Resolve(r, ds, zones)
  {
    if DistinctCalendars(cs) { PermutationKeepsDistinct(cs, ds, IdOf); }
    if DistinctCalendars(ds) { PermutationKeepsDistinct(ds, cs, IdOf); }
    if ValidRequest(r, zones) && DistinctCalendars(cs) {
      forall i | 0 <= i < |r.ids| ensures Report(cs, r.ids[i]) == Report(ds, r.ids[i]) {
        SameReport(cs, ds, r.ids[i]);
      }
      assert Reports(r, cs) == Reports(r, ds);
      if AllRequested(r, cs) { SameRequested(r, cs, ds); }
      if AllRequested(r, ds) { SameRequested(r, ds, cs); }
    }
  }

  function IdOf(c: CalendarBusy): string { c.id }

  lemma {:induction false} ReportFollows(cs: seq<CalendarBusy>, ds: seq<CalendarBusy>, id: string)
    requires multiset(cs) == multiset(ds) && DistinctCalendars(ds) && Report(cs, id) in cs
    ensures Report(ds, id) == Report(cs, id)
  {
    var k :| 0 <= k < |cs| && cs[k] == Report(cs, id);
    var j := Occurs(cs, ds, k);
    UniqueReport(ds, id);
  }

  lemma {:induction false} SameReport(cs: seq<CalendarBusy>, ds: seq<CalendarBusy>, id: string)
    requires multiset(cs) == multiset(ds) && DistinctCalendars(cs) && DistinctCalendars(ds)
    ensures Report(cs, id) == Report(ds, id)
  {
    if Report(cs, id) in cs {
      ReportFollows(cs, ds, id);
    } else if Report(ds, id) in ds {
      ReportFollows(ds, cs, id);
    }
  }

  lemma SameRequested(r: Request, cs: seq<CalendarBusy>, ds: seq<CalendarBusy>)
    requires multiset(cs) == multiset(ds) && AllRequested(r, cs)
    ensures AllRequested(r, ds)
  {
    forall k | 0 <= k < |ds| ensures ds[k].id in r.ids {
      var j := Occurs(ds, cs, k);
    }
  }

  // Free length plus busy length is the window length.
  lemma AnswerConservesTime(r: Request, cs: seq<CalendarBusy>, zones: set<string>)
    requires Complete(r, cs, zones)
    ensures var w := Span(r); exists free ::
      && Free(r, cs, zones) == Render(free) && Canonical(free, w)
      && Length(free) + |set t | w.start <= t < w.end && BusyAt(cs, t)| == w.end - w.start
  {
    var busy := CompleteAnswer(r, cs, zones);
    var w := Span(r);
    FreeOfIsComplement(w, busy);
    Conservation(w, busy);
    assert (set t | w.start <= t < w.end && BusyAt(cs, t)) == Points(busy, w);
  }

  // ----- Reading Free back

  // The two bounds are the first instants of the years 0 and 10000, counted from 1970 in days.
  lemma YearsFrom1970()
    ensures var day := 24 * 3600 * 1_000_000_000;
      && YEAR_0 == -day * Dates.DayNumber(Dates.Date(1970, 1, 1))
      && YEAR_10000 == YEAR_0 + day * Dates.DaysBeforeYear(10000)
      && YEAR_10000 == YEAR_0 + day * (Dates.DayNumber(Dates.Date(9999, 12, 31)) + 1)
  {
    hide Dates.DaysBeforeYear;
    Dates.YearsInDays(1970);
    Dates.YearsInDays(10000);
    Dates.YearsInDays(9999);
    assert Dates.DaysBeforeYear(1970) == 719528 && Dates.DaysBeforeYear(10000) == 3652425;
    assert Dates.DaysBeforeYear(9999) == 3652060;
    Dates.YearLength(9999);
    assert Dates.DayNumber(Dates.Date(1970, 1, 1)) == 719528;
    assert Dates.DayNumber(Dates.Date(9999, 12, 31)) == 3652424;
  }

  predicate InYears(x: Interval) { YEAR_0 <= x.start && x.end < YEAR_10000 }

  lemma RenderReadable(xs: seq<Interval>)
    requires AllProper(xs)
    ensures ReadableWindows(Render(xs)) <==> forall i :: 0 <= i < |xs| ==> InYears(xs[i])
    ensures ReadableWindows(Render(xs)) ==> Readings(Render(xs)) == xs
  {
    forall i | 0 <= i < |xs| ensures Instants(Render(xs)[i]) == if InYears(xs[i]) then Some(xs[i]) else None {}
  }

  // Free can be read back as RFC 3339 whatever the calendars hold, exactly when both ends of the
  // window still have a four-digit year once converted to UTC.
  lemma {:induction false} FreeReadableExactly(w: Interval)
    requires Proper(w)
    ensures InYears(w) <==> forall busy :: AllProper(busy) ==> ReadableWindows(Render(FreeOf(w, busy)))
  {
    if InYears(w) {
      forall busy | AllProper(busy) ensures ReadableWindows(Render(FreeOf(w, busy))) {
        FreeOfIsComplement(w, busy);
        RenderReadable(FreeOf(w, busy));
      }
    } else {
      RenderReadable([w]);
      assert !InYears([w][0]);
      assert FreeOf(w, []) == [w];
    }
  }

  // A request for one calendar, and that calendar reporting the given windows.
  function Only(r: Request, id: string): Request { r.(ids := [id]) }

  function Single(id: string, busy: seq<Window>): seq<CalendarBusy> {
    [CalendarBusy(id, busy, true, [])]
  }

  // Resolving with Free as the only busy list gives the merged, clipped busy time, and resolving
  // with that gives Free again.
  lemma AnswerDoubleComplement(r: Request, cs: seq<CalendarBusy>, zones: set<string>, id: string)
    requires Complete(r, cs, zones) && ValidID(id) && InYears(Span(r))
    ensures var back := Resolve(Only(r, id), Single(id, Free(r, cs, zones)), zones);
      && back.Success?
      && (exists merged :: back.value.free == Render(merged) && Canonical(merged, Span(r))
            && forall t :: Covers(merged, t) <==> Inside(Span(r), t) && BusyAt(cs, t))
      && var again := Resolve(Only(r, id), Single(id, back.value.free), zones);
         again.Success? && again.value.free == Free(r, cs, zones)
  {
    var busy := CompleteAnswer(r, cs, zones);
    ResolveTwice(r, busy, zones, id);
    DoubleComplement(Span(r), busy);
  }

  lemma {:induction false} ResolveTwice(r: Request, busy: seq<Interval>, zones: set<string>, id: string)
    requires ValidRequest(r, zones) && ValidID(id) && InYears(Span(r)) && AllProper(busy)
    ensures var w := Span(r); var free := FreeOf(w, busy); var merged := FreeOf(w, free);
      && Resolve(Only(r, id), Single(id, Render(free)), zones)
           == Success(Answer(r.window, Single(id, Render(free)), Render(merged), true))
      && Resolve(Only(r, id), Single(id, Render(merged)), zones)
           == Success(Answer(r.window, Single(id, Render(merged)), Render(free), true))
  {
    var free := FreeOf(Span(r), busy);
    DoubleComplement(Span(r), busy);
    FreeReadableExactly(Span(r));
    ResolveSingle(r, free, zones, id);
    ResolveSingle(r, FreeOf(Span(r), free), zones, id);
  }

  lemma {:induction false} ResolveSingle(r: Request, xs: seq<Interval>, zones: set<string>, id: string)
    requires ValidRequest(r, zones) && ValidID(id)
    requires AllProper(xs) && ReadableWindows(Render(xs))
    ensures ValidRequest(Only(r, id), zones)
    ensures Resolve(Only(r, id), Single(id, Render(xs)), zones)
      == Success(Answer(r.window, Single(id, Render(xs)), Render(FreeOf(Instants(r.window).value, xs)), true))
  {
    var one, cs := Only(r, id), Single(id, Render(xs));
    assert Reports(one, cs) == cs by { assert Report(cs, id) == cs[0]; }
    DecideSingle(one, xs, id);
  }

  lemma {:induction false} DecideSingle(one: Request, xs: seq<Interval>, id: string)
    requires one.ids == [id] && Instants(one.window).Some?
    requires AllProper(xs) && ReadableWindows(Render(xs))
    ensures var cs := Single(id, Render(xs));
      Decide(one, cs, cs) == Success(Answer(one.window, cs, Render(FreeOf(Instants(one.window).value, xs)), true))
  {
    ReadSingle(id, xs);
    assert one.ids[0] == id;
  }

  lemma ReadSingle(id: string, xs: seq<Interval>)
    requires AllProper(xs) && ReadableWindows(Render(xs))
    ensures AllReadings(Single(id, Render(xs))) == xs
  {
    var cs := Single(id, Render(xs));
    RenderReadable(xs);
    assert cs[..0] == [];
    assert AllReadings(cs[..0]) == [];
    assert [] + xs == xs;
  }

  // One free calendar over the two hours around the end of year 9999 in UTC, a window that texts with
  // a western offset can name: a valid request whose answer is complete and cannot be read back.
  lemma FreeLeavesYear9999(zone: string, zones: set<string>, id: string) returns (r: Request, cs: seq<CalendarBusy>)
    requires ValidZone(zone, zones) && ValidID(id)
    ensures ValidRequest(r, zones) && Complete(r, cs, zones) && !ReadableWindows(Free(r, cs, zones))
  {
    var hour := 3600 * 1_000_000_000;
    r, cs := Request([id], Window(At(YEAR_10000 - hour), At(YEAR_10000 + hour)), zone), Single(id, []);
    var w := Span(r);
    assert Render([]) == [];
    ResolveSingle(r, [], zones, id);
    assert Only(r, id) == r;
    assert Free(r, cs, zones) == Render([w]);
    RenderReadable([w]);
    assert !InYears([w][0]);
  }
}
