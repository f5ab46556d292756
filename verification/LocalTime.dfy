/** calendar/local_time.go, and the offset check of calendarwrite/validation.go: when does a wall
    clock reading name one instant? */
module LocalTime {
  import opened Wrappers
  import Text

  // Instants and wall readings are nanoseconds; offsets are whole seconds, as in Go.
  function Seconds(n: int): int { n * 1_000_000_000 }

  const SECOND := Seconds(1)
  const DAY := Seconds(24 * 3600)

  datatype Transition = Transition(second: int, offset: int)

  // A zone is its offset before the first transition and the transitions in order.
  datatype Zone = Zone(first: int, changes: seq<Transition>)

  // What the zone database guarantees: transitions in order. They fall on whole seconds.
  predicate WellFormed(z: Zone) {
    forall i, j :: 0 <= i < j < |z.changes| ==> z.changes[i].second < z.changes[j].second
  }

  function At(z: Zone, i: nat): int
    requires i < |z.changes|
  {
    Seconds(z.changes[i].second)
  }

  // The number of transitions at or before t: the period t lies in.
  function Period(z: Zone, t: int): (k: nat)
    ensures k <= |z.changes|
    ensures WellFormed(z) ==> forall i :: 0 <= i < |z.changes| ==> (i < k <==> At(z, i) <= t)
    decreases |z.changes|
  {
    var n := |z.changes|;
    if n == 0 then 0
    else if At(z, n - 1) <= t then n
    else
      var init := z.(changes := z.changes[..n - 1]);
      assert WellFormed(z) ==> WellFormed(init);
      assert forall i :: 0 <= i < n - 1 ==> At(init, i) == At(z, i);
      Period(init, t)
  }

  function PeriodOffset(z: Zone, k: nat): int
    requires k <= |z.changes|
  {
    if k == 0 then z.first else z.changes[k - 1].offset
  }

  // t.In(loc).Zone()
  function OffsetAt(z: Zone, t: int): int { PeriodOffset(z, Period(z, t)) }

  // What the clocks of the zone show at t.
  function Reading(z: Zone, t: int): int { t + Seconds(OffsetAt(z, t)) }

  // The instants at which the clocks show wall.
  ghost predicate Shows(z: Zone, wall: int, t: int) { Reading(z, t) == wall }

  ghost predicate ExactlyOne(z: Zone, wall: int) {
    exists t :: Shows(z, wall, t) && forall u :: Shows(z, wall, u) ==> u == t
  }

  ghost predicate HasOffset(z: Zone, o: int) { exists k: nat :: k <= |z.changes| && PeriodOffset(z, k) == o }

  // Transitions lie further apart than any two offsets of the zone.
  ghost predicate Spaced(z: Zone) {
    forall i, a, b :: 0 < i < |z.changes| && HasOffset(z, a) && HasOffset(z, b)
      ==> a - b < z.changes[i].second - z.changes[i - 1].second
  }

  // All time.Date promises about a reading that is missing or ambiguous: it used some offset of
  // the zone.
  ghost predicate DateMayChoose(z: Zone, wall: int, approx: int) {
    exists o :: HasOffset(z, o) && approx == wall - Seconds(o)
  }

  // time.Date in a zone: try the offset in force at the reading taken as UTC, and correct it once.
  method DateIn(z: Zone, wall: int) returns (approx: int)
    requires WellFormed(z)
    ensures DateMayChoose(z, wall, approx)
  {
    var k := Period(z, wall);
    var o := PeriodOffset(z, k);
    assert HasOffset(z, o);
    var utc := wall - Seconds(o);
    if (k > 0 && utc < At(z, k - 1)) || (k < |z.changes| && utc >= At(z, k)) {
      o := OffsetAt(z, utc);
    }
    assert HasOffset(z, o);
    approx := wall - Seconds(o);
  }

  // The instants whose offsets the code samples: the choice itself, two days either side, and the
  // neighbouring periods given by ZoneBounds.
  function Samples(z: Zone, approx: int): set<int> {
    var k := Period(z, approx);
    {approx, approx - 2 * DAY, approx + 2 * DAY}
    + (if k > 0 then {At(z, k - 1) - SECOND} else {})
    + (if k < |z.changes| then {At(z, k)} else {})
  }

  ghost function SampledOffsets(z: Zone, approx: int): set<int> {
    set t | t in Samples(z, approx) :: OffsetAt(z, t)
  }

  // The offsets that survive: those whose candidate instant, wall minus the offset, shows wall again.
  ghost function Surviving(z: Zone, wall: int, offsets: set<int>): set<int> {
    set o | o in offsets && Survives(z, wall, o)
  }

  predicate Survives(z: Zone, wall: int, o: int) { Reading(z, Candidate(wall, o)) == wall }

  function Candidate(wall: int, o: int): int { wall - Seconds(o) }

  // Offsets survive exactly when they belong to an instant showing the reading, which is then their
  // candidate.
  lemma SurvivorsShow(z: Zone, wall: int, o: int)
    requires Survives(z, wall, o)
    ensures Shows(z, wall, Candidate(wall, o)) && OffsetAt(z, Candidate(wall, o)) == o
  {}

  lemma ShownSurvives(z: Zone, wall: int, t: int)
    requires Shows(z, wall, t)
    ensures Survives(z, wall, OffsetAt(z, t)) && Candidate(wall, OffsetAt(z, t)) == t
  {
    assert Candidate(wall, OffsetAt(z, t)) == t;
  }

  ghost function Matches(z: Zone, wall: int, approx: int): set<int> {
    Surviving(z, wall, SampledOffsets(z, approx))
  }

  // The period of t is k exactly when t lies between transition k - 1 and transition k.
  lemma {:induction false} PeriodIs(z: Zone, t: int, k: nat)
    requires WellFormed(z) && k <= |z.changes|
    requires k > 0 ==> At(z, k - 1) <= t
    requires k < |z.changes| ==> t < At(z, k)
    ensures Period(z, t) == k
  {
    var p := Period(z, t);
    assert p > 0 ==> At(z, p - 1) <= t;
    assert p < |z.changes| ==> t < At(z, p);
  }

  // Two instants closer than the gaps lie in the same period or in neighbouring ones.
  lemma {:induction false} Neighbours(z: Zone, t: int, u: int, d: int)
    requires WellFormed(z) && t < u && u - t <= Seconds(d)
    requires forall i :: 0 < i < |z.changes| ==> d < z.changes[i].second - z.changes[i - 1].second
    ensures Period(z, t) <= Period(z, u) <= Period(z, t) + 1
  {
    var k, p := Period(z, t), Period(z, u);
    assert k > 0 ==> At(z, k - 1) <= t;
    assert k < |z.changes| ==> t < At(z, k);
    assert k + 1 < |z.changes| ==> u < At(z, k + 1);
  }

  // The first instant of the next period, and one second before this one, are good samples.
  lemma {:induction false} SampleNext(z: Zone, k: nat)
    requires WellFormed(z) && k < |z.changes|
    ensures Period(z, At(z, k)) == k + 1
  {
    PeriodIs(z, At(z, k), k + 1);
  }

  lemma {:induction false} SamplePrevious(z: Zone, k: nat)
    requires WellFormed(z) && 0 < k <= |z.changes|
    ensures Period(z, At(z, k - 1) - SECOND) == k - 1
  {
    PeriodIs(z, At(z, k - 1) - SECOND, k - 1);
  }

  // With spaced transitions every instant showing the reading has a surviving offset, whatever
  // time.Date chose.
  lemma SamplesAreEnough(z: Zone, wall: int, approx: int, t: int)
    requires WellFormed(z) && Spaced(z) && DateMayChoose(z, wall, approx) && Shows(z, wall, t)
    ensures OffsetAt(z, t) in Matches(z, wall, approx) && t == Candidate(wall, OffsetAt(z, t))
  {
    var chosen :| HasOffset(z, chosen) && approx == wall - Seconds(chosen);
    var o := OffsetAt(z, t);
    assert HasOffset(z, o) by { assert PeriodOffset(z, Period(z, t)) == o; }
    CloseInstants(z, approx, t, chosen, o);
    NeighbourSampled(z, approx, t);
    ShownSurvives(z, wall, t);
  }

  lemma {:induction false} CloseInstants(z: Zone, t: int, u: int, a: int, b: int)
    requires WellFormed(z) && Spaced(z) && HasOffset(z, a) && HasOffset(z, b) && u - t == Seconds(a - b)
    ensures Period(z, t) - 1 <= Period(z, u) <= Period(z, t) + 1
  {
    if u > t {
      Neighbours(z, t, u, a - b);
    } else if u < t {
      Neighbours(z, u, t, b - a);
    }
  }

  lemma {:induction false} NeighbourSampled(z: Zone, approx: int, t: int)
    requires WellFormed(z) && Period(z, approx) - 1 <= Period(z, t) <= Period(z, approx) + 1
    ensures OffsetAt(z, t) in SampledOffsets(z, approx)
  {
    var k, p := Period(z, approx), Period(z, t);
    var s := approx;
    if p == k + 1 {
      SampleNext(z, k);
      s := At(z, k);
    } else if p < k {
      SamplePrevious(z, k);
      s := At(z, k - 1) - SECOND;
    }
    assert s in Samples(z, approx) && OffsetAt(z, s) == OffsetAt(z, t);
  }

  // So with spaced transitions the code's count decides whether one and only one instant shows the
  // reading.
  lemma CountDecides(z: Zone, wall: int, approx: int)
    requires WellFormed(z) && Spaced(z) && DateMayChoose(z, wall, approx)
    ensures |Matches(z, wall, approx)| == 1 <==> ExactlyOne(z, wall)
  {
    var m := Matches(z, wall, approx);
    if |m| == 1 {
      var o := TheOnly(m);
      SurvivorsShow(z, wall, o);
      forall u | Shows(z, wall, u) ensures u == Candidate(wall, o) {
        SamplesAreEnough(z, wall, approx, u);
        assert OffsetAt(z, u) in m;
      }
    }
    if ExactlyOne(z, wall) {
      var t :| Shows(z, wall, t) && forall u :: Shows(z, wall, u) ==> u == t;
      SamplesAreEnough(z, wall, approx, t);
      forall o | o in m ensures o == OffsetAt(z, t) {
        SurvivorsShow(z, wall, o);
      }
      assert m == {OffsetAt(z, t)};
    }
  }

  // ----- The text that comes out

  // An RFC 3339 text: the clock reading and the offset printed beside it, in minutes.
  datatype DateTime = DateTime(reading: int, minutes: int)

  // The offset time.Format prints: whole minutes, cut toward zero as Go's / does.
  function PrintedMinutes(offset: int): int {
    if offset >= 0 then offset / 60 else -(-offset / 60)
  }

  function FormatIn(z: Zone, t: int): DateTime { DateTime(Reading(z, t), PrintedMinutes(OffsetAt(z, t))) }

  // The instant time.Parse reads back.
  function Denotes(d: DateTime): int { d.reading - Seconds(d.minutes * 60) }

  // What is printed: the reading, and beside it the whole minutes of the offset, the rest cut off
  // toward zero.
  lemma PrintsTowardZero(z: Zone, t: int)
    ensures var d, o := FormatIn(z, t), OffsetAt(z, t);
      && d.reading == t + Seconds(o)
      && (o >= 0 ==> 0 <= o - 60 * d.minutes < 60 && d.minutes >= 0)
      && (o <= 0 ==> 0 <= 60 * d.minutes - o < 60 && d.minutes <= 0)
  {
    hide OffsetAt;
  }

  // The printed text denotes the instant it was printed from exactly when the offset in force is a
  // whole number of minutes. Local mean time offsets of older records are not.
  lemma PrintedExactly(z: Zone, t: int)
    ensures Denotes(FormatIn(z, t)) == t <==> OffsetAt(z, t) % 60 == 0
  {
    hide OffsetAt;
    var o := OffsetAt(z, t);
    MinutesLost(o);
    assert Denotes(FormatIn(z, t)) == t + Seconds(o - PrintedMinutes(o) * 60);
  }

  lemma MinutesLost(o: int)
    ensures PrintedMinutes(o) * 60 == o <==> o % 60 == 0
  {
    if o >= 0 {
      SecondsLost(o);
    } else {
      SecondsLost(-o);
      Multiples(o);
    }
  }

  lemma SecondsLost(n: nat)
    ensures n / 60 * 60 == n <==> n % 60 == 0
  {
    assert n == n / 60 * 60 + n % 60;
  }

  lemma Multiples(o: int)
    ensures o % 60 == 0 <==> (-o) % 60 == 0
  {
    if o % 60 == 0 { Multiple(-o, -(o / 60)); }
    if (-o) % 60 == 0 { Multiple(o, -(-o / 60)); }
  }

  lemma Multiple(x: int, k: int)
    requires x == 60 * k
    ensures x % 60 == 0
  {}

  predicate ZoneName(name: string) { name != "" && name != "Local" && Text.ByteLen(name) <= 128 }

  datatype Error = InvalidZone | InvalidReading | MissingOrAmbiguous

  // LocalDateTime, as a function of the choice time.Date makes: wall is None when the text does not
  // parse, db is the zone database.
  ghost function Resolve(wall: Option<int>, name: string, db: map<string, Zone>, approx: int): Result<DateTime, Error> {
    if !ZoneName(name) || name !in db then Failure(InvalidZone)
    else if wall == None then Failure(InvalidReading)
    else if |Matches(db[name], wall.value, approx)| != 1 then Failure(MissingOrAmbiguous)
    else
      var o :| o in Matches(db[name], wall.value, approx);
      Success(FormatIn(db[name], Candidate(wall.value, o)))
  }

  method LocalDateTime(wall: Option<int>, name: string, db: map<string, Zone>)
    returns (r: Result<DateTime, Error>, approx: int)
    requires forall n :: n in db ==> WellFormed(db[n])
    ensures name in db && wall.Some? ==> DateMayChoose(db[name], wall.value, approx)
    ensures r == Resolve(wall, name, db, approx)
  {
    approx := 0;
    if name in db && wall.Some? {
      approx := DateIn(db[name], wall.value);
    }
    if !ZoneName(name) || name !in db {
      return Failure(InvalidZone), approx;
    }
    if wall == None {
      return Failure(InvalidReading), approx;
    }
    var z := db[name];
    var offsets := Offsets(z, approx);
    var matches := Candidates(z, wall.value, offsets);
    if |matches| != 1 {
      return Failure(MissingOrAmbiguous), approx;
    }
    var only := TheOnly(Matches(z, wall.value, approx));
    assert matches[0] in matches && forall o :: o in Surviving(z, wall.value, offsets) ==> o == only;
    return Success(FormatIn(z, matches[0])), approx;
  }

  // The offsets map that add fills.
  method Offsets(z: Zone, approx: int) returns (offsets: set<int>)
    ensures offsets == SampledOffsets(z, approx)
  {
    var all := Samples(z, approx);
    var todo := all;
    offsets := {};
    while todo != {}
      invariant todo <= all
      invariant offsets == set t | t in all - todo :: OffsetAt(z, t)
      decreases todo
    {
      var t := Next(todo);
      offsets := offsets + {OffsetAt(z, t)};
      todo := todo - {t};
    }
  }

  // The candidates that show the reading again, in whatever order the map is walked.
  method Candidates(z: Zone, wall: int, offsets: set<int>) returns (matches: seq<int>)
    ensures |matches| == |Surviving(z, wall, offsets)|
    ensures forall t :: t in matches ==> exists o :: o in Surviving(z, wall, offsets) && t == Candidate(wall, o)
  {
    matches := [];
    ghost var survivors: set<int> := {};
    var todo := offsets;
    while todo != {}
      invariant todo <= offsets
      invariant survivors == Surviving(z, wall, offsets - todo)
      invariant |matches| == |survivors|
      invariant forall t :: t in matches ==> exists o :: o in survivors && t == Candidate(wall, o)
      decreases todo
    {
      var o := Next(todo);
      var candidate := Candidate(wall, o);
      if Reading(z, candidate) == wall {
        matches := matches + [candidate];
        survivors := survivors + {o};
      }
      todo := todo - {o};
    }
    assert survivors == Surviving(z, wall, offsets) by { assert offsets - todo == offsets; }
  }

  // ----- What the resolution promises

  // Whatever is returned, for any zone at all, is the text of an instant showing the reading.
  lemma ResolvedShows(wall: Option<int>, name: string, db: map<string, Zone>, approx: int)
    requires Resolve(wall, name, db, approx).Success?
    ensures wall.Some? && name in db
    ensures exists t ::
      Shows(db[name], wall.value, t) && Resolve(wall, name, db, approx) == Success(FormatIn(db[name], t))
  {
    var o := TheOnly(Matches(db[name], wall.value, approx));
    SurvivorsShow(db[name], wall.value, o);
  }

  // Who is refused before any instant is looked for: the absent zone, Go's implicit local zone, a
  // name of more than 128 bytes and one the database does not know; then a text that is no reading.
  // Everything else is decided by the instants.
  lemma {:induction false} RefusesExactly(wall: Option<int>, name: string, db: map<string, Zone>, approx: int)
    ensures var r := Resolve(wall, name, db, approx);
      var unknown := name == "" || name == "Local" || Text.ByteLen(name) > 128 || name !in db;
      && (r == Failure(InvalidZone) <==> unknown)
      && (r == Failure(InvalidReading) <==> !unknown && wall == None)
      && (r.Success? || r == Failure(MissingOrAmbiguous) <==> !unknown && wall.Some?)
  {}

  // With spaced transitions the call succeeds exactly when one and only one instant shows the
  // reading, it prints that instant, and the choice time.Date makes does not matter.
  lemma ResolvesUniqueReadings(wall: int, name: string, db: map<string, Zone>, approx: int)
    requires ZoneName(name) && name in db && WellFormed(db[name]) && Spaced(db[name])
    requires DateMayChoose(db[name], wall, approx)
    ensures Resolve(Some(wall), name, db, approx).Success? <==> ExactlyOne(db[name], wall)
    ensures forall t ::
      (Resolve(Some(wall), name, db, approx).Success? && Shows(db[name], wall, t)
       ==> Resolve(Some(wall), name, db, approx) == Success(FormatIn(db[name], t)))
    ensures Resolve(Some(wall), name, db, approx).Failure? ==>
      Resolve(Some(wall), name, db, approx) == Failure(MissingOrAmbiguous)
  {
    var z := db[name];
    CountDecides(z, wall, approx);
    if ExactlyOne(z, wall) { ResolvedShows(Some(wall), name, db, approx); }
  }

  // The whole call over a spaced database, whatever time.Date chose: the refusals above, then the one
  // instant that shows the reading, or none.
  lemma {:induction false} ResolvesExactly(wall: Option<int>, name: string, db: map<string, Zone>, approx: int)
    requires forall n :: n in db ==> WellFormed(db[n]) && Spaced(db[n])
    requires name in db && wall.Some? ==> DateMayChoose(db[name], wall.value, approx)
    ensures Resolve(wall, name, db, approx).Success? <==>
      name != "" && name != "Local" && Text.ByteLen(name) <= 128 && name in db
      && wall.Some? && ExactlyOne(db[name], wall.value)
    ensures Resolve(wall, name, db, approx).Success? ==>
      forall t :: Shows(db[name], wall.value, t) ==> Resolve(wall, name, db, approx).value == FormatIn(db[name], t)
  {
    hide ExactlyOne, Spaced, WellFormed, DateMayChoose, Shows, FormatIn;
    RefusesExactly(wall, name, db, approx);
    if ZoneName(name) && name in db && wall.Some? { ResolvesUniqueReadings(wall.value, name, db, approx); }
  }

  // The returned text denotes the unique instant exactly when the offset in force is a whole number
  // of minutes: RFC 3339 cannot carry seconds of offset.
  lemma ResolvedTextDenotes(wall: int, name: string, db: map<string, Zone>, approx: int, t: int)
    requires ZoneName(name) && name in db && WellFormed(db[name]) && Spaced(db[name])
    requires DateMayChoose(db[name], wall, approx)
    requires ExactlyOne(db[name], wall) && Shows(db[name], wall, t)
    ensures Resolve(Some(wall), name, db, approx).Success?
    ensures Denotes(Resolve(Some(wall), name, db, approx).value) == t <==> OffsetAt(db[name], t) % 60 == 0
  {
    ResolvesUniqueReadings(wall, name, db, approx);
    PrintedExactly(db[name], t);
  }

  // Local mean time: clocks nineteen minutes and thirty-two seconds ahead, from the beginning of the
  // zone to its end. Every reading has its one instant, and no returned text denotes it.
  lemma LocalMeanTimeIsLost(z: Zone, wall: int)
    requires z.first == 1172 && z.changes == []
    ensures var t := wall - Seconds(1172);
      && WellFormed(z) && Spaced(z) && DateMayChoose(z, wall, t)
      && Shows(z, wall, t) && ExactlyOne(z, wall)
      && Resolve(Some(wall), "X", map["X" := z], t).Success?
      && Denotes(Resolve(Some(wall), "X", map["X" := z], t).value) == t + Seconds(32)
      && !MomentAccepts(z, Resolve(Some(wall), "X", map["X" := z], t).value)
  {
    var t, db := wall - Seconds(1172), map["X" := z];
    assert HasOffset(z, 1172) by { assert PeriodOffset(z, 0) == 1172; }
    OneOffset(z, wall);
    ResolvesUniqueReadings(wall, "X", db, t);
    assert Shows(db["X"], wall, t);
    assert Resolve(Some(wall), "X", db, t) == Success(FormatIn(z, t));
  }

  lemma OneOffset(z: Zone, wall: int)
    requires z.first == 1172 && z.changes == []
    ensures ExactlyOne(z, wall) && Shows(z, wall, wall - Seconds(1172))
  {
    var t := wall - Seconds(1172);
    forall u ensures Reading(z, u) == u + Seconds(1172) { assert PeriodOffset(z, Period(z, u)) == 1172; }
    assert Shows(z, wall, t) && forall u :: Shows(z, wall, u) ==> u == t;
  }

  // ----- The offset check of calendar writes

  // moment in calendarwrite: the offset written in the text is the one the zone has at that instant.
  predicate MomentAccepts(z: Zone, d: DateTime) { OffsetAt(z, Denotes(d)) == d.minutes * 60 }

  // A resolved text passes the write check in the same zone exactly when its offset was a whole
  // number of minutes.
  lemma ResolvedIsWritable(wall: int, name: string, db: map<string, Zone>, approx: int, t: int)
    requires ZoneName(name) && name in db && WellFormed(db[name]) && Spaced(db[name])
    requires DateMayChoose(db[name], wall, approx)
    requires ExactlyOne(db[name], wall) && Shows(db[name], wall, t)
    ensures var r := Resolve(Some(wall), name, db, approx);
      r.Success? && (MomentAccepts(db[name], r.value) <==> OffsetAt(db[name], t) % 60 == 0)
  {
    var z := db[name];
    ResolvesUniqueReadings(wall, name, db, approx);
    PrintedExactly(z, t);
    var d := FormatIn(z, t);
    if MomentAccepts(z, d) {
      AcceptedShows(z, d);
      assert Denotes(d) == t;
    }
  }

  lemma AcceptedShows(z: Zone, d: DateTime)
    requires MomentAccepts(z, d)
    ensures Shows(z, d.reading, Denotes(d)) && FormatIn(z, Denotes(d)) == d
  {
    WholeMinutes(d.minutes);
  }

  lemma WholeMinutes(m: int)
    ensures PrintedMinutes(m * 60) == m
  {}

  // Conversely: any accepted text, stripped of its offset and resolved again in the same zone, is
  // refused or comes back unchanged, and it is refused exactly when its reading is ambiguous.
  lemma WritableResolvesBack(d: DateTime, name: string, db: map<string, Zone>, approx: int)
    requires ZoneName(name) && name in db && WellFormed(db[name]) && Spaced(db[name])
    requires DateMayChoose(db[name], d.reading, approx) && MomentAccepts(db[name], d)
    ensures Resolve(Some(d.reading), name, db, approx)
      == if ExactlyOne(db[name], d.reading) then Success(d) else Failure(MissingOrAmbiguous)
  {
    AcceptedShows(db[name], d);
    ResolvesUniqueReadings(d.reading, name, db, approx);
  }

  // ----- The spacing is needed

  // Three transitions within twenty seconds: the clocks show twelve seconds to zero twice, but the
  // second time falls in a period the code never samples, so the call answers.
  predicate Crowded(z: Zone) {
    && z.first == 0 && |z.changes| == 3
    && (var c := z.changes[0]; c.second == 0 && c.offset == -10)
    && (var c := z.changes[1]; c.second == 5 && c.offset == -20)
    && (var c := z.changes[2]; c.second == 20 && c.offset == 50)
  }

  lemma SpacingIsNeeded() returns (z: Zone, wall: int)
    ensures WellFormed(z) && !Spaced(z)
    ensures DateMayChoose(z, wall, wall) && !ExactlyOne(z, wall)
    ensures Resolve(Some(wall), "X", map["X" := z], wall).Success?
  {
    z, wall := CrowdedZone();
    CrowdedIsAmbiguous(z, wall);
    var a, b, c := CrowdedSurvivors(z, wall);
    OneOfThreeSurvives(z, wall, SampledOffsets(z, wall), a, b, c);
    OneSurvivorAnswers(wall, z, wall);
  }

  lemma CrowdedZone() returns (z: Zone, wall: int)
    ensures Crowded(z) && wall == Seconds(-12)
  {
    z, wall := Zone(0, [Transition(0, -10), Transition(5, -20), Transition(20, 50)]), Seconds(-12);
  }

  lemma OneSurvivorAnswers(wall: int, z: Zone, approx: int)
    requires |Matches(z, wall, approx)| == 1
    ensures Resolve(Some(wall), "X", map["X" := z], approx).Success?
  {
    assert ZoneName("X");
  }

  lemma CrowdedIsAmbiguous(z: Zone, wall: int)
    requires Crowded(z) && wall == Seconds(-12)
    ensures WellFormed(z) && !Spaced(z) && DateMayChoose(z, wall, wall) && !ExactlyOne(z, wall)
  {
    assert HasOffset(z, 0) by { assert PeriodOffset(z, 0) == 0; }
    assert HasOffset(z, 50) by { assert PeriodOffset(z, 3) == 50; }
    assert !(50 - 0 < z.changes[1].second - z.changes[0].second);
    PeriodIs(z, wall, 0);
    PeriodIs(z, Seconds(8), 2);
    assert Shows(z, wall, wall) && Shows(z, wall, Seconds(8));
  }

  lemma CrowdedSamples(z: Zone, wall: int)
    requires Crowded(z) && wall == Seconds(-12)
    ensures SampledOffsets(z, wall) == {0, 50, -10}
  {
    PeriodIs(z, wall, 0);
    PeriodIs(z, wall - 2 * DAY, 0);
    PeriodIs(z, wall + 2 * DAY, 3);
    PeriodIs(z, At(z, 0), 1);
    assert Samples(z, wall) == {wall, wall - 2 * DAY, wall + 2 * DAY, At(z, 0)};
  }

  lemma CrowdedSurvivors(z: Zone, wall: int) returns (a: int, b: int, c: int)
    requires Crowded(z) && wall == Seconds(-12)
    ensures SampledOffsets(z, wall) == {a, b, c}
    ensures Survives(z, wall, a) && !Survives(z, wall, b) && !Survives(z, wall, c)
  {
    a, b, c := 0, 50, -10;
    CrowdedSamples(z, wall);
    CrowdedSurvivor(z, wall, a);
    CrowdedSurvivor(z, wall, b);
    CrowdedSurvivor(z, wall, c);
  }

  lemma OneOfThreeSurvives(z: Zone, wall: int, offsets: set<int>, a: int, b: int, c: int)
    requires offsets == {a, b, c} && Survives(z, wall, a) && !Survives(z, wall, b) && !Survives(z, wall, c)
    ensures |Surviving(z, wall, offsets)| == 1
  {
    OneOfThree(a, a, b, c);
    forall o | o in Surviving(z, wall, offsets) ensures o == a { OneOfThree(o, a, b, c); }
    OnlyElement(Surviving(z, wall, offsets), a);
  }

  lemma OneOfThree<T>(o: T, a: T, b: T, c: T)
    ensures o in {a, b, c} <==> o == a || o == b || o == c
  {}

  // A candidate before the first transition survives exactly when its offset is the first one.
  lemma CrowdedSurvivor(z: Zone, wall: int, o: int)
    requires Crowded(z) && wall == Seconds(-12) && o >= -10
    ensures Survives(z, wall, o) <==> o == 0
  {
    PeriodIs(z, Candidate(wall, o), 0);
  }
}
