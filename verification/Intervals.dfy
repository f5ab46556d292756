/** Half-open intervals of instants and the theory the availability sweep rests on: canonical lists
    are determined by their points, and subtracting busy time is complementation. */
module Intervals {

  // Instants are nanoseconds on one absolute time line; an interval is [start, end).
  datatype Interval = Interval(start: int, end: int)

  predicate Proper(b: Interval) { b.start < b.end }

  predicate AllProper(xs: seq<Interval>) { forall i :: 0 <= i < |xs| ==> Proper(xs[i]) }

  predicate Inside(x: Interval, t: int) { x.start <= t < x.end }

  ghost predicate Covers(xs: seq<Interval>, t: int) {
    exists i :: 0 <= i < |xs| && Inside(xs[i], t)
  }

  // Sorted, no empty entry, inside the window, and a positive gap between neighbours.
  predicate Canonical(xs: seq<Interval>, w: Interval) {
    AllProper(xs)
    && (forall i :: 0 <= i < |xs| ==> w.start <= xs[i].start && xs[i].end <= w.end)
    && (forall i, j :: 0 <= i < j < |xs| ==> xs[i].end < xs[j].start)
  }

  lemma CoversConcat(xs: seq<Interval>, ys: seq<Interval>, t: int)
    ensures Covers(xs + ys, t) <==> Covers(xs, t) || Covers(ys, t)
  {
    if i :| 0 <= i < |xs| && Inside(xs[i], t) { assert Inside((xs + ys)[i], t); }
    if i :| 0 <= i < |ys| && Inside(ys[i], t) { assert Inside((xs + ys)[|xs| + i], t); }
    if i :| 0 <= i < |xs + ys| && Inside((xs + ys)[i], t) {
      if i < |xs| { assert Inside(xs[i], t); } else { assert Inside(ys[i - |xs|], t); }
    }
  }

  lemma CoversFirst(xs: seq<Interval>, t: int)
    requires xs != []
    ensures Covers(xs, t) <==> Inside(xs[0], t) || Covers(xs[1..], t)
  {
    assert xs == [xs[0]] + xs[1..];
    CoversConcat([xs[0]], xs[1..], t);
    if Inside(xs[0], t) { assert Inside([xs[0]][0], t); }
  }

  lemma CanonicalRest(xs: seq<Interval>, w: Interval)
    requires xs != [] && Canonical(xs, w)
    ensures Canonical(xs[1..], w) && Canonical(xs[1..], Interval(xs[0].end + 1, w.end))
    ensures forall t :: Covers(xs[1..], t) ==> xs[0].end < t
  {}

  // The canonical form is unique: the points of a canonical list determine the list.
  lemma {:induction false} CanonicalUnique(xs: seq<Interval>, ys: seq<Interval>, w: Interval)
    requires Canonical(xs, w) && Canonical(ys, w)
    requires forall t :: Covers(xs, t) <==> Covers(ys, t)
    ensures xs == ys
  {
    if xs == [] {
      if ys != [] { assert Inside(ys[0], ys[0].start); assert Covers(ys, ys[0].start); }
    } else if ys == [] {
      assert Inside(xs[0], xs[0].start);
      assert Covers(xs, xs[0].start);
    } else {
      FirstStart(xs, ys, w);
      FirstStart(ys, xs, w);
      FirstEnd(xs, ys, w);
      FirstEnd(ys, xs, w);
      CanonicalRest(xs, w);
      CanonicalRest(ys, w);
      forall t ensures Covers(xs[1..], t) <==> Covers(ys[1..], t) {
        CoversFirst(xs, t);
        CoversFirst(ys, t);
      }
      CanonicalUnique(xs[1..], ys[1..], w);
    }
  }

  lemma FirstStart(xs: seq<Interval>, ys: seq<Interval>, w: Interval)
    requires Canonical(xs, w) && Canonical(ys, w) && xs != [] && ys != []
    requires forall t :: Covers(xs, t) ==> Covers(ys, t)
    ensures ys[0].start <= xs[0].start
  {
    var t := xs[0].start;
    assert Inside(xs[0], t);
    assert Covers(xs, t);
    var i :| 0 <= i < |ys| && Inside(ys[i], t);
    assert ys[0].start <= ys[i].start;
  }

  lemma FirstEnd(xs: seq<Interval>, ys: seq<Interval>, w: Interval)
    requires Canonical(xs, w) && Canonical(ys, w) && xs != [] && ys != []
    requires xs[0].start == ys[0].start
    requires forall t :: Covers(xs, t) ==> Covers(ys, t)
    ensures xs[0].end <= ys[0].end
  {
    GapAfterFirst(ys, w);
    assert !Covers(xs, ys[0].end);
    assert !Inside(xs[0], ys[0].end);
  }

  lemma GapAfterFirst(xs: seq<Interval>, w: Interval)
    requires Canonical(xs, w) && xs != []
    ensures !Covers(xs, xs[0].end)
  {
    CanonicalRest(xs, w);
    CoversFirst(xs, xs[0].end);
  }

  // ----- Subtraction: the simple form of "free time"

  // What is left of one free interval once b is busy: at most a piece on either side.
  function Cut(f: Interval, b: Interval): (r: seq<Interval>)
    requires Proper(f) && Proper(b)
    ensures Canonical(r, f)
    ensures forall t :: Covers(r, t) <==> Inside(f, t) && !Inside(b, t)
  {
    var left := Interval(f.start, if f.end < b.start then f.end else b.start);
    var right := Interval(if f.start < b.end then b.end else f.start, f.end);
    var ls := if Proper(left) then [left] else [];
    var rs := if Proper(right) then [right] else [];
    var r := if b.end <= f.start || f.end <= b.start then [f] else ls + rs;
    assert forall t :: Covers(r, t) <==> Inside(f, t) && !Inside(b, t) by {
      forall t ensures Covers(r, t) <==> Inside(f, t) && !Inside(b, t) {
        assert Covers([f], t) <==> Inside(f, t) by { if Inside(f, t) { assert Inside([f][0], t); } }
        assert Covers([left], t) <==> Inside(left, t) by { if Inside(left, t) { assert Inside([left][0], t); } }
        assert Covers([right], t) <==> Inside(right, t) by { if Inside(right, t) { assert Inside([right][0], t); } }
        CoversConcat(ls, rs, t);
      }
    }
    r
  }

  function Subtract(free: seq<Interval>, b: Interval): (r: seq<Interval>)
    requires AllProper(free) && Proper(b)
    ensures AllProper(r)
  {
    if free == [] then [] else Cut(free[0], b) + Subtract(free[1..], b)
  }

  lemma {:induction false} SubtractPoints(free: seq<Interval>, b: Interval, t: int)
    requires AllProper(free) && Proper(b)
    ensures Covers(Subtract(free, b), t) <==> Covers(free, t) && !Inside(b, t)
  {
    if free != [] {
      CoversFirst(free, t);
      SubtractPoints(free[1..], b, t);
      CoversConcat(Cut(free[0], b), Subtract(free[1..], b), t);
    }
  }

  lemma {:induction false} SubtractCanonical(free: seq<Interval>, b: Interval, w: Interval)
    requires Canonical(free, w) && Proper(b)
    ensures Canonical(Subtract(free, b), w)
  {
    if free != [] {
      var rest := Interval(free[0].end + 1, w.end);
      CanonicalRest(free, w);
      SubtractCanonical(free[1..], b, rest);
    }
  }

  // Free time of a window: start from the whole window and subtract one busy interval at a time.
  function FreeOf(w: Interval, busy: seq<Interval>): (r: seq<Interval>)
    requires Proper(w) && AllProper(busy)
    ensures AllProper(r)
  {
    if busy == [] then [w] else Subtract(FreeOf(w, busy[..|busy| - 1]), busy[|busy| - 1])
  }

  // FreeOf is the canonical list of exactly the window's instants that no busy interval holds.
  lemma {:induction false} FreeOfIsComplement(w: Interval, busy: seq<Interval>)
    requires Proper(w) && AllProper(busy)
    ensures Canonical(FreeOf(w, busy), w)
    ensures forall t :: Covers(FreeOf(w, busy), t) <==> Inside(w, t) && !Covers(busy, t)
  {
    if busy == [] {
      forall t ensures Covers([w], t) <==> Inside(w, t) { if Inside(w, t) { assert Inside([w][0], t); } }
    } else {
      var init, b := busy[..|busy| - 1], busy[|busy| - 1];
      FreeOfIsComplement(w, init);
      SubtractCanonical(FreeOf(w, init), b, w);
      forall t ensures Covers(FreeOf(w, busy), t) <==> Inside(w, t) && !Covers(busy, t) {
        SubtractPoints(FreeOf(w, init), b, t);
        assert busy == init + [b];
        CoversConcat(init, [b], t);
        assert Covers([b], t) <==> Inside(b, t) by { if Inside(b, t) { assert Inside([b][0], t); } }
      }
    }
  }

  // So any canonical list with those points is FreeOf: order, duplicates and overlaps of the busy
  // list cannot show in the result.
  lemma {:induction false} FreeOfUnique(w: Interval, busy: seq<Interval>, free: seq<Interval>)
    requires Proper(w) && AllProper(busy) && Canonical(free, w)
    requires forall t :: Covers(free, t) <==> Inside(w, t) && !Covers(busy, t)
    ensures free == FreeOf(w, busy)
  {
    FreeOfIsComplement(w, busy);
    CanonicalUnique(free, FreeOf(w, busy), w);
  }

  lemma {:induction false} FreeOfDependsOnPointsOnly(w: Interval, a: seq<Interval>, b: seq<Interval>)
    requires Proper(w) && AllProper(a) && AllProper(b)
    requires forall t :: Inside(w, t) ==> (Covers(a, t) <==> Covers(b, t))
    ensures FreeOf(w, a) == FreeOf(w, b)
  {
    FreeOfIsComplement(w, a);
    FreeOfUnique(w, b, FreeOf(w, a));
  }

  // Subtracting free time from the window gives the merged busy time, and once more gives it back.
  lemma {:induction false} DoubleComplement(w: Interval, busy: seq<Interval>)
    requires Proper(w) && AllProper(busy)
    ensures var merged := FreeOf(w, FreeOf(w, busy));
            && Canonical(merged, w)
            && (forall t :: Covers(merged, t) <==> Inside(w, t) && Covers(busy, t))
            && FreeOf(w, merged) == FreeOf(w, busy)
  {
    var free := FreeOf(w, busy);
    FreeOfIsComplement(w, busy);
    FreeOfIsComplement(w, free);
    FreeOfDependsOnPointsOnly(w, FreeOf(w, free), busy);
  }

  // ----- Conservation of time

  function Length(xs: seq<Interval>): int {
    if xs == [] then 0 else xs[0].end - xs[0].start + Length(xs[1..])
  }

  // The instants of the window that the list covers.
  ghost function Points(xs: seq<Interval>, w: Interval): set<int> {
    set t | w.start <= t < w.end && Covers(xs, t)
  }

  ghost function Range(lo: int, hi: int): set<int> { set t | lo <= t < hi && Inside(Interval(lo, hi), t) }

  lemma {:induction false} RangeSize(lo: int, hi: int)
    requires lo <= hi
    ensures |Range(lo, hi)| == hi - lo
    decreases hi - lo
  {
    if lo < hi {
      RangeSize(lo, hi - 1);
      assert Range(lo, hi) == Range(lo, hi - 1) + {hi - 1};
    } else {
      assert Range(lo, hi) == {};
    }
  }

  lemma {:induction false} LengthIsSize(xs: seq<Interval>, w: Interval)
    requires Canonical(xs, w)
    ensures Length(xs) == |Points(xs, w)|
  {
    if xs == [] {
      assert Points(xs, w) == {};
    } else {
      var first := Range(xs[0].start, xs[0].end);
      CanonicalRest(xs, w);
      LengthIsSize(xs[1..], w);
      RangeSize(xs[0].start, xs[0].end);
      forall t ensures t in Points(xs, w) <==> t in first + Points(xs[1..], w) { CoversFirst(xs, t); }
      assert Points(xs, w) == first + Points(xs[1..], w);
      assert first !! Points(xs[1..], w);
    }
  }

  // Free time and busy time together fill the window: the busy side is counted instant by instant,
  // so overlapping busy intervals are counted once.
  lemma {:induction false} Conservation(w: Interval, busy: seq<Interval>)
    requires Proper(w) && AllProper(busy)
    ensures Length(FreeOf(w, busy)) + |Points(busy, w)| == w.end - w.start
  {
    var free := FreeOf(w, busy);
    FreeOfIsComplement(w, busy);
    LengthIsSize(free, w);
    RangeSize(w.start, w.end);
    assert Points(free, w) + Points(busy, w) == Range(w.start, w.end);
    assert Points(free, w) !! Points(busy, w);
  }
}
