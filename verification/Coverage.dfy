/** What the periods of a whole schedule cover. */
module Coverage {
  import opened Arrays
  import opened Grid

  /** Some period stops after the next one has begun. */
  predicate Overlaps(ts: seq<Interval>) {
    exists k :: 0 <= k < |ts| - 1 && ts[k].right > ts[k + 1].left
  }

  /** Cut every overlapping period off at the start of the next. */
  function Curtail(ts: seq<Interval>): (r: seq<Interval>)
    ensures |r| == |ts|
  {
    seq(|ts|, k requires 0 <= k < |ts| => Interval(ts[k].left, CurtailedRight(ts, k)))
  }

  function CurtailedRight(ts: seq<Interval>, k: nat): int
    requires k < |ts|
  {
    if k + 1 < |ts| then Min(ts[k].right, ts[k + 1].left) else ts[k].right
  }

  /** Intervals that each have a positive length and follow one another. */
  ghost predicate Disjoint(ts: seq<Interval>) {
    && (forall k :: 0 <= k < |ts| ==> ts[k].left < ts[k].right)
    && (forall i, j :: 0 <= i < j < |ts| ==> ts[i].right <= ts[j].left)
  }

  ghost predicate Holds(ts: seq<Interval>, k: int, t: int) {
    0 <= k < |ts| && ts[k].left <= t < ts[k].right
  }

  /** `t` belongs to one interval of `ts` and to no other. */
  ghost predicate HeldOnce(ts: seq<Interval>, t: int) {
    exists k :: Holds(ts, k, t) && forall i :: Holds(ts, i, t) ==> i == k
  }

  ghost predicate Held(ts: seq<Interval>, t: int) {
    exists k :: Holds(ts, k, t)
  }

  ghost predicate Open(ws: seq<Window>, j: int, t: int) {
    0 <= j < |ws| && ws[j].start <= t < ws[j].end
  }

  ghost predicate SomeOpen(ws: seq<Window>, t: int) {
    exists j :: Open(ws, j, t)
  }

  lemma Step(ws: seq<Window>, p: Period)
    requires ws != []
    ensures AllTiles(ws, p) == Tiles(ws[0], p) + AllTiles(ws[1..], p)
    ensures TilesBy(p)(ws[0]) == Tiles(ws[0], p)
  {}

  /** The periods of a schedule begin in strictly increasing order. */
  lemma {:induction false} AllTilesOrdered(ws: seq<Window>, p: Period)
    requires Chronological(ws)
    ensures var ts := AllTiles(ws, p);
      && (ws != [] ==> ts != [] && ts[0].left == ws[0].start)
      && (forall k :: 0 <= k < |ts| ==> ws != [] && ws[0].start <= ts[k].left < ts[k].right)
      && Increasing(Lefts(ts))
  {
    if ws != [] {
      Step(ws, p);
      TilesChain(ws[0], p);
      TilesIncreasing(ws[0], p);
      AllTilesOrdered(ws[1..], p);
      var a: seq<Interval>, b: seq<Interval> := Tiles(ws[0], p), AllTiles(ws[1..], p);
      forall i: int, j: int | 0 <= i < j < |a + b|
        ensures (a + b)[i].left < (a + b)[j].left
      {
        assert i < |a| ==> Lefts(a)[i] == a[i].left;
        assert j < |a| ==> Lefts(a)[j] == a[j].left;
        assert |a| <= i ==> Lefts(b)[i - |a|] < Lefts(b)[j - |a|];
      }
    }
  }

  lemma OverlapsConcat(a: seq<Interval>, b: seq<Interval>)
    requires a != []
    ensures Overlaps(a + b) <==>
      Overlaps(a) || Overlaps(b) || (b != [] && a[|a| - 1].right > b[0].left)
  {
    var c := a + b;
    if k :| 0 <= k < |c| - 1 && c[k].right > c[k + 1].left {
      if |a| <= k {
        assert b[k - |a|].right > b[k - |a| + 1].left;
      }
    }
    if k :| 0 <= k < |a| - 1 && a[k].right > a[k + 1].left {
      assert c[k].right > c[k + 1].left;
    }
    if k :| 0 <= k < |b| - 1 && b[k].right > b[k + 1].left {
      assert c[k + |a|].right > c[k + |a| + 1].left;
    }
    if b != [] && a[|a| - 1].right > b[0].left {
      assert c[|a| - 1].right > c[|a|].left;
    }
  }

  /** The periods of window `j` run past the start of window `j + 1`. */
  predicate RunsOver(ws: seq<Window>, p: Period, j: int) {
    0 <= j < |ws| - 1 && Last(ws[j], p) > ws[j + 1].start
  }

  /** Periods overlap exactly when some window, rounded up to whole periods,
      reaches past the start of the following window. */
  lemma {:induction false} OverlapsExactly(ws: seq<Window>, p: Period)
    requires Chronological(ws)
    ensures Overlaps(AllTiles(ws, p)) <==> exists j :: RunsOver(ws, p, j)
  {
    if ws != [] {
      var rest := ws[1..];
      Step(ws, p);
      TilesChain(ws[0], p);
      AllTilesOrdered(rest, p);
      OverlapsExactly(rest, p);
      OverlapsConcat(Tiles(ws[0], p), AllTiles(rest, p));
      if j :| RunsOver(ws, p, j) {
        assert j > 0 ==> RunsOver(rest, p, j - 1);
      }
      if j :| RunsOver(rest, p, j) {
        assert RunsOver(ws, p, j + 1);
      }
      assert RunsOver(ws, p, 0) <==> rest != [] && Last(ws[0], p) > rest[0].start;
    }
  }

  lemma CurtailDisjoint(ts: seq<Interval>)
    requires Increasing(Lefts(ts))
    requires forall k :: 0 <= k < |ts| ==> ts[k].left < ts[k].right
    ensures Disjoint(Curtail(ts))
  {
    var c := Curtail(ts);
    forall i, j | 0 <= i < j < |ts|
      ensures c[i].right <= c[j].left
    {
      assert Lefts(ts)[i + 1] <= Lefts(ts)[j];
    }
    forall k | 0 <= k < |ts|
      ensures c[k].left < c[k].right
    {
      assert k + 1 < |ts| ==> Lefts(ts)[k] < Lefts(ts)[k + 1];
    }
  }

  lemma CurtailIdle(ts: seq<Interval>)
    requires !Overlaps(ts)
    ensures Curtail(ts) == ts
  {}

  /** In one window: the period that begins last among those begun by `t`. */
  lemma TileAt(w: Window, p: Period, t: int) returns (i: nat)
    requires w.start <= t < w.end
    ensures i < Periods(w, p)
    ensures Holds(Tiles(w, p), i, t)
  {
    var ts := Tiles(w, p);
    TilesChain(w, p);
    i := |ts| - 1;
    while t < ts[i].left
      invariant i < |ts| && t < ts[|ts| - 1].right && t < ts[i].right
    {
      i := i - 1;
    }
  }

  /** Every open instant is in some period, and precedes the next period. */
  lemma {:induction false} Covered(ws: seq<Window>, p: Period, j: nat, t: int) returns (k: nat)
    requires Chronological(ws) && Open(ws, j, t)
    ensures var ts := AllTiles(ws, p);
      Holds(ts, k, t) && (k + 1 < |ts| ==> t < ts[k + 1].left)
    decreases j
  {
    var w := ws[0];
    var a, b := Tiles(w, p), AllTiles(ws[1..], p);
    Step(ws, p);
    AllTilesOrdered(ws[1..], p);
    if j == 0 {
      k := TileAt(w, p, t);
      TilesChain(w, p);
    } else {
      var i := Covered(ws[1..], p, j - 1, t);
      k := |a| + i;
      assert (a + b)[k] == b[i];
      assert i + 1 < |b| ==> (a + b)[k + 1] == b[i + 1];
    }
  }

  lemma DisjointHoldsOnce(ts: seq<Interval>, k: int, t: int)
    requires Disjoint(ts) && Holds(ts, k, t)
    ensures HeldOnce(ts, t)
  {
    forall i | Holds(ts, i, t)
      ensures i == k
    {}
  }

  /** Curtailed periods begin in strictly increasing order, do not overlap, and
      hold every open instant exactly once. */
  lemma EveryOpenInstantOnce(ws: seq<Window>, p: Period)
    requires Chronological(ws)
    ensures Increasing(Lefts(Curtail(AllTiles(ws, p))))
    ensures Disjoint(Curtail(AllTiles(ws, p)))
    ensures forall j, t :: Open(ws, j, t) ==> HeldOnce(Curtail(AllTiles(ws, p)), t)
  {
    var ts := AllTiles(ws, p);
    AllTilesOrdered(ws, p);
    CurtailDisjoint(ts);
    assert Lefts(Curtail(ts)) == Lefts(ts);
    forall j, t | Open(ws, j, t)
      ensures HeldOnce(Curtail(ts), t)
    {
      var k := Covered(ws, p, j, t);
      DisjointHoldsOnce(Curtail(ts), k, t);
    }
  }

  ghost predicate RightHolds(ts: seq<Interval>, k: int, t: int) {
    0 <= k < |ts| && ts[k].left < t <= ts[k].right
  }

  /** The same for intervals closed on the right and instants in (start, end]. */
  ghost predicate RightHeldOnce(ts: seq<Interval>, t: int) {
    exists k :: RightHolds(ts, k, t) && forall i :: RightHolds(ts, i, t) ==> i == k
  }

  lemma RightHeld(ts: seq<Interval>, t: int)
    requires HeldOnce(ts, t - 1)
    ensures RightHeldOnce(ts, t)
  {
    var k :| Holds(ts, k, t - 1) && forall i {:trigger Holds(ts, i, t - 1)} :: Holds(ts, i, t - 1) ==> i == k;
    assert RightHolds(ts, k, t);
    forall i | RightHolds(ts, i, t)
      ensures i == k
    {
      assert Holds(ts, i, t - 1);
    }
  }

  lemma EveryRightInstantOnce(ws: seq<Window>, p: Period, j: nat, t: int)
    requires Chronological(ws)
    requires j < |ws| && ws[j].start < t <= ws[j].end
    ensures RightHeldOnce(Curtail(AllTiles(ws, p)), t)
  {
    EveryOpenInstantOnce(ws, p);
    assert Open(ws, j, t - 1);
    RightHeld(Curtail(AllTiles(ws, p)), t);
  }

  /** Every period of a forced schedule lies within a window. */
  lemma {:induction false} Within(ws: seq<Window>, p: Period, k: nat) returns (j: nat)
    requires Chronological(ws)
    requires forall i :: 0 <= i < |ws| ==> ws[i].forced
    requires k < |AllTiles(ws, p)|
    ensures j < |ws|
    ensures ws[j].start <= AllTiles(ws, p)[k].left && AllTiles(ws, p)[k].right <= ws[j].end
    decreases |ws|
  {
    Step(ws, p);
    TilesChain(ws[0], p);
    var n := |Tiles(ws[0], p)|;
    if k < n {
      j := 0;
    } else {
      var i := Within(ws[1..], p, k - n);
      j := i + 1;
    }
  }

  /** With every end forced, the periods tile the schedule exactly: they never
      overlap, and an instant is in a period exactly when a window is open. */
  lemma ForcedTiling(ws: seq<Window>, p: Period)
    requires Chronological(ws)
    requires forall i :: 0 <= i < |ws| ==> ws[i].forced
    ensures !Overlaps(AllTiles(ws, p)) && Disjoint(AllTiles(ws, p))
    ensures forall t :: Held(AllTiles(ws, p), t) <==> SomeOpen(ws, t)
  {
    var ts := AllTiles(ws, p);
    OverlapsExactly(ws, p);
    assert forall j :: !RunsOver(ws, p, j);
    CurtailIdle(ts);
    EveryOpenInstantOnce(ws, p);
    forall t
      ensures Held(ts, t) <==> SomeOpen(ws, t)
    {
      if k :| Holds(ts, k, t) {
        var j := Within(ws, p, k);
        assert Open(ws, j, t);
      }
      if j :| Open(ws, j, t) {
        var k := Covered(ws, p, j, t);
      }
    }
  }

  // ----- instants instead of intervals -----

  /** The last instant of window `j` comes before the first of window `j + 1`. */
  predicate Clears(ws: seq<Window>, p: Period, closed: Closed, j: int) {
    0 <= j < |ws| - 1 ==>
      match closed
      case Right => Last(ws[j], p) <= ws[j + 1].start
      case Both => Last(ws[j], p) < ws[j + 1].start
      case _ => true
  }

  ghost predicate Separated(ws: seq<Window>, p: Period, closed: Closed) {
    forall j :: 0 <= j < |ws| - 1 ==> Clears(ws, p, closed, j)
  }

  /** The instants of one window are increasing and stay within it. */
  ghost predicate Bounded(w: Window, p: Period, closed: Closed, t: int) {
    && (if closed.OnLeft() then w.start <= t else w.start < t)
    && (if closed.OnRight() then t <= Last(w, p) else t < w.end)
  }

  lemma IncreasingConcat(a: seq<int>, b: seq<int>, m: int, strict: bool)
    requires Increasing(a) && Increasing(b)
    requires forall i :: 0 <= i < |a| ==> if strict then a[i] < m else a[i] <= m
    requires forall i :: 0 <= i < |b| ==> if strict then m <= b[i] else m < b[i]
    ensures Increasing(a + b)
  {}

  lemma PointsIncreasing(w: Window, p: Period, closed: Closed)
    requires w.start < w.end
    ensures Increasing(Points(w, p, closed))
  {
    var ts := Tiles(w, p);
    TilesChain(w, p);
    TilesIncreasing(w, p);
    if closed == Both {
      IncreasingConcat(Lefts(ts), [Last(w, p)], w.end, true);
    }
  }

  lemma PointsBounds(w: Window, p: Period, closed: Closed)
    requires w.start < w.end
    ensures forall k :: 0 <= k < |Points(w, p, closed)| ==> Bounded(w, p, closed, Points(w, p, closed)[k])
  {
    var ts := Tiles(w, p);
    var xs := Points(w, p, closed);
    TilesChain(w, p);
    TilesIncreasing(w, p);
    forall k | 0 <= k < |xs|
      ensures Bounded(w, p, closed, xs[k])
    {
      match closed
      case Left => assert xs[k] == ts[k].left;
      case Right => assert xs[k] == ts[k].right;
      case Both => assert k < |ts| ==> xs[k] == ts[k].left;
      case Neither => assert xs[k] == Lefts(ts)[k + 1] > Lefts(ts)[0];
    }
  }

  ghost predicate Above(closed: Closed, m: int, xs: seq<int>) {
    forall k :: 0 <= k < |xs| ==> if closed.OnLeft() then m <= xs[k] else m < xs[k]
  }

  lemma {:induction false} AllPointsAbove(ws: seq<Window>, p: Period, closed: Closed)
    requires Chronological(ws) && ws != []
    ensures Above(closed, ws[0].start, AllPoints(ws, p, closed))
  {
    PointsBounds(ws[0], p, closed);
    assert AllPoints(ws, p, closed) == Points(ws[0], p, closed) + AllPoints(ws[1..], p, closed);
    if |ws| > 1 {
      AllPointsAbove(ws[1..], p, closed);
    }
  }

  /** Separated windows give strictly increasing instants. */
  lemma {:induction false} AllPointsIncreasing(ws: seq<Window>, p: Period, closed: Closed)
    requires Chronological(ws) && Separated(ws, p, closed)
    ensures Increasing(AllPoints(ws, p, closed))
  {
    if ws != [] {
      var rest := ws[1..];
      PointsIncreasing(ws[0], p, closed);
      PointsBounds(ws[0], p, closed);
      forall j | 0 <= j < |rest| - 1
        ensures Clears(rest, p, closed, j)
      {
        assert Clears(ws, p, closed, j + 1);
      }
      AllPointsIncreasing(rest, p, closed);
      if rest == [] {
        assert AllPoints(ws, p, closed) == Points(ws[0], p, closed);
      } else {
        AllPointsAbove(rest, p, closed);
        assert Clears(ws, p, closed, 0);
        IncreasingConcat(Points(ws[0], p, closed), AllPoints(rest, p, closed), rest[0].start, closed != Right);
      }
    }
  }

  /** Windows whose last instants do not pass the next start give instants in order. */
  lemma {:induction false} AllPointsSorted(ws: seq<Window>, p: Period, closed: Closed)
    requires Chronological(ws)
    requires closed.OnRight() ==> forall j :: !RunsOver(ws, p, j)
    ensures Sorted(AllPoints(ws, p, closed))
  {
    if ws != [] {
      var rest := ws[1..];
      PointsIncreasing(ws[0], p, closed);
      PointsBounds(ws[0], p, closed);
      assert forall j :: RunsOver(rest, p, j) ==> RunsOver(ws, p, j + 1);
      AllPointsSorted(rest, p, closed);
      var a, b := Points(ws[0], p, closed), AllPoints(rest, p, closed);
      assert AllPoints(ws, p, closed) == a + b;
      if |ws| > 1 {
        AllPointsAbove(rest, p, closed);
        assert !RunsOver(ws, p, 0) || !closed.OnRight();
        SortedConcat(a, b, ws[1].start);
      }
    }
  }

  lemma SortedConcat(a: seq<int>, b: seq<int>, m: int)
    requires Increasing(a) && Sorted(b)
    requires forall i :: 0 <= i < |a| ==> a[i] <= m
    requires forall i :: 0 <= i < |b| ==> m <= b[i]
    ensures Sorted(a + b)
  {}

  /** With both sides kept, separation is also necessary. */
  lemma {:induction false} BothNeedsSeparation(ws: seq<Window>, p: Period)
    requires Chronological(ws) && Increasing(AllPoints(ws, p, Both))
    ensures Separated(ws, p, Both)
  {
    if |ws| >= 2 {
      var rest := ws[1..];
      var a, b := Points(ws[0], p, Both), AllPoints(rest, p, Both);
      assert AllPoints(ws, p, Both) == a + b;
      assert forall i, j :: 0 <= i < j < |b| ==> b[i] == (a + b)[|a| + i] && b[j] == (a + b)[|a| + j];
      BothNeedsSeparation(rest, p);
      TilesChain(ws[0], p);
      TilesChain(rest[0], p);
      assert a[|a| - 1] == Last(ws[0], p);
      assert b == Points(rest[0], p, Both) + AllPoints(rest[1..], p, Both);
      assert b[0] == rest[0].start;
      assert (a + b)[|a| - 1] < (a + b)[|a|];
      forall j | 0 <= j < |ws| - 1
        ensures Clears(ws, p, Both, j)
      {
        assert j > 0 ==> Clears(rest, p, Both, j - 1);
      }
    }
  }
}
