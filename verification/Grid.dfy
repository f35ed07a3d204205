/** What a trading index means: a schedule is a list of (sub)session windows, and
    each window is cut into periods.  Nothing here mentions arrays. */
module Grid {
  import opened Arrays

  /** A trading session, or one half of a session with a break.  `forced` says
      whether the last period stops at the end of the window. */
  datatype Window = Window(start: int, end: int, forced: bool)

  datatype Interval = Interval(left: int, right: int)

  datatype Closed = Left | Right | Both | Neither {
    predicate OnLeft() { this == Left || this == Both }
    predicate OnRight() { this == Right || this == Both }
  }

  /** Windows in time order, none empty, none reaching into the next. */
  ghost predicate Chronological(ws: seq<Window>) {
    && (forall i :: 0 <= i < |ws| ==> ws[i].start < ws[i].end)
    && (forall i, j :: 0 <= i < j < |ws| ==> ws[i].end <= ws[j].start)
  }

  /** The number of periods needed to cover a window. */
  function Periods(w: Window, p: Period): nat {
    if w.start < w.end then CeilDiv(w.end - w.start, p) else 0
  }

  /** Where the last period of a window stops. */
  function Last(w: Window, p: Period): int {
    if w.forced then w.end else w.start + Periods(w, p) * p
  }

  /** The right side of the period of `w` that begins at `left`. */
  function RightOf(w: Window, p: Period, left: int): int {
    if w.forced then Min(left + p, w.end) else left + p
  }

  function Tile(w: Window, p: Period, i: nat): Interval {
    Interval(w.start + i * p, RightOf(w, p, w.start + i * p))
  }

  /** The periods of one window. */
  function Tiles(w: Window, p: Period): seq<Interval> {
    seq(Periods(w, p), (i: nat) => Tile(w, p, i))
  }

  function TilesBy(p: Period): Window -> seq<Interval> {
    w => Tiles(w, p)
  }

  /** The periods of a whole schedule, window by window. */
  function AllTiles(ws: seq<Window>, p: Period): seq<Interval> {
    FlatMap(ws, TilesBy(p))
  }

  function Lefts(ts: seq<Interval>): (r: seq<int>)
    ensures |r| == |ts|
    ensures forall k :: 0 <= k < |ts| ==> r[k] == ts[k].left
  {
    seq(|ts|, k requires 0 <= k < |ts| => ts[k].left)
  }

  function Rights(ts: seq<Interval>): (r: seq<int>)
    ensures |r| == |ts|
    ensures forall k :: 0 <= k < |ts| ==> r[k] == ts[k].right
  {
    seq(|ts|, k requires 0 <= k < |ts| => ts[k].right)
  }

  /** The instants that stand for the periods of one window: the left sides, the
      right sides, all the sides, or only the sides strictly inside. */
  function Points(w: Window, p: Period, closed: Closed): seq<int> {
    var ts := Tiles(w, p);
    match closed
    case Left => Lefts(ts)
    case Right => Rights(ts)
    case Both => if ts == [] then [] else Lefts(ts) + [ts[|ts| - 1].right]
    case Neither => if ts == [] then [] else Lefts(ts)[1..]
  }

  function PointsBy(p: Period, closed: Closed): Window -> seq<int> {
    w => Points(w, p, closed)
  }

  function AllPoints(ws: seq<Window>, p: Period, closed: Closed): seq<int> {
    FlatMap(ws, PointsBy(p, closed))
  }

  // ----- one window -----

  lemma PeriodsBounds(w: Window, p: Period)
    requires w.start < w.end
    ensures 1 <= Periods(w, p)
    ensures w.start + (Periods(w, p) - 1) * p < w.end <= w.start + Periods(w, p) * p
  {}

  lemma TileBounds(w: Window, p: Period, i: nat)
    requires w.start < w.end && i < Periods(w, p)
    ensures w.start <= Tile(w, p, i).left < w.end
    ensures Tile(w, p, i).left < Tile(w, p, i).right <= Last(w, p)
    ensures i + 1 < Periods(w, p) ==> Tile(w, p, i).right == Tile(w, p, i + 1).left
    ensures i + 1 == Periods(w, p) ==> Tile(w, p, i).right == Last(w, p)
  {
    var n := Periods(w, p);
    PeriodsBounds(w, p);
    MulMonotone(0, i, p);
    MulMonotone(i, n - 1, p);
    Distribute(1, i, p);
    Distribute(1, n, p);
    if i + 1 < n {
      MulMonotone(i + 1, n - 1, p);
    }
    MulMonotone(i + 1, n, p);
  }

  /** The tiles of a window start at its start, abut, and stop at `Last`. */
  lemma TilesChain(w: Window, p: Period)
    requires w.start < w.end
    ensures var ts := Tiles(w, p);
      && ts != [] && ts[0].left == w.start && ts[|ts| - 1].right == Last(w, p)
      && (forall i :: 0 <= i < |ts| ==> w.start <= ts[i].left < w.end)
      && (forall i :: 0 <= i < |ts| ==> ts[i].left < ts[i].right <= Last(w, p))
      && (forall i :: 0 <= i < |ts| - 1 ==> ts[i].right == ts[i + 1].left)
    ensures w.end <= Last(w, p)
  {
    var ts := Tiles(w, p);
    PeriodsBounds(w, p);
    forall i | 0 <= i < |ts|
      ensures w.start <= ts[i].left < w.end
      ensures ts[i].left < ts[i].right <= Last(w, p)
      ensures i < |ts| - 1 ==> ts[i].right == ts[i + 1].left
      ensures i == |ts| - 1 ==> ts[i].right == Last(w, p)
    {
      TileBounds(w, p, i);
    }
  }

  lemma TilesIncreasing(w: Window, p: Period)
    requires w.start < w.end
    ensures Increasing(Lefts(Tiles(w, p)))
    ensures Increasing(Rights(Tiles(w, p)))
    ensures forall i, j :: 0 <= i < j < Periods(w, p) ==> Tiles(w, p)[i].right <= Tiles(w, p)[j].left
  {
    var ts := Tiles(w, p);
    forall i, j | 0 <= i < j < |ts|
      ensures ts[i].right <= ts[j].left && ts[i].left < ts[j].left && ts[i].right < ts[j].right
    {
      TileBounds(w, p, i);
      TileBounds(w, p, j);
      MulMonotone(i + 1, j, p);
    }
  }

  ghost predicate OnGrid(w: Window, p: Period, t: int) {
    exists i: nat :: 1 <= i && t == w.start + i * p
  }

  lemma InnerOnGrid(w: Window, p: Period, t: int)
    requires w.start < w.end
    ensures (exists k :: 1 <= k < Periods(w, p) && t == Tiles(w, p)[k].left) <==>
      t < w.end && OnGrid(w, p, t)
  {
    PeriodsBounds(w, p);
    var n := Periods(w, p);
    if k :| 1 <= k < n && t == Tiles(w, p)[k].left {
      MulMonotone(k, n - 1, p);
    }
    if t < w.end && OnGrid(w, p, t) {
      var i: nat :| 1 <= i && t == w.start + i * p;
      if n <= i {
        MulMonotone(n, i, p);
      }
      assert t == Tiles(w, p)[i].left;
    }
  }

  /** Exactly which instants a window contributes. */
  lemma PointsExact(w: Window, p: Period, closed: Closed, t: int)
    requires w.start < w.end
    ensures t in Points(w, p, closed) <==>
      || (closed.OnLeft() && t == w.start)
      || (t < w.end && OnGrid(w, p, t))
      || (closed.OnRight() && t == Last(w, p))
  {
    TilesChain(w, p);
    InnerPoints(Tiles(w, p), t);
    InnerOnGrid(w, p, t);
  }

  lemma InnerPoints(ts: seq<Interval>, t: int)
    requires ts != []
    requires forall i :: 0 <= i < |ts| - 1 ==> ts[i].right == ts[i + 1].left
    ensures t in Lefts(ts) <==> t == ts[0].left || exists k :: 1 <= k < |ts| && t == ts[k].left
    ensures t in Lefts(ts)[1..] <==> exists k :: 1 <= k < |ts| && t == ts[k].left
    ensures t in Rights(ts) <==> t == ts[|ts| - 1].right || exists k :: 1 <= k < |ts| && t == ts[k].left
  {
    if t in Lefts(ts)[1..] {
      var k :| 0 <= k < |ts| - 1 && Lefts(ts)[1..][k] == t;
      assert t == ts[k + 1].left;
    }
    if k :| 1 <= k < |ts| && t == ts[k].left {
      assert Lefts(ts)[1..][k - 1] == t;
      assert Rights(ts)[k - 1] == t;
      assert Lefts(ts)[k] == t;
    }
    if t in Rights(ts) {
      var k :| 0 <= k < |ts| && Rights(ts)[k] == t;
      assert k < |ts| - 1 ==> t == ts[k + 1].left;
    }
    assert Lefts(ts)[0] == ts[0].left && Rights(ts)[|ts| - 1] == ts[|ts| - 1].right;
  }
}
