/** `verify_non_overlapping`: what its array checks say about the windows. */
module Overlap {
  import opened Arrays
  import opened Grid
  import opened Coverage
  import opened Columns

  /** One comparison of `_check`: a grid from `start` to at least `end` against
      the following start. */
  predicate Over(start: int, end: int, next: int, p: Period, closed: Closed) {
    var right := start + CeilDiv(end - start, p) * p;
    (closed == Right && right > next) || (closed == Both && right >= next)
  }

  /** `_check` raises. */
  predicate AnyOver(starts: seq<int>, ends: seq<int>, nexts: seq<int>, p: Period, closed: Closed)
    requires |starts| == |ends| == |nexts|
  {
    exists i :: 0 <= i < |starts| && Over(starts[i], ends[i], nexts[i], p, closed)
  }

  /** A selected entry that raises. */
  ghost predicate Masked(a: seq<int>, b: seq<int>, c: seq<int>, mask: seq<bool>, p: Period, closed: Closed, i: int)
    requires |a| == |b| == |c| == |mask|
  {
    0 <= i < |a| && mask[i] && Over(a[i], b[i], c[i], p, closed)
  }

  lemma {:induction false} AnyOverSelect(a: seq<int>, b: seq<int>, c: seq<int>, mask: seq<bool>, p: Period,
    closed: Closed)
    requires |a| == |b| == |c| == |mask|
    ensures |Select(a, mask)| == |Select(b, mask)| == |Select(c, mask)|
    ensures AnyOver(Select(a, mask), Select(b, mask), Select(c, mask), p, closed) <==>
      exists i :: Masked(a, b, c, mask, p, closed, i)
  {
    if a == [] {
      assert forall i :: !Masked(a, b, c, mask, p, closed, i);
    } else {
      AnyOverSelect(a[1..], b[1..], c[1..], mask[1..], p, closed);
      MaskedCons(a, b, c, mask, p, closed);
      var x, y, z := Select(a[1..], mask[1..]), Select(b[1..], mask[1..]), Select(c[1..], mask[1..]);
      if mask[0] {
        AnyOverCons(a[0], x, b[0], y, c[0], z, p, closed);
        SelectHead(a, mask);
        SelectHead(b, mask);
        SelectHead(c, mask);
      } else {
        assert Select(a, mask) == x && Select(b, mask) == y && Select(c, mask) == z;
      }
    }
  }

  lemma SelectHead(a: seq<int>, mask: seq<bool>)
    requires |a| == |mask| && a != [] && mask[0]
    ensures Select(a, mask) == [a[0]] + Select(a[1..], mask[1..])
  {}

  lemma AnyOverCons(a: int, x: seq<int>, b: int, y: seq<int>, c: int, z: seq<int>, p: Period, closed: Closed)
    requires |x| == |y| == |z|
    ensures AnyOver([a] + x, [b] + y, [c] + z, p, closed) <==> Over(a, b, c, p, closed) || AnyOver(x, y, z, p, closed)
  {
    var xs, ys, zs := [a] + x, [b] + y, [c] + z;
    assert Over(xs[0], ys[0], zs[0], p, closed) == Over(a, b, c, p, closed);
    forall i | 0 <= i < |x|
      ensures Over(xs[i + 1], ys[i + 1], zs[i + 1], p, closed) == Over(x[i], y[i], z[i], p, closed)
    {}
    if i :| 0 <= i < |xs| && Over(xs[i], ys[i], zs[i], p, closed) {
      assert i > 0 ==> Over(x[i - 1], y[i - 1], z[i - 1], p, closed);
    }
  }

  lemma MaskedCons(a: seq<int>, b: seq<int>, c: seq<int>, mask: seq<bool>, p: Period, closed: Closed)
    requires |a| == |b| == |c| == |mask| && a != []
    ensures (exists i :: Masked(a, b, c, mask, p, closed, i)) <==>
      || (mask[0] && Over(a[0], b[0], c[0], p, closed))
      || (exists i :: Masked(a[1..], b[1..], c[1..], mask[1..], p, closed, i))
  {
    if i :| Masked(a, b, c, mask, p, closed, i) {
      assert i > 0 ==> Masked(a[1..], b[1..], c[1..], mask[1..], p, closed, i - 1);
    }
    if i :| Masked(a[1..], b[1..], c[1..], mask[1..], p, closed, i) {
      assert Masked(a, b, c, mask, p, closed, i + 1);
    }
    assert Masked(a, b, c, mask, p, closed, 0) <==> mask[0] && Over(a[0], b[0], c[0], p, closed);
  }

  // ----- by session -----

  /** The morning of session `i` runs into its afternoon. */
  predicate MorningOver(c: Cols, p: Period, closed: Closed, i: int)
    requires c.Aligned()
  {
    0 <= i < |c.opens| && c.mask[i] && !c.forceBreakClose
      && Over(c.opens[i], c.breakStarts[i], c.breakEnds[i], p, closed)
  }

  /** Session `i`, with its break ignored, runs into the next session. */
  predicate WholeOver(c: Cols, p: Period, closed: Closed, i: int)
    requires c.Aligned()
  {
    0 <= i < |c.opens| - 1 && !c.forceClose && Over(c.opens[i], c.closes[i], c.opens[i + 1], p, closed)
  }

  /** The afternoon of session `i` runs into the next session. */
  predicate AfternoonOver(c: Cols, p: Period, closed: Closed, i: int)
    requires c.Aligned()
  {
    0 <= i < |c.opens| - 1 && c.mask[i] && !c.forceClose && Over(c.breakEnds[i], c.closes[i], c.opens[i + 1], p, closed)
  }

  /** `verify_non_overlapping` raises. */
  ghost predicate Refuses(c: Cols, p: Period, closed: Closed)
    requires c.Aligned()
  {
    || (exists i :: MorningOver(c, p, closed, i))
    || (exists i :: WholeOver(c, p, closed, i))
    || (exists i :: AfternoonOver(c, p, closed, i))
  }

  // The three calls of `_check`, session by session.

  lemma MorningCheck(c: Cols, p: Period, closed: Closed)
    requires c.Aligned() && !c.forceBreakClose
    ensures |Select(c.opens, c.mask)| == |Select(c.breakStarts, c.mask)| == |Select(c.breakEnds, c.mask)|
    ensures AnyOver(Select(c.opens, c.mask), Select(c.breakStarts, c.mask), Select(c.breakEnds, c.mask), p, closed)
      <==> exists i :: MorningOver(c, p, closed, i)
  {
    AnyOverSelect(c.opens, c.breakStarts, c.breakEnds, c.mask, p, closed);
    assert forall i ::
      Masked(c.opens, c.breakStarts, c.breakEnds, c.mask, p, closed, i) == MorningOver(c, p, closed, i);
  }

  lemma WholeCheck(c: Cols, p: Period, closed: Closed)
    requires c.Aligned() && c.opens != [] && !c.forceClose
    ensures var n := |c.opens| - 1;
      AnyOver(c.opens[..n], c.closes[..n], c.opens[1..], p, closed) <==> exists i :: WholeOver(c, p, closed, i)
  {
    var n := |c.opens| - 1;
    var starts, ends, nexts := c.opens[..n], c.closes[..n], c.opens[1..];
    if i :| 0 <= i < n && Over(starts[i], ends[i], nexts[i], p, closed) {
      assert WholeOver(c, p, closed, i);
    }
    if i :| WholeOver(c, p, closed, i) {
      assert Over(starts[i], ends[i], nexts[i], p, closed);
    }
  }

  lemma AfternoonCheck(c: Cols, p: Period, closed: Closed)
    requires c.Aligned() && c.opens != [] && !c.forceClose
    ensures var n := |c.opens| - 1;
      && |Select(c.breakEnds[..n], c.mask[..n])| == |Select(c.closes[..n], c.mask[..n])|
        == |Select(c.opens[1..], c.mask[..n])|
      && (AnyOver(Select(c.breakEnds[..n], c.mask[..n]), Select(c.closes[..n], c.mask[..n]),
        Select(c.opens[1..], c.mask[..n]), p, closed)
        <==> exists i :: AfternoonOver(c, p, closed, i))
  {
    var n := |c.opens| - 1;
    var starts, ends, nexts, mask := c.breakEnds[..n], c.closes[..n], c.opens[1..], c.mask[..n];
    AnyOverSelect(starts, ends, nexts, mask, p, closed);
    assert forall i :: Masked(starts, ends, nexts, mask, p, closed, i) == AfternoonOver(c, p, closed, i);
  }

  /** Some unforced window runs into the next one. */
  ghost predicate Collides(ws: seq<Window>, p: Period, closed: Closed) {
    exists j :: CollidesAt(ws, p, closed, j)
  }

  ghost predicate CollidesAt(ws: seq<Window>, p: Period, closed: Closed, j: int) {
    0 <= j < |ws| - 1 && !ws[j].forced && Over(ws[j].start, ws[j].end, ws[j + 1].start, p, closed)
  }

  /** Session `i` itself is the cause of a collision. */
  ghost predicate SessionCollides(c: Cols, p: Period, closed: Closed, i: int)
    requires c.Aligned()
  {
    || MorningOver(c, p, closed, i)
    || (0 <= i < |c.opens| - 1 && !c.mask[i] && WholeOver(c, p, closed, i))
    || AfternoonOver(c, p, closed, i)
  }

  lemma CollidesConcat(a: seq<Window>, b: seq<Window>, p: Period, closed: Closed)
    requires a != []
    ensures Collides(a + b, p, closed) <==>
      || Collides(a, p, closed)
      || Collides(b, p, closed)
      || (b != [] && !a[|a| - 1].forced && Over(a[|a| - 1].start, a[|a| - 1].end, b[0].start, p, closed))
  {
    var c := a + b;
    if j :| CollidesAt(c, p, closed, j) {
      assert j < |a| - 1 ==> CollidesAt(a, p, closed, j);
      assert |a| <= j ==> CollidesAt(b, p, closed, j - |a|);
    }
    if j :| CollidesAt(a, p, closed, j) {
      assert CollidesAt(c, p, closed, j);
    }
    if j :| CollidesAt(b, p, closed, j) {
      assert CollidesAt(c, p, closed, j + |a|);
    }
    if b != [] && !a[|a| - 1].forced && Over(a[|a| - 1].start, a[|a| - 1].end, b[0].start, p, closed) {
      assert CollidesAt(c, p, closed, |a| - 1);
    }
  }

  lemma HeadCollides(c: Cols, p: Period, closed: Closed)
    requires c.Aligned() && c.opens != []
    ensures Collides(c.Head(), p, closed) <==> MorningOver(c, p, closed, 0)
  {
    assert CollidesAt(c.Head(), p, closed, 0) <==> MorningOver(c, p, closed, 0);
    assert forall j :: CollidesAt(c.Head(), p, closed, j) ==> j == 0;
  }

  lemma NextStart(c: Cols)
    requires c.Aligned() && |c.opens| > 1
    ensures c.Tail().Windows() != [] && c.Tail().Windows()[0].start == c.opens[1]
  {}

  /** Windows collide exactly when some session is the cause. */
  lemma {:induction false} CollidesBySession(c: Cols, p: Period, closed: Closed)
    requires c.Aligned()
    ensures Collides(c.Windows(), p, closed) <==> exists i :: SessionCollides(c, p, closed, i)
    decreases |c.opens|
  {
    if c.opens != [] {
      var t := c.Tail();
      CollidesBySession(t, p, closed);
      CollidesConcat(c.Head(), t.Windows(), p, closed);
      HeadCollides(c, p, closed);
      if |c.opens| > 1 {
        NextStart(c);
      }
      assert SessionCollides(c, p, closed, 0) <==>
        Collides(c.Head(), p, closed) ||
        (t.Windows() != [] && var w := c.Head()[|c.Head()| - 1];
          !w.forced && Over(w.start, w.end, t.Windows()[0].start, p, closed));
      SessionsStep(c, p, closed);
    } else {
      assert c.Windows() == [];
      assert forall i :: !SessionCollides(c, p, closed, i);
      assert forall j :: !CollidesAt([], p, closed, j);
    }
  }

  lemma SessionsStep(c: Cols, p: Period, closed: Closed)
    requires c.Aligned() && c.opens != []
    ensures (exists i :: SessionCollides(c, p, closed, i)) <==>
      SessionCollides(c, p, closed, 0) || (exists i :: SessionCollides(c.Tail(), p, closed, i))
  {
    if i :| SessionCollides(c, p, closed, i) {
      assert i > 0 ==> SessionCollides(c.Tail(), p, closed, i - 1);
    }
    if i :| SessionCollides(c.Tail(), p, closed, i) {
      assert SessionCollides(c, p, closed, i + 1);
    }
  }

  /** The error is raised exactly when windows collide, or when a session with a
      break would collide if its break were ignored. */
  lemma RefusesExactly(c: Cols, p: Period, closed: Closed)
    requires c.Aligned()
    ensures Refuses(c, p, closed) <==>
      Collides(c.Windows(), p, closed) || exists i :: WholeOver(c, p, closed, i) && c.mask[i]
  {
    CollidesBySession(c, p, closed);
    if i :| MorningOver(c, p, closed, i) {
      assert SessionCollides(c, p, closed, i);
    }
    if i :| AfternoonOver(c, p, closed, i) {
      assert SessionCollides(c, p, closed, i);
    }
    if i :| WholeOver(c, p, closed, i) {
      assert !c.mask[i] ==> SessionCollides(c, p, closed, i);
    }
    if i :| SessionCollides(c, p, closed, i) {
      assert MorningOver(c, p, closed, i) || WholeOver(c, p, closed, i) || AfternoonOver(c, p, closed, i);
    }
  }

  /** A window that is not forced collides exactly when it does not clear the next. */
  lemma ClearsUnlessForced(ws: seq<Window>, p: Period, closed: Closed, j: int)
    requires Chronological(ws) && 0 <= j < |ws| - 1
    ensures !ws[j].forced ==> (Clears(ws, p, closed, j) <==> !CollidesAt(ws, p, closed, j))
    ensures ws[j].forced && closed != Both ==> Clears(ws, p, closed, j)
    ensures ws[j].forced && closed == Both ==> (Clears(ws, p, closed, j) <==> ws[j].end < ws[j + 1].start)
  {
    PeriodsBounds(ws[j], p);
  }

  /** A forced window ends at the very instant the next one starts. */
  ghost predicate ForcedAbuts(ws: seq<Window>) {
    exists j :: 0 <= j < |ws| - 1 && ws[j].forced && ws[j].end == ws[j + 1].start
  }

  lemma StopsInTime(ws: seq<Window>, p: Period, closed: Closed, j: int)
    requires Chronological(ws) && closed.OnRight()
    requires !CollidesAt(ws, p, closed, j)
    ensures !RunsOver(ws, p, j)
  {
    if 0 <= j < |ws| - 1 {
      PeriodsBounds(ws[j], p);
    }
  }

  /** Once the check has passed, the instants are in order. */
  lemma PassedMeansSorted(c: Cols, p: Period, closed: Closed)
    requires c.Aligned() && Chronological(c.Windows())
    requires !Refuses(c, p, closed)
    ensures Sorted(AllPoints(c.Windows(), p, closed))
  {
    var ws := c.Windows();
    RefusesExactly(c, p, closed);
    if closed.OnRight() {
      forall j
        ensures !RunsOver(ws, p, j)
      {
        assert !CollidesAt(ws, p, closed, j);
        StopsInTime(ws, p, closed, j);
      }
    }
    AllPointsSorted(ws, p, closed);
  }

  /** Once the check has passed, the instants are strictly increasing, unless both
      sides are kept and a forced window abuts the next: then one is repeated. */
  lemma PassedMeansIncreasing(c: Cols, p: Period, closed: Closed)
    requires c.Aligned() && Chronological(c.Windows())
    requires !Refuses(c, p, closed)
    ensures Increasing(AllPoints(c.Windows(), p, closed)) <==> !(closed == Both && ForcedAbuts(c.Windows()))
  {
    var ws := c.Windows();
    RefusesExactly(c, p, closed);
    if closed == Both && Increasing(AllPoints(ws, p, closed)) {
      BothNeedsSeparation(ws, p);
      forall j | 0 <= j < |ws| - 1 && ws[j].forced
        ensures ws[j].end != ws[j + 1].start
      {
        assert Clears(ws, p, closed, j);
        ClearsUnlessForced(ws, p, closed, j);
      }
    }
    if !(closed == Both && ForcedAbuts(ws)) {
      forall j | 0 <= j < |ws| - 1
        ensures Clears(ws, p, closed, j)
      {
        ClearsUnlessForced(ws, p, closed, j);
        assert !CollidesAt(ws, p, closed, j);
      }
      AllPointsIncreasing(ws, p, closed);
    }
  }

  /** The exception happens: two days of a market that never closes, in periods of four
      hours, the last period of each forced to end at the close.  The check passes,
      but midnight is the close of one day and the open of the next. */
  lemma MidnightTwice()
    ensures var c := Cols([0, 24], [0, 0], [0, 0], [24, 48], [false, false], false, true);
      && c.Aligned() && Chronological(c.Windows())
      && !Refuses(c, 4, Both) && !Increasing(AllPoints(c.Windows(), 4, Both))
  {
    var c := Cols([0, 24], [0, 0], [0, 0], [24, 48], [false, false], false, true);
    var ws := [Window(0, 24, true), Window(24, 48, true)];
    assert c.Tail().Tail().Windows() == [];
    assert c.Tail().Windows() == [ws[1]] + [];
    assert c.Windows() == [ws[0]] + [ws[1]];
    assert c.Windows() == ws;
    assert forall i :: !MorningOver(c, 4, Both, i) && !WholeOver(c, 4, Both, i) && !AfternoonOver(c, 4, Both, i);
    assert ForcedAbuts(ws) by {
      assert ws[0].forced && ws[0].end == ws[1].start;
    }
    PassedMeansIncreasing(c, 4, Both);
  }
}
