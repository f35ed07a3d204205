/** When `verify_non_overlapping` raises although the index would be in order. */
module FalseAlarms {
  import opened Arrays
  import opened Grid
  import opened Coverage
  import opened Columns
  import opened Overlap

  /** Every entry exceeds those before it by at least `d`: in order for 0, strictly
      increasing for 1. */
  ghost predicate StepsBy(xs: seq<int>, d: int) {
    forall i, j :: 0 <= i < j < |xs| ==> xs[i] + d <= xs[j]
  }

  lemma StepsMean(xs: seq<int>)
    ensures StepsBy(xs, 0) <==> Sorted(xs)
    ensures StepsBy(xs, 1) <==> Increasing(xs)
  {}

  /** The first instant of a window, for an index closed on the right. */
  function FirstPoint(w: Window, p: Period, closed: Closed): int {
    if closed.OnLeft() then w.start else RightOf(w, p, w.start)
  }

  /** The last instant of window `j` comes in time before the first of the next. */
  predicate Follows(ws: seq<Window>, p: Period, closed: Closed, d: int, j: int) {
    0 <= j < |ws| - 1 ==> Last(ws[j], p) + d <= FirstPoint(ws[j + 1], p, closed)
  }

  lemma PointsEnds(w: Window, p: Period, closed: Closed)
    requires w.start < w.end && closed.OnRight()
    ensures var xs := Points(w, p, closed);
      Increasing(xs) && xs != [] && xs[0] == FirstPoint(w, p, closed) && xs[|xs| - 1] == Last(w, p)
  {
    TilesChain(w, p);
    PointsIncreasing(w, p, closed);
    TileBounds(w, p, 0);
  }

  lemma StepsConcat(a: seq<int>, b: seq<int>, d: int)
    requires Increasing(a) && a != [] && b != [] && 0 <= d <= 1
    ensures StepsBy(a + b, d) <==> StepsBy(b, d) && a[|a| - 1] + d <= b[0]
  {
    var ab := a + b;
    if StepsBy(ab, d) {
      assert ab[|a| - 1] == a[|a| - 1] && ab[|a|] == b[0];
      forall i, j | 0 <= i < j < |b|
        ensures b[i] + d <= b[j]
      {
        assert ab[|a| + i] == b[i] && ab[|a| + j] == b[j];
      }
    }
    if StepsBy(b, d) && a[|a| - 1] + d <= b[0] {
      assert forall i :: 0 <= i < |a| ==> a[i] <= a[|a| - 1];
      assert forall j :: 0 <= j < |b| ==> b[0] <= b[j];
    }
  }

  lemma {:induction false} StepsExactly(ws: seq<Window>, p: Period, closed: Closed, d: int)
    requires Chronological(ws) && closed.OnRight() && 0 <= d <= 1
    ensures StepsBy(AllPoints(ws, p, closed), d) <==> forall j :: Follows(ws, p, closed, d, j)
    ensures ws != [] ==> AllPoints(ws, p, closed) != [] && AllPoints(ws, p, closed)[0] == FirstPoint(ws[0], p, closed)
  {
    if ws != [] {
      var a, b := Points(ws[0], p, closed), AllPoints(ws[1..], p, closed);
      PointsEnds(ws[0], p, closed);
      StepsExactly(ws[1..], p, closed, d);
      assert AllPoints(ws, p, closed) == a + b;
      FollowsStep(ws, p, closed, d);
      if |ws| > 1 {
        StepsConcat(a, b, d);
      }
    }
  }

  lemma FollowsStep(ws: seq<Window>, p: Period, closed: Closed, d: int)
    requires ws != []
    ensures (forall j :: Follows(ws, p, closed, d, j)) <==>
      Follows(ws, p, closed, d, 0) && forall j :: Follows(ws[1..], p, closed, d, j)
  {
    if forall j :: Follows(ws, p, closed, d, j) {
      forall j ensures Follows(ws[1..], p, closed, d, j) {
        assert Follows(ws, p, closed, d, j + 1);
      }
    }
    if Follows(ws, p, closed, d, 0) && forall j :: Follows(ws[1..], p, closed, d, j) {
      forall j ensures Follows(ws, p, closed, d, j) {
        assert Follows(ws[1..], p, closed, d, j - 1);
      }
    }
  }

  /** The error is raised in vain, the instants being in order (`d` is 0) or strictly
      increasing (`d` is 1), exactly when an unforced window reaches the start of the
      next one, or a session with a break would if its break were ignored, and yet the
      last instant of every window comes in time before the first of the next. */
  lemma InVainExactly(c: Cols, p: Period, closed: Closed, d: int)
    requires c.Aligned() && Chronological(c.Windows()) && 0 <= d <= 1
    ensures Refuses(c, p, closed) && StepsBy(AllPoints(c.Windows(), p, closed), d) <==>
      && closed.OnRight()
      && (Collides(c.Windows(), p, closed) || exists i :: WholeOver(c, p, closed, i) && c.mask[i])
      && forall j :: Follows(c.Windows(), p, closed, d, j)
  {
    RefusesExactly(c, p, closed);
    if closed.OnRight() {
      StepsExactly(c.Windows(), p, closed, d);
    }
  }

  lemma SeparatedMeansNoCollision(ws: seq<Window>, p: Period)
    requires Separated(ws, p, Both)
    ensures !Collides(ws, p, Both)
  {
    forall j ensures !CollidesAt(ws, p, Both, j) {
      assert 0 <= j < |ws| - 1 ==> Clears(ws, p, Both, j);
    }
  }

  lemma BothIncreasingExactly(ws: seq<Window>, p: Period)
    requires Chronological(ws)
    ensures Increasing(AllPoints(ws, p, Both)) <==> Separated(ws, p, Both)
  {
    if Increasing(AllPoints(ws, p, Both)) {
      BothNeedsSeparation(ws, p);
    }
    if Separated(ws, p, Both) {
      AllPointsIncreasing(ws, p, Both);
    }
  }

  /** With both sides kept and strictly increasing instants, ignored breaks are the only
      reason. */
  lemma InVainForBoth(c: Cols, p: Period)
    requires c.Aligned() && Chronological(c.Windows())
    ensures Refuses(c, p, Both) && Increasing(AllPoints(c.Windows(), p, Both)) <==>
      (exists i :: WholeOver(c, p, Both, i) && c.mask[i]) && Separated(c.Windows(), p, Both)
  {
    RefusesExactly(c, p, Both);
    BothIncreasingExactly(c.Windows(), p);
    if Separated(c.Windows(), p, Both) {
      SeparatedMeansNoCollision(c.Windows(), p);
    }
  }

  /** A session from 0:00 to 1:00 and from 3:00 to 6:00, the next from 7:00 to 9:00;
      mornings are forced. */
  const WITH_BREAK := Cols([0, 7], [1, 0], [3, 0], [6, 9], [true, false], true, false)

  /** Two sessions without breaks, the second right after the first. */
  const ABUTTING := Cols([0, 9], [0, 0], [0, 0], [9, 18], [false, false], true, false)

  /** In periods of four hours no window of the first schedule reaches the next and the
      instants strictly increase, but the check, taking 0:00 to 6:00 as one, raises. */
  lemma RaisesWithoutCollision()
    ensures WITH_BREAK.Aligned() && Chronological(WITH_BREAK.Windows())
    ensures Refuses(WITH_BREAK, 4, Right)
    ensures !Collides(WITH_BREAK.Windows(), 4, Right)
    ensures Increasing(AllPoints(WITH_BREAK.Windows(), 4, Right))
  {
    var c := WITH_BREAK;
    var ws := [Window(0, 1, true), Window(3, 6, false), Window(7, 9, false)];
    assert c.Tail().Tail().Windows() == [];
    assert c.Tail().Windows() == [ws[2]] + [];
    assert c.Windows() == ws;
    CeilUnique(6, 2, 4);
    assert WholeOver(c, 4, Right, 0);
    CeilUnique(3, 1, 4);
    AllPointsIncreasing(ws, 4, Right);
  }

  /** In the second schedule the first session does reach past 9:00, to 12:00, but the
      next instant is 13:00: 4, 8, 12, 13, 17, 21 are in order, and the check raises. */
  lemma RaisesOnHarmlessCollision()
    ensures ABUTTING.Aligned() && Chronological(ABUTTING.Windows()) && forall i :: 0 <= i < 2 ==> !ABUTTING.mask[i]
    ensures Refuses(ABUTTING, 4, Right)
    ensures Collides(ABUTTING.Windows(), 4, Right)
    ensures Increasing(AllPoints(ABUTTING.Windows(), 4, Right))
  {
    var c := ABUTTING;
    var ws := [Window(0, 9, false), Window(9, 18, false)];
    assert c.Tail().Tail().Windows() == [];
    assert c.Tail().Windows() == [ws[1]] + [];
    assert c.Windows() == ws;
    CeilUnique(9, 3, 4);
    assert CollidesAt(ws, 4, Right, 0);
    InVainExactly(c, 4, Right, 1);
    StepsMean(AllPoints(ws, 4, Right));
  }
}
