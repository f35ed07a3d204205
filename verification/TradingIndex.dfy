/** The class `_TradingIndex`: its array methods, proved against the windows of
    the schedule they are given. */
module TradingIndex {
  import opened Arrays
  import opened Grid
  import opened Coverage
  import opened Columns
  import opened VectorGrid
  import opened Overlap

  datatype IndexError = IndicesOverlapError | IntervalsOverlapError

  datatype Flags = Flags(closed: Closed, forceClose: bool, forceBreakClose: bool)

  /** The instants kept by `curtail_for_times`, given the sides of each entry. */
  function Kept(lefts: seq<int>, rights: seq<int>, start: Option<int>, end: Option<int>): (r: seq<bool>)
    requires |lefts| == |rights|
    ensures |r| == |lefts|
    ensures forall i :: 0 <= i < |r| ==>
      (r[i] <==> (start.Some? ==> lefts[i] >= start.value) && (end.Some? ==> rights[i] <= end.value))
  {
    seq(|lefts|, i requires 0 <= i < |lefts| =>
      (start.Some? ==> lefts[i] >= start.value) && (end.Some? ==> rights[i] <= end.value))
  }

  function CurtailInstants(xs: seq<int>, start: Option<int>, end: Option<int>): seq<int> {
    Select(xs, Kept(xs, xs, start, end))
  }

  function CurtailIntervals(ts: seq<Interval>, start: Option<int>, end: Option<int>): seq<Interval> {
    Select(ts, Kept(Lefts(ts), Rights(ts), start, end))
  }

  /** Selecting a stretch of positions is slicing. */
  lemma {:induction false} SelectStretch<T>(xs: seq<T>, mask: seq<bool>, lo: nat, hi: nat)
    requires |xs| == |mask| && lo <= hi <= |xs|
    requires forall i :: 0 <= i < |xs| ==> (mask[i] <==> lo <= i < hi)
    ensures Select(xs, mask) == xs[lo..hi]
  {
    if xs != [] {
      var lo', hi' := if lo == 0 then 0 else lo - 1, if hi == 0 then 0 else hi - 1;
      SelectStretch(xs[1..], mask[1..], lo', hi');
      if lo == 0 && hi > 0 {
        assert mask[0];
        assert xs[lo..hi] == [xs[0]] + xs[1..][lo'..hi'];
      } else {
        assert !mask[0];
        assert xs[lo..hi] == xs[1..][lo'..hi'];
      }
    }
  }

  /** Curtailing for times takes a stretch of the intervals: none is dropped from
      the middle, and each one left out starts too early or stops too late. */
  lemma CurtailedIsSlice(ts: seq<Interval>, start: Option<int>, end: Option<int>) returns (lo: nat, hi: nat)
    requires Disjoint(ts)
    ensures lo <= hi <= |ts| && CurtailIntervals(ts, start, end) == ts[lo..hi]
    ensures forall i :: 0 <= i < |ts| ==> (lo <= i < hi <==>
      (start.Some? ==> ts[i].left >= start.value) && (end.Some? ==> ts[i].right <= end.value))
  {
    lo := if start.Some? then SearchLeft(Lefts(ts), start.value) else 0;
    hi := if end.Some? then SearchRight(Rights(ts), end.value) else |ts|;
    assert start.Some? ==> forall i :: lo <= i < |ts| ==> Lefts(ts)[lo] <= Lefts(ts)[i];
    assert end.Some? ==> forall i :: hi <= i < |ts| ==> Rights(ts)[hi] <= Rights(ts)[i];
    if hi < lo {
      hi := lo;
    }
    SelectStretch(ts, Kept(Lefts(ts), Rights(ts), start, end), lo, hi);
  }

  class TradingIndex {
    const interval: Period
    const opens: seq<int>
    const breakStarts: seq<int>
    const breakEnds: seq<int>
    const closes: seq<int>
    const mask: seq<bool>
    const hasBreak: bool
    const curtailOverlaps: bool
    const start: Option<int>
    const end: Option<int>
    const defaults: Flags
    var closed: Closed
    var forceClose: bool
    var forceBreakClose: bool

    /** The arrays as windows, under given force flags. */
    ghost function Columns(forceBreakClose: bool, forceClose: bool): Cols {
      Cols(opens, breakStarts, breakEnds, closes, mask, forceBreakClose, forceClose)
    }

    /** The windows under the flags the object was made with. */
    ghost function Schedule(): seq<Window>
      requires Columns(false, false).Aligned()
    {
      Columns(defaults.forceBreakClose, defaults.forceClose).Windows()
    }

    ghost predicate Valid() {
      && Columns(false, false).Aligned()
      && (hasBreak <==> exists i :: 0 <= i < |mask| && mask[i])
      && Chronological(Columns(false, false).Windows())
    }

    ghost predicate AtDefaults()
      reads this
    {
      closed == defaults.closed && forceClose == defaults.forceClose && forceBreakClose == defaults.forceBreakClose
    }

    /** The arrays are the slices of the calendar's arrays for the sessions asked
        for, opens and break ends already aligned. */
    constructor (
      opens: seq<int>, breakStarts: seq<int>, breakEnds: seq<int>, closes: seq<int>,
      interval: Period, closed: Closed, forceClose: bool, forceBreakClose: bool,
      curtailOverlaps: bool, ignoreBreaks: bool, start: Option<int>, end: Option<int>)
      requires |opens| == |breakStarts| == |breakEnds| == |closes|
      requires Chronological(
        Cols(opens, breakStarts, breakEnds, closes, BreakMask(breakStarts, ignoreBreaks), false, false).Windows())
      ensures Valid() && AtDefaults()
      ensures this.opens == opens && this.breakStarts == breakStarts
      ensures this.breakEnds == breakEnds && this.closes == closes
      ensures this.interval == interval && this.curtailOverlaps == curtailOverlaps
      ensures this.start == start && this.end == end
      ensures mask == BreakMask(breakStarts, ignoreBreaks)
      ensures defaults == Flags(closed, forceClose, !ignoreBreaks && forceBreakClose)
    {
      this.closed := closed;
      this.forceBreakClose := if ignoreBreaks then false else forceBreakClose;
      this.forceClose := forceClose;
      this.curtailOverlaps := curtailOverlaps;
      this.start, this.end := start, end;
      this.interval := interval;
      this.opens, this.closes := opens, closes;
      this.breakStarts, this.breakEnds := breakStarts, breakEnds;
      var mask := BreakMask(breakStarts, ignoreBreaks);
      this.mask := mask;
      this.hasBreak := exists i :: 0 <= i < |mask| && mask[i];
      this.defaults := Flags(closed, forceClose, if ignoreBreaks then false else forceBreakClose);
    }

    /** `_check`: does any grid reach the start that follows it? */
    method Check(starts: seq<int>, ends: seq<int>, nexts: seq<int>) returns (raises: bool)
      requires |starts| == |ends| == |nexts|
      ensures raises <==> AnyOver(starts, ends, nexts, interval, closed)
    {
      var numIntervals := CeilDivs(starts, ends, interval);
      var right := seq(|starts|, i requires 0 <= i < |starts| => starts[i] + numIntervals[i] * interval);
      if closed == Right && exists i :: 0 <= i < |starts| && right[i] > nexts[i] {
        ghost var i :| 0 <= i < |starts| && right[i] > nexts[i];
        assert Over(starts[i], ends[i], nexts[i], interval, closed);
        return true;
      }
      if closed == Both && exists i :: 0 <= i < |starts| && right[i] >= nexts[i] {
        ghost var i :| 0 <= i < |starts| && right[i] >= nexts[i];
        assert Over(starts[i], ends[i], nexts[i], interval, closed);
        return true;
      }
      assert forall i :: 0 <= i < |starts| ==>
        right[i] == starts[i] + CeilDiv(ends[i] - starts[i], interval) * interval;
      return false;
    }

    /** `verify_non_overlapping`; the result says whether the error is raised. */
    method VerifyNonOverlapping() returns (raises: bool)
      requires Valid()
      ensures raises <==> Refuses(Columns(forceBreakClose, forceClose), interval, closed)
    {
      ghost var c := Columns(forceBreakClose, forceClose);
      if !closed.OnRight() {
        return false;
      }
      if hasBreak && !forceBreakClose {
        MorningCheck(c, interval, closed);
        raises := Check(Select(opens, mask), Select(breakStarts, mask), Select(breakEnds, mask));
        if raises {
          return;
        }
      }
      raises := false;
      assert forall i :: !MorningOver(c, interval, closed, i);
      if !forceClose && opens != [] {
        var n := |opens| - 1;
        var opens', closes', nextOpens := opens[..n], closes[..n], opens[1..];
        WholeCheck(c, interval, closed);
        raises := Check(opens', closes', nextOpens);
        if raises {
          return;
        }
        if hasBreak {
          var mask' := mask[..n];
          AfternoonCheck(c, interval, closed);
          raises := Check(Select(breakEnds[..n], mask'), Select(closes', mask'), Select(nextOpens, mask'));
        }
      }
    }

    /** `_create_index_for_sessions`: the instants of every window, in order, even
        though one frequency test is made for all the sessions together. */
    method CreateIndexForSessions(starts: seq<int>, ends: seq<int>, forceClose: bool) returns (index: seq<int>)
      requires |starts| == |ends|
      requires Chronological(Zip(starts, ends, forceClose))
      ensures index == AllPoints(Zip(starts, ends, forceClose), interval, closed)
    {
      if |starts| == 0 {
        return starts;
      }
      ghost var ws := Zip(starts, ends, forceClose);
      var numIndices := CeilDivs(starts, ends, interval);
      var onFreq := true;
      if forceClose {
        if closed.OnRight() {
          onFreq := forall i :: 0 <= i < |starts| ==> numIndices[i] * interval == ends[i] - starts[i];
          assert onFreq ==> forall i :: 0 <= i < |ws| ==> GridSuffices(ws[i], interval, closed);
          if !onFreq {
            numIndices := AddAll(numIndices, -1);
          }
        }
      }
      if closed == Both {
        numIndices := AddAll(numIndices, 1);
      } else if closed == Neither {
        numIndices := AddAll(numIndices, -1);
      }
      assert CountsFor(starts, ends, numIndices, interval, closed, !onFreq);
      CountsNonNegative(starts, ends, forceClose, numIndices, interval, closed, !onFreq);
      var first := if closed.OnLeft() then 0 else 1;
      var stop := if closed.OnLeft() then numIndices else AddAll(numIndices, 1);
      assert stop == AddAll(numIndices, first);
      VectorRows(starts, numIndices, first, interval);
      var ranges := Concatenate(Aranges(first, stop));
      var base := Repeat(starts, numIndices);
      index := Combine(base, ranges, interval);
      if forceClose && !onFreq {
        index := index + ends;
        index := Sort(index);
        SplitSorted(starts, ends, numIndices, interval, closed, index);
      } else {
        RowsOnGrid(starts, ends, forceClose, numIndices, interval, closed);
      }
    }

    /** `_trading_index`: unsorted when there are breaks. */
    method Unsorted() returns (index: seq<int>)
      requires Valid()
      ensures var c := Columns(forceBreakClose, forceClose);
        index == AllPoints(Visited(c, hasBreak), interval, closed)
    {
      ghost var c := Columns(forceBreakClose, forceClose);
      FlagsKeepOrder(Columns(false, false), c);
      if hasBreak {
        GroupsChronological(c);
        SelectSize(opens, breakStarts, mask);
        SelectSize(breakEnds, closes, mask);
        SelectSize(opens, closes, Not(mask));
        var am := CreateIndexForSessions(Select(opens, mask), Select(breakStarts, mask), forceBreakClose);
        var pm := CreateIndexForSessions(Select(breakEnds, mask), Select(closes, mask), forceClose);
        var day := CreateIndexForSessions(Select(opens, Not(mask)), Select(closes, Not(mask)), forceClose);
        FlatMapConcat(Morning(c) + Afternoon(c), WholeDay(c), PointsBy(interval, closed));
        FlatMapConcat(Morning(c), Afternoon(c), PointsBy(interval, closed));
        index := am + pm + day;
      } else {
        NoBreaks(c);
        index := CreateIndexForSessions(opens, closes, forceClose);
      }
    }

    /** `trading_index`: either the overlap error, raised exactly when the check
        refuses, or the instants in order, curtailed to the requested times. */
    method Instants() returns (r: Result<seq<int>, IndexError>)
      requires Valid()
      ensures var c := Columns(forceBreakClose, forceClose);
        if Refuses(c, interval, closed) then r == Err(IndicesOverlapError)
        else r == Ok(CurtailInstants(AllPoints(c.Windows(), interval, closed), start, end))
    {
      ghost var c := Columns(forceBreakClose, forceClose);
      var raises := VerifyNonOverlapping();
      if raises {
        return Err(IndicesOverlapError);
      }
      var index := Unsorted();
      FlagsKeepOrder(Columns(false, false), c);
      if hasBreak {
        index := SortInstants(c, closed, index);
      }
      return Ok(CurtailInstants(index, start, end));
    }

    /** Sorting the instants of the grouped windows puts them in session order. */
    method SortInstants(ghost c: Cols, ghost closed: Closed, index: seq<int>) returns (sorted: seq<int>)
      requires c.Aligned() && Chronological(c.Windows()) && !Refuses(c, interval, closed)
      requires index == AllPoints(Grouped(c), interval, closed)
      ensures sorted == AllPoints(c.Windows(), interval, closed)
    {
      sorted := Sort(index);
      GroupedPermutes(c);
      FlatMapPermutation(Grouped(c), c.Windows(), PointsBy(interval, closed));
      PassedMeansSorted(c, interval, closed);
      SortedSame(sorted, AllPoints(c.Windows(), interval, closed));
    }

    /** `trading_index_intervals`: either the overlap error, or the periods of the
        schedule in time order, curtailed as asked; the flags end as they began. */
    method Intervals() returns (r: Result<seq<Interval>, IndexError>)
      requires Valid() && AtDefaults()
      modifies this
      ensures AtDefaults()
      ensures var ts := AllTiles(Schedule(), interval);
        if Overlaps(ts) && !curtailOverlaps then r == Err(IntervalsOverlapError)
        else r == Ok(CurtailIntervals(Curtail(ts), start, end))
    {
      var left, right := Sides();
      ghost var ts := AllTiles(Schedule(), interval);
      var overlapsNext := OverlapsNext(left, right);
      OverlapArray(ts);
      if exists k :: 0 <= k < |overlapsNext| && overlapsNext[k] {
        if curtailOverlaps {
          right := CutRights(left, right, overlapsNext);
        } else {
          return Err(IntervalsOverlapError);
        }
      } else {
        CurtailIdle(ts);
      }
      SidesOfCurtailed(ts);
      FromSides(Curtail(ts));
      return Ok(CurtailIntervals(FromArrays(left, right), start, end));
    }

    /** The two sides of every period, built separately and paired again. */
    method Sides() returns (left: seq<int>, right: seq<int>)
      requires Valid() && AtDefaults()
      modifies this
      ensures AtDefaults()
      ensures left == Lefts(AllTiles(Schedule(), interval))
      ensures right == Rights(AllTiles(Schedule(), interval))
    {
      ghost var c := Columns(defaults.forceBreakClose, defaults.forceClose);
      FlagsKeepOrder(Columns(false, false), c);
      VisitedSides(Columns(false, false), c, hasBreak, interval);
      closed, forceClose, forceBreakClose := Left, false, false;
      left := Unsorted();
      closed, forceClose, forceBreakClose := defaults.closed, defaults.forceClose, defaults.forceBreakClose;
      if !(forceClose || forceBreakClose) {
        if hasBreak {
          left := SortLefts(c, left);
        }
        right := UnforcedSide(c, left);
      } else {
        closed := Right;
        right := Unsorted();
        closed, forceClose, forceBreakClose := defaults.closed, defaults.forceClose, defaults.forceBreakClose;
        if hasBreak {
          left, right := Pair(c, left, right);
        }
      }
    }

    /** left + interval_nanos */
    method UnforcedSide(ghost c: Cols, left: seq<int>) returns (right: seq<int>)
      requires c.Aligned() && !c.forceClose && !c.forceBreakClose
      requires left == Lefts(AllTiles(c.Windows(), interval))
      ensures right == Rights(AllTiles(c.Windows(), interval))
    {
      NoneForced(c);
      UnforcedRights(c.Windows(), interval);
      right := AddAll(left, interval);
    }

    /** Sort the left sides and carry the right sides along. */
    method Pair(ghost c: Cols, left: seq<int>, right: seq<int>) returns (left': seq<int>, right': seq<int>)
      requires c.Aligned() && Chronological(c.Windows())
      requires left == Lefts(AllTiles(Grouped(c), interval))
      requires right == Rights(AllTiles(Grouped(c), interval))
      ensures left' == Lefts(AllTiles(c.Windows(), interval))
      ensures right' == Rights(AllTiles(c.Windows(), interval))
    {
      var indices := ArgSort(left);
      Repaired(c, interval, left, right, indices);
      left' := SortLefts(c, left);
      right' := Take(right, indices);
    }

    /** Sorting the left sides of the grouped windows puts them in session order. */
    method SortLefts(ghost c: Cols, left: seq<int>) returns (sorted: seq<int>)
      requires c.Aligned() && Chronological(c.Windows())
      requires left == Lefts(AllTiles(Grouped(c), interval))
      ensures sorted == Lefts(AllTiles(c.Windows(), interval))
    {
      sorted := Sort(left);
      LeftsPermute(c, interval);
      AllTilesOrdered(c.Windows(), interval);
      SortedSame(sorted, Lefts(AllTiles(c.Windows(), interval)));
    }
  }

  // ----- the array expressions of `trading_index_intervals` -----

  /** right[:-1] > left[1:] */
  function OverlapsNext(left: seq<int>, right: seq<int>): (r: seq<bool>)
    requires |left| == |right|
    ensures |r| == if left == [] then 0 else |left| - 1
    ensures forall k :: 0 <= k < |r| ==> (r[k] <==> right[k] > left[k + 1])
  {
    seq(if left == [] then 0 else |left| - 1, k requires 0 <= k < |left| - 1 => right[k] > left[k + 1])
  }

  /** right[:-1][overlaps_next] = left[1:][overlaps_next] */
  function CutRights(left: seq<int>, right: seq<int>, overlapsNext: seq<bool>): (r: seq<int>)
    requires |left| == |right|
    requires |overlapsNext| == if left == [] then 0 else |left| - 1
    ensures |r| == |right|
  {
    seq(|right|, k requires 0 <= k < |right| => if k < |right| - 1 && overlapsNext[k] then left[k + 1] else right[k])
  }

  /** pd.IntervalIndex.from_arrays(left, right) */
  function FromArrays(left: seq<int>, right: seq<int>): seq<Interval>
    requires |left| == |right|
  {
    seq(|left|, k requires 0 <= k < |left| => Interval(left[k], right[k]))
  }

  lemma OverlapArray(ts: seq<Interval>)
    ensures var over := OverlapsNext(Lefts(ts), Rights(ts));
      Overlaps(ts) <==> exists k :: 0 <= k < |over| && over[k]
  {
    var over := OverlapsNext(Lefts(ts), Rights(ts));
    if k :| 0 <= k < |ts| - 1 && ts[k].right > ts[k + 1].left {
      assert over[k];
    }
    if k :| 0 <= k < |over| && over[k] {
      assert ts[k].right > ts[k + 1].left;
    }
  }

  lemma SidesOfCurtailed(ts: seq<Interval>)
    ensures Lefts(Curtail(ts)) == Lefts(ts)
    ensures Rights(Curtail(ts)) == CutRights(Lefts(ts), Rights(ts), OverlapsNext(Lefts(ts), Rights(ts)))
  {}

  lemma FromSides(ts: seq<Interval>)
    ensures FromArrays(Lefts(ts), Rights(ts)) == ts
  {}

  // ----- lemmas about the arrays -----

  /** Off frequency: sorting the rows together with the window ends gives the instants. */
  lemma SplitSorted(starts: seq<int>, ends: seq<int>, counts: seq<int>, p: Period, closed: Closed, index: seq<int>)
    requires CountsFor(starts, ends, counts, p, closed, true) && closed.OnRight()
    requires Chronological(Zip(starts, ends, true))
    requires forall i :: 0 <= i < |counts| ==> 0 <= counts[i]
    requires Sorted(index) && multiset(index) == multiset(Rows(starts, counts, First(closed), p) + ends)
    ensures index == AllPoints(Zip(starts, ends, true), p, closed)
  {
    var ws := Zip(starts, ends, true);
    RowsSplit(starts, ends, counts, p, closed);
    assert forall j :: !RunsOver(ws, p, j);
    AllPointsSorted(ws, p, closed);
    SortedSame(index, AllPoints(ws, p, closed));
  }

  lemma LeftsPermute(c: Cols, p: Period)
    requires c.Aligned()
    ensures multiset(Lefts(AllTiles(Grouped(c), p))) == multiset(Lefts(AllTiles(c.Windows(), p)))
  {
    GroupedPermutes(c);
    FlatMapPermutation(Grouped(c), c.Windows(), PointsBy(p, Left));
    SidesOfTiles(Grouped(c), p);
    SidesOfTiles(c.Windows(), p);
  }

  ghost function Pairs(left: seq<int>, right: seq<int>, idx: seq<int>): (r: seq<Interval>)
    requires |left| == |right|
    requires forall i :: 0 <= i < |idx| ==> 0 <= idx[i] < |left|
    ensures |r| == |idx|
    ensures forall i :: 0 <= i < |r| ==> r[i] == Interval(left[idx[i]], right[idx[i]])
  {
    seq(|idx|, i requires 0 <= i < |idx| => Interval(left[idx[i]], right[idx[i]]))
  }

  /** Sides built group by group are paired: any sorting permutation of the lefts
      takes both to session order. */
  lemma Repaired(c: Cols, p: Period, left: seq<int>, right: seq<int>, idx: seq<int>)
    requires c.Aligned() && Chronological(c.Windows())
    requires left == Lefts(AllTiles(Grouped(c), p))
    requires right == Rights(AllTiles(Grouped(c), p))
    requires IsArgSort(left, idx)
    ensures |left| == |right|
    ensures Take(left, idx) == Lefts(AllTiles(c.Windows(), p))
    ensures Take(right, idx) == Rights(AllTiles(c.Windows(), p))
  {
    var ts, gs := AllTiles(c.Windows(), p), AllTiles(Grouped(c), p);
    var pairs := Pairs(left, right, idx);
    GroupedPermutes(c);
    FlatMapPermutation(Grouped(c), c.Windows(), TilesBy(p));
    PermutedMultiset(gs, idx, pairs);
    AllTilesOrdered(c.Windows(), p);
    SortedPairs(ts, pairs, Take(left, idx));
    assert Take(left, idx) == Lefts(pairs);
    assert Take(right, idx) == Rights(pairs);
  }

  lemma SortedPairs(ts: seq<Interval>, pairs: seq<Interval>, keys: seq<int>)
    requires multiset(pairs) == multiset(ts)
    requires Increasing(Lefts(ts))
    requires keys == Lefts(pairs) && Sorted(keys)
    ensures pairs == ts
  {
    var key := (t: Interval) => t.left;
    forall i, j | 0 <= i < j < |ts|
      ensures key(ts[i]) < key(ts[j])
    {
      assert Lefts(ts)[i] < Lefts(ts)[j];
    }
    forall i, j | 0 <= i <= j < |pairs|
      ensures key(pairs[i]) <= key(pairs[j])
    {
      assert keys[i] <= keys[j];
    }
    SortedUnique(ts, pairs, key);
  }

  lemma {:induction false} NoneForced(c: Cols)
    requires c.Aligned() && !c.forceClose && !c.forceBreakClose
    ensures forall i :: 0 <= i < |c.Windows()| ==> !c.Windows()[i].forced
    decreases |c.opens|
  {
    if c.opens != [] {
      NoneForced(c.Tail());
    }
  }

  lemma {:induction false} UnforcedRights(ws: seq<Window>, p: Period)
    requires forall i :: 0 <= i < |ws| ==> !ws[i].forced
    ensures Rights(AllTiles(ws, p)) == AddAll(Lefts(AllTiles(ws, p)), p)
  {
    if ws != [] {
      UnforcedRights(ws[1..], p);
      Step(ws, p);
      var a: seq<Interval>, b: seq<Interval> := Tiles(ws[0], p), AllTiles(ws[1..], p);
      assert Rights(a + b) == Rights(a) + Rights(b);
      assert Lefts(a + b) == Lefts(a) + Lefts(b);
    }
  }

  /** Columns that differ only in the force flags. */
  ghost predicate SameArrays(a: Cols, b: Cols) {
    a.(forceClose := b.forceClose, forceBreakClose := b.forceBreakClose) == b
  }

  /** The force flags change no time. */
  lemma {:induction false} FlagsKeepTimes(a: Cols, b: Cols)
    requires a.Aligned() && SameArrays(a, b)
    ensures SameTimes(a.Windows(), b.Windows())
    decreases |a.opens|
  {
    if a.opens != [] {
      assert SameTimes(a.Head(), b.Head());
      FlagsKeepTimes(a.Tail(), b.Tail());
    }
  }

  lemma FlagsKeepOrder(a: Cols, b: Cols)
    requires a.Aligned() && SameArrays(a, b)
    ensures SameTimes(a.Windows(), b.Windows())
    ensures Chronological(a.Windows()) ==> Chronological(b.Windows())
  {
    FlagsKeepTimes(a, b);
  }

  lemma FlagsKeepGroups(a: Cols, b: Cols)
    requires a.Aligned() && SameArrays(a, b)
    ensures SameTimes(Grouped(a), Grouped(b))
  {
    SameTimesConcat(Morning(a), Morning(b), Afternoon(a), Afternoon(b));
    SameTimesConcat(Morning(a) + Afternoon(a), Morning(b) + Afternoon(b), WholeDay(a), WholeDay(b));
  }

  lemma SameTimesConcat(a: seq<Window>, b: seq<Window>, x: seq<Window>, y: seq<Window>)
    requires SameTimes(a, b) && SameTimes(x, y)
    ensures SameTimes(a + x, b + y)
  {}

  /** The windows in the order `_trading_index` visits them. */
  ghost function Visited(c: Cols, hasBreak: bool): seq<Window>
    requires c.Aligned()
  {
    if hasBreak then Grouped(c) else c.Windows()
  }

  /** Two visits, one for each side, list the sides of the same periods. */
  lemma VisitedSides(a: Cols, b: Cols, hasBreak: bool, p: Period)
    requires a.Aligned() && SameArrays(a, b)
    ensures AllPoints(Visited(a, hasBreak), p, Left) == Lefts(AllTiles(Visited(b, hasBreak), p))
    ensures AllPoints(Visited(b, hasBreak), p, Right) == Rights(AllTiles(Visited(b, hasBreak), p))
  {
    FlagsKeepTimes(a, b);
    FlagsKeepGroups(a, b);
    LeftIgnoresForce(Visited(a, hasBreak), Visited(b, hasBreak), p);
    SidesOfTiles(Visited(b, hasBreak), p);
  }
}
