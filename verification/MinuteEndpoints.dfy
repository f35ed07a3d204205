/** A trading index from minute to minute, against the index of the whole calendar. */
module MinuteEndpoints {
  import opened Arrays
  import opened Grid
  import opened Coverage
  import opened Columns
  import opened Overlap
  import opened TradingIndex
  import opened CalendarIndex
  import opened Endpoints
  import Calendar
  import Sessions

  // ----- instants of windows outside the slice -----

  lemma PointsAppend(a: seq<Window>, b: seq<Window>, p: Period, closed: Closed)
    ensures AllPoints(a + b, p, closed) == AllPoints(a, p, closed) + AllPoints(b, p, closed)
  {
    FlatMapConcat(a, b, PointsBy(p, closed));
  }

  /** Of windows over by `m`, only the last one can have an instant from `m` on: where
      its last period stops. */
  lemma {:induction false} EarlierInstants(a: seq<Window>, p: Period, closed: Closed, m: int, t: int)
    requires Chronological(a) && a != [] && m <= t
    requires forall w :: w in a ==> w.end <= m
    requires closed.OnRight() ==> forall x :: !RunsOver(a, p, x)
    ensures t in AllPoints(a, p, closed) <==> closed.OnRight() && t == Last(a[|a| - 1], p)
  {
    var rest := a[1..];
    assert AllPoints(a, p, closed) == Points(a[0], p, closed) + AllPoints(rest, p, closed);
    PointsExact(a[0], p, closed, t);
    if rest == [] {
      assert AllPoints(rest, p, closed) == [];
    } else {
      assert rest[0] in a;
      if closed.OnRight() {
        assert !RunsOver(a, p, 0);
        forall x ensures !RunsOver(rest, p, x) {
          assert !RunsOver(a, p, x + 1);
        }
      }
      EarlierInstants(rest, p, closed, m, t);
    }
  }

  /** Of windows that begin no earlier than `m`, only the first can have an instant up to
      `m`: its start. */
  lemma LaterInstants(d: seq<Window>, p: Period, closed: Closed, m: int, t: int)
    requires Chronological(d) && d != [] && m <= d[0].start && t <= m
    ensures t in AllPoints(d, p, closed) <==> closed.OnLeft() && t == d[0].start
  {
    var first := d[0].start;
    AllPointsAbove(d, p, closed);
    PointsExact(d[0], p, closed, d[0].start);
    assert AllPoints(d, p, closed) == Points(d[0], p, closed) + AllPoints(d[1..], p, closed);
    if t in AllPoints(d, p, closed) {
      var k :| 0 <= k < |AllPoints(d, p, closed)| && AllPoints(d, p, closed)[k] == t;
      assert closed.OnLeft() || first < t;
    }
  }

  /** The last period before the slice stops at an instant that is asked for. */
  predicate LosesBefore(a: seq<Window>, p: Period, closed: Closed, start: Option<int>, end: Option<int>) {
    a != [] && closed.OnRight() && InTimes(Last(a[|a| - 1], p), start, end)
  }

  /** The first window after the slice starts at an instant that is asked for. */
  predicate LosesAfter(d: seq<Window>, closed: Closed, start: Option<int>, end: Option<int>) {
    d != [] && closed.OnLeft() && InTimes(d[0].start, start, end)
  }

  lemma NothingBefore(a: seq<Window>, p: Period, closed: Closed, start: Option<int>, end: Option<int>)
    requires Chronological(a)
    requires a != [] ==> start.Some? && forall w :: w in a ==> w.end <= start.value
    requires closed.OnRight() ==> forall x :: !RunsOver(a, p, x)
    ensures CurtailInstants(AllPoints(a, p, closed), start, end) == [] <==> !LosesBefore(a, p, closed, start, end)
  {
    NoInstants(AllPoints(a, p, closed), start, end);
    if a != [] {
      forall t | InTimes(t, start, end)
        ensures t in AllPoints(a, p, closed) <==> closed.OnRight() && t == Last(a[|a| - 1], p)
      {
        EarlierInstants(a, p, closed, start.value, t);
      }
    }
  }

  lemma NothingAfter(d: seq<Window>, p: Period, closed: Closed, start: Option<int>, end: Option<int>)
    requires Chronological(d)
    requires d != [] ==> end.Some? && end.value <= d[0].start
    ensures CurtailInstants(AllPoints(d, p, closed), start, end) == [] <==> !LosesAfter(d, closed, start, end)
  {
    NoInstants(AllPoints(d, p, closed), start, end);
    if d != [] {
      forall t | InTimes(t, start, end)
        ensures t in AllPoints(d, p, closed) <==> closed.OnLeft() && t == d[0].start
      {
        LaterInstants(d, p, closed, end.value, t);
      }
    }
  }

  lemma InstantsBetween(
    a: seq<Window>, b: seq<Window>, d: seq<Window>, p: Period, closed: Closed, start: Option<int>, end: Option<int>)
    requires Chronological(a) && Chronological(d)
    requires a != [] ==> start.Some? && forall w :: w in a ==> w.end <= start.value
    requires d != [] ==> end.Some? && end.value <= d[0].start
    requires closed.OnRight() ==> forall x :: !RunsOver(a, p, x)
    ensures CurtailInstants(AllPoints(b, p, closed), start, end)
      == CurtailInstants(AllPoints(a + b + d, p, closed), start, end)
      <==> !LosesBefore(a, p, closed, start, end) && !LosesAfter(d, closed, start, end)
  {
    var xa, xb, xd := AllPoints(a, p, closed), AllPoints(b, p, closed), AllPoints(d, p, closed);
    PointsAppend(a, b, p, closed);
    PointsAppend(a + b, d, p, closed);
    InstantsAppend(xa, xb, start, end);
    InstantsAppend(xa + xb, xd, start, end);
    NothingBefore(a, p, closed, start, end);
    NothingAfter(d, p, closed, start, end);
    Squeeze(CurtailInstants(xa, start, end), CurtailInstants(xb, start, end), CurtailInstants(xd, start, end));
  }

  lemma Squeeze(a: seq<int>, b: seq<int>, d: seq<int>)
    ensures b == a + b + d <==> a == [] && d == []
  {
    assert |a + b + d| == |a| + |b| + |d|;
    if a == [] && d == [] {
      assert a + b + d == b;
    }
  }

  // ----- endpoints of a calendar -----

  /** Positions of the sessions from the start on if that is a date, and to the end if
      that is; from the first or to the last one for a minute. */
  function Wider(cal: Calendar.Calendar, start: Endpoint, end: Endpoint): (r: (nat, nat))
    requires Calendar.WellFormed(cal) && SessionSlice(cal, start, end).Ok?
    ensures var (i, j) := SessionSlice(cal, start, end).value; r.0 <= i <= j <= r.1 <= |cal.sessions|
  {
    var (i, j) := SessionSlice(cal, start, end).value;
    (if start.Minute? then 0 else i, if end.Minute? then |cal.sessions| else j)
  }

  /** Sessions before the slice do not reach the start; sessions after it begin too late. */
  lemma OutsideSlice(cal: Calendar.Calendar, start: Endpoint, end: Endpoint, k: nat)
    requires Calendar.WellFormed(cal) && Inside(cal, start) && Inside(cal, end) && k < |cal.sessions|
    ensures SessionSlice(cal, start, end).Ok?
    ensures k < SessionSlice(cal, start, end).value.0 ==> !FromStart(cal, start, k)
    ensures SessionSlice(cal, start, end).value.1 <= k ==> !ToEnd(cal, end, k)
  {
    StartLabel(cal, start, k);
    EndLabel(cal, end, k);
    LabelsOutside(cal.sessions, Label(cal, start, Sessions.Next).value, Label(cal, end, Sessions.Previous).value, k);
  }

  lemma LabelsOutside(sessions: seq<int>, first: int, last: int, k: nat)
    requires Increasing(sessions) && k < |sessions|
    ensures k < SliceBounds(sessions, first, last).0 ==> sessions[k] < first
    ensures SliceBounds(sessions, first, last).1 <= k ==> last < sessions[k]
  {
    var j := SearchRight(sessions, last);
    assert j <= k ==> sessions[j] <= sessions[k];
  }

  lemma OverBefore(cal: Calendar.Calendar, m: int, k: nat)
    requires Calendar.WellFormed(cal) && Calendar.WholeMinute(m) && k < |cal.sessions|
    ensures Calendar.Last(cal, k) < m ==> cal.closes[k] <= m
    ensures m < Calendar.First(cal, k) ==> m <= cal.opens[k]
  {
    assert Calendar.SessionWellFormed(cal, k);
    Calendar.NoneBetween(cal.closes[k] - Calendar.MINUTE);
    Calendar.WholeShift(cal.closes[k]);
    Calendar.NoneBetween(cal.opens[k]);
  }

  lemma AlignedLater(cal: Calendar.Calendar, o: Options, k: nat)
    requires Calendar.WellFormed(cal) && o.Valid() && o.align > 0 && k < |cal.sessions|
    ensures cal.opens[k] <= ColsOf(cal, o).opens[k]
  {
    assert Calendar.SessionWellFormed(cal, k);
    AlignToNear(cal.opens[k], o.align);
  }

  /** The windows of the wider slice: those before, of and after the slice itself. */
  lemma ThreeParts(c: Cols, lo: nat, i: nat, j: nat, hi: nat)
    requires c.Aligned() && lo <= i <= j <= hi <= |c.opens| && AllInOrder(Cut(c, lo, hi))
    ensures var a, b, d := Cut(c, lo, i).Windows(), Cut(c, i, j).Windows(), Cut(c, j, hi).Windows();
      && Cut(c, lo, hi).Windows() == a + b + d && Chronological(a + b + d)
      && Chronological(a) && Chronological(b) && Chronological(d) && Chronological(b + d)
  {
    var a, b, d := Cut(c, lo, i).Windows(), Cut(c, i, j).Windows(), Cut(c, j, hi).Windows();
    CutWindows(c, lo, i, hi);
    CutWindows(c, i, j, hi);
    SliceIsSchedule(c, lo, hi);
    assert a + (b + d) == a + b + d;
    TailChronological(a, b + d);
    TailChronological(b, d);
  }

  lemma SubSlice<T>(xs: seq<T>, lo: nat, i: nat, j: nat, hi: nat)
    requires lo <= i <= j <= hi <= |xs|
    ensures xs[lo..hi][i - lo..j - lo] == xs[i..j]
  {
    var wide := xs[lo..hi];
    forall k | 0 <= k < j - i
      ensures wide[i - lo..j - lo][k] == xs[i..j][k]
    {
      assert wide[i - lo + k] == xs[i + k];
    }
    assert |wide[i - lo..j - lo]| == |xs[i..j]|;
  }

  lemma CutCut(c: Cols, lo: nat, i: nat, j: nat, hi: nat)
    requires c.Aligned() && lo <= i <= j <= hi <= |c.opens|
    ensures Cut(Cut(c, lo, hi), i - lo, j - lo) == Cut(c, i, j)
  {
    var x, y := Cut(Cut(c, lo, hi), i - lo, j - lo), Cut(c, i, j);
    SubSlice(c.opens, lo, i, j, hi);
    SubSlice(c.breakStarts, lo, i, j, hi);
    SubSlice(c.breakEnds, lo, i, j, hi);
    SubSlice(c.closes, lo, i, j, hi);
    SubSlice(c.mask, lo, i, j, hi);
    assert x.opens == y.opens && x.breakStarts == y.breakStarts && x.breakEnds == y.breakEnds;
    assert x.closes == y.closes && x.mask == y.mask;
  }

  lemma PartInOrder(c: Cols, lo: nat, i: nat, j: nat, hi: nat)
    requires c.Aligned() && lo <= i <= j <= hi <= |c.opens| && AllInOrder(Cut(c, lo, hi))
    ensures AllInOrder(Cut(c, i, j))
  {
    CutCut(c, lo, i, j, hi);
    CutInOrder(Cut(c, lo, hi), i - lo, j - lo);
  }

  /** The windows before the slice, if there are any, are over by the start. */
  ghost predicate OverBy(c: Cols, lo: nat, i: nat, start: Option<int>)
    requires c.Aligned() && lo <= i <= |c.opens|
  {
    var a := Cut(c, lo, i).Windows();
    a != [] ==> start.Some? && forall w :: w in a ==> w.end <= start.value
  }

  /** The windows after it, if there are any, begin no earlier than the end. */
  ghost predicate BeginFrom(c: Cols, j: nat, hi: nat, end: Option<int>)
    requires c.Aligned() && j <= hi <= |c.opens|
  {
    var d := Cut(c, j, hi).Windows();
    d != [] ==> end.Some? && end.value <= d[0].start && forall w :: w in d ==> end.value <= w.start
  }

  lemma EarlierOver(cal: Calendar.Calendar, start: Endpoint, end: Endpoint, o: Options)
    requires Calendar.WellFormed(cal) && o.Valid() && Inside(cal, start) && Inside(cal, end)
    requires SessionSlice(cal, start, end).Ok?
    requires var (lo, hi) := Wider(cal, start, end); AllInOrder(Cut(ColsOf(cal, o), lo, hi))
    ensures var (i, j) := SessionSlice(cal, start, end).value;
      var (lo, hi) := Wider(cal, start, end);
      OverBy(ColsOf(cal, o), lo, i, start.Time())
  {
    var (i, j) := SessionSlice(cal, start, end).value;
    var (lo, hi) := Wider(cal, start, end);
    var c := ColsOf(cal, o);
    if start.Minute? {
      PartInOrder(c, lo, lo, i, hi);
      forall k | lo <= k < i
        ensures cal.closes[k] <= start.at
      {
        OutsideSlice(cal, start, end, k);
        OverBefore(cal, start.at, k);
      }
      WindowsEnd(Cut(c, lo, i), start.at);
    } else {
      assert Cut(c, lo, i).Windows() == [];
    }
  }

  /** Windows after the slice begin no earlier than the end, if no start is moved back. */
  lemma LaterBegin(cal: Calendar.Calendar, start: Endpoint, end: Endpoint, o: Options)
    requires Calendar.WellFormed(cal) && o.Valid() && o.align > 0 && Inside(cal, start) && Inside(cal, end)
    requires SessionSlice(cal, start, end).Ok?
    requires var (lo, hi) := Wider(cal, start, end); AllInOrder(Cut(ColsOf(cal, o), lo, hi))
    ensures var (i, j) := SessionSlice(cal, start, end).value;
      var (lo, hi) := Wider(cal, start, end);
      BeginFrom(ColsOf(cal, o), j, hi, end.Time())
  {
    var (i, j) := SessionSlice(cal, start, end).value;
    var (lo, hi) := Wider(cal, start, end);
    var c := ColsOf(cal, o);
    if j < hi {
      PartInOrder(c, lo, j, hi, hi);
      OutsideSlice(cal, start, end, j);
      OverBefore(cal, end.at, j);
      AlignedLater(cal, o, j);
      WindowsChronological(Cut(c, j, hi));
      FirstOfCut(c, j, hi);
    } else {
      assert Cut(c, j, hi).Windows() == [];
    }
  }

  /** The end is the very start of the next session, and the last period of the slice
      runs over it, having begun since the start. */
  predicate EndsInOverrun(c: Cols, i: nat, j: nat, hi: nat, p: Period, start: Option<int>, end: Option<int>)
    requires c.Aligned() && i <= j <= hi <= |c.opens|
  {
    && i < j < hi && end == Some(c.opens[j])
    && Last(LastWindow(c, j - 1), p) > c.opens[j]
    && (start.Some? ==> start.value <= LastLeft(LastWindow(c, j - 1), p))
  }

  lemma IntervalsOfSlice(
    c: Cols, lo: nat, i: nat, j: nat, hi: nat, p: Period, start: Option<int>, end: Option<int>)
    requires c.Aligned() && lo <= i <= j <= hi <= |c.opens| && AllInOrder(Cut(c, lo, hi))
    requires OverBy(c, lo, i, start) && BeginFrom(c, j, hi, end)
    ensures CurtailIntervals(Periodic(c, i, j, p), start, end) == CurtailIntervals(Periodic(c, lo, hi, p), start, end)
      <==> !EndsInOverrun(c, i, j, hi, p, start, end)
  {
    var a, b, d := Cut(c, lo, i).Windows(), Cut(c, i, j).Windows(), Cut(c, j, hi).Windows();
    ThreeParts(c, lo, i, j, hi);
    IntervalsBetween(a, b, d, p, start, end);
    OverrunAtEnd(c, i, j, hi, p, start, end);
  }

  lemma IntervalsBetween(
    a: seq<Window>, b: seq<Window>, d: seq<Window>, p: Period, start: Option<int>, end: Option<int>)
    requires Chronological(a) && Chronological(b) && Chronological(d)
    requires a != [] ==> start.Some? && forall w :: w in a ==> w.end <= start.value
    requires d != [] ==> end.Some? && forall w :: w in d ==> end.value <= w.start
    ensures CurtailIntervals(Curtail(AllTiles(b, p)), start, end)
      == CurtailIntervals(Curtail(AllTiles(a + b + d, p)), start, end)
      <==> !CutsIntoLast(b, d, p, start, end)
  {
    assert a + (b + d) == a + b + d;
    EarlierAddNothing(a, b + d, p, start, end);
    LaterAddNothing(b, d, p, start, end);
  }

  lemma OverrunAtEnd(c: Cols, i: nat, j: nat, hi: nat, p: Period, start: Option<int>, end: Option<int>)
    requires c.Aligned() && i <= j <= hi <= |c.opens|
    ensures CutsIntoLast(Cut(c, i, j).Windows(), Cut(c, j, hi).Windows(), p, start, end)
      <==> EndsInOverrun(c, i, j, hi, p, start, end)
  {
    Ends(c, i, j, hi);
  }

  /** The last window of the slice and the first one after it. */
  lemma Ends(c: Cols, i: nat, j: nat, hi: nat)
    requires c.Aligned() && i <= j <= hi <= |c.opens|
    ensures var b, d := Cut(c, i, j).Windows(), Cut(c, j, hi).Windows();
      && (b != [] <==> i < j) && (i < j ==> b[|b| - 1] == LastWindow(c, j - 1))
      && (d != [] <==> j < hi) && (j < hi ==> d[0].start == c.opens[j])
  {
    if i < j {
      LastOfCut(c, i, j);
    }
    if j < hi {
      FirstOfCut(c, j, hi);
    }
  }

  /** For starts that are not moved back: the intervals from one endpoint to the other
      are those of the whole calendar (of the sessions from or to a date, where an
      endpoint is one) with left side not before and right side not after the minutes
      asked for, unless the end is the start of the next session and the last period
      runs over it: curtailed to that end, the wider index has it, the narrower not. */
  lemma IntervalsOfWhole(cal: Calendar.Calendar, start: Endpoint, end: Endpoint, p: Period, o: Options)
    requires Calendar.WellFormed(cal) && o.Valid() && o.align > 0 && Inside(cal, start) && Inside(cal, end)
    requires SessionSlice(cal, start, end).Ok?
    requires var (lo, hi) := Wider(cal, start, end); AllInOrder(Cut(ColsOf(cal, o), lo, hi))
    ensures var c := ColsOf(cal, o);
      var (i, j) := SessionSlice(cal, start, end).value;
      var (lo, hi) := Wider(cal, start, end);
      CurtailIntervals(Periodic(c, i, j, p), start.Time(), end.Time())
        == CurtailIntervals(Periodic(c, lo, hi, p), start.Time(), end.Time())
      <==> !EndsInOverrun(c, i, j, hi, p, start.Time(), end.Time())
  {
    var (i, j) := SessionSlice(cal, start, end).value;
    var (lo, hi) := Wider(cal, start, end);
    EarlierOver(cal, start, end, o);
    LaterBegin(cal, start, end, o);
    IntervalsOfSlice(ColsOf(cal, o), lo, i, j, hi, p, start.Time(), end.Time());
  }

  /** Without overlaps on the whole there are none on the slice, and no exception. */
  lemma NoOverlapInside(c: Cols, lo: nat, i: nat, j: nat, hi: nat, p: Period)
    requires c.Aligned() && lo <= i <= j <= hi <= |c.opens| && AllInOrder(Cut(c, lo, hi))
    requires !Overlaps(AllTiles(Cut(c, lo, hi).Windows(), p))
    ensures !Overlaps(AllTiles(Cut(c, i, j).Windows(), p))
    ensures forall start, end :: !EndsInOverrun(c, i, j, hi, p, start, end)
    ensures Periodic(c, lo, hi, p) == AllTiles(Cut(c, lo, hi).Windows(), p)
  {
    var a, b, d := Cut(c, lo, i).Windows(), Cut(c, i, j).Windows(), Cut(c, j, hi).Windows();
    ThreeParts(c, lo, i, j, hi);
    NoOverlapBetween(a, b, d, p);
    forall start, end ensures !EndsInOverrun(c, i, j, hi, p, start, end) {
      OverrunAtEnd(c, i, j, hi, p, start, end);
      assert !CutsIntoLast(b, d, p, start, end);
    }
    CurtailIdle(AllTiles(a + b + d, p));
  }

  lemma NoOverlapBetween(a: seq<Window>, b: seq<Window>, d: seq<Window>, p: Period)
    requires Chronological(a + b + d) && !Overlaps(AllTiles(a + b + d, p))
    ensures !Overlaps(AllTiles(b, p))
    ensures forall start, end :: !CutsIntoLast(b, d, p, start, end)
  {
    TilesAppend(a + b, d, p);
    TilesAppend(a, b, p);
    if Overlaps(AllTiles(b, p)) {
      OverlapInside(AllTiles(a, p), AllTiles(b, p), AllTiles(d, p));
    }
    if b != [] && d != [] && Last(b[|b| - 1], p) > d[0].start {
      var ws, x := a + b + d, |a| + |b| - 1;
      assert ws[x] == b[|b| - 1] && ws[x + 1] == d[0];
      assert RunsOver(ws, p, x);
      OverlapsExactly(ws, p);
    }
  }

  /** So on a calendar whose periods do not overlap, the intervals returned are exactly
      those of the whole index with left >= start and right <= end. */
  lemma IntervalsWithoutOverlap(
    cal: Calendar.Calendar, start: Endpoint, end: Endpoint, p: Period, o: Options, curtailOverlaps: bool)
    requires Calendar.WellFormed(cal) && o.Valid() && o.align > 0 && Inside(cal, start) && Inside(cal, end)
    requires SessionSlice(cal, start, end).Ok?
    requires var (lo, hi) := Wider(cal, start, end); AllInOrder(Cut(ColsOf(cal, o), lo, hi))
    requires var (lo, hi) := Wider(cal, start, end); !Overlaps(AllTiles(Cut(ColsOf(cal, o), lo, hi).Windows(), p))
    ensures var (lo, hi) := Wider(cal, start, end);
      var ts := AllTiles(Cut(ColsOf(cal, o), lo, hi).Windows(), p);
      IntervalsFor(cal, start, end, p, o, curtailOverlaps) == Ok(CurtailIntervals(ts, start.Time(), end.Time()))
  {
    var (i, j) := SessionSlice(cal, start, end).value;
    var (lo, hi) := Wider(cal, start, end);
    NoOverlapInside(ColsOf(cal, o), lo, i, j, hi, p);
    IntervalsOfWhole(cal, start, end, p, o);
  }

  lemma OverlapInside(a: seq<Interval>, b: seq<Interval>, d: seq<Interval>)
    requires Overlaps(b)
    ensures Overlaps(a + b + d)
  {
    var k :| 0 <= k < |b| - 1 && b[k].right > b[k + 1].left;
    var all := a + b + d;
    assert all[|a| + k] == b[k] && all[|a| + k + 1] == b[k + 1];
  }

  // ----- instants -----

  /** The last period of the session before the slice stops at an instant asked for,
      although that session is over by the start. */
  predicate LosesStop(c: Cols, lo: nat, i: nat, p: Period, closed: Closed, start: Option<int>, end: Option<int>)
    requires c.Aligned() && lo <= i <= |c.opens|
  {
    lo < i && closed.OnRight() && InTimes(Last(LastWindow(c, i - 1), p), start, end)
  }

  /** The session after the slice starts at an instant asked for: at the end itself. */
  predicate LosesStart(c: Cols, j: nat, hi: nat, closed: Closed, start: Option<int>, end: Option<int>)
    requires c.Aligned() && j <= hi <= |c.opens|
  {
    j < hi && closed.OnLeft() && InTimes(c.opens[j], start, end)
  }

  lemma InstantsOfSlice(
    c: Cols, lo: nat, i: nat, j: nat, hi: nat, p: Period, closed: Closed, start: Option<int>, end: Option<int>)
    requires c.Aligned() && lo <= i <= j <= hi <= |c.opens| && AllInOrder(Cut(c, lo, hi))
    requires OverBy(c, lo, i, start) && BeginFrom(c, j, hi, end) && !Refuses(Cut(c, lo, hi), p, closed)
    ensures CurtailInstants(AllPoints(Cut(c, i, j).Windows(), p, closed), start, end)
      == CurtailInstants(AllPoints(Cut(c, lo, hi).Windows(), p, closed), start, end)
      <==> !LosesStop(c, lo, i, p, closed, start, end) && !LosesStart(c, j, hi, closed, start, end)
  {
    var a, b, d := Cut(c, lo, i).Windows(), Cut(c, i, j).Windows(), Cut(c, j, hi).Windows();
    ThreeParts(c, lo, i, j, hi);
    Ends(c, lo, i, i);
    Ends(c, j, j, hi);
    NoneRunsOver(c, lo, i, hi, p, closed);
    InstantsBetween(a, b, d, p, closed, start, end);
  }

  /** For starts that are not moved back, and where the check passes on the whole: the
      instants from one endpoint to the other are those of the whole calendar (of the
      sessions from or to a date, where an endpoint is one) within the minutes asked
      for, exactly unless the last instant of the session before the slice, or the first
      of the session after it, is one of these and is lost. */
  lemma InstantsOfWhole(
    cal: Calendar.Calendar, start: Endpoint, end: Endpoint, p: Period, closed: Closed, o: Options)
    requires Calendar.WellFormed(cal) && o.Valid() && o.align > 0 && Inside(cal, start) && Inside(cal, end)
    requires SessionSlice(cal, start, end).Ok?
    requires var (lo, hi) := Wider(cal, start, end); AllInOrder(Cut(ColsOf(cal, o), lo, hi))
    requires var (lo, hi) := Wider(cal, start, end); !Refuses(Cut(ColsOf(cal, o), lo, hi), p, closed)
    ensures var c := ColsOf(cal, o);
      var (i, j) := SessionSlice(cal, start, end).value;
      var (lo, hi) := Wider(cal, start, end);
      InstantsFor(cal, start, end, p, closed, o)
        == Ok(CurtailInstants(AllPoints(Cut(c, lo, hi).Windows(), p, closed), start.Time(), end.Time()))
      <==>
        && !LosesStop(c, lo, i, p, closed, start.Time(), end.Time())
        && !LosesStart(c, j, hi, closed, start.Time(), end.Time())
  {
    var (i, j) := SessionSlice(cal, start, end).value;
    var (lo, hi) := Wider(cal, start, end);
    EarlierOver(cal, start, end, o);
    LaterBegin(cal, start, end, o);
    PassesInside(ColsOf(cal, o), lo, i, j, hi, p, closed);
    InstantsOfSlice(ColsOf(cal, o), lo, i, j, hi, p, closed, start.Time(), end.Time());
  }

  /** A session of the slice is the same session of the wider one. */
  lemma SameOver(c: Cols, d: nat, j: nat, p: Period, closed: Closed, k: int)
    requires c.Aligned() && d <= j <= |c.opens|
    ensures MorningOver(Cut(c, d, j), p, closed, k) ==> MorningOver(c, p, closed, k + d)
    ensures WholeOver(Cut(c, d, j), p, closed, k) ==> WholeOver(c, p, closed, k + d)
    ensures AfternoonOver(Cut(c, d, j), p, closed, k) ==> AfternoonOver(c, p, closed, k + d)
  {}

  /** Where the check passes on more sessions, it passes on fewer. */
  lemma PassesInside(c: Cols, lo: nat, i: nat, j: nat, hi: nat, p: Period, closed: Closed)
    requires c.Aligned() && lo <= i <= j <= hi <= |c.opens| && !Refuses(Cut(c, lo, hi), p, closed)
    ensures !Refuses(Cut(c, i, j), p, closed)
  {
    CutCut(c, lo, i, j, hi);
    PassesPart(Cut(c, lo, hi), i - lo, j - lo, p, closed);
  }

  lemma PassesPart(c: Cols, d: nat, j: nat, p: Period, closed: Closed)
    requires c.Aligned() && d <= j <= |c.opens| && !Refuses(c, p, closed)
    ensures !Refuses(Cut(c, d, j), p, closed)
  {
    forall k
      ensures !MorningOver(Cut(c, d, j), p, closed, k)
      ensures !WholeOver(Cut(c, d, j), p, closed, k)
      ensures !AfternoonOver(Cut(c, d, j), p, closed, k)
    {
      SameOver(c, d, j, p, closed, k);
    }
  }

  lemma NoneRunsOver(c: Cols, lo: nat, i: nat, hi: nat, p: Period, closed: Closed)
    requires c.Aligned() && lo <= i <= hi <= |c.opens| && AllInOrder(Cut(c, lo, hi))
    requires !Refuses(Cut(c, lo, hi), p, closed)
    ensures closed.OnRight() ==> forall x :: !RunsOver(Cut(c, lo, i).Windows(), p, x)
  {
    var a := Cut(c, lo, i);
    PassesInside(c, lo, lo, i, hi, p, closed);
    PartInOrder(c, lo, lo, i, hi);
    SliceIsSchedule(c, lo, i);
    RefusesExactly(a, p, closed);
    if closed.OnRight() {
      forall x ensures !RunsOver(a.Windows(), p, x) {
        assert !CollidesAt(a.Windows(), p, closed, x);
        StopsInTime(a.Windows(), p, closed, x);
      }
    }
  }

  // ----- the exceptions happen -----

  const UNMOVED := Options(false, false, false, Calendar.MINUTE, Calendar.MINUTE)

  /** Two sessions: from 0:00 to 23:00, and from 0:00 to 1:00 on the next day. */
  function TwoDays(side: Calendar.Side): Calendar.Calendar {
    Calendar.Calendar([0, 86_400_000_000_000], [0, 86_400_000_000_000], [NAT, NAT], [NAT, NAT],
      [82_800_000_000_000, 90_000_000_000_000], side)
  }

  lemma TwoDaysWellFormed(side: Calendar.Side)
    ensures Calendar.WellFormed(TwoDays(side))
  {
    var cal := TwoDays(side);
    assert Calendar.SessionWellFormed(cal, 0) && Calendar.SessionWellFormed(cal, 1);
    assert Calendar.NextFollows(cal, 0);
  }

  /** In periods of four hours closed on the right, the last period of the first day stops
      at 24:00, an hour after the close.  From 23:30 on that is the nearest later instant
      of the whole index, but it is not in the index returned. */
  lemma StopIsLost()
    ensures var cal, start, end := TwoDays(Calendar.Side.Left), Minute(84_600_000_000_000), Date(86_400_000_000_000);
      && Calendar.WellFormed(cal) && SessionSlice(cal, start, end) == Ok((1, 2)) && Wider(cal, start, end) == (0, 2)
      && InstantsFor(cal, start, end, 14_400_000_000_000, Right, UNMOVED) != Ok(CurtailInstants(
           AllPoints(Cut(ColsOf(cal, UNMOVED), 0, 2).Windows(), 14_400_000_000_000, Right), start.Time(), end.Time()))
  {
    var cal, start, end := TwoDays(Calendar.Side.Left), Minute(84_600_000_000_000), Date(86_400_000_000_000);
    FromLateEvening();
    var c := ColsOf(cal, UNMOVED);
    CeilUnique(82_800_000_000_000, 6, 14_400_000_000_000);
    assert Last(LastWindow(c, 0), 14_400_000_000_000) == 86_400_000_000_000;
    assert LosesStop(c, 0, 1, 14_400_000_000_000, Right, start.Time(), end.Time());
    InstantsOfWhole(cal, start, end, 14_400_000_000_000, Right, UNMOVED);
  }

  lemma UntilNextOpen()
    ensures var cal, start, end := TwoDays(Calendar.Side.Right), Date(0), Minute(86_400_000_000_000);
      && Calendar.WellFormed(cal) && Inside(cal, start) && Inside(cal, end)
      && SessionSlice(cal, start, end) == Ok((0, 1)) && Wider(cal, start, end) == (0, 2)
      && AllInOrder(Cut(ColsOf(cal, UNMOVED), 0, 2))
  {
    var cal := TwoDays(Calendar.Side.Right);
    TwoDaysWellFormed(Calendar.Side.Right);
    SliceIs(cal, Date(0), Minute(86_400_000_000_000), 0, 1);
    UnmovedInOrder(cal, UNMOVED);
    CutInOrder(ColsOf(cal, UNMOVED), 0, 2);
  }

  lemma NeverRefusedOnLeft(c: Cols, p: Period)
    requires c.Aligned()
    ensures !Refuses(c, p, Left)
  {}

  /** For a right-sided calendar the open of the second day is no trading minute: asked
      for until that minute, the index of left sides leaves it out. */
  lemma StartIsLost()
    ensures var cal, start, end := TwoDays(Calendar.Side.Right), Date(0), Minute(86_400_000_000_000);
      && Calendar.WellFormed(cal) && SessionSlice(cal, start, end) == Ok((0, 1)) && Wider(cal, start, end) == (0, 2)
      && InstantsFor(cal, start, end, 14_400_000_000_000, Left, UNMOVED) != Ok(CurtailInstants(
           AllPoints(Cut(ColsOf(cal, UNMOVED), 0, 2).Windows(), 14_400_000_000_000, Left), start.Time(), end.Time()))
  {
    var cal, start, end := TwoDays(Calendar.Side.Right), Date(0), Minute(86_400_000_000_000);
    UntilNextOpen();
    var c := ColsOf(cal, UNMOVED);
    NeverRefusedOnLeft(Cut(c, 0, 2), 14_400_000_000_000);
    assert LosesStart(c, 1, 2, Left, start.Time(), end.Time());
    InstantsOfWhole(cal, start, end, 14_400_000_000_000, Left, UNMOVED);
  }

  /** And in periods of thirteen hours, curtailed, the interval from 13:00 to 24:00 is in
      the whole index and not in the one returned until 24:00. */
  lemma OverrunIsLost()
    ensures var cal, start, end := TwoDays(Calendar.Side.Right), Date(0), Minute(86_400_000_000_000);
      IntervalsFor(cal, start, end, 46_800_000_000_000, UNMOVED, true) != Ok(CurtailIntervals(
        Periodic(ColsOf(cal, UNMOVED), 0, 2, 46_800_000_000_000), start.Time(), end.Time()))
  {
    var cal, start, end := TwoDays(Calendar.Side.Right), Date(0), Minute(86_400_000_000_000);
    UntilNextOpen();
    var c := ColsOf(cal, UNMOVED);
    CeilUnique(82_800_000_000_000, 2, 46_800_000_000_000);
    assert Last(LastWindow(c, 0), 46_800_000_000_000) == 93_600_000_000_000;
    assert EndsInOverrun(c, 0, 1, 2, 46_800_000_000_000, start.Time(), end.Time());
    IntervalsOfWhole(cal, start, end, 46_800_000_000_000, UNMOVED);
  }

  lemma FromLateEvening()
    ensures var cal, start, end := TwoDays(Calendar.Side.Left), Minute(84_600_000_000_000), Date(86_400_000_000_000);
      && Calendar.WellFormed(cal) && Inside(cal, start) && Inside(cal, end)
      && SessionSlice(cal, start, end) == Ok((1, 2)) && Wider(cal, start, end) == (0, 2)
      && AllInOrder(Cut(ColsOf(cal, UNMOVED), 0, 2))
      && !Refuses(Cut(ColsOf(cal, UNMOVED), 0, 2), 14_400_000_000_000, Right)
  {
    var cal := TwoDays(Calendar.Side.Left);
    TwoDaysWellFormed(Calendar.Side.Left);
    SliceIs(cal, Minute(84_600_000_000_000), Date(86_400_000_000_000), 1, 2);
    UnmovedInOrder(cal, UNMOVED);
    CutInOrder(ColsOf(cal, UNMOVED), 0, 2);
    NotRefused();
  }

  lemma NotRefused()
    ensures var cal := TwoDays(Calendar.Side.Left);
      !Refuses(Cut(ColsOf(cal, UNMOVED), 0, 2), 14_400_000_000_000, Right)
  {
    var c := Cut(ColsOf(TwoDays(Calendar.Side.Left), UNMOVED), 0, 2);
    CeilUnique(82_800_000_000_000, 6, 14_400_000_000_000);
    assert !c.mask[0] && !c.mask[1];
    assert !WholeOver(c, 14_400_000_000_000, Right, 0);
  }

  lemma SliceIs(cal: Calendar.Calendar, start: Endpoint, end: Endpoint, i: nat, j: nat)
    requires Calendar.WellFormed(cal) && Inside(cal, start) && Inside(cal, end) && i < j <= |cal.sessions|
    requires forall k :: 0 <= k < |cal.sessions| ==> (FromStart(cal, start, k) && ToEnd(cal, end, k) <==> i <= k < j)
    ensures SessionSlice(cal, start, end) == Ok((i, j))
  {
    SessionSliceExact(cal, start, end, i);
    var (x, y) := SessionSlice(cal, start, end).value;
    forall k | 0 <= k < |cal.sessions|
      ensures Within(k, x, y) <==> Within(k, i, j)
    {
      SessionSliceExact(cal, start, end, k);
    }
    SameRange(x, y, i, j, |cal.sessions|);
  }

  predicate Within(k: int, i: int, j: int) { i <= k < j }

  lemma SameRange(x: nat, y: nat, i: nat, j: nat, n: nat)
    requires x <= y <= n && i < j <= n
    requires forall k :: 0 <= k < n ==> (Within(k, x, y) <==> Within(k, i, j))
    ensures x == i && y == j
  {
    assert Within(i, i, j) && Within(j - 1, i, j);
    assert Within(i, x, y) && Within(j - 1, x, y);
    assert Within(x, i, j) && Within(y - 1, i, j);
  }
}
