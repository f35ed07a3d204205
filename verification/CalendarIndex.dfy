/** The two halves meet: a calendar's trading minutes and the periods of its trading
    index come from the same open hours. */
module CalendarIndex {
  import opened Arrays
  import opened Grid
  import opened Coverage
  import opened Columns
  import opened Overlap
  import opened TradingIndex
  import Calendar
  import Sessions

  // ----- the arrays -----

  /** dt.ceil(align): forwards to a multiple of `align`, backwards if it is negative. */
  function AlignTo(t: int, align: int): int
    requires align != 0
  {
    if t == NAT then NAT
    else if align > 0 then CeilDiv(t, align) * align
    else -(CeilDiv(-t, -align) * -align)
  }

  /** Opens or break ends, aligned unless to the minute. */
  function AlignAll(xs: seq<int>, align: int): (r: seq<int>)
    requires align != 0
    ensures |r| == |xs|
    ensures align == Calendar.MINUTE ==> r == xs
  {
    if align == Calendar.MINUTE then xs else seq(|xs|, i requires 0 <= i < |xs| => AlignTo(xs[i], align))
  }

  /** An aligned start lies less than a step from the start, on the side asked for. */
  lemma AlignToNear(t: int, align: int)
    requires align != 0 && t != NAT
    ensures align > 0 ==> t <= AlignTo(t, align) < t + align
    ensures align < 0 ==> t + align < AlignTo(t, align) <= t
  {
    if align > 0 {
      var n := CeilDiv(t, align);
      Distribute(1, n, align);
    } else {
      var n := CeilDiv(-t, -align);
      Distribute(1, n, -align);
    }
  }

  function Times(n: int, step: int): int { n * step }

  /** `u` is a whole multiple of `align`, less than a step from `t` on the side asked for. */
  ghost predicate AlignedTo(u: int, t: int, align: int) {
    && (exists n :: u == Times(n, align))
    && if align > 0 then t <= u < t + align else t + align < u <= t
  }

  lemma AlignToExact(t: int, align: int)
    requires align != 0 && t != NAT
    ensures AlignedTo(AlignTo(t, align), t, align)
  {
    AlignToNear(t, align);
    if align > 0 {
      assert AlignTo(t, align) == Times(CeilDiv(t, align), align);
    } else {
      NegatedProduct(CeilDiv(-t, -align), align);
      assert AlignTo(t, align) == Times(CeilDiv(-t, -align), align);
    }
  }

  lemma NegatedProduct(n: int, step: int)
    ensures -(n * -step) == n * step
  {}

  /** There is only one such multiple. */
  lemma OnlyAligned(u: int, v: int, t: int, align: int)
    requires align != 0 && AlignedTo(u, t, align) && AlignedTo(v, t, align)
    ensures u == v
  {
    var n :| u == Times(n, align);
    var m :| v == Times(m, align);
    if n < m {
      MultiplesApart(n, m, align);
    } else if m < n {
      MultiplesApart(m, n, align);
    }
  }

  lemma MultiplesApart(n: int, m: int, align: int)
    requires align != 0 && n < m
    ensures if align > 0 then Times(n, align) + align <= Times(m, align) else Times(m, align) <= Times(n, align) + align
  {
    if align > 0 {
      MulMonotone(n + 1, m, align);
      Distribute(1, n, align);
    } else {
      MulMonotone(n + 1, m, -align);
      Distribute(1, n, -align);
      NegatedProduct(n, align);
      NegatedProduct(m, align);
    }
  }

  /** What parameters of `trading_index` fix besides the sessions. */
  datatype Options = Options(
    forceClose: bool, forceBreakClose: bool, ignoreBreaks: bool, align: int, alignPm: int)
  {
    predicate Valid() { align != 0 && alignPm != 0 }

    /** `force` overrides both flags. */
    function Forced(force: Option<bool>): (o: Options)
      ensures Valid() ==> o.Valid()
    {
      if force.Some? then this.(forceClose := force.value, forceBreakClose := force.value) else this
    }

    /** Breaks that are ignored are not forced. */
    predicate ForcesBreaks() { !ignoreBreaks && forceBreakClose }
  }

  function ColsOf(cal: Calendar.Calendar, o: Options): (c: Cols)
    requires cal.Aligned() && o.Valid()
    ensures c.Aligned() && |c.opens| == |cal.sessions|
  {
    Cols(AlignAll(cal.opens, o.align), cal.breakStarts, AlignAll(cal.breakEnds, o.alignPm), cal.closes,
      BreakMask(cal.breakStarts, o.ignoreBreaks), o.ForcesBreaks(), o.forceClose)
  }

  /** Sessions `i` to `j`. */
  function Cut(c: Cols, i: nat, j: nat): (d: Cols)
    requires c.Aligned() && i <= j <= |c.opens|
    ensures d.Aligned() && |d.opens| == j - i
  {
    Cols(c.opens[i..j], c.breakStarts[i..j], c.breakEnds[i..j], c.closes[i..j], c.mask[i..j],
      c.forceBreakClose, c.forceClose)
  }

  /** Session `i` has its times in order. */
  ghost predicate InOrder(c: Cols, i: nat)
    requires c.Aligned() && i < |c.opens|
  {
    c.opens[i] < c.closes[i] && (c.mask[i] ==> c.opens[i] < c.breakStarts[i] <= c.breakEnds[i] < c.closes[i])
  }

  /** Starts, aligned as they are, stay before the ends of their (sub)sessions and do
      not precede the end before them. */
  ghost predicate AllInOrder(c: Cols)
    requires c.Aligned()
  {
    && (forall i :: 0 <= i < |c.opens| ==> InOrder(c, i))
    && (forall i :: 0 <= i < |c.opens| - 1 ==> c.closes[i] <= c.opens[i + 1])
  }

  /** A well-formed calendar is in order as long as its starts are not moved. */
  lemma UnmovedInOrder(cal: Calendar.Calendar, o: Options)
    requires Calendar.WellFormed(cal) && o.align == o.alignPm == Calendar.MINUTE
    ensures AllInOrder(ColsOf(cal, o))
  {
    var c := ColsOf(cal, o);
    forall k | 0 <= k < |c.opens|
      ensures InOrder(c, k)
    {
      assert Calendar.SessionWellFormed(cal, k);
    }
    forall k | 0 <= k < |c.opens| - 1
      ensures c.closes[k] <= c.opens[k + 1]
    {
      assert Calendar.NextFollows(cal, k);
    }
  }

  lemma CutInOrder(c: Cols, i: nat, j: nat)
    requires c.Aligned() && i <= j <= |c.opens| && AllInOrder(c)
    ensures AllInOrder(Cut(c, i, j))
  {
    var d := Cut(c, i, j);
    forall k | 0 <= k < |d.opens|
      ensures InOrder(d, k)
    {
      assert InOrder(c, i + k);
    }
  }

  lemma TailInOrder(c: Cols)
    requires c.Aligned() && c.opens != [] && AllInOrder(c)
    ensures AllInOrder(c.Tail())
  {
    var t := c.Tail();
    forall i | 0 <= i < |t.opens|
      ensures InOrder(t, i)
    {
      assert InOrder(c, i + 1);
    }
  }

  lemma {:induction false} WindowsChronological(c: Cols)
    requires c.Aligned() && AllInOrder(c)
    ensures Chronological(c.Windows())
    ensures c.opens != [] ==> forall w :: w in c.Windows() ==> c.opens[0] <= w.start
    decreases |c.opens|
  {
    if c.opens != [] {
      var t := c.Tail();
      TailInOrder(c);
      WindowsChronological(t);
      assert InOrder(c, 0);
      assert t.opens != [] ==> c.closes[0] <= t.opens[0];
      HeadChronological(c, t.Windows());
    }
  }

  lemma HeadChronological(c: Cols, ws: seq<Window>)
    requires c.Aligned() && c.opens != [] && InOrder(c, 0)
    requires Chronological(ws) && forall w :: w in ws ==> c.closes[0] <= w.start
    ensures Chronological(c.Head() + ws)
  {
    var head := c.Head();
    if c.mask[0] {
      ChronologicalCons(head[1], ws);
      ChronologicalCons(head[0], [head[1]] + ws);
      assert head + ws == [head[0]] + ([head[1]] + ws);
    } else {
      ChronologicalCons(head[0], ws);
      assert head + ws == [head[0]] + ws;
    }
  }

  /** Any run of sessions in order is a schedule that a trading index can be built for. */
  lemma SliceIsSchedule(c: Cols, i: nat, j: nat)
    requires c.Aligned() && i <= j <= |c.opens| && AllInOrder(Cut(c, i, j))
    ensures Chronological(Cut(c, i, j).Windows())
  {
    WindowsChronological(Cut(c, i, j));
  }

  // ----- the open hours -----

  /** `t` is in session `i`, and in no break of it. */
  ghost predicate OpenInSession(c: Cols, i: int, t: int)
    requires c.Aligned()
  {
    && 0 <= i < |c.opens| && c.opens[i] <= t < c.closes[i]
    && (c.mask[i] ==> t < c.breakStarts[i] || c.breakEnds[i] <= t)
  }

  lemma OpenSplit(a: seq<Window>, b: seq<Window>, t: int)
    ensures SomeOpen(a + b, t) <==> SomeOpen(a, t) || SomeOpen(b, t)
  {
    if j :| Open(a, j, t) {
      assert Open(a + b, j, t);
    }
    if j :| Open(b, j, t) {
      assert Open(a + b, |a| + j, t);
    }
    if j :| Open(a + b, j, t) {
      assert if j < |a| then Open(a, j, t) else Open(b, j - |a|, t);
    }
  }

  lemma HeadOpen(c: Cols, t: int)
    requires c.Aligned() && c.opens != [] && InOrder(c, 0)
    ensures SomeOpen(c.Head(), t) <==> OpenInSession(c, 0, t)
  {
    if OpenInSession(c, 0, t) {
      assert if c.mask[0] && c.breakEnds[0] <= t then Open(c.Head(), 1, t) else Open(c.Head(), 0, t);
    }
  }

  lemma {:induction false} OpenBySession(c: Cols, t: int)
    requires c.Aligned() && AllInOrder(c)
    ensures SomeOpen(c.Windows(), t) <==> exists i :: OpenInSession(c, i, t)
    decreases |c.opens|
  {
    if c.opens == [] {
      assert c.Windows() == [];
    } else {
      TailInOrder(c);
      OpenBySession(c.Tail(), t);
      assert InOrder(c, 0);
      HeadOpen(c, t);
      OpenSplit(c.Head(), c.Tail().Windows(), t);
      if i :| OpenInSession(c, i, t) {
        assert i > 0 ==> OpenInSession(c.Tail(), i - 1, t);
      }
      if i :| OpenInSession(c.Tail(), i, t) {
        assert OpenInSession(c, i + 1, t);
      }
    }
  }

  /** `t` is open in one of sessions `i` to `j`. */
  ghost predicate OpenInSlice(c: Cols, i: nat, j: nat, t: int)
    requires c.Aligned()
  {
    exists k :: i <= k < j && OpenInSession(c, k, t)
  }

  lemma SliceHours(c: Cols, i: nat, j: nat, t: int)
    requires c.Aligned() && i <= j <= |c.opens| && AllInOrder(Cut(c, i, j))
    ensures SomeOpen(Cut(c, i, j).Windows(), t) <==> OpenInSlice(c, i, j, t)
  {
    var d := Cut(c, i, j);
    OpenBySession(d, t);
    if k :| OpenInSession(d, k, t) {
      assert OpenInSession(c, i + k, t);
    }
    if k :| i <= k < j && OpenInSession(c, k, t) {
      assert OpenInSession(d, k - i, t);
    }
  }

  /** Every window ends at a forced end. */
  predicate EndsForced(c: Cols) {
    c.forceClose && (c.forceBreakClose || forall k :: 0 <= k < |c.mask| ==> !c.mask[k])
  }

  lemma {:induction false} AllForced(c: Cols)
    requires c.Aligned() && EndsForced(c)
    ensures forall i :: 0 <= i < |c.Windows()| ==> c.Windows()[i].forced
    decreases |c.opens|
  {
    if c.opens != [] {
      AllForced(c.Tail());
    }
  }

  /** The curtailed periods of sessions `i` to `j`. */
  function Periodic(c: Cols, i: nat, j: nat, p: Period): seq<Interval>
    requires c.Aligned() && i <= j <= |c.opens|
  {
    Curtail(AllTiles(Cut(c, i, j).Windows(), p))
  }

  /** For any sessions, breaks kept or ignored, any alignment that leaves their starts in
      order, any period and any force flags: every instant at which a session is open is
      in exactly one interval of the curtailed index; and with all ends forced no other
      instant is in any. */
  lemma IndexCoversSessions(c: Cols, i: nat, j: nat, p: Period, t: int)
    requires c.Aligned() && i <= j <= |c.opens| && AllInOrder(Cut(c, i, j))
    ensures OpenInSlice(c, i, j, t) ==> HeldOnce(Periodic(c, i, j, p), t)
    ensures EndsForced(Cut(c, i, j)) ==> (Held(Periodic(c, i, j, p), t) <==> OpenInSlice(c, i, j, t))
  {
    var ws := Cut(c, i, j).Windows();
    SliceIsSchedule(c, i, j);
    SliceHours(c, i, j, t);
    EveryOpenInstantOnce(ws, p);
    if EndsForced(Cut(c, i, j)) {
      AllForced(Cut(c, i, j));
      ForcedTiling(ws, p);
      CurtailIdle(AllTiles(ws, p));
    }
  }

  /** The same on the right: an instant whose predecessor is open. */
  lemma IndexCoversEnds(c: Cols, i: nat, j: nat, p: Period, t: int)
    requires c.Aligned() && i <= j <= |c.opens| && AllInOrder(Cut(c, i, j))
    ensures OpenInSlice(c, i, j, t - 1) ==> RightHeldOnce(Periodic(c, i, j, p), t)
  {
    IndexCoversSessions(c, i, j, p, t - 1);
    if OpenInSlice(c, i, j, t - 1) {
      RightHeld(Periodic(c, i, j, p), t);
    }
  }

  /** The hours of session `k` as the calendar tells them: with breaks ignored, from the
      open to the close; otherwise when a left-sided calendar is open. */
  ghost predicate CalendarOpen(cal: Calendar.Calendar, ignoreBreaks: bool, k: nat, t: int)
    requires cal.Aligned() && k < |cal.sessions|
  {
    if ignoreBreaks then cal.opens[k] <= t < cal.closes[k] else Calendar.OpenIn(cal, Calendar.Side.Left, k, t)
  }

  lemma HoursAreOpen(cal: Calendar.Calendar, o: Options, k: nat, t: int)
    requires Calendar.WellFormed(cal) && o.align == o.alignPm == Calendar.MINUTE && k < |cal.sessions|
    ensures OpenInSession(ColsOf(cal, o), k, t) <==> CalendarOpen(cal, o.ignoreBreaks, k, t)
  {
    assert Calendar.SessionWellFormed(cal, k);
  }

  /** Told by the calendar itself, starts not moved: an instant at which the exchange is
      open in one of the sessions is in exactly one interval, and with all ends forced
      those are the only instants in any. */
  lemma IndexCoversCalendar(cal: Calendar.Calendar, o: Options, i: nat, j: nat, p: Period, t: int)
    requires Calendar.WellFormed(cal) && o.align == o.alignPm == Calendar.MINUTE && i <= j <= |cal.sessions|
    ensures var ts := Periodic(ColsOf(cal, o), i, j, p);
      var open := exists k :: i <= k < j && CalendarOpen(cal, o.ignoreBreaks, k, t);
      && (open ==> HeldOnce(ts, t))
      && (o.forceClose && (o.ignoreBreaks || o.forceBreakClose) ==> (Held(ts, t) <==> open))
  {
    var c := ColsOf(cal, o);
    UnmovedInOrder(cal, o);
    CutInOrder(c, i, j);
    forall k | i <= k < j
      ensures OpenInSession(c, k, t) <==> CalendarOpen(cal, o.ignoreBreaks, k, t)
    {
      HoursAreOpen(cal, o, k, t);
    }
    SameHours(cal, o, i, j, t);
    IndexCoversSessions(c, i, j, p, t);
  }

  lemma SameHours(cal: Calendar.Calendar, o: Options, i: nat, j: nat, t: int)
    requires cal.Aligned() && o.Valid() && i <= j <= |cal.sessions|
    requires forall k :: i <= k < j ==>
      (OpenInSession(ColsOf(cal, o), k, t) <==> CalendarOpen(cal, o.ignoreBreaks, k, t))
    ensures OpenInSlice(ColsOf(cal, o), i, j, t) <==> exists k :: i <= k < j && CalendarOpen(cal, o.ignoreBreaks, k, t)
  {}

  /** The minute comes at least `d` after the aligned start of its half of the session. */
  predicate Started(cal: Calendar.Calendar, o: Options, k: nat, m: int, d: int)
    requires |cal.sessions| == |cal.opens| == |cal.breakStarts| == |cal.breakEnds| == |cal.closes|
    requires o.Valid() && k < |cal.sessions|
  {
    var c := ColsOf(cal, o);
    && c.opens[k] + d <= m
    && (c.mask[k] && Calendar.FirstPm(cal, k) <= m ==> c.breakEnds[k] + d <= m)
  }

  /** Starts that are not moved leave no minute out; on the right, none of a side that
      leaves out the open. */
  lemma UnmovedStarted(cal: Calendar.Calendar, o: Options, k: nat, m: int)
    requires Calendar.WellFormed(cal) && o.align == o.alignPm == Calendar.MINUTE && k < |cal.sessions|
    requires Calendar.MinuteIn(cal, k, m)
    ensures Started(cal, o, k, m, 0)
    ensures !cal.side.OnLeft() ==> Started(cal, o, k, m, 1)
  {
    assert Calendar.SessionWellFormed(cal, k);
  }

  /** A trading minute that an aligned start has not cut off is an open instant unless it
      is the end of a (sub)session, and follows one unless it is the start. */
  lemma MinuteIsOpen(cal: Calendar.Calendar, o: Options, k: nat, m: int)
    requires Calendar.WellFormed(cal) && o.Valid() && k < |cal.sessions| && InOrder(ColsOf(cal, o), k)
    requires Calendar.MinuteIn(cal, k, m) && Started(cal, o, k, m, 0)
    ensures var c := ColsOf(cal, o);
      && (!cal.side.OnRight() ==> OpenInSession(c, k, m))
      && (Started(cal, o, k, m, 1) ==> OpenInSession(c, k, m - 1))
      && (OpenInSession(c, k, m) || OpenInSession(c, k, m - 1))
  {
    assert Calendar.SessionWellFormed(cal, k);
  }

  /** Whatever the side and the alignment, every trading minute of the sessions asked for
      that an aligned start has not cut off is in exactly one interval: of those closed on
      the left if the side leaves out the close, of those closed on the right if it comes
      after the aligned start, and of one kind or the other in any case. */
  lemma MinutesInIntervals(cal: Calendar.Calendar, o: Options, i: nat, j: nat, p: Period, k: nat, m: int)
    requires Calendar.WellFormed(cal) && o.Valid() && i <= k < j <= |cal.sessions|
    requires AllInOrder(Cut(ColsOf(cal, o), i, j))
    requires m in Calendar.SessionMinutes(cal, k) && Started(cal, o, k, m, 0)
    ensures var ts := Periodic(ColsOf(cal, o), i, j, p);
      && (!cal.side.OnRight() ==> HeldOnce(ts, m))
      && (Started(cal, o, k, m, 1) ==> RightHeldOnce(ts, m))
      && (HeldOnce(ts, m) || RightHeldOnce(ts, m))
  {
    var c := ColsOf(cal, o);
    Calendar.SessionMinutesExact(cal, k);
    assert InOrder(Cut(c, i, j), k - i);
    MinuteIsOpen(cal, o, k, m);
    IndexCoversSessions(c, i, j, p, m);
    IndexCoversEnds(c, i, j, p, m);
    if OpenInSession(c, k, m) {
      assert OpenInSlice(c, i, j, m);
    }
    if OpenInSession(c, k, m - 1) {
      assert OpenInSlice(c, i, j, m - 1);
    }
  }

  // ----- from start and end to the sessions -----

  /** A `start` or `end`: a date or a minute. */
  datatype Endpoint = Date(day: int) | Minute(at: int) {
    function Time(): Option<int> { if Minute? then Some(at) else None }
  }

  function DateBounds(cal: Calendar.Calendar, d: int): Result<int, Sessions.Error>
    requires cal.sessions != []
  {
    if d < cal.sessions[0] || d > cal.sessions[|cal.sessions| - 1] then Err(Sessions.DateOutOfBounds) else Ok(d)
  }

  /** The label that an endpoint stands for. */
  function Label(cal: Calendar.Calendar, e: Endpoint, direction: Sessions.Direction): Result<int, Sessions.Error>
    requires Calendar.WellFormed(cal)
  {
    match e
    case Date(d) => DateBounds(cal, d)
    case Minute(m) =>
      Sessions.BoundsExact(cal, m);
      if Sessions.MinuteOob(Calendar.Minutes(cal), m) then Err(Sessions.MinuteOutOfBounds)
      else Sessions.MinuteToSession(cal, m, direction)
  }

  /** The positions of the sessions from label `start` to label `end`. */
  function SliceBounds(sessions: seq<int>, start: int, end: int): (r: (nat, nat))
    ensures r.0 <= r.1 <= |sessions|
  {
    var i, j := SearchLeft(sessions, start), SearchRight(sessions, end);
    (i, if i <= j then j else i)
  }

  function SessionSlice(cal: Calendar.Calendar, start: Endpoint, end: Endpoint): (r: Result<(nat, nat), Sessions.Error>)
    requires Calendar.WellFormed(cal)
    ensures r.Ok? ==> r.value.0 <= r.value.1 <= |cal.sessions|
  {
    var first :- Label(cal, start, Sessions.Next);
    var last :- Label(cal, end, Sessions.Previous);
    Ok(SliceBounds(cal.sessions, first, last))
  }

  lemma SliceBoundsExact(sessions: seq<int>, start: int, end: int, k: nat)
    requires Increasing(sessions) && k < |sessions|
    ensures var (i, j) := SliceBounds(sessions, start, end);
      i <= k < j <==> start <= sessions[k] <= end
  {
    var i, j := SearchLeft(sessions, start), SearchRight(sessions, end);
    assert i < |sessions| && i <= k ==> sessions[i] <= sessions[k];
    assert j < |sessions| && j <= k ==> sessions[j] <= sessions[k];
  }

  /** The endpoint is a date, or a whole minute, within the calendar. */
  ghost predicate Inside(cal: Calendar.Calendar, e: Endpoint)
    requires Calendar.WellFormed(cal)
  {
    match e
    case Date(d) => cal.sessions[0] <= d <= cal.sessions[|cal.sessions| - 1]
    case Minute(m) => Calendar.WholeMinute(m) && Sessions.InBounds(cal, m)
  }

  /** Session `k` is not over before the start. */
  ghost predicate FromStart(cal: Calendar.Calendar, e: Endpoint, k: nat)
    requires cal.Aligned() && k < |cal.sessions|
  {
    match e
    case Date(d) => d <= cal.sessions[k]
    case Minute(m) => m <= Calendar.Last(cal, k)
  }

  /** Session `k` has begun by the end. */
  ghost predicate ToEnd(cal: Calendar.Calendar, e: Endpoint, k: nat)
    requires cal.Aligned() && k < |cal.sessions|
  {
    match e
    case Date(d) => cal.sessions[k] <= d
    case Minute(m) => Calendar.First(cal, k) <= m
  }

  lemma StartLabel(cal: Calendar.Calendar, e: Endpoint, k: nat)
    requires Calendar.WellFormed(cal) && Inside(cal, e) && k < |cal.sessions|
    ensures var found := Label(cal, e, Sessions.Next);
      found.Ok? && (found.value <= cal.sessions[k] <==> FromStart(cal, e, k))
  {
    if e.Minute? {
      Sessions.BoundsExact(cal, e.at);
      var x := Sessions.NextExists(cal, e.at);
      Sessions.NextFound(cal, e.at, x);
      Sessions.LastsIncrease(cal);
    }
  }

  lemma PreviousLabel(cal: Calendar.Calendar, m: int) returns (x: nat)
    requires Calendar.WellFormed(cal) && Inside(cal, Minute(m))
    ensures Sessions.IsPrevious(cal, m, x)
    ensures Label(cal, Minute(m), Sessions.Previous) == Ok(cal.sessions[x])
  {
    Sessions.BoundsExact(cal, m);
    Sessions.PreviousExists(cal, m);
    x :| Sessions.IsPrevious(cal, m, x);
    Sessions.PreviousInBounds(cal, m, x);
  }

  lemma PreviousOrder(cal: Calendar.Calendar, m: int, x: nat, k: nat)
    requires Calendar.WellFormed(cal) && Sessions.IsPrevious(cal, m, x) && k < |cal.sessions|
    ensures cal.sessions[k] <= cal.sessions[x] <==> Calendar.First(cal, k) <= m
  {
    Sessions.LastsIncrease(cal);
  }

  lemma EndLabel(cal: Calendar.Calendar, e: Endpoint, k: nat)
    requires Calendar.WellFormed(cal) && Inside(cal, e) && k < |cal.sessions|
    ensures var found := Label(cal, e, Sessions.Previous);
      found.Ok? && (cal.sessions[k] <= found.value <==> ToEnd(cal, e, k))
  {
    if e.Minute? {
      var x := PreviousLabel(cal, e.at);
      PreviousOrder(cal, e.at, x, k);
    }
  }

  /** The slice holds exactly the sessions that are not over before the start and have
      begun by the end, each endpoint a date or a minute. */
  lemma SessionSliceExact(cal: Calendar.Calendar, start: Endpoint, end: Endpoint, k: nat)
    requires Calendar.WellFormed(cal) && Inside(cal, start) && Inside(cal, end) && k < |cal.sessions|
    ensures var r := SessionSlice(cal, start, end);
      r.Ok? && (r.value.0 <= k < r.value.1 <==> FromStart(cal, start, k) && ToEnd(cal, end, k))
  {
    StartLabel(cal, start, k);
    EndLabel(cal, end, k);
    SliceBoundsExact(cal.sessions, Label(cal, start, Sessions.Next).value, Label(cal, end, Sessions.Previous).value, k);
  }

  // ----- ExchangeCalendar.trading_index -----

  datatype Failure = Query(query: Sessions.Error) | Overlapping(overlap: IndexError)

  /** The starts of the sessions asked for, if there are any, are in order. */
  ghost predicate StartsInOrder(cal: Calendar.Calendar, start: Endpoint, end: Endpoint, o: Options)
    requires Calendar.WellFormed(cal) && o.Valid()
  {
    match SessionSlice(cal, start, end)
    case Err(_) => true
    case Ok((i, j)) => AllInOrder(Cut(ColsOf(cal, o), i, j))
  }

  /** The object for sessions `i` to `j`. */
  method MakeIndex(
    cal: Calendar.Calendar, i: nat, j: nat, startTime: Option<int>, endTime: Option<int>,
    period: Period, closed: Closed, o: Options, curtailOverlaps: bool) returns (index: TradingIndex)
    requires cal.Aligned() && i <= j <= |cal.sessions| && o.Valid() && AllInOrder(Cut(ColsOf(cal, o), i, j))
    ensures fresh(index) && index.Valid() && index.AtDefaults()
    ensures index.interval == period && index.curtailOverlaps == curtailOverlaps
    ensures index.start == startTime && index.end == endTime
    ensures index.defaults == Flags(closed, o.forceClose, o.ForcesBreaks())
    ensures index.Columns(o.ForcesBreaks(), o.forceClose) == Cut(ColsOf(cal, o), i, j)
  {
    ghost var c := Cut(ColsOf(cal, o), i, j);
    var opens, breakEnds := AlignAll(cal.opens, o.align)[i..j], AlignAll(cal.breakEnds, o.alignPm)[i..j];
    assert BreakMask(cal.breakStarts[i..j], o.ignoreBreaks) == BreakMask(cal.breakStarts, o.ignoreBreaks)[i..j];
    SliceIsSchedule(ColsOf(cal, o), i, j);
    FlagsKeepOrder(c, c.(forceClose := false, forceBreakClose := false));
    index := new TradingIndex(
      opens, cal.breakStarts[i..j], breakEnds, cal.closes[i..j],
      period, closed, o.forceClose, o.forceBreakClose, curtailOverlaps, o.ignoreBreaks, startTime, endTime);
  }

  /** What the intervals for these endpoints are. */
  ghost function IntervalsFor(
    cal: Calendar.Calendar, start: Endpoint, end: Endpoint, p: Period, o: Options, curtailOverlaps: bool)
    : Result<seq<Interval>, Failure>
    requires Calendar.WellFormed(cal) && o.Valid()
  {
    match SessionSlice(cal, start, end)
    case Err(e) => Err(Query(e))
    case Ok((i, j)) =>
      if Overlaps(AllTiles(Cut(ColsOf(cal, o), i, j).Windows(), p)) && !curtailOverlaps then
        Err(Overlapping(IntervalsOverlapError))
      else Ok(CurtailIntervals(Periodic(ColsOf(cal, o), i, j, p), start.Time(), end.Time()))
  }

  ghost function InstantsFor(
    cal: Calendar.Calendar, start: Endpoint, end: Endpoint, p: Period, closed: Closed, o: Options)
    : Result<seq<int>, Failure>
    requires Calendar.WellFormed(cal) && o.Valid()
  {
    match SessionSlice(cal, start, end)
    case Err(e) => Err(Query(e))
    case Ok((i, j)) =>
      var c := Cut(ColsOf(cal, o), i, j);
      if Refuses(c, p, closed) then Err(Overlapping(IndicesOverlapError))
      else Ok(CurtailInstants(AllPoints(c.Windows(), p, closed), start.Time(), end.Time()))
  }

  /** With intervals, for periods of less than a day: an error for the wrong `closed`,
      for an endpoint out of bounds or for overlapping periods, otherwise the periods of
      exactly the sessions asked for. */
  method IntervalIndex(
    cal: Calendar.Calendar, start: Endpoint, end: Endpoint, period: Period, closed: Closed,
    o: Options, curtailOverlaps: bool) returns (r: Result<seq<Interval>, Failure>)
    requires Calendar.WellFormed(cal) && o.Valid() && StartsInOrder(cal, start, end, o)
    ensures r == if closed == Both || closed == Neither then Err(Query(Sessions.ValueError))
      else IntervalsFor(cal, start, end, period, o, curtailOverlaps)
  {
    if closed == Both || closed == Neither {
      return Err(Query(Sessions.ValueError));
    }
    var slice := SessionSlice(cal, start, end);
    if slice.Err? {
      return Err(Query(slice.error));
    }
    var (i, j) := slice.value;
    var index := MakeIndex(cal, i, j, start.Time(), end.Time(), period, closed, o, curtailOverlaps);
    var intervals := index.Intervals();
    r := if intervals.Ok? then Ok(intervals.value) else Err(Overlapping(intervals.error));
  }

  /** The same without intervals. */
  method InstantIndex(
    cal: Calendar.Calendar, start: Endpoint, end: Endpoint, period: Period, closed: Closed, o: Options)
    returns (r: Result<seq<int>, Failure>)
    requires Calendar.WellFormed(cal) && o.Valid() && StartsInOrder(cal, start, end, o)
    ensures r == InstantsFor(cal, start, end, period, closed, o)
  {
    var slice := SessionSlice(cal, start, end);
    if slice.Err? {
      return Err(Query(slice.error));
    }
    var (i, j) := slice.value;
    var index := MakeIndex(cal, i, j, start.Time(), end.Time(), period, closed, o, false);
    var instants := index.Instants();
    r := if instants.Ok? then Ok(instants.value) else Err(Overlapping(instants.error));
  }

  datatype Index = Days(labels: seq<int>) | Instants(at: seq<int>) | Intervals(of: seq<Interval>)

  /** An endpoint for a period of one day must be a date. */
  function DayLabel(cal: Calendar.Calendar, e: Endpoint): Result<int, Sessions.Error>
    requires cal.sessions != []
  {
    match e
    case Date(d) => DateBounds(cal, d)
    case Minute(_) => Err(Sessions.ValueError)
  }

  function DaysFor(cal: Calendar.Calendar, start: Endpoint, end: Endpoint): Result<seq<int>, Sessions.Error>
    requires cal.sessions != []
  {
    var first :- DayLabel(cal, start);
    var last :- DayLabel(cal, end);
    var (i, j) := SliceBounds(cal.sessions, first, last);
    Ok(cal.sessions[i..j])
  }

  /** A daily index holds exactly the sessions from one date to the other. */
  lemma DaysExact(cal: Calendar.Calendar, start: int, end: int, session: int)
    requires Calendar.WellFormed(cal) && Inside(cal, Date(start)) && Inside(cal, Date(end))
    ensures var r := DaysFor(cal, Date(start), Date(end));
      && r.Ok? && Increasing(r.value)
      && (session in r.value <==> session in cal.sessions && start <= session <= end)
  {
    var (i, j) := SliceBounds(cal.sessions, start, end);
    if k :| 0 <= k < |cal.sessions| && cal.sessions[k] == session {
      SliceBoundsExact(cal.sessions, start, end, k);
      assert i <= k < j ==> cal.sessions[i..j][k - i] == session;
    }
    if session in cal.sessions[i..j] {
      var k :| i <= k < j && cal.sessions[k] == session;
      SliceBoundsExact(cal.sessions, start, end, k);
    }
  }

  /** `trading_index`: for any period, with or without intervals. */
  method IndexOf(
    cal: Calendar.Calendar, start: Endpoint, end: Endpoint, period: Period, intervals: bool, closed: Closed,
    o: Options, force: Option<bool>, curtailOverlaps: bool) returns (r: Result<Index, Failure>)
    requires Calendar.WellFormed(cal) && o.Valid()
    requires period < Calendar.DAY ==> StartsInOrder(cal, start, end, o.Forced(force))
    ensures
      if period > Calendar.DAY then r == Err(Query(Sessions.ValueError))
      else if period == Calendar.DAY then match DaysFor(cal, start, end)
        case Ok(labels) => r == Ok(Days(labels))
        case Err(e) => r == Err(Query(e))
      else if intervals && (closed == Both || closed == Neither) then r == Err(Query(Sessions.ValueError))
      else if intervals then match IntervalsFor(cal, start, end, period, o.Forced(force), curtailOverlaps)
        case Ok(ts) => r == Ok(Intervals(ts))
        case Err(e) => r == Err(e)
      else match InstantsFor(cal, start, end, period, closed, o.Forced(force))
        case Ok(xs) => r == Ok(Instants(xs))
        case Err(e) => r == Err(e)
  {
    if period > Calendar.DAY {
      return Err(Query(Sessions.ValueError));
    }
    if period == Calendar.DAY {
      var days := DaysFor(cal, start, end);
      return if days.Ok? then Ok(Days(days.value)) else Err(Query(days.error));
    }
    var forced := o.Forced(force);
    if intervals {
      var ts := IntervalIndex(cal, start, end, period, closed, forced, curtailOverlaps);
      return if ts.Ok? then Ok(Intervals(ts.value)) else Err(ts.error);
    }
    var xs := InstantIndex(cal, start, end, period, closed, forced);
    return if xs.Ok? then Ok(Instants(xs.value)) else Err(xs.error);
  }

  // ----- what the options do -----

  lemma AlignAllExact(xs: seq<int>, align: int, k: nat)
    requires align != 0 && k < |xs| && xs[k] != NAT && Calendar.WholeMinute(xs[k])
    ensures AlignedTo(AlignAll(xs, align)[k], xs[k], align)
  {
    if align == Calendar.MINUTE {
      WholeIsMultiple(xs[k]);
    } else {
      AlignToExact(xs[k], align);
    }
  }

  lemma WholeIsMultiple(t: int)
    requires Calendar.WholeMinute(t)
    ensures t == Times(t / 60_000_000_000, 60_000_000_000)
  {}

  /** The opens of an index are the calendar's, each moved to the only multiple of `align`
      less than a step away on the side asked for; its break ends likewise by `align_pm`;
      its other bounds are the calendar's own, and its breaks unless they are ignored. */
  lemma StartsAligned(cal: Calendar.Calendar, o: Options, k: nat)
    requires Calendar.WellFormed(cal) && o.Valid() && k < |cal.sessions|
    ensures var c := ColsOf(cal, o);
      && AlignedTo(c.opens[k], cal.opens[k], o.align)
      && (forall u :: AlignedTo(u, cal.opens[k], o.align) ==> u == c.opens[k])
      && (cal.HasBreakAt(k) ==> AlignedTo(c.breakEnds[k], cal.breakEnds[k], o.alignPm))
      && (cal.HasBreakAt(k) ==> forall u :: AlignedTo(u, cal.breakEnds[k], o.alignPm) ==> u == c.breakEnds[k])
      && c.breakStarts[k] == cal.breakStarts[k] && c.closes[k] == cal.closes[k]
      && (c.mask[k] <==> cal.HasBreakAt(k) && !o.ignoreBreaks)
  {
    var c := ColsOf(cal, o);
    assert Calendar.SessionWellFormed(cal, k);
    AlignAllExact(cal.opens, o.align, k);
    forall u | AlignedTo(u, cal.opens[k], o.align) ensures u == c.opens[k] {
      OnlyAligned(u, c.opens[k], cal.opens[k], o.align);
    }
    if cal.HasBreakAt(k) {
      AlignAllExact(cal.breakEnds, o.alignPm, k);
      forall u | AlignedTo(u, cal.breakEnds[k], o.alignPm) ensures u == c.breakEnds[k] {
        OnlyAligned(u, c.breakEnds[k], cal.breakEnds[k], o.alignPm);
      }
    }
  }

  /** With one session from 0:01 to 1:00 and five minutes the grid starts at 0:05. */
  lemma AlignsForward()
    ensures AlignTo(60_000_000_000, 300_000_000_000) == 300_000_000_000
    ensures AlignTo(60_000_000_000, -300_000_000_000) == 0
  {
    CeilUnique(60_000_000_000, 1, 300_000_000_000);
    CeilUnique(-60_000_000_000, 0, 300_000_000_000);
  }

  /** `force` decides for all windows alike, and moves nothing. */
  lemma ForceMeans(cal: Calendar.Calendar, o: Options, force: bool)
    requires cal.Aligned() && o.Valid()
    ensures var c, d := ColsOf(cal, o), ColsOf(cal, o.Forced(Some(force)));
      && SameArrays(c, d)
      && forall w :: w in d.Windows() ==> w.forced == force
    ensures o.Forced(None) == o
  {
    var d := ColsOf(cal, o.Forced(Some(force)));
    if force {
      AllForced(d);
    } else {
      NoneForced(d);
    }
  }

  /** Without `force` each flag is for its own ends: a window that ends at the close is
      forced by `force_close`, one that ends at a break by `force_break_close`. */
  lemma FlagsMean(cal: Calendar.Calendar, o: Options, k: nat)
    requires cal.Aligned() && o.Valid() && k < |cal.sessions|
    ensures var ws := Cut(ColsOf(cal, o), k, k + 1).Head();
      && ws[|ws| - 1].forced == o.forceClose
      && (|ws| == 2 <==> cal.HasBreakAt(k) && !o.ignoreBreaks) && |ws| <= 2
      && (|ws| == 2 ==> ws[0].forced == o.forceBreakClose)
  {}

  /** A date is out of bounds exactly before the first session or after the last, a
      minute exactly before the first trading minute or after the last. */
  lemma EndpointErrors(cal: Calendar.Calendar, e: Endpoint, direction: Sessions.Direction)
    requires Calendar.WellFormed(cal)
    ensures var out := match e
        case Date(d) => !(cal.sessions[0] <= d <= cal.sessions[|cal.sessions| - 1])
        case Minute(m) => !Sessions.InBounds(cal, m);
      && (out && e.Date? ==> Label(cal, e, direction) == Err(Sessions.DateOutOfBounds))
      && (out && e.Minute? ==> Label(cal, e, direction) == Err(Sessions.MinuteOutOfBounds))
      && (!out && e.Date? ==> Label(cal, e, direction) == Ok(e.day) == DayLabel(cal, e))
      && (out && e.Date? ==> DayLabel(cal, e) == Err(Sessions.DateOutOfBounds))
      && (e.Minute? ==> DayLabel(cal, e) == Err(Sessions.ValueError))
  {
    if e.Minute? {
      Sessions.BoundsExact(cal, e.at);
    }
  }

  /** The error of the start comes before that of the end. */
  lemma SliceErrors(cal: Calendar.Calendar, start: Endpoint, end: Endpoint)
    requires Calendar.WellFormed(cal)
    ensures Label(cal, start, Sessions.Next).Err? ==>
      SessionSlice(cal, start, end) == Err(Label(cal, start, Sessions.Next).error)
    ensures Label(cal, start, Sessions.Next).Ok? && Label(cal, end, Sessions.Previous).Err? ==>
      SessionSlice(cal, start, end) == Err(Label(cal, end, Sessions.Previous).error)
    ensures Label(cal, start, Sessions.Next).Ok? && Label(cal, end, Sessions.Previous).Ok? ==>
      SessionSlice(cal, start, end).Ok?
  {}
}
