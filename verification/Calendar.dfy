/** An exchange calendar as its arrays, and the trading minutes they stand for. */
module Calendar {
  import opened Arrays

  /** Nanoseconds. */
  const MINUTE: int := 60_000_000_000
  const DAY: int := 86_400_000_000_000

  datatype Side = Left | Right | Both | Neither {
    predicate OnLeft() { this == Left || this == Both }
    predicate OnRight() { this == Right || this == Both }
  }

  /** One entry per session; a session without a break has NAT for both break times. */
  datatype Calendar = Calendar(
    sessions: seq<int>, opens: seq<int>, breakStarts: seq<int>, breakEnds: seq<int>, closes: seq<int>, side: Side)
  {
    ghost predicate Aligned() {
      |sessions| == |opens| == |breakStarts| == |breakEnds| == |closes|
    }

    predicate HasBreakAt(i: nat)
      requires i < |breakStarts|
    {
      breakStarts[i] != NAT
    }
  }

  // The literal keeps the solver's arithmetic linear.

  predicate WholeMinute(t: int) { t % 60_000_000_000 == 0 }

  /** n minutes in nanoseconds */
  function Nanos(n: int): int { n * 60_000_000_000 }

  function Later(d: int, t: int): int { if t != NAT then t + d else t }

  /** one_minute_later */
  function OneMinuteLater(xs: seq<int>): (r: seq<int>)
    ensures |r| == |xs|
    ensures forall i :: 0 <= i < |r| ==> r[i] == Later(MINUTE, xs[i])
  {
    seq(|xs|, i requires 0 <= i < |xs| => Later(MINUTE, xs[i]))
  }

  /** one_minute_earlier */
  function OneMinuteEarlier(xs: seq<int>): (r: seq<int>)
    ensures |r| == |xs|
    ensures forall i :: 0 <= i < |r| ==> r[i] == Later(-MINUTE, xs[i])
  {
    seq(|xs|, i requires 0 <= i < |xs| => Later(-MINUTE, xs[i]))
  }

  // The first and last minutes of each session, and of its halves, as arrays.

  function FirstMinutes(cal: Calendar): seq<int> {
    if cal.side.OnLeft() then cal.opens else OneMinuteLater(cal.opens)
  }

  function LastMinutes(cal: Calendar): seq<int> {
    if cal.side.OnRight() then cal.closes else OneMinuteEarlier(cal.closes)
  }

  function LastAmMinutes(cal: Calendar): seq<int> {
    if cal.side.OnRight() then cal.breakStarts else OneMinuteEarlier(cal.breakStarts)
  }

  function FirstPmMinutes(cal: Calendar): seq<int> {
    if cal.side.OnLeft() then cal.breakEnds else OneMinuteLater(cal.breakEnds)
  }

  // The same, one at a time.

  function StartExt(side: Side): int { if side.OnLeft() then 0 else MINUTE }

  function EndExt(side: Side): int { if side.OnRight() then MINUTE else 0 }

  function First(cal: Calendar, i: nat): int
    requires i < |cal.opens|
  {
    cal.opens[i] + StartExt(cal.side)
  }

  function Last(cal: Calendar, i: nat): int
    requires i < |cal.closes|
  {
    cal.closes[i] + EndExt(cal.side) - MINUTE
  }

  function LastAm(cal: Calendar, i: nat): int
    requires i < |cal.breakStarts|
  {
    Later(EndExt(cal.side) - MINUTE, cal.breakStarts[i])
  }

  function FirstPm(cal: Calendar, i: nat): int
    requires i < |cal.breakEnds|
  {
    Later(StartExt(cal.side), cal.breakEnds[i])
  }

  /** What the schedule is assumed to satisfy in one session. */
  ghost predicate SessionWellFormed(cal: Calendar, i: nat)
    requires cal.Aligned() && i < |cal.sessions|
  {
    var o, bs, be, c := cal.opens[i], cal.breakStarts[i], cal.breakEnds[i], cal.closes[i];
    && WholeMinute(o) && WholeMinute(c) && NAT + MINUTE < o < c
    && First(cal, i) <= Last(cal, i)
    && (bs == NAT <==> be == NAT)
    && (bs != NAT ==>
      && WholeMinute(bs) && WholeMinute(be) && o < bs < be < c
      && First(cal, i) <= LastAm(cal, i)
      && FirstPm(cal, i) <= Last(cal, i))
  }

  ghost predicate WellFormed(cal: Calendar) {
    && cal.Aligned() && cal.sessions != []
    && Increasing(cal.sessions)
    && (forall i :: 0 <= i < |cal.sessions| ==> SessionWellFormed(cal, i))
    && (forall i :: 0 <= i < |cal.sessions| - 1 ==> NextFollows(cal, i))
  }

  /** A session is over when the next one begins, and shares no minute with it. */
  ghost predicate NextFollows(cal: Calendar, i: nat)
    requires cal.Aligned() && i < |cal.sessions| - 1
  {
    cal.closes[i] <= cal.opens[i + 1] && Last(cal, i) < First(cal, i + 1)
  }

  lemma MinuteArrays(cal: Calendar)
    requires WellFormed(cal)
    ensures |FirstMinutes(cal)| == |LastMinutes(cal)| == |LastAmMinutes(cal)| == |FirstPmMinutes(cal)| == |cal.sessions|
    ensures forall i :: 0 <= i < |cal.sessions| ==> FirstMinutes(cal)[i] == First(cal, i)
    ensures forall i :: 0 <= i < |cal.sessions| ==> LastMinutes(cal)[i] == Last(cal, i)
    ensures forall i :: 0 <= i < |cal.sessions| ==> LastAmMinutes(cal)[i] == LastAm(cal, i)
    ensures forall i :: 0 <= i < |cal.sessions| ==> FirstPmMinutes(cal)[i] == FirstPm(cal, i)
  {
    forall i | 0 <= i < |cal.sessions|
      ensures cal.opens[i] != NAT && cal.closes[i] != NAT
    {
      assert SessionWellFormed(cal, i);
    }
  }

  // ----- what a trading minute is -----

  /** `t` falls between the bounds, each bound counting as the side says. */
  predicate Between(side: Side, start: int, t: int, end: int) {
    && (if side.OnLeft() then start <= t else start < t)
    && (if side.OnRight() then t <= end else t < end)
  }

  /** The exchange is open at `t` in session `i`. */
  ghost predicate OpenIn(cal: Calendar, side: Side, i: int, t: int)
    requires cal.Aligned()
  {
    && 0 <= i < |cal.sessions|
    && if cal.HasBreakAt(i) then
         Between(side, cal.opens[i], t, cal.breakStarts[i]) || Between(side, cal.breakEnds[i], t, cal.closes[i])
       else Between(side, cal.opens[i], t, cal.closes[i])
  }

  ghost predicate OpenAt(cal: Calendar, side: Side, t: int)
    requires cal.Aligned()
  {
    exists i :: OpenIn(cal, side, i, t)
  }

  // ----- compute_minutes -----

  /** np.arange(start, stop, one minute) */
  function ArangeMinutes(start: int, stop: int): seq<int>
    decreases stop - start
  {
    if start < stop then [start] + ArangeMinutes(start + MINUTE, stop) else []
  }

  // The three ranges, from a bound moved by `start_ext` to one moved by `end_ext`.

  function Morning(cal: Calendar, i: nat): seq<int>
    requires cal.Aligned() && i < |cal.sessions|
  {
    ArangeMinutes(cal.opens[i] + StartExt(cal.side), cal.breakStarts[i] + EndExt(cal.side))
  }

  function Afternoon(cal: Calendar, i: nat): seq<int>
    requires cal.Aligned() && i < |cal.sessions|
  {
    ArangeMinutes(cal.breakEnds[i] + StartExt(cal.side), cal.closes[i] + EndExt(cal.side))
  }

  function WholeDay(cal: Calendar, i: nat): seq<int>
    requires cal.Aligned() && i < |cal.sessions|
  {
    ArangeMinutes(cal.opens[i] + StartExt(cal.side), cal.closes[i] + EndExt(cal.side))
  }

  function SessionMinutes(cal: Calendar, i: nat): seq<int>
    requires cal.Aligned() && i < |cal.sessions|
  {
    if cal.HasBreakAt(i) then Morning(cal, i) + Afternoon(cal, i) else WholeDay(cal, i)
  }

  /** The first `n` parts, one after the other. */
  function Joined(parts: seq<seq<int>>, n: nat): seq<int>
    requires n <= |parts|
  {
    if n == 0 then [] else Joined(parts, n - 1) + parts[n - 1]
  }

  /** The minutes of each session. */
  function Parts(cal: Calendar): (r: seq<seq<int>>)
    requires cal.Aligned()
    ensures |r| == |cal.sessions|
    ensures forall i :: 0 <= i < |r| ==> r[i] == SessionMinutes(cal, i)
  {
    seq(|cal.sessions|, i requires 0 <= i < |cal.sessions| => SessionMinutes(cal, i))
  }

  /** The minutes of the first `n` sessions. */
  function MinutesUpTo(cal: Calendar, n: nat): seq<int>
    requires cal.Aligned() && n <= |cal.sessions|
  {
    Joined(Parts(cal), n)
  }

  lemma UpToGrows(cal: Calendar, n: nat)
    requires cal.Aligned() && n < |cal.sessions|
    ensures MinutesUpTo(cal, n + 1) == MinutesUpTo(cal, n) + SessionMinutes(cal, n)
  {
    assert Parts(cal)[n] == SessionMinutes(cal, n);
  }

  function Minutes(cal: Calendar): seq<int>
    requires cal.Aligned()
  {
    MinutesUpTo(cal, |cal.sessions|)
  }

  lemma {:induction false} ConcatenateAppend(xss: seq<seq<int>>, yss: seq<seq<int>>)
    ensures Concatenate(xss + yss) == Concatenate(xss) + Concatenate(yss)
  {
    if xss == [] {
      assert xss + yss == yss;
    } else {
      assert (xss + yss)[1..] == xss[1..] + yss;
      ConcatenateAppend(xss[1..], yss);
    }
  }

  /** The pieces of one session, in the order they are collected. */
  function Pieces(cal: Calendar, i: nat): (r: seq<seq<int>>)
    requires cal.Aligned() && i < |cal.sessions|
    ensures Concatenate(r) == SessionMinutes(cal, i)
  {
    if cal.HasBreakAt(i) then
      ConcatenatePair(Morning(cal, i), Afternoon(cal, i));
      [Morning(cal, i), Afternoon(cal, i)]
    else
      [WholeDay(cal, i)]
  }

  lemma ConcatenatePair(a: seq<int>, b: seq<int>)
    ensures Concatenate([a, b]) == a + b
  {
    assert [a, b][1..] == [b];
    assert Concatenate([b]) == b + [];
  }

  /** `compute_minutes`: pieces collected session by session. */
  method ComputeMinutes(cal: Calendar) returns (minutes: seq<int>)
    requires cal.Aligned()
    ensures minutes == Minutes(cal)
  {
    var pieces: seq<seq<int>> := [];
    for i := 0 to |cal.opens|
      invariant Concatenate(pieces) == MinutesUpTo(cal, i)
    {
      ConcatenateAppend(pieces, Pieces(cal, i));
      UpToGrows(cal, i);
      pieces := pieces + Pieces(cal, i);
    }
    minutes := Concatenate(pieces);
  }

  // ----- facts -----

  /** A list holding every whole minute from `first` to `last`. */
  ghost predicate Spans(r: seq<int>, first: int, last: int) {
    && Increasing(r) && r != [] && r[0] == first && r[|r| - 1] == last
    && Nanos(|r| - 1) == last - first
    && forall t :: t in r <==> WholeMinute(t) && first <= t <= last
  }

  lemma {:induction false} Stretch(first: int, last: int)
    requires WholeMinute(first) && WholeMinute(last) && first <= last
    ensures Spans(ArangeMinutes(first, last + MINUTE), first, last)
    decreases last - first
  {
    if first == last {
      assert ArangeMinutes(first, last + MINUTE) == [first];
      NoneBetween(first);
    } else {
      WholeShift(first);
      NoneBetween(first);
      Stretch(first + MINUTE, last);
      SpanCons(first, ArangeMinutes(first + MINUTE, last + MINUTE), last);
    }
  }

  lemma NoneBetween(first: int)
    requires WholeMinute(first)
    ensures forall t :: WholeMinute(t) && first < t ==> first + MINUTE <= t
  {}

  lemma SpanCons(first: int, r: seq<int>, last: int)
    requires WholeMinute(first) && Spans(r, first + MINUTE, last)
    ensures Spans([first] + r, first, last)
  {
    NoneBetween(first);
    assert forall k :: 0 <= k < |r| ==> r[0] <= r[k];
  }

  lemma WholeShift(t: int)
    requires WholeMinute(t)
    ensures WholeMinute(t + MINUTE) && WholeMinute(t - MINUTE)
  {}

  lemma WholeFirst(cal: Calendar, i: nat)
    requires WellFormed(cal) && i < |cal.sessions|
    ensures WholeMinute(First(cal, i)) && cal.opens[i] <= First(cal, i)
  {
    assert SessionWellFormed(cal, i);
    WholeShift(cal.opens[i]);
  }

  lemma WholeLast(cal: Calendar, i: nat)
    requires WellFormed(cal) && i < |cal.sessions|
    ensures WholeMinute(Last(cal, i)) && Last(cal, i) <= cal.closes[i]
  {
    assert SessionWellFormed(cal, i);
    WholeShift(cal.closes[i]);
  }

  lemma WholeBreak(cal: Calendar, i: nat)
    requires WellFormed(cal) && i < |cal.sessions| && cal.HasBreakAt(i)
    ensures WholeMinute(LastAm(cal, i)) && WholeMinute(FirstPm(cal, i))
    ensures LastAm(cal, i) < FirstPm(cal, i)
  {
    assert SessionWellFormed(cal, i);
    WholeShift(cal.breakStarts[i]);
    WholeShift(cal.breakEnds[i]);
  }

  lemma MinuteBounds(cal: Calendar, i: nat)
    requires WellFormed(cal) && i < |cal.sessions|
    ensures WholeMinute(First(cal, i)) && WholeMinute(Last(cal, i))
    ensures cal.opens[i] <= First(cal, i) <= Last(cal, i) <= cal.closes[i]
    ensures cal.HasBreakAt(i) ==>
      && WholeMinute(LastAm(cal, i)) && WholeMinute(FirstPm(cal, i))
      && First(cal, i) <= LastAm(cal, i) < FirstPm(cal, i) <= Last(cal, i)
    ensures !cal.HasBreakAt(i) ==> LastAm(cal, i) == FirstPm(cal, i) == NAT
  {
    WholeFirst(cal, i);
    WholeLast(cal, i);
    assert SessionWellFormed(cal, i);
    if cal.HasBreakAt(i) {
      WholeBreak(cal, i);
    }
  }

  /** `t` is a trading minute of session `i`, told by the minute arrays. */
  ghost predicate MinuteIn(cal: Calendar, i: int, t: int)
    requires cal.Aligned()
  {
    && 0 <= i < |cal.sessions| && WholeMinute(t)
    && First(cal, i) <= t <= Last(cal, i)
    && (cal.HasBreakAt(i) ==> t <= LastAm(cal, i) || FirstPm(cal, i) <= t)
  }

  /** One piece: from its first minute to its last. */
  lemma Piece(side: Side, start: int, end: int, first: int, last: int)
    requires WholeMinute(first) && WholeMinute(last) && first <= last
    requires first == start + StartExt(side)
    requires last == end + EndExt(side) - MINUTE
    ensures Spans(ArangeMinutes(start + StartExt(side), end + EndExt(side)), first, last)
  {
    Stretch(first, last);
  }

  lemma SessionMinutesExact(cal: Calendar, i: nat)
    requires WellFormed(cal) && i < |cal.sessions|
    ensures var r := SessionMinutes(cal, i);
      && Increasing(r) && r != [] && r[0] == First(cal, i) && r[|r| - 1] == Last(cal, i)
      && forall t :: t in r <==> MinuteIn(cal, i, t)
  {
    if cal.HasBreakAt(i) {
      SplitMinutes(cal, i);
    } else {
      WholeDaySpans(cal, i);
    }
  }

  lemma MorningSpans(cal: Calendar, i: nat)
    requires WellFormed(cal) && i < |cal.sessions| && cal.HasBreakAt(i)
    ensures Spans(Morning(cal, i), First(cal, i), LastAm(cal, i))
  {
    MinuteBounds(cal, i);
    assert SessionWellFormed(cal, i);
    Piece(cal.side, cal.opens[i], cal.breakStarts[i], First(cal, i), LastAm(cal, i));
  }

  lemma AfternoonSpans(cal: Calendar, i: nat)
    requires WellFormed(cal) && i < |cal.sessions| && cal.HasBreakAt(i)
    ensures Spans(Afternoon(cal, i), FirstPm(cal, i), Last(cal, i))
  {
    MinuteBounds(cal, i);
    assert SessionWellFormed(cal, i);
    Piece(cal.side, cal.breakEnds[i], cal.closes[i], FirstPm(cal, i), Last(cal, i));
  }

  lemma WholeDaySpans(cal: Calendar, i: nat)
    requires WellFormed(cal) && i < |cal.sessions|
    ensures Spans(WholeDay(cal, i), First(cal, i), Last(cal, i))
  {
    MinuteBounds(cal, i);
    assert SessionWellFormed(cal, i);
    Piece(cal.side, cal.opens[i], cal.closes[i], First(cal, i), Last(cal, i));
  }

  lemma SplitMinutes(cal: Calendar, i: nat)
    requires WellFormed(cal) && i < |cal.sessions| && cal.HasBreakAt(i)
    ensures var r := SessionMinutes(cal, i);
      && Increasing(r) && r != [] && r[0] == First(cal, i) && r[|r| - 1] == Last(cal, i)
      && forall t :: t in r <==> MinuteIn(cal, i, t)
  {
    MorningSpans(cal, i);
    AfternoonSpans(cal, i);
    MinuteBounds(cal, i);
    var a, b := Morning(cal, i), Afternoon(cal, i);
    JoinIncreasing(a, b, FirstPm(cal, i));
    assert SessionMinutes(cal, i) == a + b;
  }

  lemma JoinIncreasing(a: seq<int>, b: seq<int>, m: int)
    requires Increasing(a) && Increasing(b)
    requires forall t :: t in a ==> t < m
    requires forall t :: t in b ==> m <= t
    ensures Increasing(a + b)
    ensures forall t :: t in a + b <==> t in a || t in b
  {
    forall i, j | 0 <= i < j < |a + b|
      ensures (a + b)[i] < (a + b)[j]
    {
      assert i < |a| ==> a[i] in a;
      assert |a| <= j ==> b[j - |a|] in b;
    }
  }

  /** For whole minutes, the minute arrays and the open hours say the same. */
  lemma MinuteInIsOpen(cal: Calendar, i: int, t: int)
    requires WellFormed(cal) && WholeMinute(t)
    ensures MinuteIn(cal, i, t) <==> OpenIn(cal, cal.side, i, t)
  {
    if 0 <= i < |cal.sessions| {
      assert SessionWellFormed(cal, i);
    }
  }

  lemma {:induction false} SessionsOrdered(cal: Calendar, i: nat, j: nat)
    requires WellFormed(cal) && i < j < |cal.sessions|
    ensures Last(cal, i) < First(cal, j)
    decreases j
  {
    assert NextFollows(cal, j - 1);
    if i + 1 < j {
      SessionsOrdered(cal, i, j - 1);
      MinuteBounds(cal, j - 1);
    }
  }

  lemma FirstLastIncreasing(cal: Calendar)
    requires WellFormed(cal)
    ensures forall i :: 0 <= i < |cal.sessions| ==> First(cal, i) <= Last(cal, i)
    ensures forall i, j :: 0 <= i < j < |cal.sessions| ==> Last(cal, i) < First(cal, j)
  {
    forall i | 0 <= i < |cal.sessions|
      ensures First(cal, i) <= Last(cal, i)
    {
      MinuteBounds(cal, i);
    }
    forall i, j | 0 <= i < j < |cal.sessions|
      ensures Last(cal, i) < First(cal, j)
    {
      SessionsOrdered(cal, i, j);
    }
  }

  ghost predicate InSome(cal: Calendar, n: nat, t: int)
    requires cal.Aligned()
  {
    exists i :: 0 <= i < n && MinuteIn(cal, i, t)
  }

  lemma InSomeStep(cal: Calendar, n: nat, t: int)
    requires cal.Aligned() && 0 < n
    ensures InSome(cal, n, t) <==> InSome(cal, n - 1, t) || MinuteIn(cal, n - 1, t)
  {}

  /** The minutes of the first `n` sessions, told apart from all others. */
  ghost predicate MinutesOf(cal: Calendar, n: nat, r: seq<int>)
    requires cal.Aligned()
  {
    Increasing(r) && forall t :: t in r <==> InSome(cal, n, t)
  }

  lemma {:induction false} MinutesUpToExact(cal: Calendar, n: nat)
    requires WellFormed(cal) && n <= |cal.sessions|
    ensures MinutesOf(cal, n, MinutesUpTo(cal, n))
  {
    if n > 0 {
      MinutesUpToExact(cal, n - 1);
      UpToGrows(cal, n - 1);
      AddSession(cal, n - 1, MinutesUpTo(cal, n - 1));
    }
  }

  lemma AddSession(cal: Calendar, n: nat, r: seq<int>)
    requires WellFormed(cal) && n < |cal.sessions|
    requires MinutesOf(cal, n, r)
    ensures MinutesOf(cal, n + 1, r + SessionMinutes(cal, n))
  {
    var b := SessionMinutes(cal, n);
    SessionMinutesExact(cal, n);
    EarlierBefore(cal, n);
    JoinIncreasing(r, b, First(cal, n));
    forall t
      ensures t in r + b <==> InSome(cal, n + 1, t)
    {
      InSomeStep(cal, n + 1, t);
    }
  }

  lemma EarlierBefore(cal: Calendar, n: nat)
    requires WellFormed(cal) && n < |cal.sessions|
    ensures forall t :: InSome(cal, n, t) ==> t < First(cal, n)
  {
    FirstLastIncreasing(cal);
  }

  lemma JoinEnds(a: seq<int>, b: seq<int>)
    requires a != [] && b != []
    ensures (a + b)[0] == a[0] && (a + b)[|a + b| - 1] == b[|b| - 1]
  {}

  lemma {:induction false} MinutesUpToEnds(cal: Calendar, n: nat)
    requires WellFormed(cal) && 0 < n <= |cal.sessions|
    ensures var r := MinutesUpTo(cal, n);
      r != [] && r[0] == First(cal, 0) && r[|r| - 1] == Last(cal, n - 1)
  {
    SessionMinutesExact(cal, n - 1);
    UpToGrows(cal, n - 1);
    if n > 1 {
      MinutesUpToEnds(cal, n - 1);
      JoinEnds(MinutesUpTo(cal, n - 1), SessionMinutes(cal, n - 1));
    } else {
      assert MinutesUpTo(cal, 0) == [];
    }
  }

  /** The trading minutes are strictly increasing, and are exactly the whole
      minutes at which the exchange is open. */
  lemma MinutesExact(cal: Calendar)
    requires WellFormed(cal)
    ensures Increasing(Minutes(cal)) && Minutes(cal) != []
    ensures Minutes(cal)[0] == First(cal, 0)
    ensures Minutes(cal)[|Minutes(cal)| - 1] == Last(cal, |cal.sessions| - 1)
    ensures forall t :: t in Minutes(cal) <==> WholeMinute(t) && OpenAt(cal, cal.side, t)
  {
    var n := |cal.sessions|;
    MinutesUpToExact(cal, n);
    MinutesUpToEnds(cal, n);
    forall t
      ensures InSome(cal, n, t) <==> WholeMinute(t) && OpenAt(cal, cal.side, t)
    {
      InSomeIsOpen(cal, t);
    }
  }

  lemma InSomeIsOpen(cal: Calendar, t: int)
    requires WellFormed(cal)
    ensures InSome(cal, |cal.sessions|, t) <==> WholeMinute(t) && OpenAt(cal, cal.side, t)
  {
    if i :| 0 <= i < |cal.sessions| && MinuteIn(cal, i, t) {
      MinuteInIsOpen(cal, i, t);
    }
    if WholeMinute(t) && OpenAt(cal, cal.side, t) {
      var i :| OpenIn(cal, cal.side, i, t);
      MinuteInIsOpen(cal, i, t);
    }
  }

  /** The start of a break is a trading minute exactly for the sides that keep ends, the
      end of a break exactly for those that keep starts. */
  lemma BreakBounds(cal: Calendar, i: nat)
    requires WellFormed(cal) && i < |cal.sessions| && cal.HasBreakAt(i)
    ensures cal.breakStarts[i] in Minutes(cal) <==> cal.side.OnRight()
    ensures cal.breakEnds[i] in Minutes(cal) <==> cal.side.OnLeft()
  {
    assert SessionWellFormed(cal, i);
    InSessionOnly(cal, i, cal.breakStarts[i]);
    InSessionOnly(cal, i, cal.breakEnds[i]);
  }

  /** Between the bounds of a session, only its own minutes are trading minutes. */
  lemma InSessionOnly(cal: Calendar, i: nat, t: int)
    requires WellFormed(cal) && i < |cal.sessions| && WholeMinute(t) && First(cal, i) <= t <= Last(cal, i)
    ensures t in Minutes(cal) <==> MinuteIn(cal, i, t)
  {
    MinutesExact(cal);
    InSomeIsOpen(cal, t);
    FirstLastIncreasing(cal);
  }

  /** Side by side: the open is a trading minute for "left" and "both", the close for
      "right" and "both", the start of a break for "right" and "both", and its end for
      "left" and "both". */
  lemma BoundsBySide(cal: Calendar, i: nat)
    requires WellFormed(cal) && i < |cal.sessions|
    ensures MinuteIn(cal, i, cal.opens[i]) <==> cal.side == Left || cal.side == Both
    ensures MinuteIn(cal, i, cal.closes[i]) <==> cal.side == Right || cal.side == Both
    ensures cal.HasBreakAt(i) ==>
      && (MinuteIn(cal, i, cal.breakStarts[i]) <==> cal.side == Right || cal.side == Both)
      && (MinuteIn(cal, i, cal.breakEnds[i]) <==> cal.side == Left || cal.side == Both)
  {
    assert SessionWellFormed(cal, i);
  }
}
