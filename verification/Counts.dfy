/** `sessions_minutes` and `sessions_minutes_count`: the flat slice against the closed form. */
module Counts {
  import opened Arrays
  import opened Calendar
  import opened Sessions

  predicate DateOob(cal: Calendar, date: int)
    requires cal.sessions != []
  {
    date < cal.sessions[0] || date > cal.sessions[|cal.sessions| - 1]
  }

  /** date_to_session, for a date within the calendar */
  function DateToSession(cal: Calendar, date: int, direction: Direction): Result<int, Error>
    requires WellFormed(cal) && !DateOob(cal, date)
  {
    var idx := SearchLeft(cal.sessions, date);
    assert idx < |cal.sessions| by { assert cal.sessions[|cal.sessions| - 1] >= date; }
    if cal.sessions[idx] == date then Ok(date)
    else match direction
      case Next => Ok(cal.sessions[idx])
      case Previous => Ok(cal.sessions[Wrap(idx - 1, |cal.sessions|)])
      case _ => Err(ValueError)
  }

  /** xs[start:stop] */
  function Slice(xs: seq<int>, start: nat, stop: nat): (r: seq<int>)
    requires start <= |xs| && stop <= |xs|
    ensures |r| == if start <= stop then stop - start else 0
  {
    if start <= stop then xs[start..stop] else []
  }

  /** minutes_in_range */
  function MinutesInRange(cal: Calendar, first: int, last: int): seq<int>
    requires cal.Aligned()
  {
    Slice(Minutes(cal), SearchLeft(Minutes(cal), first), SearchRight(Minutes(cal), last))
  }

  function SessionsMinutes(cal: Calendar, start: int, end: int): Result<seq<int>, Error>
    requires WellFormed(cal)
  {
    if DateOob(cal, start) || DateOob(cal, end) then Err(DateOutOfBounds)
    else
      var startSession :- DateToSession(cal, start, Next);
      var endSession :- DateToSession(cal, end, Previous);
      var i, j := SearchLeft(cal.sessions, startSession), SearchLeft(cal.sessions, endSession);
      MinuteArrays(cal);
      if i < |cal.sessions| && j < |cal.sessions| then
        Ok(MinutesInRange(cal, FirstMinutes(cal)[i], LastMinutes(cal)[j]))
      else Err(IndexError)
  }

  function Subtract(a: seq<int>, b: seq<int>): (r: seq<int>)
    requires |a| == |b|
    ensures |r| == |a|
    ensures forall i :: 0 <= i < |r| ==> r[i] == a[i] - b[i]
  {
    seq(|a|, i requires 0 <= i < |a| => a[i] - b[i])
  }

  function PlusMinute(xs: seq<int>): (r: seq<int>)
    ensures |r| == |xs|
    ensures forall i :: 0 <= i < |r| ==> r[i] == xs[i] + MINUTE
  {
    seq(|xs|, i requires 0 <= i < |xs| => xs[i] + MINUTE)
  }

  /** xs[xs != 0] -= one minute */
  function MinusMinuteWhereNonZero(xs: seq<int>): (r: seq<int>)
    ensures |r| == |xs|
    ensures forall i :: 0 <= i < |r| ==> r[i] == if xs[i] != 0 then xs[i] - MINUTE else 0
  {
    seq(|xs|, i requires 0 <= i < |xs| => if xs[i] != 0 then xs[i] - MINUTE else 0)
  }

  /** nanos // one minute, rounding down */
  function ToMinutes(d: int): int { d / 60_000_000_000 }

  /** nanos // one minute, entry by entry */
  function FloorMinutes(nanos: seq<int>): (r: seq<int>)
    ensures |r| == |nanos|
    ensures forall i :: 0 <= i < |r| ==> r[i] == ToMinutes(nanos[i])
  {
    seq(|nanos|, i requires 0 <= i < |nanos| => ToMinutes(nanos[i]))
  }

  function Sum(xs: seq<int>): int {
    if xs == [] then 0 else Sum(xs[..|xs| - 1]) + xs[|xs| - 1]
  }

  /** `sessions_minutes_count`: the closed form over the minute arrays counts exactly
      the minutes that `sessions_minutes` lists. */
  method SessionsMinutesCount(cal: Calendar, start: int, end: int) returns (r: Result<int, Error>)
    requires WellFormed(cal)
    ensures SessionsMinutes(cal, start, end).Err? ==> r == Err(DateOutOfBounds)
    ensures SessionsMinutes(cal, start, end).Ok? ==> r == Ok(|SessionsMinutes(cal, start, end).value|)
  {
    if DateOob(cal, start) || DateOob(cal, end) {
      return Err(DateOutOfBounds);
    }
    var sliceStart, sliceEnd := SearchLeft(cal.sessions, start), SearchRight(cal.sessions, end);
    SliceMinutes(cal, start, end);
    var nanos := ClosedForm(cal, sliceStart, sliceEnd);
    if sliceStart <= sliceEnd {
      FloorsAreLengths(cal, sliceStart, nanos);
      SumIsLength(cal, sliceStart, sliceEnd, FloorMinutes(nanos));
    }
    return Ok(Sum(FloorMinutes(nanos)));
  }

  /** The nanoseconds of each session of the slice, from the four minute arrays. */
  method ClosedForm(cal: Calendar, sliceStart: nat, sliceEnd: nat) returns (nanos: seq<int>)
    requires WellFormed(cal) && sliceStart <= |cal.sessions| && sliceEnd <= |cal.sessions|
    ensures |nanos| == if sliceStart <= sliceEnd then sliceEnd - sliceStart else 0
    ensures forall k :: 0 <= k < |nanos| ==> nanos[k] == SessionNanos(cal, sliceStart + k)
  {
    MinuteArrays(cal);
    var sessionDiff := Subtract(Slice(LastMinutes(cal), sliceStart, sliceEnd),
      Slice(FirstMinutes(cal), sliceStart, sliceEnd));
    sessionDiff := PlusMinute(sessionDiff);
    var breakDiff := Subtract(Slice(FirstPmMinutes(cal), sliceStart, sliceEnd),
      Slice(LastAmMinutes(cal), sliceStart, sliceEnd));
    breakDiff := MinusMinuteWhereNonZero(breakDiff);
    nanos := Subtract(sessionDiff, breakDiff);
  }

  /** The entry of the closed form for one session. */
  function SessionNanos(cal: Calendar, i: nat): int
    requires i < |cal.opens| == |cal.closes| == |cal.breakStarts| == |cal.breakEnds|
  {
    var breakDiff := FirstPm(cal, i) - LastAm(cal, i);
    Last(cal, i) - First(cal, i) + MINUTE - (if breakDiff != 0 then breakDiff - MINUTE else 0)
  }

  /** NaT minus NaT is zero, and the difference across a real break never is. */
  lemma SessionLength(cal: Calendar, i: nat)
    requires WellFormed(cal) && i < |cal.sessions|
    ensures SessionNanos(cal, i) == Nanos(|SessionMinutes(cal, i)|)
    ensures ToMinutes(SessionNanos(cal, i)) == |SessionMinutes(cal, i)|
  {
    MinuteBounds(cal, i);
    if cal.HasBreakAt(i) {
      MorningSpans(cal, i);
      AfternoonSpans(cal, i);
    } else {
      WholeDaySpans(cal, i);
    }
  }

  lemma {:induction false} SumOfParts(parts: seq<seq<int>>, i: nat, j: nat, counts: seq<int>)
    requires i <= j <= |parts| && |counts| == j - i
    requires forall k :: 0 <= k < |counts| ==> counts[k] == |parts[i + k]|
    ensures Sum(counts) == |Joined(parts, j)| - |Joined(parts, i)|
    decreases j
  {
    if i < j {
      SumOfParts(parts, i, j - 1, counts[..|counts| - 1]);
    }
  }

  lemma {:induction false} PartsArePrefix(parts: seq<seq<int>>, i: nat, n: nat)
    requires i <= n <= |parts|
    ensures Joined(parts, i) <= Joined(parts, n)
    decreases n
  {
    if i < n {
      PartsArePrefix(parts, i, n - 1);
    }
  }

  lemma SumIsLength(cal: Calendar, i: nat, j: nat, counts: seq<int>)
    requires cal.Aligned() && i <= j <= |cal.sessions| && |counts| == j - i
    requires forall k :: 0 <= k < |counts| ==> counts[k] == |SessionMinutes(cal, i + k)|
    ensures Sum(counts) == |MinutesUpTo(cal, j)| - |MinutesUpTo(cal, i)|
  {
    SumOfParts(Parts(cal), i, j, counts);
  }

  lemma FloorsAreLengths(cal: Calendar, i: nat, nanos: seq<int>)
    requires WellFormed(cal) && i + |nanos| <= |cal.sessions|
    requires forall k :: 0 <= k < |nanos| ==> nanos[k] == SessionNanos(cal, i + k)
    ensures forall k :: 0 <= k < |nanos| ==> FloorMinutes(nanos)[k] == |SessionMinutes(cal, i + k)|
  {
    forall k | 0 <= k < |nanos|
      ensures FloorMinutes(nanos)[k] == |SessionMinutes(cal, i + k)|
    {
      SessionLength(cal, i + k);
    }
  }

  lemma PrefixOfMinutes(cal: Calendar, i: nat, n: nat)
    requires cal.Aligned() && i <= n <= |cal.sessions|
    ensures MinutesUpTo(cal, i) <= MinutesUpTo(cal, n)
  {
    PartsArePrefix(Parts(cal), i, n);
  }

  lemma SessionInMinutes(cal: Calendar, i: nat)
    requires cal.Aligned() && i < |cal.sessions|
    ensures MinutesUpTo(cal, i) + SessionMinutes(cal, i) <= Minutes(cal)
  {
    var parts := Parts(cal);
    PartsArePrefix(parts, i + 1, |parts|);
    assert Joined(parts, i + 1) == Joined(parts, i) + parts[i];
  }

  lemma SessionStarts(cal: Calendar, i: nat)
    requires WellFormed(cal) && i < |cal.sessions|
    ensures SessionMinutes(cal, i) != [] && SessionMinutes(cal, i)[0] == First(cal, i)
  {
    SessionMinutesExact(cal, i);
  }

  lemma SessionsEnd(cal: Calendar, n: nat)
    requires WellFormed(cal) && 0 < n <= |cal.sessions|
    ensures MinutesUpTo(cal, n) != [] && MinutesUpTo(cal, n)[|MinutesUpTo(cal, n)| - 1] == Last(cal, n - 1)
  {
    MinutesUpToEnds(cal, n);
  }

  lemma MinutesIncrease(cal: Calendar)
    requires WellFormed(cal)
    ensures Increasing(Minutes(cal))
  {
    MinutesExact(cal);
  }

  lemma FoundAfter(xs: seq<int>, a: seq<int>, b: seq<int>)
    requires Increasing(xs) && a + b <= xs && b != []
    ensures SearchLeft(xs, b[0]) == |a|
  {
    assert (a + b)[|a|] == b[0];
    FoundAt(xs, |a|);
  }

  lemma FoundAtEnd(xs: seq<int>, a: seq<int>)
    requires Increasing(xs) && a <= xs && a != []
    ensures SearchRight(xs, a[|a| - 1]) == |a|
  {
    FoundAt(xs, |a| - 1);
  }

  /** The minutes of session `i` start right after those of the sessions before it. */
  lemma FirstMinuteAt(cal: Calendar, i: nat)
    requires WellFormed(cal) && i < |cal.sessions|
    ensures SearchLeft(Minutes(cal), First(cal, i)) == |MinutesUpTo(cal, i)|
  {
    SessionStarts(cal, i);
    SessionInMinutes(cal, i);
    MinutesIncrease(cal);
    FoundAfter(Minutes(cal), MinutesUpTo(cal, i), SessionMinutes(cal, i));
  }

  lemma LastMinuteAt(cal: Calendar, j: nat)
    requires WellFormed(cal) && j < |cal.sessions|
    ensures SearchRight(Minutes(cal), Last(cal, j)) == |MinutesUpTo(cal, j + 1)|
  {
    SessionsEnd(cal, j + 1);
    PrefixOfMinutes(cal, j + 1, |cal.sessions|);
    MinutesIncrease(cal);
    FoundAtEnd(Minutes(cal), MinutesUpTo(cal, j + 1));
  }

  lemma FoundAt(xs: seq<int>, u: nat)
    requires Increasing(xs) && u < |xs|
    ensures SearchLeft(xs, xs[u]) == u && SearchRight(xs, xs[u]) == u + 1
  {
    var l, r := SearchLeft(xs, xs[u]), SearchRight(xs, xs[u]);
    assert l <= u < r;
    assert u + 1 < |xs| ==> xs[u] < xs[u + 1];
  }

  /** The sessions chosen by date are those of the slice of labels. */
  lemma DatesToSlice(cal: Calendar, start: int, end: int)
    requires WellFormed(cal) && !DateOob(cal, start) && !DateOob(cal, end)
    ensures var i, j := SearchLeft(cal.sessions, start), SearchRight(cal.sessions, end);
      && i < |cal.sessions| && 0 < j
      && DateToSession(cal, start, Next) == Ok(cal.sessions[i])
      && DateToSession(cal, end, Previous) == Ok(cal.sessions[j - 1])
  {
    var n := |cal.sessions|;
    assert cal.sessions[n - 1] >= start && cal.sessions[n - 1] >= end && cal.sessions[0] <= end;
    var l, r := SearchLeft(cal.sessions, end), SearchRight(cal.sessions, end);
    if cal.sessions[l] == end {
      FoundAt(cal.sessions, l);
    } else {
      assert forall k :: l <= k < n ==> cal.sessions[l] <= cal.sessions[k];
      assert r == l;
    }
  }

  /** The minutes listed are those of the sessions in the slice; none when it is empty. */
  lemma SliceMinutes(cal: Calendar, start: int, end: int)
    requires WellFormed(cal) && !DateOob(cal, start) && !DateOob(cal, end)
    ensures var i, j := SearchLeft(cal.sessions, start), SearchRight(cal.sessions, end);
      && SessionsMinutes(cal, start, end).Ok?
      && |SessionsMinutes(cal, start, end).value|
        == if i <= j then |MinutesUpTo(cal, j)| - |MinutesUpTo(cal, i)| else 0
  {
    var i, j := SearchLeft(cal.sessions, start), SearchRight(cal.sessions, end);
    DatesToSlice(cal, start, end);
    LabelAt(cal, i);
    LabelAt(cal, j - 1);
    FirstMinuteAt(cal, i);
    LastMinuteAt(cal, j - 1);
    MinuteArrays(cal);
    if i <= j {
      PrefixOfMinutes(cal, i, j);
    } else {
      PrefixOfMinutes(cal, j, i);
    }
  }

  // ----- which minutes -----

  lemma SliceBySearch(xs: seq<int>, first: int, last: int)
    requires Increasing(xs)
    ensures var r := Slice(xs, SearchLeft(xs, first), SearchRight(xs, last));
      Increasing(r) && forall t :: t in r <==> t in xs && first <= t <= last
  {
    var i, j := SearchLeft(xs, first), SearchRight(xs, last);
    var r := Slice(xs, i, j);
    forall t
      ensures t in r <==> t in xs && first <= t <= last
    {
      if t in r {
        var u :| 0 <= u < |r| && r[u] == t;
        assert xs[i] <= xs[i + u] == t;
      }
      if t in xs && first <= t <= last {
        var u :| 0 <= u < |xs| && xs[u] == t;
        assert j < |xs| ==> last < xs[j];
        assert i <= u < j;
        assert r[u - i] == t;
      }
    }
  }

  /** `minutes_in_range`: in order, the trading minutes from `first` to `last`. */
  lemma MinutesInRangeExact(cal: Calendar, first: int, last: int)
    requires WellFormed(cal)
    ensures var r := MinutesInRange(cal, first, last);
      && Increasing(r)
      && forall t :: t in r <==> WholeMinute(t) && OpenAt(cal, cal.side, t) && first <= t <= last
  {
    MinutesExact(cal);
    SliceBySearch(Minutes(cal), first, last);
  }

  /** `t` is a trading minute of a session labelled from `start` to `end`. */
  ghost predicate MinuteOf(cal: Calendar, start: int, end: int, t: int)
    requires cal.Aligned()
  {
    exists k :: 0 <= k < |cal.sessions| && start <= cal.sessions[k] <= end && MinuteIn(cal, k, t)
  }

  lemma BetweenSessions(cal: Calendar, i: nat, j: nat, t: int)
    requires WellFormed(cal) && i < |cal.sessions| && 0 < j <= |cal.sessions|
    ensures WholeMinute(t) && OpenAt(cal, cal.side, t) && First(cal, i) <= t <= Last(cal, j - 1) <==>
      exists k :: i <= k < j && MinuteIn(cal, k, t)
  {
    InSomeIsOpen(cal, t);
    FirstLastIncreasing(cal);
    if InSome(cal, |cal.sessions|, t) && First(cal, i) <= t <= Last(cal, j - 1) {
      var k :| 0 <= k < |cal.sessions| && MinuteIn(cal, k, t);
      assert i <= k < j;
    }
    if k :| i <= k < j && MinuteIn(cal, k, t) {
      assert i < k ==> Last(cal, i) < First(cal, k);
      assert k < j - 1 ==> Last(cal, k) < First(cal, j - 1);
      assert InSome(cal, |cal.sessions|, t);
    }
  }

  /** `sessions_minutes`: an error exactly for a date out of bounds, otherwise in order
      exactly the trading minutes of the sessions labelled from `start` to `end`. */
  lemma SessionsMinutesExact(cal: Calendar, start: int, end: int)
    requires WellFormed(cal)
    ensures var r, first, last := SessionsMinutes(cal, start, end), cal.sessions[0], cal.sessions[|cal.sessions| - 1];
      && (r.Ok? <==> first <= start <= last && first <= end <= last)
      && (r.Err? ==> r.error == DateOutOfBounds)
      && (r.Ok? ==> Increasing(r.value))
      && (r.Ok? ==> forall t :: t in r.value <==> MinuteOf(cal, start, end, t))
  {
    if !DateOob(cal, start) && !DateOob(cal, end) {
      RangeOfSessions(cal, start, end);
      RangeHolds(cal, start, end);
    }
  }

  lemma RangeHolds(cal: Calendar, start: int, end: int)
    requires WellFormed(cal) && !DateOob(cal, start) && !DateOob(cal, end)
    ensures var i, j := SearchLeft(cal.sessions, start), SearchRight(cal.sessions, end);
      && i < |cal.sessions| && 0 < j
      && var r := MinutesInRange(cal, First(cal, i), Last(cal, j - 1));
        && Increasing(r)
        && forall t :: t in r <==> MinuteOf(cal, start, end, t)
  {
    var i, j := SearchLeft(cal.sessions, start), SearchRight(cal.sessions, end);
    DatesToSlice(cal, start, end);
    var r := MinutesInRange(cal, First(cal, i), Last(cal, j - 1));
    MinutesInRangeExact(cal, First(cal, i), Last(cal, j - 1));
    forall t
      ensures t in r <==> MinuteOf(cal, start, end, t)
    {
      BetweenSessions(cal, i, j, t);
      Relabel(cal, start, end, t);
    }
  }

  lemma RangeOfSessions(cal: Calendar, start: int, end: int)
    requires WellFormed(cal) && !DateOob(cal, start) && !DateOob(cal, end)
    ensures var i, j := SearchLeft(cal.sessions, start), SearchRight(cal.sessions, end);
      && i < |cal.sessions| && 0 < j
      && SessionsMinutes(cal, start, end) == Ok(MinutesInRange(cal, First(cal, i), Last(cal, j - 1)))
  {
    var i, j := SearchLeft(cal.sessions, start), SearchRight(cal.sessions, end);
    DatesToSlice(cal, start, end);
    LabelAt(cal, i);
    LabelAt(cal, j - 1);
    MinuteArrays(cal);
  }

  lemma Relabel(cal: Calendar, start: int, end: int, t: int)
    requires WellFormed(cal)
    ensures var i, j := SearchLeft(cal.sessions, start), SearchRight(cal.sessions, end);
      (exists k :: i <= k < j && MinuteIn(cal, k, t)) <==> MinuteOf(cal, start, end, t)
  {
    var i, j := SearchLeft(cal.sessions, start), SearchRight(cal.sessions, end);
    forall k | 0 <= k < |cal.sessions|
      ensures i <= k < j <==> start <= cal.sessions[k] <= end
    {
      assert i < |cal.sessions| && i <= k ==> cal.sessions[i] <= cal.sessions[k];
      assert j < |cal.sessions| && j <= k ==> cal.sessions[j] <= cal.sessions[k];
    }
  }

  /** `date_to_session`: a session for itself; otherwise the first after the date for
      "next", the last before it for "previous", and an error for anything else. */
  lemma DateToSessionExact(cal: Calendar, date: int, direction: Direction)
    requires WellFormed(cal) && !DateOob(cal, date)
    ensures var r := DateToSession(cal, date, direction);
      && (date in cal.sessions ==> r == Ok(date))
      && (date !in cal.sessions && direction == Next ==>
            r.Ok? && r.value in cal.sessions && date < r.value
            && forall s :: s in cal.sessions && date < s ==> r.value <= s)
      && (date !in cal.sessions && direction == Previous ==>
            r.Ok? && r.value in cal.sessions && r.value < date
            && forall s :: s in cal.sessions && s < date ==> s <= r.value)
      && (date !in cal.sessions && direction != Next && direction != Previous ==> r == Err(ValueError))
  {
    var idx := SearchLeft(cal.sessions, date);
    assert idx < |cal.sessions| by { assert cal.sessions[|cal.sessions| - 1] >= date; }
    if date in cal.sessions {
      var k :| 0 <= k < |cal.sessions| && cal.sessions[k] == date;
      LabelAt(cal, k);
    } else {
      assert cal.sessions[idx] != date;
      assert cal.sessions[0] < date;
    }
  }
}
