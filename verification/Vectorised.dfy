/** `minutes_to_sessions`: many minutes at once, and the divider searches. */
module Vectorised {
  import opened Arrays
  import opened Calendar
  import opened Sessions
  import opened Offset

  /** first_min_nanos.searchsorted(minutes, side="right") - 1 */
  function PreviousFirsts(cal: Calendar, ms: seq<int>): (r: seq<int>)
    ensures |r| == |ms|
    ensures forall i :: 0 <= i < |r| ==> r[i] == SearchRight(FirstMinutes(cal), ms[i]) - 1
  {
    seq(|ms|, i requires 0 <= i < |ms| => SearchRight(FirstMinutes(cal), ms[i]) - 1)
  }

  /** last_min_nanos.searchsorted(minutes, side="left") */
  function NextLasts(cal: Calendar, ms: seq<int>): (r: seq<int>)
    ensures |r| == |ms|
    ensures forall i :: 0 <= i < |r| ==> r[i] == SearchLeft(LastMinutes(cal), ms[i])
  {
    seq(|ms|, i requires 0 <= i < |ms| => SearchLeft(LastMinutes(cal), ms[i]))
  }

  /** np.flatnonzero(a != b)[0], or the length when nothing differs */
  function FirstMismatch(a: seq<int>, b: seq<int>): (r: nat)
    requires |a| == |b|
    ensures r <= |a|
    ensures forall i :: 0 <= i < r ==> a[i] == b[i]
    ensures r < |a| ==> a[r] != b[r]
  {
    if a == [] || a[0] != b[0] then 0 else
      var r := FirstMismatch(a[1..], b[1..]);
      assert forall i :: 1 <= i < r + 1 ==> a[i] == a[1..][i - 1] && b[i] == b[1..][i - 1];
      r + 1
  }

  /** self.schedule.index[idx] */
  function Labels(cal: Calendar, idx: seq<int>): (r: seq<int>)
    requires forall i :: 0 <= i < |idx| ==> 0 <= idx[i] < |cal.sessions|
    ensures |r| == |idx|
    ensures forall i :: 0 <= i < |r| ==> r[i] == cal.sessions[idx[i]]
  {
    seq(|idx|, i requires 0 <= i < |idx| => cal.sessions[idx[i]])
  }

  function MinutesToSessions(cal: Calendar, ms: seq<int>): Result<seq<int>, Error>
    requires WellFormed(cal)
  {
    if exists i :: 0 <= i < |ms| - 1 && ms[i] > ms[i + 1] then Err(ValueError)
    else
      var prev := PreviousFirsts(cal, ms);
      var next := NextLasts(cal, ms);
      var bad := FirstMismatch(prev, next);
      if bad < |ms| then
        // the message reads the bounds of the sessions on either side
        if prev[bad] + 1 < |cal.sessions| then Err(ValueError) else Err(IndexError)
      else
        MatchesExact(cal, ms);
        Ok(Labels(cal, prev))
  }

  /** The two searches meet exactly on the session that holds the minute. */
  lemma MatchExact(cal: Calendar, m: int)
    requires WellFormed(cal)
    ensures SearchRight(FirstMinutes(cal), m) - 1 == SearchLeft(LastMinutes(cal), m) ==>
      InSession(cal, m, SearchLeft(LastMinutes(cal), m))
    ensures forall k :: InSession(cal, m, k) ==>
      SearchRight(FirstMinutes(cal), m) - 1 == k && SearchLeft(LastMinutes(cal), m) == k
  {
    MinuteArrays(cal);
    FirstLastIncreasing(cal);
    forall k | InSession(cal, m, k)
      ensures SearchRight(FirstMinutes(cal), m) - 1 == k && SearchLeft(LastMinutes(cal), m) == k
    {
      assert FirstMinutes(cal)[k] <= m <= LastMinutes(cal)[k];
      assert k > 0 ==> LastMinutes(cal)[k - 1] < m;
      assert k + 1 < |cal.sessions| ==> m < FirstMinutes(cal)[k + 1];
      FirstsIncrease(cal);
    }
  }

  lemma MatchesExact(cal: Calendar, ms: seq<int>)
    requires WellFormed(cal)
    ensures var prev, next := PreviousFirsts(cal, ms), NextLasts(cal, ms);
      forall i :: 0 <= i < |ms| && prev[i] == next[i] ==> InSession(cal, ms[i], prev[i])
  {
    forall i | 0 <= i < |ms|
      ensures PreviousFirsts(cal, ms)[i] == NextLasts(cal, ms)[i] ==> InSession(cal, ms[i], PreviousFirsts(cal, ms)[i])
    {
      MatchExact(cal, ms[i]);
    }
  }

  /** For sorted whole minutes, the vectorised lookup succeeds exactly when every
      minute lies in a session, and then equals the one-by-one lookup. */
  lemma SameAsOneByOne(cal: Calendar, ms: seq<int>)
    requires WellFormed(cal) && Sorted(ms)
    requires forall i :: 0 <= i < |ms| ==> WholeMinute(ms[i])
    ensures MinutesToSessions(cal, ms).Ok? <==>
      forall i :: 0 <= i < |ms| ==> MinuteToSession(cal, ms[i], NoDirection).Ok?
    ensures MinutesToSessions(cal, ms).Ok? ==>
      && |MinutesToSessions(cal, ms).value| == |ms|
      && forall i :: 0 <= i < |ms| ==>
        MinuteToSession(cal, ms[i], NoDirection) == Ok(MinutesToSessions(cal, ms).value[i])
  {
    var prev, next := PreviousFirsts(cal, ms), NextLasts(cal, ms);
    MatchesExact(cal, ms);
    forall i | 0 <= i < |ms|
      ensures prev[i] == next[i] <==> MinuteToSession(cal, ms[i], NoDirection).Ok?
      ensures prev[i] == next[i] ==>
        0 <= prev[i] < |cal.sessions| && MinuteToSession(cal, ms[i], NoDirection) == Ok(cal.sessions[prev[i]])
    {
      MatchExact(cal, ms[i]);
      MinuteToSessionNone(cal, ms[i]);
    }
  }

  /** The error is the documented ValueError, unless the first bad minute comes
      after the calendar's last minute: then building the message raises IndexError. */
  lemma WhichError(cal: Calendar, ms: seq<int>, bad: nat)
    requires WellFormed(cal) && Sorted(ms) && bad < |ms|
    requires !InSomeSession(cal, ms[bad])
    requires forall i :: 0 <= i < bad ==> InSomeSession(cal, ms[i])
    ensures MinutesToSessions(cal, ms) ==
      if ms[bad] <= Last(cal, |cal.sessions| - 1) then Err(ValueError) else Err(IndexError)
  {
    var prev, next := PreviousFirsts(cal, ms), NextLasts(cal, ms);
    MatchesExact(cal, ms);
    forall i | 0 <= i < |ms|
      ensures prev[i] == next[i] <==> InSomeSession(cal, ms[i])
    {
      MatchExact(cal, ms[i]);
    }
    assert FirstMismatch(prev, next) == bad;
    MinuteArrays(cal);
    var n := |cal.sessions|;
    if prev[bad] + 1 == n {
      assert FirstMinutes(cal)[n - 1] <= ms[bad];
      assert !InSession(cal, ms[bad], n - 1);
    } else {
      FirstLastIncreasing(cal);
      assert ms[bad] < FirstMinutes(cal)[prev[bad] + 1];
    }
  }

  /** Both errors happen, over a calendar whose last minute is 00:59 of its second
      day: at 01:00 of that day, and at 02:00 of the first, after its close. */
  lemma BothErrorsHappen()
    ensures WellFormed(LATE_CLOSE_THEN_EARLY)
    ensures MinutesToSessions(LATE_CLOSE_THEN_EARLY, [90_000_000_000_000]) == Err(IndexError)
    ensures MinutesToSessions(LATE_CLOSE_THEN_EARLY, [7_200_000_000_000]) == Err(ValueError)
  {
    var cal := LATE_CLOSE_THEN_EARLY;
    RaisesInsteadOfRolling();
    assert forall k :: !InSession(cal, 90_000_000_000_000, k) && !InSession(cal, 7_200_000_000_000, k);
    WhichError(cal, [90_000_000_000_000], 0);
    WhichError(cal, [7_200_000_000_000], 0);
  }

  // ----- next_divider_idx and previous_divider_idx -----

  function NextDividerIdx(dividers: seq<int>, m: int): Result<int, Error> {
    var idx := SearchRight(dividers, m);
    if idx == |dividers| then Err(IndexError)
    else if m == dividers[idx] then Ok(idx + 1)
    else Ok(idx)
  }

  function PreviousDividerIdx(dividers: seq<int>, m: int): Result<int, Error> {
    var idx := SearchLeft(dividers, m);
    if idx == 0 then Err(ValueError) else Ok(idx - 1)
  }

  /** Over increasing dividers these find the neighbours of `m`, and fail exactly
      when there is none; the branch for a divider equal to `m` is never taken. */
  lemma DividersExact(dividers: seq<int>, m: int)
    requires Increasing(dividers)
    ensures forall k :: 0 <= k < |dividers| && m < dividers[k] && (k > 0 ==> dividers[k - 1] <= m) ==>
      NextDividerIdx(dividers, m) == Ok(k)
    ensures (forall k :: 0 <= k < |dividers| ==> dividers[k] <= m) ==> NextDividerIdx(dividers, m) == Err(IndexError)
    ensures forall k :: 0 <= k < |dividers| && dividers[k] < m && (k + 1 < |dividers| ==> m <= dividers[k + 1]) ==>
      PreviousDividerIdx(dividers, m) == Ok(k)
    ensures (forall k :: 0 <= k < |dividers| ==> m <= dividers[k]) ==>
      PreviousDividerIdx(dividers, m) == Err(ValueError)
  {
    var r, l := SearchRight(dividers, m), SearchLeft(dividers, m);
    forall k | 0 <= k < |dividers| && m < dividers[k] && (k > 0 ==> dividers[k - 1] <= m)
      ensures r == k
    {
      assert r <= k;
    }
    forall k | 0 <= k < |dividers| && dividers[k] < m && (k + 1 < |dividers| ==> m <= dividers[k + 1])
      ensures l == k + 1
    {
      assert l < |dividers| ==> m <= dividers[l];
    }
  }

  /** Minutes out of order are refused. */
  lemma UnsortedIsRefused(cal: Calendar, ms: seq<int>)
    requires WellFormed(cal) && !Sorted(ms)
    ensures MinutesToSessions(cal, ms) == Err(ValueError)
  {
    if forall i :: 0 <= i < |ms| - 1 ==> ms[i] <= ms[i + 1] {
      StepsSorted(ms);
    }
  }

  lemma {:induction false} StepsSorted(ms: seq<int>)
    requires forall i :: 0 <= i < |ms| - 1 ==> ms[i] <= ms[i + 1]
    ensures Sorted(ms)
    decreases |ms|
  {
    if ms != [] {
      var rest := ms[..|ms| - 1];
      StepsSorted(rest);
      assert forall i :: 0 <= i < |rest| ==> rest[i] == ms[i];
      assert |ms| > 1 ==> ms[|ms| - 2] <= ms[|ms| - 1];
    }
  }
}
