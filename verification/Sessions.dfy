/** From minutes to sessions: the binary searches of ExchangeCalendar. */
module Sessions {
  import opened Arrays
  import opened Calendar

  datatype Error =
    | ValueError
    | IndexError
    | MinuteOutOfBounds
    | DateOutOfBounds
    | NotTradingMinute
    | RequestedSessionOutOfBounds(tooEarly: bool)
    | RequestedMinuteOutOfBounds(tooEarly: bool)
    | AssertionError

  datatype Direction = Next | Previous | NoDirection | Invalid

  // ----- the queries -----

  function FirstOf(xs: seq<int>): int
    requires xs != []
  {
    xs[0]
  }

  function LastOf(xs: seq<int>): int
    requires xs != []
  {
    xs[|xs| - 1]
  }

  predicate MinuteOob(minutes: seq<int>, m: int)
    requires minutes != []
  {
    m < FirstOf(minutes) || m > LastOf(minutes)
  }

  /** is_trading_minute; the array access needs `m` not to be past the last minute. */
  predicate IsTradingMinute(minutes: seq<int>, m: int)
    requires minutes != [] && m <= LastOf(minutes)
  {
    minutes[SearchLeft(minutes, m)] == m
  }

  /** An index of -1 is the last position. */
  function Wrap(i: int, n: nat): nat
    requires -1 <= i < n && 0 < n
  {
    if i == -1 then n - 1 else i
  }

  predicate IsBreakMinute(cal: Calendar, m: int)
    requires |cal.opens| == |cal.breakStarts| == |cal.breakEnds| && cal.opens != []
    requires |FirstMinutes(cal)| == |cal.opens|
    requires |LastAmMinutes(cal)| == |FirstPmMinutes(cal)| == |cal.opens|
  {
    var sessionIdx := Wrap(SearchLeft(FirstMinutes(cal), m) - 1, |cal.opens|);
    LastAmMinutes(cal)[sessionIdx] < m < FirstPmMinutes(cal)[sessionIdx]
  }

  predicate IsOpenOnMinute(cal: Calendar, m: int, ignoreBreaks: bool)
    requires WellFormed(cal) && m <= Last(cal, |cal.sessions| - 1)
  {
    MinutesExact(cal);
    MinuteArrays(cal);
    if IsTradingMinute(Minutes(cal), m) then true
    else if !ignoreBreaks then false
    else IsBreakMinute(cal, m)
  }

  /** Some session is not over before `m`. */
  lemma LastFound(cal: Calendar, m: int)
    requires WellFormed(cal) && m <= Last(cal, |cal.sessions| - 1)
    ensures |LastMinutes(cal)| == |cal.sessions| && SearchLeft(LastMinutes(cal), m) < |cal.sessions|
  {
    MinuteArrays(cal);
    assert LastMinutes(cal)[|cal.sessions| - 1] >= m;
  }

  function MinuteToSession(cal: Calendar, m: int, direction: Direction): Result<int, Error>
    requires WellFormed(cal)
  {
    MinutesEnds(cal);
    var minutes := Minutes(cal);
    if m < minutes[0] then
      if direction == Next then Ok(cal.sessions[0]) else Err(ValueError)
    else if m > minutes[|minutes| - 1] then
      if direction == Previous then Ok(cal.sessions[|cal.sessions| - 1]) else Err(ValueError)
    else
      LastFound(cal, m);
      var idx := SearchLeft(LastMinutes(cal), m);
      match direction
      case Next => Ok(cal.sessions[idx])
      case Previous =>
        if !IsOpenOnMinute(cal, m, true) then Ok(cal.sessions[Wrap(idx - 1, |cal.sessions|)]) else Ok(cal.sessions[idx])
      case NoDirection =>
        if !IsOpenOnMinute(cal, m, true) then Err(ValueError) else Ok(cal.sessions[idx])
      case Invalid => Err(ValueError)
  }

  /** session_offset */
  function SessionOffset(cal: Calendar, session: int, count: int): Result<int, Error>
    requires WellFormed(cal)
  {
    var idx := SearchLeft(cal.sessions, session) + count;
    if idx >= |cal.sessions| then Err(RequestedSessionOutOfBounds(false))
    else if idx < 0 then Err(RequestedSessionOutOfBounds(true))
    else Ok(cal.sessions[idx])
  }

  /** session_offset, from a session if there is one */
  function OffsetBase(cal: Calendar, base: Result<int, Error>, count: int): Result<int, Error>
    requires WellFormed(cal)
  {
    var session :- base;
    SessionOffset(cal, session, count)
  }

  /** next_session */
  function NextSession(cal: Calendar, session: int): Result<int, Error>
    requires WellFormed(cal)
  {
    var idx := SearchLeft(cal.sessions, session);
    if idx + 1 < |cal.sessions| then Ok(cal.sessions[idx + 1])
    else if idx == |cal.sessions| - 1 then Err(RequestedSessionOutOfBounds(false))
    else Err(IndexError)
  }

  /** previous_session */
  function PreviousSession(cal: Calendar, session: int): Result<int, Error>
    requires WellFormed(cal)
  {
    var idx := SearchLeft(cal.sessions, session);
    if idx == 0 then Err(RequestedSessionOutOfBounds(true)) else Ok(cal.sessions[idx - 1])
  }

  function Before(cal: Calendar, current: Result<int, Error>): Result<int, Error>
    requires WellFormed(cal)
  {
    var session :- current;
    PreviousSession(cal, session)
  }

  function AfterNext(cal: Calendar, current: Result<int, Error>): Result<int, Error>
    requires WellFormed(cal)
  {
    var session :- current;
    NextSession(cal, session)
  }

  /** The session that minute_to_past_session counts back from. */
  function PastBase(cal: Calendar, m: int): Result<int, Error>
    requires WellFormed(cal) && m <= Last(cal, |cal.sessions| - 1)
  {
    if IsOpenOnMinute(cal, m, true) then Before(cal, MinuteToSession(cal, m, Next))
    else MinuteToSession(cal, m, Previous)
  }

  function MinuteToPastSession(cal: Calendar, m: int, count: int): Result<int, Error>
    requires WellFormed(cal)
  {
    MinutesExact(cal);
    if MinuteOob(Minutes(cal), m) then Err(MinuteOutOfBounds)
    else if count <= 0 then Err(ValueError)
    else
      OffsetBase(cal, PastBase(cal, m), -(count - 1))
  }

  /** The session that minute_to_future_session counts on from. */
  function FutureBase(cal: Calendar, m: int): Result<int, Error>
    requires WellFormed(cal) && m <= Last(cal, |cal.sessions| - 1)
  {
    if IsOpenOnMinute(cal, m, true) then AfterNext(cal, MinuteToSession(cal, m, Next))
    else MinuteToSession(cal, m, Next)
  }

  function MinuteToFutureSession(cal: Calendar, m: int, count: int): Result<int, Error>
    requires WellFormed(cal)
  {
    MinutesExact(cal);
    if MinuteOob(Minutes(cal), m) then Err(MinuteOutOfBounds)
    else if count <= 0 then Err(ValueError)
    else
      OffsetBase(cal, FutureBase(cal, m), count - 1)
  }

  // ----- what they mean -----

  /** `m` falls in session `k`, break included. */
  ghost predicate InSession(cal: Calendar, m: int, k: int)
    requires cal.Aligned()
  {
    0 <= k < |cal.sessions| && First(cal, k) <= m <= Last(cal, k)
  }

  ghost predicate InSomeSession(cal: Calendar, m: int)
    requires cal.Aligned()
  {
    exists k :: InSession(cal, m, k)
  }

  ghost predicate InBreak(cal: Calendar, m: int, k: int)
    requires cal.Aligned()
  {
    0 <= k < |cal.sessions| && cal.HasBreakAt(k) && LastAm(cal, k) < m < FirstPm(cal, k)
  }

  /** The least session that is not over before `m`. */
  ghost predicate IsNext(cal: Calendar, m: int, k: int)
    requires cal.Aligned()
  {
    && 0 <= k < |cal.sessions| && m <= Last(cal, k)
    && forall j :: 0 <= j < k ==> Last(cal, j) < m
  }

  /** The greatest session that has begun by `m`. */
  ghost predicate IsPrevious(cal: Calendar, m: int, k: int)
    requires cal.Aligned()
  {
    && 0 <= k < |cal.sessions| && First(cal, k) <= m
    && forall j :: k < j < |cal.sessions| ==> m < First(cal, j)
  }

  ghost predicate InBounds(cal: Calendar, m: int)
    requires cal.Aligned() && cal.sessions != []
  {
    First(cal, 0) <= m <= Last(cal, |cal.sessions| - 1)
  }

  lemma TradingMinuteExact(cal: Calendar, m: int)
    requires WellFormed(cal) && m <= Last(cal, |cal.sessions| - 1)
    ensures Minutes(cal) != [] && m <= LastOf(Minutes(cal))
    ensures IsTradingMinute(Minutes(cal), m) <==> WholeMinute(m) && OpenAt(cal, cal.side, m)
  {
    MinutesExact(cal);
    MemberBySearch(Minutes(cal), m);
  }

  lemma MemberBySearch(xs: seq<int>, v: int)
    requires Increasing(xs) && xs != [] && v <= LastOf(xs)
    ensures IsTradingMinute(xs, v) <==> v in xs
  {
    var r := SearchLeft(xs, v);
    if v in xs {
      var i :| 0 <= i < |xs| && xs[i] == v;
      assert r <= i;
    }
  }

  lemma BreakMinuteExact(cal: Calendar, m: int)
    requires WellFormed(cal) && InBounds(cal, m)
    ensures |FirstMinutes(cal)| == |LastAmMinutes(cal)| == |FirstPmMinutes(cal)| == |cal.opens|
    ensures IsBreakMinute(cal, m) <==> exists k :: InBreak(cal, m, k)
  {
    MinuteArrays(cal);
    var n := |cal.sessions|;
    var s := SearchLeft(FirstMinutes(cal), m) - 1;
    var w := Wrap(s, n);
    MinuteBounds(cal, w);
    FirstLastIncreasing(cal);
    if IsBreakMinute(cal, m) {
      assert InBreak(cal, m, w);
    }
    if k :| InBreak(cal, m, k) {
      MinuteBounds(cal, k);
      BreakIsFound(cal, m, k);
    }
  }

  /** The search lands on the session whose break holds `m`. */
  lemma BreakIsFound(cal: Calendar, m: int, k: int)
    requires WellFormed(cal) && InBreak(cal, m, k)
    ensures |FirstMinutes(cal)| == |cal.sessions|
    ensures SearchLeft(FirstMinutes(cal), m) - 1 == k
  {
    MinuteArrays(cal);
    MinuteBounds(cal, k);
    FirstLastIncreasing(cal);
    var r := SearchLeft(FirstMinutes(cal), m);
    assert FirstMinutes(cal)[k] < m;
    assert k + 1 < |cal.sessions| ==> m < FirstMinutes(cal)[k + 1];
  }

  /** Ignoring breaks, the exchange is open in bounds exactly during a session. */
  lemma OpenOnMinuteExact(cal: Calendar, m: int)
    requires WellFormed(cal) && WholeMinute(m) && InBounds(cal, m)
    ensures IsOpenOnMinute(cal, m, true) <==> InSomeSession(cal, m)
    ensures IsOpenOnMinute(cal, m, false) <==> OpenAt(cal, cal.side, m)
  {
    TradingMinuteExact(cal, m);
    BreakMinuteExact(cal, m);
    InSomeIsOpen(cal, m);
    if InSome(cal, |cal.sessions|, m) {
      var k :| 0 <= k < |cal.sessions| && MinuteIn(cal, k, m);
      assert InSession(cal, m, k);
    }
    if k :| InBreak(cal, m, k) {
      MinuteBounds(cal, k);
      assert InSession(cal, m, k);
    }
    if k :| InSession(cal, m, k) {
      assert MinuteIn(cal, k, m) || InBreak(cal, m, k);
    }
  }

  lemma NextExists(cal: Calendar, m: int) returns (k: nat)
    requires WellFormed(cal) && m <= Last(cal, |cal.sessions| - 1)
    ensures |LastMinutes(cal)| == |cal.sessions| && k == SearchLeft(LastMinutes(cal), m)
    ensures IsNext(cal, m, k)
  {
    MinuteArrays(cal);
    k := SearchLeft(LastMinutes(cal), m);
    assert LastMinutes(cal)[|cal.sessions| - 1] >= m;
    assert forall j :: 0 <= j < k ==> LastMinutes(cal)[j] < m;
  }

  lemma NextUnique(cal: Calendar, m: int, j: int, k: int)
    requires cal.Aligned() && IsNext(cal, m, j) && IsNext(cal, m, k)
    ensures j == k
  {}

  lemma PreviousUnique(cal: Calendar, m: int, j: int, k: int)
    requires cal.Aligned() && IsPrevious(cal, m, j) && IsPrevious(cal, m, k)
    ensures j == k
  {}

  /** A minute of session `k` has `k` as both its next and its previous session. */
  lemma InSessionBoth(cal: Calendar, m: int, k: int)
    requires WellFormed(cal) && InSession(cal, m, k)
    ensures IsNext(cal, m, k) && IsPrevious(cal, m, k) && InBounds(cal, m)
  {
    FirstLastIncreasing(cal);
    MinuteBounds(cal, 0);
    MinuteBounds(cal, |cal.sessions| - 1);
  }

  /** Between sessions, the previous is the one before the next. */
  lemma Gap(cal: Calendar, m: int, k: int)
    requires WellFormed(cal) && InBounds(cal, m) && IsNext(cal, m, k) && !InSomeSession(cal, m)
    ensures 0 < k && IsPrevious(cal, m, k - 1) && m < First(cal, k)
  {
    assert !InSession(cal, m, k);
    FirstLastIncreasing(cal);
    MinuteBounds(cal, k - 1);
  }

  lemma MinutesEnds(cal: Calendar)
    requires WellFormed(cal)
    ensures var r := Minutes(cal); r != [] && r[0] == First(cal, 0) && r[|r| - 1] == Last(cal, |cal.sessions| - 1)
  {
    MinutesExact(cal);
  }

  lemma NextFound(cal: Calendar, m: int, k: int)
    requires WellFormed(cal) && WholeMinute(m) && IsNext(cal, m, k)
    ensures MinuteToSession(cal, m, Next) == Ok(cal.sessions[k])
  {
    MinutesEnds(cal);
    FirstLastIncreasing(cal);
    var x := NextExists(cal, m);
    NextUnique(cal, m, k, x);
    if m < First(cal, 0) {
      NextUnique(cal, m, k, 0);
    }
  }

  lemma MinuteToSessionNext(cal: Calendar, m: int)
    requires WellFormed(cal) && WholeMinute(m)
    ensures forall k :: IsNext(cal, m, k) ==> MinuteToSession(cal, m, Next) == Ok(cal.sessions[k])
    ensures (forall k :: !IsNext(cal, m, k)) ==> MinuteToSession(cal, m, Next) == Err(ValueError)
  {
    var n := |cal.sessions|;
    forall k | IsNext(cal, m, k)
      ensures MinuteToSession(cal, m, Next) == Ok(cal.sessions[k])
    {
      NextFound(cal, m, k);
    }
    if m <= Last(cal, n - 1) {
      var k := NextExists(cal, m);
    } else {
      MinutesEnds(cal);
      FirstLastIncreasing(cal);
    }
  }

  lemma MinuteToSessionPrevious(cal: Calendar, m: int)
    requires WellFormed(cal) && WholeMinute(m)
    ensures forall k :: IsPrevious(cal, m, k) ==> MinuteToSession(cal, m, Previous) == Ok(cal.sessions[k])
    ensures (forall k :: !IsPrevious(cal, m, k)) ==> MinuteToSession(cal, m, Previous) == Err(ValueError)
  {
    var n := |cal.sessions|;
    MinutesExact(cal);
    MinuteArrays(cal);
    FirstLastIncreasing(cal);
    forall k | IsPrevious(cal, m, k)
      ensures MinuteToSession(cal, m, Previous) == Ok(cal.sessions[k])
    {
      if InBounds(cal, m) {
        PreviousInBounds(cal, m, k);
      } else {
        assert IsPrevious(cal, m, n - 1);
        PreviousUnique(cal, m, k, n - 1);
      }
    }
    if First(cal, 0) <= m {
      PreviousExists(cal, m);
    }
  }

  lemma PreviousExists(cal: Calendar, m: int)
    requires WellFormed(cal) && First(cal, 0) <= m
    ensures exists k :: IsPrevious(cal, m, k)
  {
    FirstLastIncreasing(cal);
    MinuteArrays(cal);
    var r := SearchRight(FirstMinutes(cal), m);
    assert FirstMinutes(cal)[0] <= m;
    FirstsIncrease(cal);
    assert IsPrevious(cal, m, r - 1);
  }

  lemma FirstsIncrease(cal: Calendar)
    requires WellFormed(cal)
    ensures Increasing(FirstMinutes(cal)) && Increasing(LastMinutes(cal))
  {
    FirstLastIncreasing(cal);
    MinuteArrays(cal);
  }

  lemma PreviousInBounds(cal: Calendar, m: int, k: int)
    requires WellFormed(cal) && WholeMinute(m) && InBounds(cal, m) && IsPrevious(cal, m, k)
    ensures MinuteToSession(cal, m, Previous) == Ok(cal.sessions[k])
  {
    MinutesExact(cal);
    MinuteArrays(cal);
    OpenOnMinuteExact(cal, m);
    var x := NextExists(cal, m);
    NextAndPrevious(cal, m, x, k);
  }

  lemma MinuteToSessionNone(cal: Calendar, m: int)
    requires WellFormed(cal) && WholeMinute(m)
    ensures forall k :: InSession(cal, m, k) ==> MinuteToSession(cal, m, NoDirection) == Ok(cal.sessions[k])
    ensures !InSomeSession(cal, m) ==> MinuteToSession(cal, m, NoDirection) == Err(ValueError)
  {
    MinutesExact(cal);
    MinuteArrays(cal);
    forall k | InSession(cal, m, k)
      ensures MinuteToSession(cal, m, NoDirection) == Ok(cal.sessions[k])
    {
      InSessionBoth(cal, m, k);
      OpenOnMinuteExact(cal, m);
      var x := NextExists(cal, m);
      NextUnique(cal, m, x, k);
    }
    if !InSomeSession(cal, m) && InBounds(cal, m) {
      OpenOnMinuteExact(cal, m);
    }
  }

  // ----- past and future sessions -----

  /** Session `t` is the `count`-th, going back, of those over before `m`. */
  ghost predicate IsPast(cal: Calendar, m: int, count: int, t: int)
    requires cal.Aligned()
  {
    && 0 <= t && 1 <= count && t + count - 1 < |cal.sessions| && Last(cal, t + count - 1) < m
    && (t + count < |cal.sessions| ==> m <= Last(cal, t + count))
  }

  /** Session `t` is the `count`-th of those that begin after `m`. */
  ghost predicate IsFuture(cal: Calendar, m: int, count: int, t: int)
    requires cal.Aligned()
  {
    && t < |cal.sessions| && 1 <= count && 0 <= t - count + 1 && m < First(cal, t - count + 1)
    && (0 <= t - count ==> First(cal, t - count) <= m)
  }

  /** A session label is found at its own position. */
  lemma LabelAt(cal: Calendar, k: nat)
    requires WellFormed(cal) && k < |cal.sessions|
    ensures SearchLeft(cal.sessions, cal.sessions[k]) == k
  {}

  lemma OffsetFrom(cal: Calendar, k: nat, count: int)
    requires WellFormed(cal) && k < |cal.sessions|
    ensures SessionOffset(cal, cal.sessions[k], count) ==
      if k + count >= |cal.sessions| then Err(RequestedSessionOutOfBounds(false))
      else if k + count < 0 then Err(RequestedSessionOutOfBounds(true))
      else Ok(cal.sessions[k + count])
  {
    LabelAt(cal, k);
  }

  lemma PastBaseExact(cal: Calendar, m: int, x: int)
    requires WellFormed(cal) && WholeMinute(m) && InBounds(cal, m) && IsNext(cal, m, x)
    ensures PastBase(cal, m) == if x == 0 then Err(RequestedSessionOutOfBounds(true)) else Ok(cal.sessions[x - 1])
  {
    OpenOnMinuteExact(cal, m);
    if InSomeSession(cal, m) {
      MinuteToSessionNext(cal, m);
      AdjacentSessions(cal, x);
    } else {
      Gap(cal, m, x);
      MinuteToSessionPrevious(cal, m);
    }
  }

  lemma AdjacentSessions(cal: Calendar, k: int)
    requires WellFormed(cal) && 0 <= k < |cal.sessions|
    ensures Before(cal, Ok(cal.sessions[k])) == if k == 0 then Err(RequestedSessionOutOfBounds(true))
      else Ok(cal.sessions[k - 1])
    ensures AfterNext(cal, Ok(cal.sessions[k]))
      == if k + 1 == |cal.sessions| then Err(RequestedSessionOutOfBounds(false)) else Ok(cal.sessions[k + 1])
  {
    LabelAt(cal, k);
  }

  /** The next and the previous session are the same one, or neighbours around `m`. */
  lemma NextAndPrevious(cal: Calendar, m: int, k: int, x: int)
    requires WellFormed(cal) && InBounds(cal, m) && IsNext(cal, m, k) && IsPrevious(cal, m, x)
    ensures if InSomeSession(cal, m) then k == x else k == x + 1
  {
    if j :| InSession(cal, m, j) {
      InSessionBoth(cal, m, j);
      NextUnique(cal, m, j, k);
      PreviousUnique(cal, m, j, x);
    } else {
      Gap(cal, m, k);
      PreviousUnique(cal, m, x, k - 1);
    }
  }

  lemma FutureBaseExact(cal: Calendar, m: int, x: int)
    requires WellFormed(cal) && WholeMinute(m) && InBounds(cal, m) && IsPrevious(cal, m, x)
    ensures FutureBase(cal, m) ==
      if x + 1 == |cal.sessions| then Err(RequestedSessionOutOfBounds(false)) else Ok(cal.sessions[x + 1])
  {
    OpenOnMinuteExact(cal, m);
    MinuteToSessionNext(cal, m);
    var k := NextExists(cal, m);
    NextAndPrevious(cal, m, k, x);
    if InSomeSession(cal, m) {
      AdjacentSessions(cal, x);
    }
  }

  lemma BoundsExact(cal: Calendar, m: int)
    requires WellFormed(cal)
    ensures Minutes(cal) != []
    ensures MinuteOob(Minutes(cal), m) <==> !InBounds(cal, m)
  {
    MinutesExact(cal);
  }

  lemma PastOffset(cal: Calendar, base: Result<int, Error>, count: int, x: int)
    requires WellFormed(cal) && 1 <= count && 0 <= x < |cal.sessions|
    requires base == if x == 0 then Err(RequestedSessionOutOfBounds(true)) else Ok(cal.sessions[x - 1])
    ensures OffsetBase(cal, base, -(count - 1)) ==
      if x - count < 0 then Err(RequestedSessionOutOfBounds(true)) else Ok(cal.sessions[x - count])
  {
    if x > 0 {
      OffsetFrom(cal, x - 1, -(count - 1));
    }
  }

  lemma FutureOffset(cal: Calendar, base: Result<int, Error>, count: int, x: int)
    requires WellFormed(cal) && 1 <= count && 0 <= x < |cal.sessions|
    requires base == if x + 1 == |cal.sessions| then Err(RequestedSessionOutOfBounds(false))
      else Ok(cal.sessions[x + 1])
    ensures OffsetBase(cal, base, count - 1) ==
      if x + count >= |cal.sessions| then Err(RequestedSessionOutOfBounds(false)) else Ok(cal.sessions[x + count])
  {
    if x + 1 < |cal.sessions| {
      OffsetFrom(cal, x + 1, count - 1);
    }
  }

  lemma PastFrom(cal: Calendar, m: int, count: int, x: int)
    requires WellFormed(cal) && WholeMinute(m) && InBounds(cal, m) && 1 <= count && IsNext(cal, m, x)
    ensures MinuteToPastSession(cal, m, count) ==
      if x - count < 0 then Err(RequestedSessionOutOfBounds(true)) else Ok(cal.sessions[x - count])
  {
    BoundsExact(cal, m);
    PastBaseExact(cal, m, x);
    PastOffset(cal, PastBase(cal, m), count, x);
  }

  lemma FutureFrom(cal: Calendar, m: int, count: int, x: int)
    requires WellFormed(cal) && WholeMinute(m) && InBounds(cal, m) && 1 <= count && IsPrevious(cal, m, x)
    ensures MinuteToFutureSession(cal, m, count) ==
      if x + count >= |cal.sessions| then Err(RequestedSessionOutOfBounds(false)) else Ok(cal.sessions[x + count])
  {
    BoundsExact(cal, m);
    FutureBaseExact(cal, m, x);
    FutureOffset(cal, FutureBase(cal, m), count, x);
  }

  lemma PastIs(cal: Calendar, m: int, count: int, t: int, x: int)
    requires WellFormed(cal) && IsNext(cal, m, x)
    ensures IsPast(cal, m, count, t) <==> 1 <= count && 0 <= t && t + count == x
  {
    LastsIncrease(cal);
    if 1 <= count && 0 <= t && t + count < |cal.sessions| && t + count < x {
      assert Last(cal, t + count) < m;
    }
  }

  lemma FutureIs(cal: Calendar, m: int, count: int, t: int, x: int)
    requires WellFormed(cal) && IsPrevious(cal, m, x)
    ensures IsFuture(cal, m, count, t) <==> 1 <= count && t < |cal.sessions| && t - count == x
  {
    LastsIncrease(cal);
    if 1 <= count && t < |cal.sessions| && 0 <= t - count && x < t - count {
      assert m < First(cal, t - count);
    }
  }

  lemma PastMeaning(cal: Calendar, m: int, count: int, x: int, r: Result<int, Error>)
    requires WellFormed(cal) && IsNext(cal, m, x) && 1 <= count
    requires r == if x - count < 0 then Err(RequestedSessionOutOfBounds(true)) else Ok(cal.sessions[x - count])
    ensures forall t :: IsPast(cal, m, count, t) ==> r == Ok(cal.sessions[t])
    ensures (forall t :: !IsPast(cal, m, count, t)) ==> r == Err(RequestedSessionOutOfBounds(true))
  {
    forall t | IsPast(cal, m, count, t)
      ensures t == x - count
    {
      PastIs(cal, m, count, t, x);
    }
    PastIs(cal, m, count, x - count, x);
  }

  lemma FutureMeaning(cal: Calendar, m: int, count: int, x: int, r: Result<int, Error>)
    requires WellFormed(cal) && IsPrevious(cal, m, x) && 1 <= count
    requires r == if x + count >= |cal.sessions| then Err(RequestedSessionOutOfBounds(false))
      else Ok(cal.sessions[x + count])
    ensures forall t :: IsFuture(cal, m, count, t) ==> r == Ok(cal.sessions[t])
    ensures (forall t :: !IsFuture(cal, m, count, t)) ==> r == Err(RequestedSessionOutOfBounds(false))
  {
    forall t | IsFuture(cal, m, count, t)
      ensures t == x + count
    {
      FutureIs(cal, m, count, t, x);
    }
    FutureIs(cal, m, count, x + count, x);
  }

  lemma MinuteToPastExact(cal: Calendar, m: int, count: int)
    requires WellFormed(cal) && WholeMinute(m) && InBounds(cal, m) && 1 <= count
    ensures forall t :: IsPast(cal, m, count, t) ==> MinuteToPastSession(cal, m, count) == Ok(cal.sessions[t])
    ensures (forall t :: !IsPast(cal, m, count, t)) ==>
      MinuteToPastSession(cal, m, count) == Err(RequestedSessionOutOfBounds(true))
  {
    var x := NextExists(cal, m);
    PastFrom(cal, m, count, x);
    PastMeaning(cal, m, count, x, MinuteToPastSession(cal, m, count));
  }

  lemma MinuteToFutureExact(cal: Calendar, m: int, count: int)
    requires WellFormed(cal) && WholeMinute(m) && InBounds(cal, m) && 1 <= count
    ensures forall t :: IsFuture(cal, m, count, t) ==> MinuteToFutureSession(cal, m, count) == Ok(cal.sessions[t])
    ensures (forall t :: !IsFuture(cal, m, count, t)) ==>
      MinuteToFutureSession(cal, m, count) == Err(RequestedSessionOutOfBounds(false))
  {
    PreviousExists(cal, m);
    var x :| IsPrevious(cal, m, x);
    FutureFrom(cal, m, count, x);
    FutureMeaning(cal, m, count, x, MinuteToFutureSession(cal, m, count));
  }

  lemma LastsIncrease(cal: Calendar)
    requires WellFormed(cal)
    ensures forall i, j :: 0 <= i < j < |cal.sessions| ==> First(cal, i) < First(cal, j) && Last(cal, i) < Last(cal, j)
  {
    FirstLastIncreasing(cal);
  }

  /** A direction that is none of the three is refused for every minute. */
  lemma InvalidDirection(cal: Calendar, m: int)
    requires WellFormed(cal)
    ensures MinuteToSession(cal, m, Invalid) == Err(ValueError)
  {
    MinutesEnds(cal);
  }

  /** Out of bounds, and for a count that is not positive, there is only an error. */
  lemma PastAndFutureErrors(cal: Calendar, m: int, count: int)
    requires WellFormed(cal)
    ensures !InBounds(cal, m) ==>
      MinuteToPastSession(cal, m, count) == MinuteToFutureSession(cal, m, count) == Err(MinuteOutOfBounds)
    ensures InBounds(cal, m) && count <= 0 ==>
      MinuteToPastSession(cal, m, count) == MinuteToFutureSession(cal, m, count) == Err(ValueError)
  {
    BoundsExact(cal, m);
  }
}
