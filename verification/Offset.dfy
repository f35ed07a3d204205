/** `minute_offset_by_sessions`: the same time of day, some sessions away. */
module Offset {
  import opened Arrays
  import opened Calendar
  import opened Sessions

  /** Session labels are midnights. */
  ghost predicate MidnightLabels(cal: Calendar) {
    forall i :: 0 <= i < |cal.sessions| ==> Midnight(cal.sessions[i])
  }

  predicate Midnight(t: int) { t % 86_400_000_000_000 == 0 }

  /** minute.normalize() */
  function Normalize(t: int): int { t - t % 86_400_000_000_000 }

  /** timedelta.days, rounded down */
  function Days(d: int): int { d / 86_400_000_000_000 }

  function FromDays(n: int): int { n * 86_400_000_000_000 }

  /** The time of day of `m`, on the day as far from `target` as `m` is from `base`. */
  function Moved(m: int, base: int, target: int): int {
    target + (m - Normalize(m)) + FromDays(Days(Normalize(m) - base))
  }

  lemma MovedIs(m: int, base: int, target: int)
    requires Midnight(base)
    ensures Moved(m, base, target) == target + (m - base)
  {
    var d := Normalize(m) - base;
    assert d % 86_400_000_000_000 == 0;
    assert FromDays(Days(d)) == d;
  }

  lemma MidnightIsWhole(t: int)
    requires Midnight(t)
    ensures WholeMinute(t)
  {}

  lemma WholeSum(a: int, b: int)
    requires WholeMinute(a) && WholeMinute(b)
    ensures WholeMinute(a + b) && WholeMinute(a - b)
  {}

  /** Whole minutes between whole minutes. */
  lemma ShiftedWhole(m: int, base: int, target: int)
    requires WholeMinute(m) && Midnight(base) && Midnight(target)
    ensures WholeMinute(target + (m - base))
  {
    MidnightIsWhole(base);
    MidnightIsWhole(target);
    WholeSum(m, base);
    WholeSum(target, m - base);
  }

  /** Where the offset lands, once the target session `t` is known. */
  function Roll(cal: Calendar, x: int, t: nat): Result<int, Error>
    requires WellFormed(cal) && t < |cal.sessions|
  {
    BoundsExact(cal, x);
    MinutesExact(cal);
    MinuteArrays(cal);
    // a minute before the calendar builds an exception that is never raised
    if x > LastOf(Minutes(cal)) then Err(RequestedMinuteOutOfBounds(false))
    else if IsTradingMinute(Minutes(cal), x) && MinuteToSession(cal, x, Next) == Ok(cal.sessions[t]) then Ok(x)
    else if x < FirstMinutes(cal)[t] then Ok(FirstMinutes(cal)[t])
    else if x > LastMinutes(cal)[t] then Ok(LastMinutes(cal)[t])
    else if IsBreakMinute(cal, x) then Ok(LastAmMinutes(cal)[t])
    else Err(AssertionError)
  }

  /** A session that is out of bounds, reported as a minute that is. */
  function AsMinuteError(r: Result<int, Error>, tooEarly: bool): Result<int, Error> {
    if r.Err? && r.error.RequestedSessionOutOfBounds? then Err(RequestedMinuteOutOfBounds(tooEarly)) else r
  }

  function TargetSession(cal: Calendar, m: int, count: int): Result<int, Error>
    requires WellFormed(cal)
  {
    if count > 0 then AsMinuteError(MinuteToFutureSession(cal, m, count), false)
    else AsMinuteError(MinuteToPastSession(cal, m, -count), true)
  }

  /** From the session of `m` to the moved minute and the position of the target
      session, if both sessions are found. */
  function Land(sessions: seq<int>, m: int, targetSession: Result<int, Error>, baseSession: Result<int, Error>)
    : (r: Result<(int, nat), Error>)
    ensures r.Ok? ==> r.value.1 < |sessions|
  {
    var target :- targetSession;
    var base :- baseSession;
    var t := SearchLeft(sessions, target);
    if t < |sessions| then Ok((Moved(m, base, target), t)) else Err(IndexError)
  }

  function RollFrom(cal: Calendar, landing: Result<(int, nat), Error>): Result<int, Error>
    requires WellFormed(cal) && (landing.Ok? ==> landing.value.1 < |cal.sessions|)
  {
    match landing
    case Err(e) => Err(e)
    case Ok((x, t)) => Roll(cal, x, t)
  }

  function MinuteOffsetBySessions(cal: Calendar, m: int, count: int): Result<int, Error>
    requires WellFormed(cal)
  {
    BoundsExact(cal, m);
    MinutesExact(cal);
    if MinuteOob(Minutes(cal), m) || !IsTradingMinute(Minutes(cal), m) then Err(NotTradingMinute)
    else if count == 0 then Ok(m)
    else RollFrom(cal, Land(cal.sessions, m, TargetSession(cal, m, count), MinuteToSession(cal, m, Next)))
  }

  // ----- what it means -----

  /** `r` is the greatest minute of session `t` not after `x`, or its first minute
      when all of them are. */
  ghost predicate IsRolled(cal: Calendar, t: nat, x: int, r: int)
    requires cal.Aligned() && t < |cal.sessions|
  {
    && MinuteIn(cal, t, r)
    && (if x < First(cal, t) then r == First(cal, t)
        else r <= x && forall u :: MinuteIn(cal, t, u) && u <= x ==> u <= r)
  }

  /** A trading minute in bounds belongs to exactly one session. */
  lemma OwnSession(cal: Calendar, m: int) returns (b: nat)
    requires WellFormed(cal) && m <= Last(cal, |cal.sessions| - 1)
    requires WholeMinute(m) && OpenAt(cal, cal.side, m)
    ensures b < |cal.sessions| && MinuteIn(cal, b, m) && InSession(cal, m, b)
    ensures InBounds(cal, m) && MinuteToSession(cal, m, Next) == Ok(cal.sessions[b])
  {
    InSomeIsOpen(cal, m);
    b :| 0 <= b < |cal.sessions| && MinuteIn(cal, b, m);
    InSessionBoth(cal, m, b);
    MinuteToSessionNext(cal, m);
  }

  lemma RollBounds(cal: Calendar, t: nat)
    requires WellFormed(cal) && t < |cal.sessions|
    ensures |FirstMinutes(cal)| == |LastMinutes(cal)| == |LastAmMinutes(cal)| == |cal.sessions|
    ensures FirstMinutes(cal)[t] == First(cal, t) && LastMinutes(cal)[t] == Last(cal, t)
    ensures LastAmMinutes(cal)[t] == LastAm(cal, t)
    ensures MinuteIn(cal, t, First(cal, t)) && MinuteIn(cal, t, Last(cal, t))
    ensures cal.HasBreakAt(t) ==> MinuteIn(cal, t, LastAm(cal, t))
  {
    MinuteArrays(cal);
    MinuteBounds(cal, t);
  }

  /** Landing on a trading minute of the target session. */
  lemma RollOnMinute(cal: Calendar, x: int, t: nat)
    requires WellFormed(cal) && WholeMinute(x) && t < |cal.sessions| && x <= Last(cal, |cal.sessions| - 1)
    requires OpenAt(cal, cal.side, x) && MinuteToSession(cal, x, Next) == Ok(cal.sessions[t])
    ensures IsRolled(cal, t, x, x)
  {
    var k := OwnSession(cal, x);
    LabelAt(cal, k);
    LabelAt(cal, t);
  }

  /** Inside the target session, but on no minute of it: in its break. */
  lemma RollInBreak(cal: Calendar, x: int, t: nat)
    requires WellFormed(cal) && WholeMinute(x) && t < |cal.sessions| && InSession(cal, x, t)
    requires !(OpenAt(cal, cal.side, x) && MinuteToSession(cal, x, Next) == Ok(cal.sessions[t]))
    ensures |FirstMinutes(cal)| == |LastAmMinutes(cal)| == |FirstPmMinutes(cal)| == |cal.opens|
    ensures IsBreakMinute(cal, x) && cal.HasBreakAt(t)
    ensures IsRolled(cal, t, x, LastAm(cal, t))
  {
    InSessionBoth(cal, x, t);
    MinuteToSessionNext(cal, x);
    InSomeIsOpen(cal, x);
    assert !MinuteIn(cal, t, x);
    assert InBreak(cal, x, t);
    BreakMinuteExact(cal, x);
    MinuteBounds(cal, t);
  }

  /** The minute `x` rolled into session `t`: an error past the end of the calendar. */
  ghost predicate Rolled(cal: Calendar, t: nat, x: int, r: Result<int, Error>)
    requires cal.Aligned() && t < |cal.sessions|
  {
    if x > Last(cal, |cal.sessions| - 1) then r == Err(RequestedMinuteOutOfBounds(false))
    else r.Ok? && IsRolled(cal, t, x, r.value)
  }

  /** Whatever minute it is given, `Roll` lands as it should; only a minute past the
      end of the calendar is an error, and the final assertion never fails. */
  lemma RollExact(cal: Calendar, x: int, t: nat)
    requires WellFormed(cal) && WholeMinute(x) && t < |cal.sessions|
    ensures Rolled(cal, t, x, Roll(cal, x, t))
  {
    MinutesExact(cal);
    RollBounds(cal, t);
    if x <= Last(cal, |cal.sessions| - 1) {
      TradingMinuteExact(cal, x);
      if OpenAt(cal, cal.side, x) && MinuteToSession(cal, x, Next) == Ok(cal.sessions[t]) {
        RollOnMinute(cal, x, t);
      } else if First(cal, t) <= x <= Last(cal, t) {
        RollInBreak(cal, x, t);
      }
    }
  }

  /** For a trading minute of session `b` and a non-zero count: an error when the
      target session does not exist or the moved minute passes the end of the
      calendar, otherwise the moved minute rolled into the target session. */
  lemma OffsetExact(cal: Calendar, m: int, count: int, b: nat)
    requires WellFormed(cal) && MidnightLabels(cal) && count != 0
    requires b < |cal.sessions| && MinuteIn(cal, b, m)
    ensures var r := MinuteOffsetBySessions(cal, m, count);
      if b + count < 0 then r == Err(RequestedMinuteOutOfBounds(true))
      else if b + count >= |cal.sessions| then r == Err(RequestedMinuteOutOfBounds(false))
      else Rolled(cal, b + count, cal.sessions[b + count] + (m - cal.sessions[b]), r)
  {
    OffsetIsRoll(cal, m, count, b);
    TargetOf(cal, m, count, b);
    var landing := Land(cal.sessions, m, TargetSession(cal, m, count), Ok(cal.sessions[b]));
    LandsAt(cal, m, count, b, TargetSession(cal, m, count));
    RollMeaning(cal, m, count, b, landing, MinuteOffsetBySessions(cal, m, count));
  }

  lemma RollMeaning(cal: Calendar, m: int, count: int, b: nat,
    landing: Result<(int, nat), Error>, r: Result<int, Error>)
    requires WellFormed(cal) && MidnightLabels(cal) && b < |cal.sessions| && WholeMinute(m)
    requires landing ==
      if b + count < 0 then Err(RequestedMinuteOutOfBounds(true))
      else if b + count >= |cal.sessions| then Err(RequestedMinuteOutOfBounds(false))
      else Ok((cal.sessions[b + count] + (m - cal.sessions[b]), b + count))
    requires r == RollFrom(cal, landing)
    ensures
      if b + count < 0 then r == Err(RequestedMinuteOutOfBounds(true))
      else if b + count >= |cal.sessions| then r == Err(RequestedMinuteOutOfBounds(false))
      else Rolled(cal, b + count, cal.sessions[b + count] + (m - cal.sessions[b]), r)
  {
    if 0 <= b + count < |cal.sessions| {
      ShiftedWhole(m, cal.sessions[b], cal.sessions[b + count]);
      RollsFrom(cal, cal.sessions[b + count] + (m - cal.sessions[b]), b + count);
    } else {
      FailsFrom(cal, landing.error);
    }
  }

  lemma RollsFrom(cal: Calendar, x: int, t: nat)
    requires WellFormed(cal) && WholeMinute(x) && t < |cal.sessions|
    ensures Rolled(cal, t, x, RollFrom(cal, Ok((x, t))))
  {
    RollExact(cal, x, t);
  }

  lemma FailsFrom(cal: Calendar, e: Error)
    requires WellFormed(cal)
    ensures RollFrom(cal, Err(e)) == Err(e)
  {}

  lemma TradingMinuteAt(cal: Calendar, m: int, b: nat)
    requires WellFormed(cal) && b < |cal.sessions| && MinuteIn(cal, b, m)
    ensures Minutes(cal) != [] && !MinuteOob(Minutes(cal), m) && IsTradingMinute(Minutes(cal), m)
    ensures MinuteToSession(cal, m, Next) == Ok(cal.sessions[b])
  {
    InSessionBoth(cal, m, b);
    InSomeIsOpen(cal, m);
    assert InSome(cal, |cal.sessions|, m);
    TradingMinuteExact(cal, m);
    BoundsExact(cal, m);
    MinuteToSessionNext(cal, m);
  }

  lemma LandsAt(cal: Calendar, m: int, count: int, b: nat, target: Result<int, Error>)
    requires WellFormed(cal) && MidnightLabels(cal) && b < |cal.sessions|
    requires target ==
      if b + count < 0 then Err(RequestedMinuteOutOfBounds(true))
      else if b + count >= |cal.sessions| then Err(RequestedMinuteOutOfBounds(false))
      else Ok(cal.sessions[b + count])
    ensures Land(cal.sessions, m, target, Ok(cal.sessions[b])) ==
      if b + count < 0 then Err(RequestedMinuteOutOfBounds(true))
      else if b + count >= |cal.sessions| then Err(RequestedMinuteOutOfBounds(false))
      else Ok((cal.sessions[b + count] + (m - cal.sessions[b]), b + count))
  {
    if 0 <= b + count < |cal.sessions| {
      LabelAt(cal, b + count);
      MovedIs(m, cal.sessions[b], cal.sessions[b + count]);
    }
  }

  lemma OffsetIsRoll(cal: Calendar, m: int, count: int, b: nat)
    requires WellFormed(cal) && count != 0
    requires b < |cal.sessions| && MinuteIn(cal, b, m)
    ensures MinuteOffsetBySessions(cal, m, count)
      == RollFrom(cal, Land(cal.sessions, m, TargetSession(cal, m, count), Ok(cal.sessions[b])))
  {
    TradingMinuteAt(cal, m, b);
  }

  lemma TargetOf(cal: Calendar, m: int, count: int, b: nat)
    requires WellFormed(cal) && count != 0
    requires b < |cal.sessions| && MinuteIn(cal, b, m)
    ensures TargetSession(cal, m, count) ==
      if b + count < 0 then Err(RequestedMinuteOutOfBounds(true))
      else if b + count >= |cal.sessions| then Err(RequestedMinuteOutOfBounds(false))
      else Ok(cal.sessions[b + count])
  {
    InSessionBoth(cal, m, b);
    TargetExact(cal, m, count, b);
  }

  lemma TargetExact(cal: Calendar, m: int, count: int, b: nat)
    requires WellFormed(cal) && WholeMinute(m) && count != 0
    requires InBounds(cal, m) && IsNext(cal, m, b) && IsPrevious(cal, m, b)
    ensures TargetSession(cal, m, count) ==
      if b + count < 0 then Err(RequestedMinuteOutOfBounds(true))
      else if b + count >= |cal.sessions| then Err(RequestedMinuteOutOfBounds(false))
      else Ok(cal.sessions[b + count])
  {
    if count > 0 {
      TargetAfter(cal, m, count, b);
    } else {
      TargetBefore(cal, m, count, b);
    }
  }

  lemma TargetAfter(cal: Calendar, m: int, count: int, b: nat)
    requires WellFormed(cal) && WholeMinute(m) && 0 < count && InBounds(cal, m) && IsPrevious(cal, m, b)
    ensures TargetSession(cal, m, count) ==
      if b + count >= |cal.sessions| then Err(RequestedMinuteOutOfBounds(false)) else Ok(cal.sessions[b + count])
  {
    FutureFrom(cal, m, count, b);
  }

  lemma TargetBefore(cal: Calendar, m: int, count: int, b: nat)
    requires WellFormed(cal) && WholeMinute(m) && count < 0 && InBounds(cal, m) && IsNext(cal, m, b)
    ensures TargetSession(cal, m, count) ==
      if b + count < 0 then Err(RequestedMinuteOutOfBounds(true)) else Ok(cal.sessions[b + count])
  {
    PastFrom(cal, m, -count, b);
  }

  /** Later minutes of a session are never offset to earlier minutes. */
  lemma OffsetMonotone(cal: Calendar, m1: int, m2: int, count: int, b: nat)
    requires WellFormed(cal) && MidnightLabels(cal) && count != 0
    requires b < |cal.sessions| && MinuteIn(cal, b, m1) && MinuteIn(cal, b, m2) && m1 <= m2
    requires MinuteOffsetBySessions(cal, m2, count).Ok?
    ensures MinuteOffsetBySessions(cal, m1, count).Ok?
    ensures MinuteOffsetBySessions(cal, m1, count).value <= MinuteOffsetBySessions(cal, m2, count).value
  {
    OffsetExact(cal, m1, count, b);
    OffsetExact(cal, m2, count, b);
    var t := b + count;
    RolledMonotone(cal, t, cal.sessions[t] + (m1 - cal.sessions[b]), cal.sessions[t] + (m2 - cal.sessions[b]),
      MinuteOffsetBySessions(cal, m1, count).value, MinuteOffsetBySessions(cal, m2, count).value);
  }

  lemma RolledMonotone(cal: Calendar, t: nat, x1: int, x2: int, r1: int, r2: int)
    requires cal.Aligned() && t < |cal.sessions| && x1 <= x2
    requires IsRolled(cal, t, x1, r1) && IsRolled(cal, t, x2, r2)
    ensures r1 <= r2
  {}

  /** The documented rolling always happens when the target session exists, except
      when the moved minute passes the last minute of the calendar. */
  lemma RollsUnlessPastEnd(cal: Calendar, m: int, count: int, b: nat)
    requires WellFormed(cal) && MidnightLabels(cal) && count != 0
    requires b < |cal.sessions| && MinuteIn(cal, b, m) && 0 <= b + count < |cal.sessions|
    ensures MinuteOffsetBySessions(cal, m, count).Ok? <==>
      cal.sessions[b + count] + (m - cal.sessions[b]) <= Last(cal, |cal.sessions| - 1)
  {
    OffsetExact(cal, m, count, b);
  }

  /** Two sessions from midnight, of two hours and of one. */
  const LATE_CLOSE_THEN_EARLY := Calendar(
    [0, 86_400_000_000_000], [0, 86_400_000_000_000], [NAT, NAT], [NAT, NAT],
    [7_200_000_000_000, 90_000_000_000_000], Side.Left)

  /** A case where it raises instead of rolling back: 01:30 of the first session,
      one session on, the last session having closed at 01:00. */
  lemma RaisesInsteadOfRolling()
    ensures WellFormed(LATE_CLOSE_THEN_EARLY) && MinuteIn(LATE_CLOSE_THEN_EARLY, 0, 5_400_000_000_000)
    ensures MinuteOffsetBySessions(LATE_CLOSE_THEN_EARLY, 5_400_000_000_000, 1)
      == Err(RequestedMinuteOutOfBounds(false))
  {
    var cal := LATE_CLOSE_THEN_EARLY;
    assert SessionWellFormed(cal, 0) && SessionWellFormed(cal, 1);
    assert NextFollows(cal, 0);
    OffsetExact(cal, 5_400_000_000_000, 1, 0);
  }

  /** What is no trading minute is refused, and a count of zero leaves a minute as it is. */
  lemma OffsetOtherwise(cal: Calendar, m: int, count: int)
    requires WellFormed(cal)
    ensures !(WholeMinute(m) && OpenAt(cal, cal.side, m)) ==>
      MinuteOffsetBySessions(cal, m, count) == Err(NotTradingMinute)
    ensures WholeMinute(m) && OpenAt(cal, cal.side, m) ==> MinuteOffsetBySessions(cal, m, 0) == Ok(m)
  {
    BoundsExact(cal, m);
    InSomeIsOpen(cal, m);
    if m <= Last(cal, |cal.sessions| - 1) {
      TradingMinuteExact(cal, m);
    }
    if k :| 0 <= k < |cal.sessions| && MinuteIn(cal, k, m) {
      InSessionBoth(cal, m, k);
      TradingMinuteExact(cal, m);
    }
  }
}
