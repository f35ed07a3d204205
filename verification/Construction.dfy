/** The schedule arrays that a calendar's constructor builds. */
module Construction {
  import opened Arrays
  import opened Schedule
  import opened SpecialDates

  /** What an exchange defines: times with the dates they apply from. */
  datatype Hours = Hours(
    openTimes: seq<Standard>, closeTimes: seq<Standard>,
    breakStartTimes: Option<seq<Standard>>, breakEndTimes: Option<seq<Standard>>,
    openOffset: int, closeOffset: int)

  datatype Times = Times(opens: seq<int>, breakStarts: seq<int>, breakEnds: seq<int>, closes: seq<int>)

  /** The rules for the special opens or closes of an exchange. */
  datatype Special = Special(regular: seq<Rule>, adhoc: seq<Rule>)

  /** The dates that the calendar is built over and those it is closed on. */
  datatype Span = Span(start: int, end: int, adhocHolidays: seq<int>, regularHolidays: seq<int>)

  // ----- standard times -----

  /** The times before any special date; None for a break that is not defined. */
  datatype StandardTimes = StandardTimes(
    opens: seq<int>, breakStarts: Option<seq<int>>, breakEnds: Option<seq<int>>, closes: seq<int>)
  {
    /** One entry for each of `n` sessions. */
    predicate Sized(n: nat) {
      && |opens| == |closes| == n
      && (breakStarts.Some? ==> |breakStarts.value| == n) && (breakEnds.Some? ==> |breakEnds.value| == n)
    }
  }

  /** Times as exchanges must define them: the first undated, the others in date order. */
  ghost predicate Defined(times: seq<Standard>) {
    times != [] && times[0].start.None? && Dated(times)
  }

  ghost predicate HoursDefined(h: Hours) {
    && Defined(h.openTimes) && Defined(h.closeTimes)
    && (h.breakStartTimes.Some? ==> Defined(h.breakStartTimes.value))
    && (h.breakEndTimes.Some? ==> Defined(h.breakEndTimes.value))
  }

  function Grouped(sessions: seq<int>, times: seq<Standard>, offset: int, clock: Clock): seq<int> {
    var r := GroupTimes(sessions, times, offset, clock);
    if r.Ok? then r.value else []
  }

  function GroupedBreaks(sessions: seq<int>, times: Option<seq<Standard>>, clock: Clock): Option<seq<int>> {
    if times.None? then None else Some(Grouped(sessions, times.value, 0, clock))
  }

  function Standing(sessions: seq<int>, h: Hours, clock: Clock): StandardTimes {
    StandardTimes(
      Grouped(sessions, h.openTimes, h.openOffset, clock),
      GroupedBreaks(sessions, h.breakStartTimes, clock),
      GroupedBreaks(sessions, h.breakEndTimes, clock),
      Grouped(sessions, h.closeTimes, h.closeOffset, clock))
  }

  lemma StandingSized(sessions: seq<int>, h: Hours, clock: Clock)
    requires Increasing(sessions) && HoursDefined(h)
    ensures Standing(sessions, h, clock).Sized(|sessions|)
  {
    GroupTimesExact(sessions, h.openTimes, h.openOffset, clock);
    GroupTimesExact(sessions, h.closeTimes, h.closeOffset, clock);
    if h.breakStartTimes.Some? {
      GroupTimesExact(sessions, h.breakStartTimes.value, 0, clock);
    }
    if h.breakEndTimes.Some? {
      GroupTimesExact(sessions, h.breakEndTimes.value, 0, clock);
    }
  }

  // ----- special dates -----

  /** The break time of a session, missing when none is defined. */
  function BreakOr(times: Option<seq<int>>, i: nat): int
    requires times.Some? ==> i < |times.value|
  {
    if times.None? then NAT else times.value[i]
  }

  /** A bound of session `i`: special, or the standard one. */
  function Override(special: Option<int>, standard: int): int {
    if special.Some? then special.value else standard
  }

  /** A session keeps its standard close, and has but one bound of its break. */
  predicate OneSided(specialClose: Option<int>, breakStart: int, breakEnd: int) {
    specialClose.None? && (breakStart == NAT) != (breakEnd == NAT)
  }

  /** Break times, removed on special closes; all missing for an exchange without breaks. */
  method Breaks(sessions: seq<int>, times: Option<seq<int>>, specialCloses: seq<Entry>)
    returns (r: Result<seq<int>, ScheduleError>)
    requires Increasing(sessions) && ByDate(specialCloses)
    requires times.Some? ==> |times.value| == |sessions|
    ensures AllSessions(sessions, specialCloses) ==> r.Ok?
    ensures r.Ok? ==> |r.value| == |sessions|
    ensures r.Ok? ==> forall i :: 0 <= i < |sessions| ==>
      r.value[i] == if Lookup(specialCloses, sessions[i]).Some? then NAT else BreakOr(times, i)
  {
    match times
    case None =>
      r := Ok(Repeated(|sessions|, NAT));
    case Some(standard) =>
      r := RemoveBreaks(sessions, standard, specialCloses);
  }

  /** `_check_breaks_match` */
  method CheckBreaksMatch(breakStarts: seq<int>, breakEnds: seq<int>) returns (raises: bool)
    requires |breakStarts| == |breakEnds|
    ensures raises <==> exists i :: 0 <= i < |breakStarts| && (breakStarts[i] == NAT) != (breakEnds[i] == NAT)
  {
    raises := exists i :: 0 <= i < |breakStarts| && (breakStarts[i] == NAT) != (breakEnds[i] == NAT);
  }

  /** Some date that is no session has a special time. */
  ghost predicate Stray(sessions: seq<int>, special: int -> Option<int>) {
    exists d :: d !in sessions && special(d).Some?
  }

  lemma StrayExactly(sessions: seq<int>, special: int -> Option<int>, series: seq<Entry>)
    requires ByDate(series) && forall d :: Lookup(series, d) == special(d)
    ensures AllSessions(sessions, series) <==> !Stray(sessions, special)
  {
    if d :| d !in sessions && special(d).Some? {
      LookupMember(series, d);
      var k :| 0 <= k < |series| && series[k] == Entry(d, Lookup(series, d).value);
    }
    if !AllSessions(sessions, series) {
      var k :| 0 <= k < |series| && series[k].date !in sessions;
      LookupMember(series, series[k].date);
    }
  }

  /** From standard times and the series of special ones to the schedule: a ValueError
      exactly when a special date is no session or an ordinary session has a one-sided
      break; otherwise the special instants, then the standard times, and no break on a
      special close. */
  method Finish(sessions: seq<int>, standing: StandardTimes, specialOpens: seq<Entry>, specialCloses: seq<Entry>)
    returns (r: Result<Times, ScheduleError>)
    requires Increasing(sessions) && standing.Sized(|sessions|) && ByDate(specialOpens) && ByDate(specialCloses)
    ensures r.Err? <==>
      || !AllSessions(sessions, specialOpens) || !AllSessions(sessions, specialCloses)
      || exists i :: 0 <= i < |sessions| && OneSided(
           Lookup(specialCloses, sessions[i]), BreakOr(standing.breakStarts, i), BreakOr(standing.breakEnds, i))
    ensures r.Err? ==> r.error == ValueError
    ensures r.Ok? ==> Aligned(r.value, |sessions|)
    ensures r.Ok? ==> forall i :: 0 <= i < |sessions| ==> SessionIs(
      r.value, i, standing, Lookup(specialOpens, sessions[i]), Lookup(specialCloses, sessions[i]))
  {
    var opens := AdjustSpecialDates(sessions, standing.opens, specialOpens);
    if opens.Err? {
      return Err(opens.error);
    }
    var closes := AdjustSpecialDates(sessions, standing.closes, specialCloses);
    if closes.Err? {
      return Err(closes.error);
    }
    var breakStarts := Breaks(sessions, standing.breakStarts, specialCloses);
    var breakEnds := Breaks(sessions, standing.breakEnds, specialCloses);
    var mismatch := CheckBreaksMatch(breakStarts.value, breakEnds.value);
    if mismatch {
      return Err(ValueError);
    }
    return Ok(Times(opens.value, breakStarts.value, breakEnds.value, closes.value));
  }

  predicate Aligned(t: Times, n: nat) {
    |t.opens| == |t.breakStarts| == |t.breakEnds| == |t.closes| == n
  }

  /** The row of session `i`. */
  predicate SessionIs(t: Times, i: nat, standing: StandardTimes, specialOpen: Option<int>, specialClose: Option<int>)
    requires Aligned(t, |t.opens|) && i < |t.opens| && standing.Sized(|t.opens|)
  {
    && t.opens[i] == Override(specialOpen, standing.opens[i])
    && t.closes[i] == Override(specialClose, standing.closes[i])
    && t.breakStarts[i] == (if specialClose.Some? then NAT else BreakOr(standing.breakStarts, i))
    && t.breakEnds[i] == (if specialClose.Some? then NAT else BreakOr(standing.breakEnds, i))
  }

  // ----- the constructor -----

  /** The special instant of `d`, by the precedence among the rules. */
  function SpecialFor(rules: Special, span: Span, clock: Clock): int -> Option<int> {
    d => SpecialAt(
      rules.adhoc, rules.regular, span.start, span.end, span.adhocHolidays + span.regularHolidays, clock, d)
  }

  /** The constructor from its rules to its schedule, for an exchange whose hook for
      special offsets makes anything of the standard times but their number. */
  method ScheduleFromRules(
    sessions: seq<int>, h: Hours, hook: StandardTimes -> StandardTimes,
    opening: Special, closing: Special, span: Span, clock: Clock) returns (r: Result<Times, ScheduleError>)
    requires Increasing(sessions)
    requires hook(Standing(sessions, h, clock)).Sized(|sessions|)
    ensures var standing := hook(Standing(sessions, h, clock));
      && (r.Err? <==>
        || Stray(sessions, SpecialFor(opening, span, clock)) || Stray(sessions, SpecialFor(closing, span, clock))
        || exists i :: 0 <= i < |sessions| && OneSided(
             SpecialFor(closing, span, clock)(sessions[i]),
             BreakOr(standing.breakStarts, i), BreakOr(standing.breakEnds, i)))
      && (r.Err? ==> r.error == ValueError)
      && (r.Ok? ==> Aligned(r.value, |sessions|))
      && (r.Ok? ==> forall i :: 0 <= i < |sessions| ==> SessionIs(
        r.value, i, standing,
        SpecialFor(opening, span, clock)(sessions[i]), SpecialFor(closing, span, clock)(sessions[i])))
  {
    var standing := hook(Standing(sessions, h, clock));
    var specialOpens := ComputeSpecialDates(
      opening.regular, opening.adhoc, span.start, span.end, span.adhocHolidays, span.regularHolidays, clock);
    var specialCloses := ComputeSpecialDates(
      closing.regular, closing.adhoc, span.start, span.end, span.adhocHolidays, span.regularHolidays, clock);
    StrayExactly(sessions, SpecialFor(opening, span, clock), specialOpens);
    StrayExactly(sessions, SpecialFor(closing, span, clock), specialCloses);
    r := Finish(sessions, standing, specialOpens, specialCloses);
  }

  // ----- without a hook -----

  /** The open or close of a session: its special instant, or the standard time that applies. */
  ghost predicate BoundExact(times: seq<Standard>, offset: int, special: Option<int>, clock: Clock, s: int, at: int) {
    match special
    case Some(v) => at == v
    case None => forall k :: Applies(times, s, k) ==> at == clock(s, times[k].time, offset)
  }

  /** A break time of a session: none on a special close, otherwise the one that applies. */
  ghost predicate BreakExact(
    times: Option<seq<Standard>>, specialClose: Option<int>, clock: Clock, s: int, at: int)
  {
    if times.None? || specialClose.Some? then at == NAT
    else forall k :: Applies(times.value, s, k) ==> at == clock(s, times.value[k].time, 0)
  }

  lemma SomeApplies(times: seq<Standard>, s: int) returns (k: nat)
    requires Defined(times)
    ensures Applies(times, s, k)
  {
    k := |times| - 1;
    while times[k].start.Some? && s < times[k].start.value
      invariant k < |times|
      invariant forall j :: k < j < |times| && times[j].start.Some? ==> s < times[j].start.value
      decreases k
    {
      k := k - 1;
    }
  }

  /** A standard break is missing exactly when the exchange defines none. */
  lemma BreakMissing(sessions: seq<int>, times: Option<seq<Standard>>, clock: Clock, i: nat)
    requires Increasing(sessions) && i < |sessions| && (times.Some? ==> Defined(times.value))
    requires forall d, t, o :: clock(d, t, o) != NAT
    ensures var breaks := GroupedBreaks(sessions, times, clock);
      && (breaks.Some? ==> |breaks.value| == |sessions|)
      && (BreakOr(breaks, i) == NAT <==> times.None?)
      && (times.Some? ==> forall k :: Applies(times.value, sessions[i], k) ==>
            BreakOr(breaks, i) == clock(sessions[i], times.value[k].time, 0))
  {
    if times.Some? {
      GroupTimesExact(sessions, times.value, 0, clock);
      var k := SomeApplies(times.value, sessions[i]);
    }
  }

  /** The standard break is one-sided exactly when one bound alone is defined and some
      session keeps its standard close. */
  lemma MismatchExactly(sessions: seq<int>, h: Hours, special: int -> Option<int>, clock: Clock)
    requires Increasing(sessions) && HoursDefined(h)
    requires forall d, t, o :: clock(d, t, o) != NAT
    ensures var standing := Standing(sessions, h, clock);
      && standing.Sized(|sessions|)
      && ((exists i :: 0 <= i < |sessions| && OneSided(
             special(sessions[i]), BreakOr(standing.breakStarts, i), BreakOr(standing.breakEnds, i))) <==>
          h.breakStartTimes.Some? != h.breakEndTimes.Some?
          && exists i :: 0 <= i < |sessions| && special(sessions[i]).None?)
  {
    var standing := Standing(sessions, h, clock);
    StandingSized(sessions, h, clock);
    forall i | 0 <= i < |sessions|
      ensures OneSided(special(sessions[i]), BreakOr(standing.breakStarts, i), BreakOr(standing.breakEnds, i))
        <==> special(sessions[i]).None? && h.breakStartTimes.Some? != h.breakEndTimes.Some?
    {
      BreakMissing(sessions, h.breakStartTimes, clock, i);
      BreakMissing(sessions, h.breakEndTimes, clock, i);
    }
  }

  /** Every session opens and closes at the instant of the first ad-hoc rule naming it,
      else of the lowest-index regular rule naming it, else at the last dated standard
      time not after it; its break is gone exactly when its close is special.  It fails
      exactly when a rule names a date that is neither a session nor a holiday, or one
      break bound alone is defined. */
  method BuildSchedule(sessions: seq<int>, h: Hours, opening: Special, closing: Special, span: Span, clock: Clock)
    returns (r: Result<Times, ScheduleError>)
    requires Increasing(sessions) && HoursDefined(h)
    requires forall d, t, o :: clock(d, t, o) != NAT
    ensures r.Err? <==>
      || Stray(sessions, SpecialFor(opening, span, clock)) || Stray(sessions, SpecialFor(closing, span, clock))
      || (h.breakStartTimes.Some? != h.breakEndTimes.Some?
          && exists i :: 0 <= i < |sessions| && SpecialFor(closing, span, clock)(sessions[i]).None?)
    ensures r.Err? ==> r.error == ValueError
    ensures r.Ok? ==> Aligned(r.value, |sessions|)
    ensures r.Ok? ==> forall i :: 0 <= i < |sessions| ==> SessionExact(
      r.value, i, h, sessions[i], SpecialFor(opening, span, clock)(sessions[i]),
      SpecialFor(closing, span, clock)(sessions[i]), clock)
  {
    MismatchExactly(sessions, h, SpecialFor(closing, span, clock), clock);
    r := ScheduleFromRules(sessions, h, (s: StandardTimes) => s, opening, closing, span, clock);
    if r.Ok? {
      forall i | 0 <= i < |sessions|
        ensures SessionExact(
          r.value, i, h, sessions[i], SpecialFor(opening, span, clock)(sessions[i]),
          SpecialFor(closing, span, clock)(sessions[i]), clock)
      {
        ExactFromStanding(r.value, i, sessions, h, SpecialFor(opening, span, clock)(sessions[i]),
          SpecialFor(closing, span, clock)(sessions[i]), clock);
      }
    }
  }

  ghost predicate SessionExact(
    t: Times, i: nat, h: Hours, s: int, specialOpen: Option<int>, specialClose: Option<int>, clock: Clock)
    requires Aligned(t, |t.opens|) && i < |t.opens|
  {
    && BoundExact(h.openTimes, h.openOffset, specialOpen, clock, s, t.opens[i])
    && BoundExact(h.closeTimes, h.closeOffset, specialClose, clock, s, t.closes[i])
    && BreakExact(h.breakStartTimes, specialClose, clock, s, t.breakStarts[i])
    && BreakExact(h.breakEndTimes, specialClose, clock, s, t.breakEnds[i])
  }

  lemma ExactFromStanding(
    t: Times, i: nat, sessions: seq<int>, h: Hours, specialOpen: Option<int>, specialClose: Option<int>, clock: Clock)
    requires Increasing(sessions) && HoursDefined(h) && Aligned(t, |sessions|) && i < |sessions|
    requires Standing(sessions, h, clock).Sized(|sessions|)
    requires SessionIs(t, i, Standing(sessions, h, clock), specialOpen, specialClose)
    requires forall d, t, o :: clock(d, t, o) != NAT
    ensures SessionExact(t, i, h, sessions[i], specialOpen, specialClose, clock)
  {
    GroupTimesExact(sessions, h.openTimes, h.openOffset, clock);
    GroupTimesExact(sessions, h.closeTimes, h.closeOffset, clock);
    BreakMissing(sessions, h.breakStartTimes, clock, i);
    BreakMissing(sessions, h.breakEndTimes, clock, i);
  }

  /** The ad-hoc rules come before the regular ones, over the dates of the calendar and
      outside both kinds of holidays. */
  lemma SpecialForExact(rules: Special, span: Span, clock: Clock, d: int)
    ensures var r := SpecialFor(rules, span, clock)(d);
      && (d in span.adhocHolidays || d in span.regularHolidays ==> r == None)
      && (d !in span.adhocHolidays && d !in span.regularHolidays ==>
        && (span.start <= d <= span.end ==>
              forall i :: FirstRule(rules.adhoc, d, i) ==> r == Some(clock(d, rules.adhoc[i].time, 0)))
        && (!(span.start <= d <= span.end && Named(rules.adhoc, d)) ==>
              forall i :: FirstRule(rules.regular, d, i) ==> r == Some(clock(d, rules.regular[i].time, 0)))
        && (!(span.start <= d <= span.end && Named(rules.adhoc, d)) && !Named(rules.regular, d) ==> r == None))
  {
    SpecialAtExact(
      rules.adhoc, rules.regular, span.start, span.end, span.adhocHolidays + span.regularHolidays, clock, d);
  }
}
