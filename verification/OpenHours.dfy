/** `is_open_at_time`, for any instant and any side. */
module OpenHours {
  import opened Arrays
  import opened Calendar
  import opened Sessions

  /** Open at `t`, breaks counting as open hours when they are ignored. */
  ghost predicate OpenDuring(cal: Calendar, side: Side, t: int, ignoreBreaks: bool)
    requires cal.Aligned()
  {
    if ignoreBreaks then exists i :: BetweenBounds(cal, side, t, i) else OpenAt(cal, side, t)
  }

  predicate BetweenBounds(cal: Calendar, side: Side, t: int, i: int)
    requires |cal.opens| == |cal.closes|
  {
    0 <= i < |cal.opens| && Between(side, cal.opens[i], t, cal.closes[i])
  }

  function OpLeft(side: Side, a: int, b: int): bool {
    if side.OnLeft() then a <= b else a < b
  }

  function OpRight(side: Side, a: int, b: int): bool {
    if side.OnRight() then a <= b else a < b
  }

  /** Replacing a missing break by the close leaves the open hours unchanged. */
  lemma MissingBreak(side: Side, open: int, close: int, t: int)
    requires open < close
    ensures Between(side, open, t, close) || Between(side, close, t, close) <==> Between(side, open, t, close)
  {}

  /** One check for each half, the close standing for a missing break. */
  predicate HalvesOpen(side: Side, t: int, open: int, breakStart: int, breakEnd: int, close: int) {
    || (OpLeft(side, open, t) && OpRight(side, t, breakStart))
    || (OpLeft(side, breakEnd, t) && OpRight(side, t, close))
  }

  function Replaced(xs: seq<int>, missing: seq<bool>, closes: seq<int>): (r: seq<int>)
    requires |xs| == |missing| == |closes|
    ensures |r| == |xs|
    ensures forall i :: 0 <= i < |r| ==> r[i] == if missing[i] then closes[i] else xs[i]
  {
    seq(|xs|, i requires 0 <= i < |xs| => if missing[i] then closes[i] else xs[i])
  }

  lemma HalvesExact(cal: Calendar, side: Side, t: int, i: nat, bs: int, be: int)
    requires WellFormed(cal) && i < |cal.sessions|
    requires bs == if cal.HasBreakAt(i) then cal.breakStarts[i] else cal.closes[i]
    requires be == if cal.HasBreakAt(i) then cal.breakEnds[i] else cal.closes[i]
    ensures HalvesOpen(side, t, cal.opens[i], bs, be, cal.closes[i]) <==> OpenIn(cal, side, i, t)
  {
    assert SessionWellFormed(cal, i);
    MissingBreak(side, cal.opens[i], cal.closes[i], t);
  }

  /** `is_open_at_time`: out of bounds it raises, otherwise it tells whether the
      exchange is open at that very instant, bounds counting as `side` says. */
  method IsOpenAtTime(cal: Calendar, nano: int, side: Side, ignoreBreaks: bool) returns (r: Result<bool, Error>)
    requires WellFormed(cal)
    ensures r == if InBounds(cal, nano) then Ok(OpenDuring(cal, side, nano, ignoreBreaks)) else Err(MinuteOutOfBounds)
  {
    BoundsExact(cal, nano);
    if MinuteOob(Minutes(cal), nano) {
      return Err(MinuteOutOfBounds);
    }
    var n := |cal.opens|;
    var hasBreak := exists i :: 0 <= i < n && cal.breakStarts[i] != NAT;
    if !hasBreak || ignoreBreaks {
      // only one check required
      var b := exists i :: 0 <= i < n && OpLeft(side, cal.opens[i], nano) && OpRight(side, nano, cal.closes[i]);
      OneCheck(cal, nano, side);
      return Ok(b);
    }
    var missing := seq(n, i requires 0 <= i < n => cal.breakStarts[i] == NAT);
    var breakStarts := Replaced(cal.breakStarts, missing, cal.closes);
    var breakEnds := Replaced(cal.breakEnds, missing, cal.closes);
    var b := exists i ::
      0 <= i < n && HalvesOpen(side, nano, cal.opens[i], breakStarts[i], breakEnds[i], cal.closes[i]);
    TwoChecks(cal, nano, side, breakStarts, breakEnds);
    return Ok(b);
  }

  lemma OneCheck(cal: Calendar, t: int, side: Side)
    requires WellFormed(cal)
    ensures (exists i :: 0 <= i < |cal.opens| && OpLeft(side, cal.opens[i], t) && OpRight(side, t, cal.closes[i]))
      <==> OpenDuring(cal, side, t, true)
    ensures (forall i :: 0 <= i < |cal.opens| ==> cal.breakStarts[i] == NAT) ==>
      (OpenDuring(cal, side, t, true) <==> OpenDuring(cal, side, t, false))
  {
    if i :| 0 <= i < |cal.opens| && OpLeft(side, cal.opens[i], t) && OpRight(side, t, cal.closes[i]) {
      assert BetweenBounds(cal, side, t, i);
    }
    if forall i :: 0 <= i < |cal.opens| ==> cal.breakStarts[i] == NAT {
      assert forall i :: BetweenBounds(cal, side, t, i) <==> OpenIn(cal, side, i, t);
    }
  }

  lemma TwoChecks(cal: Calendar, t: int, side: Side, bs: seq<int>, be: seq<int>)
    requires WellFormed(cal) && |bs| == |be| == |cal.opens|
    requires forall i :: 0 <= i < |cal.opens| ==>
      (bs[i] == (if cal.HasBreakAt(i) then cal.breakStarts[i] else cal.closes[i])
      && be[i] == (if cal.HasBreakAt(i) then cal.breakEnds[i] else cal.closes[i]))
    ensures (exists i :: 0 <= i < |cal.opens| && HalvesOpen(side, t, cal.opens[i], bs[i], be[i], cal.closes[i]))
      <==> OpenAt(cal, side, t)
  {
    forall i | 0 <= i < |cal.opens|
      ensures HalvesOpen(side, t, cal.opens[i], bs[i], be[i], cal.closes[i]) <==> OpenIn(cal, side, i, t)
    {
      HalvesExact(cal, side, t, i, bs[i], be[i]);
    }
  }

  /** With the calendar's own side, the instant test and the lookup in the flat
      array of minutes agree on every whole minute within bounds. */
  lemma AgreesWithTradingMinute(cal: Calendar, m: int)
    requires WellFormed(cal) && WholeMinute(m) && InBounds(cal, m)
    ensures Minutes(cal) != [] && m <= LastOf(Minutes(cal))
    ensures IsTradingMinute(Minutes(cal), m) <==> OpenDuring(cal, cal.side, m, false)
    ensures IsOpenOnMinute(cal, m, true) <==> OpenDuring(cal, cal.side, m, true)
  {
    TradingMinuteExact(cal, m);
    OpenOnMinuteExact(cal, m);
    SessionHours(cal, m);
  }

  /** For whole minutes, being in a session is being between its bounds. */
  lemma SessionHours(cal: Calendar, m: int)
    requires WellFormed(cal) && WholeMinute(m)
    ensures InSomeSession(cal, m) <==> OpenDuring(cal, cal.side, m, true)
  {
    if k :| InSession(cal, m, k) {
      SessionBounds(cal, m, k);
      assert BetweenBounds(cal, cal.side, m, k);
    }
    if k :| BetweenBounds(cal, cal.side, m, k) {
      SessionBounds(cal, m, k);
      assert InSession(cal, m, k);
    }
  }

  lemma SessionBounds(cal: Calendar, m: int, k: nat)
    requires WellFormed(cal) && WholeMinute(m) && k < |cal.sessions|
    ensures BetweenBounds(cal, cal.side, m, k) <==> InSession(cal, m, k)
  {
    assert SessionWellFormed(cal, k);
  }
}
