/** How a calendar's constructor assigns times to sessions: dated standard times,
    special dates that override them, and breaks removed on special closes. */
module Schedule {
  import opened Arrays

  /** The instant at which a local time falls on a date, some days off: the
      timezone conversion, which the model does not look into. */
  type Clock = (int, int, int) -> int

  datatype ScheduleError = IndexError | ValueError

  // ----- dated standard times -----

  /** A standard time and the date it applies from. */
  datatype Standard = Standard(start: Option<int>, time: int)

  predicate Selected(s: int, start: Option<int>, end: Option<int>) {
    (start.Some? ==> start.value <= s) && (end.Some? ==> s < end.value)
  }

  /** selection(sessions, start, end) */
  function Selection(sessions: seq<int>, start: Option<int>, end: Option<int>): seq<int> {
    if sessions == [] then [] else
      (if Selected(sessions[0], start, end) then [sessions[0]] else []) + Selection(sessions[1..], start, end)
  }

  /** days_at_time */
  function DaysAtTime(days: seq<int>, time: int, offset: int, clock: Clock): (r: seq<int>)
    ensures |r| == |days|
    ensures forall i :: 0 <= i < |r| ==> r[i] == clock(days[i], time, offset)
  {
    seq(|days|, i requires 0 <= i < |days| => clock(days[i], time, offset))
  }

  function NextStart(times: seq<Standard>): Option<int>
    requires times != []
  {
    if |times| == 1 then None else times[1].start
  }

  /** One element for each pair of neighbours in `times`, the last paired with no end. */
  function Elements(sessions: seq<int>, times: seq<Standard>, offset: int, clock: Clock): seq<seq<int>> {
    if times == [] then [] else
      [DaysAtTime(Selection(sessions, times[0].start, NextStart(times)), times[0].time, offset, clock)]
      + Elements(sessions, times[1..], offset, clock)
  }

  /** `_group_times`, for an exchange that defines the times. */
  function GroupTimes(sessions: seq<int>, times: seq<Standard>, offset: int, clock: Clock)
    : Result<seq<int>, ScheduleError>
  {
    var elements := Elements(sessions, times, offset, clock);
    if elements == [] then Err(IndexError) else Ok(elements[0] + Concatenate(elements[1..]))
  }

  /** After the first, every standard time is dated, and the dates do not go back. */
  ghost predicate Dated(times: seq<Standard>) {
    && (forall k :: 1 <= k < |times| ==> times[k].start.Some?)
    && (forall j, k :: 0 <= j < k < |times| && times[j].start.Some? ==> times[j].start.value <= times[k].start.value)
  }

  /** `k` is the last standard time whose date is not after `s`. */
  ghost predicate Applies(times: seq<Standard>, s: int, k: int) {
    && 0 <= k < |times|
    && (times[k].start.Some? ==> times[k].start.value <= s)
    && forall j :: k < j < |times| && times[j].start.Some? ==> s < times[j].start.value
  }

  /** The sessions with their standard times, one by one. */
  function Stamped(sessions: seq<int>, times: seq<Standard>, offset: int, clock: Clock): seq<int>
    requires times != []
  {
    if sessions == [] then [] else
      [clock(sessions[0], TimeFor(times, sessions[0]), offset)] + Stamped(sessions[1..], times, offset, clock)
  }

  function TimeFor(times: seq<Standard>, s: int): int
    requires times != []
  {
    if |times| == 1 || (times[1].start.Some? && s < times[1].start.value) then times[0].time
    else TimeFor(times[1..], s)
  }

  lemma {:induction false} TimeForApplies(times: seq<Standard>, s: int, k: int)
    requires Dated(times) && Applies(times, s, k)
    ensures TimeFor(times, s) == times[k].time
    decreases |times|
  {
    if |times| > 1 {
      DatedTail(times);
      if k > 0 {
        assert times[1].start.value <= times[k].start.value || k == 1;
        assert Applies(times[1..], s, k - 1) by {
          forall j | k - 1 < j < |times[1..]| && times[1..][j].start.Some?
            ensures s < times[1..][j].start.value
          {
            assert times[1..][j] == times[j + 1];
          }
        }
        TimeForApplies(times[1..], s, k - 1);
      }
    }
  }

  lemma DatedTail(times: seq<Standard>)
    requires Dated(times) && times != []
    ensures Dated(times[1..])
  {
    var t := times[1..];
    assert forall k :: 0 <= k < |t| ==> t[k] == times[k + 1];
  }

  lemma {:induction false} StampedAt(sessions: seq<int>, times: seq<Standard>, offset: int, clock: Clock, i: nat)
    requires times != []
    ensures |Stamped(sessions, times, offset, clock)| == |sessions|
    ensures i < |sessions| ==>
      Stamped(sessions, times, offset, clock)[i] == clock(sessions[i], TimeFor(times, sessions[i]), offset)
  {
    if sessions != [] {
      StampedAt(sessions[1..], times, offset, clock, if i == 0 then 0 else i - 1);
    }
  }

  lemma {:induction false} StampedConcat(a: seq<int>, b: seq<int>, times: seq<Standard>, offset: int, clock: Clock)
    requires times != []
    ensures Stamped(a + b, times, offset, clock) == Stamped(a, times, offset, clock) + Stamped(b, times, offset, clock)
  {
    if a == [] {
      assert a + b == b;
    } else {
      assert (a + b)[1..] == a[1..] + b;
      StampedConcat(a[1..], b, times, offset, clock);
    }
  }

  lemma {:induction false} SelectionMembers(sessions: seq<int>, start: Option<int>, end: Option<int>)
    ensures forall i :: 0 <= i < |Selection(sessions, start, end)| ==>
      Selected(Selection(sessions, start, end)[i], start, end)
  {
    if sessions != [] {
      SelectionMembers(sessions[1..], start, end);
    }
  }

  lemma {:induction false} SelectionNone(sessions: seq<int>, start: Option<int>, end: Option<int>)
    requires forall i :: 0 <= i < |sessions| ==> !Selected(sessions[i], start, end)
    ensures Selection(sessions, start, end) == []
  {
    if sessions != [] {
      SelectionNone(sessions[1..], start, end);
    }
  }

  /** Neighbouring selections fit together: nothing is lost or taken twice. */
  lemma {:induction false} SelectionSplit(sessions: seq<int>, start: Option<int>, cut: int)
    requires Sorted(sessions)
    requires start.Some? ==> start.value <= cut
    ensures Selection(sessions, start, None) == Selection(sessions, start, Some(cut))
      + Selection(sessions, Some(cut), None)
  {
    if sessions != [] {
      SelectionSplit(sessions[1..], start, cut);
      if cut <= sessions[0] {
        forall i | 0 <= i < |sessions|
          ensures !Selected(sessions[i], start, Some(cut))
        {
          assert sessions[0] <= sessions[i];
        }
        SelectionNone(sessions, start, Some(cut));
        SelectionNone(sessions[1..], start, Some(cut));
      }
    }
  }

  lemma {:induction false} SelectionAll(sessions: seq<int>)
    ensures Selection(sessions, None, None) == sessions
  {
    if sessions != [] {
      SelectionAll(sessions[1..]);
    }
  }

  /** The sessions before the second date all get the first time. */
  lemma {:induction false} StampedFirst(days: seq<int>, times: seq<Standard>, offset: int, clock: Clock)
    requires times != []
    requires |times| > 1 ==> times[1].start.Some? && forall i :: 0 <= i < |days| ==> days[i] < times[1].start.value
    ensures DaysAtTime(days, times[0].time, offset, clock) == Stamped(days, times, offset, clock)
  {
    if days != [] {
      StampedFirst(days[1..], times, offset, clock);
      assert DaysAtTime(days, times[0].time, offset, clock)
        == [clock(days[0], times[0].time, offset)] + DaysAtTime(days[1..], times[0].time, offset, clock);
    }
  }

  /** The sessions from the second date on do not see the first time. */
  lemma {:induction false} StampedRest(days: seq<int>, times: seq<Standard>, offset: int, clock: Clock)
    requires |times| > 1 && times[1].start.Some?
    requires forall i :: 0 <= i < |days| ==> times[1].start.value <= days[i]
    ensures Stamped(days, times[1..], offset, clock) == Stamped(days, times, offset, clock)
  {
    if days != [] {
      StampedRest(days[1..], times, offset, clock);
    }
  }

  /** The elements, put end to end, are the selected sessions in order, each with
      the standard time that applies to it. */
  lemma {:induction false} ElementsAligned(sessions: seq<int>, times: seq<Standard>, offset: int, clock: Clock)
    requires Sorted(sessions) && Dated(times) && times != []
    ensures Concatenate(Elements(sessions, times, offset, clock))
      == Stamped(Selection(sessions, times[0].start, None), times, offset, clock)
    decreases |times|
  {
    var days := Selection(sessions, times[0].start, NextStart(times));
    SelectionMembers(sessions, times[0].start, NextStart(times));
    StampedFirst(days, times, offset, clock);
    if |times| == 1 {
      assert Elements(sessions, times[1..], offset, clock) == [];
    } else {
      var rest := Selection(sessions, times[1].start, None);
      DatedTail(times);
      ElementsAligned(sessions, times[1..], offset, clock);
      SelectionMembers(sessions, times[1].start, None);
      StampedRest(rest, times, offset, clock);
      SelectionSplit(sessions, times[0].start, times[1].start.value);
      StampedConcat(days, rest, times, offset, clock);
    }
  }

  /** With an undated first time, every session gets exactly one time: that of the
      last standard time dated not after it. */
  lemma GroupTimesExact(sessions: seq<int>, times: seq<Standard>, offset: int, clock: Clock)
    requires Sorted(sessions) && Dated(times) && times != [] && times[0].start.None?
    ensures var r := GroupTimes(sessions, times, offset, clock);
      && r.Ok? && |r.value| == |sessions|
      && forall i, k :: 0 <= i < |sessions| && Applies(times, sessions[i], k) ==>
        r.value[i] == clock(sessions[i], times[k].time, offset)
  {
    ElementsAligned(sessions, times, offset, clock);
    SelectionAll(sessions);
    StampedAt(sessions, times, offset, clock, 0);
    forall i, k | 0 <= i < |sessions| && Applies(times, sessions[i], k)
      ensures Stamped(sessions, times, offset, clock)[i] == clock(sessions[i], times[k].time, offset)
    {
      StampedAt(sessions, times, offset, clock, i);
      TimeForApplies(times, sessions[i], k);
    }
  }

  /** If the first time is dated, sessions before that date get no time at all, and
      the result falls out of step with the sessions. */
  lemma {:induction false} SelectionShort(sessions: seq<int>, start: int)
    requires Sorted(sessions)
    ensures |Selection(sessions, Some(start), None)| <= |sessions|
    ensures |Selection(sessions, Some(start), None)| == |sessions| <==> sessions == [] || start <= sessions[0]
  {
    if sessions != [] {
      SelectionShort(sessions[1..], start);
    }
  }

  lemma AlignedExactly(sessions: seq<int>, times: seq<Standard>, offset: int, clock: Clock)
    requires Sorted(sessions) && Dated(times) && times != []
    ensures var r := GroupTimes(sessions, times, offset, clock);
      r.Ok? && (|r.value| == |sessions| <==>
        times[0].start.None? || sessions == [] || times[0].start.value <= sessions[0])
  {
    ElementsAligned(sessions, times, offset, clock);
    StampedAt(Selection(sessions, times[0].start, None), times, offset, clock, 0);
    if times[0].start.None? {
      SelectionAll(sessions);
    } else {
      SelectionShort(sessions, times[0].start.value);
    }
  }

  /** Two sessions and one time, dated from the second: a single entry comes out, the
      second session's, in the first place. */
  lemma FirstTimeDated(time: int, offset: int, clock: Clock)
    ensures GroupTimes([1, 2], [Standard(Some(2), time)], offset, clock) == Ok([clock(2, time, offset)])
  {
    var times := [Standard(Some(2), time)];
    assert [1, 2][1..] == [2] && [2][1..] == [];
    assert Selection([2], Some(2), None) == [2] + Selection([], Some(2), None);
    assert Selection([1, 2], Some(2), None) == [] + Selection([2], Some(2), None);
    assert Selection([1, 2], Some(2), None) == [2];
    assert DaysAtTime([2], time, offset, clock) == [clock(2, time, offset)];
    assert Elements([1, 2], times[1..], offset, clock) == [];
    var elements := Elements([1, 2], times, offset, clock);
    assert elements == [[clock(2, time, offset)]];
    assert elements[0] + Concatenate(elements[1..]) == [clock(2, time, offset)];
  }

  /** Without any standard time there is nothing to group. */
  lemma NoTimes(sessions: seq<int>, offset: int, clock: Clock)
    ensures GroupTimes(sessions, [], offset, clock) == Err(IndexError)
  {}
}
