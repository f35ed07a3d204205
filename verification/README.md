# Verified models of exchange_calendars and of a selector thread

This project models three parts of the Python libraries bundled under `_internal/`
and proves what they promise.

**Trading calendars** (`exchange_calendars`). A calendar is four parallel integer
arrays, the open, break start, break end and close of every session, a missing break
being NaT, the least 64-bit integer. Everything else is derived by array arithmetic:
the flat array of all trading minutes, the index of periods (`_TradingIndex`), and the
answers to queries, by binary search or in closed form. The model keeps those fast
forms and relates each of them to one simple thing, the open hours of the sessions.

- `Arrays`: the numpy calls used, with sorting and permutation facts.
- `Grid`, `Coverage`: what an index of periods means, for a list of time windows.
- `Columns`, `VectorGrid`, `Overlap`, `TradingIndex`: the arrays, the vectorised
  counts and repeats, the overlap check and the class `_TradingIndex` itself, whose
  methods override and restore its flags; `FalseAlarms`: when the check raises in vain.
- `Calendar`, `Sessions`, `OpenHours`, `Vectorised`, `Offset`, `Counts`: the trading
  minutes and the queries over them.
- `CalendarIndex`: the open hours of a calendar and of its index are the same, from
  start and end, given as dates or minutes, to the finished index; `Endpoints`,
  `MinuteEndpoints`: what a minute as start or end leaves of the whole index.
- `Schedule`, `SpecialDates`, `Construction`: how the constructor builds the arrays
  from dated standard times, special dates and holidays.

**SelectorThread** (`curl_cffi/_asyncio_selector.py`): an event loop and a select
thread that hand a snapshot of the registered descriptors back and forth under a
condition variable, with a socket to wake the thread. `Selector` is the transition
system, with a program counter for either thread, the bytes in the waker and the queue
of posted calls; `SelectorInvariant` is what every step keeps; `SelectorProofs` what
follows for every run, `SelectorRetry` what becomes of a wake-up after a bad descriptor,
`SelectorHandling` what becomes of the events that select returned, `SelectorClosing`
that `close` comes to its end, and `SelectorProgress` that a snapshot taken before a
registration change is always replaced by one taken after it.

**ExchangeCalendarDispatcher** (`calendar_utils.py`): a registry with three maps of
names, chains of aliases and a cache with one entry for each name. `Aliases` is the
theory of chains, `Registration` what each operation makes of the registry,
`Dispatcher` the class, whose methods are proved to do just that, and `Provenance`
says over whole runs where a returned calendar comes from.

A calendar is assumed well formed (`Calendar.WellFormed`): whole minutes, sessions in
order, breaks inside their sessions, and a trading minute in every half for the side
in use. The windows of a trading index are only assumed to be in time order. A
well-formed calendar provides them (`CalendarIndex.UnmovedInOrder`, `SliceIsSchedule`);
where starts are aligned, the aligned ones must stay before the end of their (sub)session
and not precede the end before it (`CalendarIndex.AllInOrder`).

## Where the code differs from what is said about it

- With `closed="both"` and a forced end that abuts the next start, the finished
  `trading_index` repeats that instant, although the overlap check passed.
  `Overlap.PassedMeansIncreasing` gives the exact condition, `Overlap.MidnightTwice` a
  case: a market that never closes.
- `verify_non_overlapping` raises because an index would precede the one before it, but
  it compares grid ends with the starts of windows, and takes sessions with a break also
  as if they had none. It therefore raises on schedules whose instants strictly
  increase: where no window reaches the next (`FalseAlarms.RaisesWithoutCollision`), and
  where one does, harmlessly, without any break (`FalseAlarms.RaisesOnHarmlessCollision`).
  `FalseAlarms.InVainExactly` says exactly when it raises although the instants are in
  order, or strictly increasing.
- `trading_index` promises, for a start or end given as a minute, the nearest index after
  or before it, but looks only at the sessions not over by the start and begun by the
  end. A start between the close of a session and the stop of its last period loses that
  stop (`MinuteEndpoints.StopIsLost`); an end at an open that is no trading minute loses
  that open (`MinuteEndpoints.StartIsLost`), or an interval curtailed to it
  (`MinuteEndpoints.OverrunIsLost`). The exact conditions are in
  `MinuteEndpoints.InstantsOfWhole` and `MinuteEndpoints.IntervalsOfWhole`.
- `minutes_to_sessions` raises IndexError, not its ValueError, when the first minute in
  no session lies after the calendar's last minute: `Vectorised.WhichError` says when,
  `Vectorised.BothErrorsHappen` gives a minute for either error.
- `minute_offset_by_sessions` promises to roll back to the last minute of the target
  session, but raises if the moved minute passes the end of the calendar
  (`Offset.RollsUnlessPastEnd`, `Offset.RaisesInsteadOfRolling`); before the start of
  the calendar it builds an exception that it does not raise, and rolls on.
- The class documentation of ExchangeCalendar makes the break start a trading minute
  for side "left"; `compute_minutes` makes it the break end: `Calendar.BreakBounds`.
- If the first standard time of an exchange were dated, `_group_times` would fall out
  of step with the sessions: `Schedule.AlignedExactly` says exactly when it does not,
  `Schedule.FirstTimeDated` gives two sessions with which it does.
- Registering another factory under a name that was already built does not clear the
  cache, so `get_calendar` may still return the old factory's calendar:
  `Provenance.ReplacedFactoryIsNotAsked`.
- An alias can outlive the calendar it leads to. `get_calendar` promises
  InvalidCalendarName then, but returns a calendar that is still cached there for the
  same arguments: `Provenance.RaisesUnlessCached`, `Provenance.DanglingAliasReturnsCached`.
- After a "bad descriptor" error SelectorThread polls its waker by number, but the waker
  is registered as a socket object: the handler finds no callback for that number and
  the wake-up is not consumed. The waker still has a byte when the thread next selects,
  so that select can return at once (`SelectorRetry.WakeUpOutlivesRetry`,
  `SelectorRetry.RetryHappens`).

## Model

| member | source | states |
|---|---|---|
| Coverage.EveryOpenInstantOnce | _internal/exchange_calendars/calendar_helpers.py:686-716 | Curtailed intervals begin in strictly increasing order, have positive length, never overlap, and hold every open instant of every (sub)session exactly once, for any period and any mix of forced and unforced ends |
| Coverage.EveryRightInstantOnce | _internal/exchange_calendars/calendar_helpers.py:686-716 | The same for right-closed intervals and the instants in (start, end] |
| Coverage.OverlapsExactly | _internal/exchange_calendars/calendar_helpers.py:704-711 | Some right exceeds the next left exactly when some window, rounded up to whole periods unless forced, reaches past the start of the following window |
| Coverage.ForcedTiling | _internal/exchange_calendars/calendar_helpers.py:562-716 | With both ends forced the intervals never overlap, so the error is unreachable, and their union is precisely the union of the windows |
| Coverage.AllPointsIncreasing | _internal/exchange_calendars/calendar_helpers.py:669-676 | The instants of windows that clear one another are strictly increasing |
| Coverage.BothNeedsSeparation | _internal/exchange_calendars/calendar_helpers.py:669-676 | For closed "both", strictly increasing instants need every window to clear the next |
| Grid.PointsExact | _internal/exchange_calendars/calendar_helpers.py:562-604 | The instants of a window are its start, the grid points strictly inside it and its last right side, the two ends exactly when `closed` keeps them |
| Grid.TilesChain | _internal/exchange_calendars/calendar_helpers.py:562-604 | The periods of a window follow one another without gaps from its start to its last right side |
| Columns.GroupedPermutes | _internal/exchange_calendars/calendar_helpers.py:626-648 | Mornings, afternoons and unbroken days together are the windows in session order, rearranged: none lost, none twice |
| Columns.LeftIgnoresForce | _internal/exchange_calendars/calendar_helpers.py:688-691 | Left sides do not depend on the force flags, so building them with the flags overridden loses nothing |
| Columns.SidesOfTiles | _internal/exchange_calendars/calendar_helpers.py:686-704 | The instants for closed "left" are the left sides of the periods, those for "right" the right sides, so both sides have one entry for each period |
| VectorGrid.VectorRows | _internal/exchange_calendars/calendar_helpers.py:591-600 | The repeated starts and the concatenated ranges agree in length, and added up they are the rows of the sessions |
| VectorGrid.RowsOnGrid | _internal/exchange_calendars/calendar_helpers.py:562-604 | When every window is on frequency or unforced, the rows are exactly the wanted instants |
| VectorGrid.RowsSplit | _internal/exchange_calendars/calendar_helpers.py:574-604 | When one session is off frequency, the shortened rows of all sessions together with all the closes are exactly the wanted instants, also for the sessions that are on frequency |
| Overlap.RefusesExactly | _internal/exchange_calendars/calendar_helpers.py:522-560 | The overlap check raises exactly when an unforced window reaches the next one, or a session with a break would if its break were ignored |
| FalseAlarms.StepsExactly | _internal/exchange_calendars/calendar_helpers.py:562-676 | Instants closed on the right are in order, or strictly increasing, exactly when the last one of every window comes in time before the first of the next |
| FalseAlarms.InVainExactly | _internal/exchange_calendars/calendar_helpers.py:522-560 | The check raises although the instants are in order, or strictly increasing, exactly when a window reaches the next or a session with a break would without it, and yet every window's last instant comes in time before the next one's first |
| FalseAlarms.InVainForBoth | _internal/exchange_calendars/calendar_helpers.py:522-560 | For closed "both" and strictly increasing instants the ignored break of a session is the only reason |
| FalseAlarms.RaisesWithoutCollision | _internal/exchange_calendars/calendar_helpers.py:548-560 | A schedule on which it raises although no window reaches the next and the instants strictly increase |
| FalseAlarms.RaisesOnHarmlessCollision | _internal/exchange_calendars/calendar_helpers.py:548-560 | A schedule without breaks on which a window reaches past the next start, the instants strictly increase, and it raises |
| Overlap.PassedMeansSorted | _internal/exchange_calendars/calendar_helpers.py:522-560 | If the check passes, the instants are in order, whatever `closed`, the flags and the breaks |
| Overlap.PassedMeansIncreasing | _internal/exchange_calendars/calendar_helpers.py:522-676 | If the check passes, the instants are strictly increasing exactly unless `closed` is "both" and a forced window abuts the next |
| Overlap.MidnightTwice | _internal/exchange_calendars/calendar_helpers.py:522-676 | A schedule on which the check passes and yet midnight is in the index twice |
| TradingIndex.CurtailedIsSlice | _internal/exchange_calendars/calendar_helpers.py:652-667 | Curtailing for times keeps one stretch of the intervals, and drops exactly those that start too early or stop too late |
| TradingIndex.TradingIndex.VerifyNonOverlapping | _internal/exchange_calendars/calendar_helpers.py:522-560 | Raises exactly when a morning, a whole session or an afternoon, left unforced, reaches the start after it |
| TradingIndex.TradingIndex.CreateIndexForSessions | _internal/exchange_calendars/calendar_helpers.py:562-604 | For every window exactly its grid points selected by `closed`, its end included when forced, in order, although one frequency test serves all sessions |
| TradingIndex.TradingIndex.Unsorted | _internal/exchange_calendars/calendar_helpers.py:606-650 | The instants of all windows, in the order in which the groups are visited |
| TradingIndex.TradingIndex.Instants | _internal/exchange_calendars/calendar_helpers.py:669-676 | The overlap error exactly when the check refuses, otherwise the instants in session order, curtailed to the times asked for |
| TradingIndex.TradingIndex.Sides | _internal/exchange_calendars/calendar_helpers.py:678-704 | Left and right sides, built apart under different flags and then re-indexed, are the two sides of the same periods in session order; the flags end as they began |
| TradingIndex.TradingIndex.Pair | _internal/exchange_calendars/calendar_helpers.py:698-702 | Sorting the lefts and re-indexing the rights by argsort keeps every right with its left |
| TradingIndex.TradingIndex.Intervals | _internal/exchange_calendars/calendar_helpers.py:686-716 | The overlap error exactly when periods overlap and are not to be curtailed, otherwise the curtailed periods of the schedule; the flags end as they began |
| TradingIndex.Repaired | _internal/exchange_calendars/calendar_helpers.py:698-702 | Any sorting permutation of the lefts takes both sides to session order |
| CalendarIndex.AlignToNear | _internal/exchange_calendars/calendar_helpers.py:485-503 | Aligning moves a start by less than a step, forwards for a positive and backwards for a negative alignment |
| CalendarIndex.StartsAligned | _internal/exchange_calendars/calendar_helpers.py:485-503 | Every open of an index is the only multiple of `align`, and every break end the only multiple of `align_pm`, less than a step from the calendar's own bound on the side asked for; ends are the calendar's, and breaks unless ignored |
| CalendarIndex.AlignsForward | _internal/exchange_calendars/calendar_helpers.py:485-490 | One minute past the hour goes to five past for five minutes, and back to the hour for minus five |
| CalendarIndex.FlagsMean | _internal/exchange_calendars/calendar_helpers.py:463-464 | A window that ends at the close is forced by `force_close`, one that ends at a break by `force_break_close` |
| CalendarIndex.ForceMeans | _internal/exchange_calendars/exchange_calendar.py:2702-2703 | `force` decides for all windows alike and moves none |
| CalendarIndex.UnmovedInOrder | _internal/exchange_calendars/calendar_helpers.py:477-506 | A well-formed calendar's arrays are in order when starts are not moved, with or without breaks |
| CalendarIndex.SliceIsSchedule | _internal/exchange_calendars/calendar_helpers.py:477-506 | Any run of sessions in order gives windows in time order |
| CalendarIndex.SessionSliceExact | _internal/exchange_calendars/calendar_helpers.py:466-480 | The slice holds exactly the sessions that are not over before the start and have begun by the end, each given as a date or a minute |
| CalendarIndex.EndpointErrors | _internal/exchange_calendars/calendar_helpers.py:253-287 | A date is refused exactly outside the first and last session, a minute exactly outside the first and last trading minute; for a period of a day any minute |
| CalendarIndex.SliceErrors | _internal/exchange_calendars/calendar_helpers.py:463-475 | The error of the start comes before that of the end |
| CalendarIndex.IndexCoversSessions | _internal/exchange_calendars/calendar_helpers.py:686-716 | For any slice of sessions, breaks kept or ignored, any alignment in order, any period and flags, every open instant is in exactly one curtailed interval, and with both ends forced no other instant is in any |
| CalendarIndex.IndexCoversEnds | _internal/exchange_calendars/calendar_helpers.py:686-716 | The same for right-closed intervals and the instants after an open one |
| CalendarIndex.IndexCoversCalendar | _internal/exchange_calendars/calendar_helpers.py:686-716 | Told by the calendar's own open hours, starts unmoved: every instant at which one of the sessions is open is in exactly one curtailed interval, and with all ends forced no other instant is in any |
| CalendarIndex.MinutesInIntervals | _internal/exchange_calendars/exchange_calendar.py:2353-2722 | Whatever the side and the alignment, every trading minute of the sessions asked for that an aligned start has not cut off is in exactly one interval: left-closed, right-closed, or one of them, as side and start allow |
| CalendarIndex.UnmovedStarted | _internal/exchange_calendars/exchange_calendar.py:2353-2722 | Starts that are not moved cut no minute off |
| CalendarIndex.IntervalIndex | _internal/exchange_calendars/exchange_calendar.py:2653-2722 | From a calendar, start and end, alignment and flags to the intervals of exactly those sessions, or the error for `closed`, for an endpoint or for overlapping periods; only the sessions asked for need be in order |
| CalendarIndex.InstantIndex | _internal/exchange_calendars/exchange_calendar.py:2700-2722 | The same for the index of instants, with the error of the overlap check |
| CalendarIndex.IndexOf | _internal/exchange_calendars/exchange_calendar.py:2628-2722 | The whole method: an error for a period over a day, the sessions for a day, else intervals or instants, `force` overriding both flags |
| CalendarIndex.DaysExact | _internal/exchange_calendars/exchange_calendar.py:2649-2651 | A daily index holds, in order and once, exactly the sessions from one date to the other |
| MinuteEndpoints.IntervalsOfWhole | _internal/exchange_calendars/calendar_helpers.py:448-716 | The intervals between two endpoints are those of the whole index with left >= start and right <= end, exactly unless the end is the start of the next session and the last period, curtailed to it, is lost |
| MinuteEndpoints.IntervalsWithoutOverlap | _internal/exchange_calendars/calendar_helpers.py:448-716 | Where periods do not overlap they are exactly those, with no error and no exception |
| MinuteEndpoints.InstantsOfWhole | _internal/exchange_calendars/calendar_helpers.py:448-676 | The instants between two endpoints are those of the whole index within them, exactly unless the stop of the session before, or the start of the session after, is one of these and is lost |
| MinuteEndpoints.StopIsLost | _internal/exchange_calendars/calendar_helpers.py:466-480 | A calendar and a start after a close for which the nearest later instant is not in the index |
| MinuteEndpoints.StartIsLost | _internal/exchange_calendars/calendar_helpers.py:466-480 | A right-sided calendar and an end at an open for which the instant at the end is not in the index |
| MinuteEndpoints.OverrunIsLost | _internal/exchange_calendars/calendar_helpers.py:466-480 | The same for an interval curtailed to that end |
| Calendar.ComputeMinutes | _internal/exchange_calendars/calendar_helpers.py:58-98 | Collecting pieces session by session gives the concatenated minutes of the sessions |
| Calendar.MinutesExact | _internal/exchange_calendars/calendar_helpers.py:58-98 | The trading minutes are strictly increasing and exactly the whole minutes at which the exchange is open for the calendar's side |
| Calendar.SessionMinutesExact | _internal/exchange_calendars/calendar_helpers.py:72-98 | The minutes of a session run from its first to its last, skipping exactly its break |
| Calendar.MinuteArrays | _internal/exchange_calendars/exchange_calendar.py:862-888 | The first and last minute arrays hold each session's bounds moved as the side says, NaT left as it is |
| Calendar.BreakBounds | _internal/exchange_calendars/calendar_helpers.py:58-98 | The start of a break is a trading minute exactly for sides right and both, its end exactly for left and both |
| Calendar.BoundsBySide | _internal/exchange_calendars/calendar_helpers.py:58-98 | Side by side, which of open, break start, break end and close are trading minutes |
| Sessions.TradingMinuteExact | _internal/exchange_calendars/exchange_calendar.py:1347-1375 | The lookup finds a trading minute exactly for a whole minute at which the exchange is open |
| Sessions.BreakMinuteExact | _internal/exchange_calendars/exchange_calendar.py:1377-1400 | True exactly between the last morning and the first afternoon minute of some session with a break |
| Sessions.OpenOnMinuteExact | _internal/exchange_calendars/exchange_calendar.py:1402-1438 | True exactly for trading minutes, or, with breaks ignored, for the minutes from a session's first to its last |
| Sessions.MinuteToSessionNext | _internal/exchange_calendars/exchange_calendar.py:1706-1785 | "next" is the least session whose last minute is not before the minute, and an error exactly when there is none |
| Sessions.MinuteToSessionPrevious | _internal/exchange_calendars/exchange_calendar.py:1706-1785 | "previous" is the greatest session whose first minute is not after the minute, and an error exactly when there is none |
| Sessions.MinuteToSessionNone | _internal/exchange_calendars/exchange_calendar.py:1706-1785 | "none" is the one session that contains the minute, and an error exactly when none does |
| Sessions.MinuteToPastExact | _internal/exchange_calendars/exchange_calendar.py:1787-1825 | The count-th session, going back, of those over before the minute, and an error exactly when there are fewer |
| Sessions.MinuteToFutureExact | _internal/exchange_calendars/exchange_calendar.py:1827-1869 | The count-th of the sessions that begin after the minute, and an error exactly when there are fewer |
| Sessions.PastAndFutureErrors | _internal/exchange_calendars/exchange_calendar.py:1787-1869 | Out of bounds, or for a count that is not positive, only the error |
| Sessions.InvalidDirection | _internal/exchange_calendars/exchange_calendar.py:1706-1785 | A direction that is none of the three is refused for every minute |
| Sessions.OffsetFrom | _internal/exchange_calendars/exchange_calendar.py:1209-1239 | From the k-th session to the (k + count)-th, and the right error past either end |
| Sessions.AdjacentSessions | _internal/exchange_calendars/exchange_calendar.py:1142-1189 | The neighbours of a session, and an error exactly at the ends |
| OpenHours.IsOpenAtTime | _internal/exchange_calendars/exchange_calendar.py:1503-1527 | Out of bounds an error, otherwise whether the exchange is open at that instant for any side, the close standing in for a missing break |
| OpenHours.AgreesWithTradingMinute | _internal/exchange_calendars/exchange_calendar.py:1347-1527 | With the calendar's own side the instant test and the lookup among the trading minutes agree on every whole minute in bounds |
| Vectorised.SameAsOneByOne | _internal/exchange_calendars/exchange_calendar.py:2127-2182 | For sorted minutes the vectorised lookup succeeds exactly when each single lookup does, and returns the same sessions |
| Vectorised.WhichError | _internal/exchange_calendars/exchange_calendar.py:2160-2182 | The ValueError exactly when the first minute in no session is not past the last minute of the calendar, otherwise an IndexError |
| Vectorised.UnsortedIsRefused | _internal/exchange_calendars/exchange_calendar.py:2151-2152 | Minutes out of order are refused |
| Vectorised.BothErrorsHappen | _internal/exchange_calendars/exchange_calendar.py:2160-2182 | A calendar and two minutes, one for either error |
| Vectorised.DividersExact | _internal/exchange_calendars/calendar_helpers.py:39-55 | Over increasing dividers the searches find the neighbours of a minute and fail exactly when there is none |
| Offset.OffsetExact | _internal/exchange_calendars/exchange_calendar.py:1959-2031 | For a trading minute of session b: an error when session b + count does not exist or the moved minute passes the calendar's end, otherwise the greatest minute of the target session not after the moved minute, or its first |
| Offset.RollExact | _internal/exchange_calendars/exchange_calendar.py:2003-2031 | Whatever minute it is given, the rolling lands in the target session as it should, and the final AssertionError is unreachable |
| Offset.OffsetMonotone | _internal/exchange_calendars/exchange_calendar.py:1959-2031 | Within a base session a later minute is never offset to an earlier one |
| Offset.OffsetOtherwise | _internal/exchange_calendars/exchange_calendar.py:1984-1988 | What is no trading minute is refused, and a count of zero returns the minute |
| Offset.RollsUnlessPastEnd | _internal/exchange_calendars/exchange_calendar.py:2008-2013 | If the target session exists, a minute is returned exactly when the moved minute is not past the calendar's last minute |
| Offset.RaisesInsteadOfRolling | _internal/exchange_calendars/exchange_calendar.py:2008-2013 | A calendar and a minute for which it raises although the target session exists |
| Counts.SessionsMinutesCount | _internal/exchange_calendars/exchange_calendar.py:2327-2351 | The closed form equals the number of minutes that `sessions_minutes` returns, for every side, any mix of breaks and any dates, and fails with it |
| Counts.SessionLength | _internal/exchange_calendars/exchange_calendar.py:2340-2351 | For each session the closed form, with NaT minus NaT zero, is the number of its minutes |
| Counts.SliceMinutes | _internal/exchange_calendars/exchange_calendar.py:2302-2325 | `sessions_minutes` returns as many minutes as the sessions of the slice have, none when the dates hold no session |
| Counts.SessionsMinutesExact | _internal/exchange_calendars/exchange_calendar.py:2302-2325 | An error exactly for a date outside the calendar; otherwise, in order, exactly the trading minutes of the sessions labelled from start to end |
| Counts.MinutesInRangeExact | _internal/exchange_calendars/exchange_calendar.py:2035-2060 | In order, exactly the trading minutes from the first minute to the last |
| Counts.DateToSessionExact | _internal/exchange_calendars/exchange_calendar.py:1281-1323 | A session for itself; otherwise the first later one, the last earlier one or an error, as the direction says |
| Counts.DatesToSlice | _internal/exchange_calendars/exchange_calendar.py:1281-1323 | The sessions that two dates are rounded to are the ends of the slice found by binary search |
| Schedule.ElementsAligned | _internal/exchange_calendars/exchange_calendar.py:72-107 | The selections between dated times, put end to end, are the selected sessions in order, each with its own standard time |
| Schedule.GroupTimesExact | _internal/exchange_calendars/exchange_calendar.py:87-107 | With an undated first time every session gets exactly one time, that of the last standard time dated not after it |
| Schedule.AlignedExactly | _internal/exchange_calendars/exchange_calendar.py:87-107 | The result has one entry for each session exactly when the first time is undated or dated no later than the first session |
| Schedule.FirstTimeDated | _internal/exchange_calendars/exchange_calendar.py:87-107 | Two sessions and one dated time for which one entry comes out, in the wrong place |
| SpecialDates.ComputeSpecialDates | _internal/exchange_calendars/exchange_calendar.py:2726-2798 | In date order, each date once, every date maps to the instant of the first ad-hoc rule naming it in range, else of the lowest-index regular rule, and holidays to nothing |
| SpecialDates.SpecialAtExact | _internal/exchange_calendars/exchange_calendar.py:2726-2798 | None on a holiday; else within the range the first ad-hoc rule that names the date, else the first regular rule that does, else none |
| SpecialDates.KeepFirstExact | _internal/exchange_calendars/exchange_calendar.py:2784-2786 | Dropping duplicates leaves each date once, with its first instant |
| SpecialDates.AdjustSpecialDates | _internal/exchange_calendars/exchange_calendar.py:2889-2922 | Fails exactly when the lengths differ or a special date is no session, otherwise overrides exactly the special sessions, by date |
| SpecialDates.RemoveBreaks | _internal/exchange_calendars/exchange_calendar.py:2925-2966 | Fails in the same cases, otherwise removes exactly the breaks of the special sessions |
| SpecialDates.AssignByDate | _internal/exchange_calendars/exchange_calendar.py:2908-2922 | Assigning through the indexer changes each session that is named to its own value and no other |
| Construction.BuildSchedule | _internal/exchange_calendars/exchange_calendar.py:329-408 | Without special offsets: every close is that of the first ad-hoc rule naming the session, else of the lowest-index regular rule, else the last dated standard time, opens likewise; breaks go exactly on special closes; the error exactly for stray special dates or one-sided breaks |
| Construction.Finish | _internal/exchange_calendars/exchange_calendar.py:360-408 | From standard times and series of special ones: special instants override by session, breaks go on special closes, and the error exactly for a stray special date or an ordinary session with a one-sided break |
| Construction.ScheduleFromRules | _internal/exchange_calendars/exchange_calendar.py:329-408 | The same from the rules themselves, whatever the exchange's hook for special offsets makes of the standard times |
| Construction.SpecialForExact | _internal/exchange_calendars/exchange_calendar.py:2726-2818 | The same for the rules and holidays of an exchange |
| Construction.MismatchExactly | _internal/exchange_calendars/exchange_calendar.py:2821-2833 | Standard breaks are one-sided exactly when one break bound alone is defined and some session keeps its standard close |
| SelectorInvariant.StepKeeps | _internal/curl_cffi/_asyncio_selector.py:109-278 | Every action of either thread keeps the invariant of token, closing and snapshots |
| SelectorHandling.EventsAreHandled | _internal/curl_cffi/_asyncio_selector.py:168-250 | From when select returns its events, on every run and whatever is registered meanwhile: the turns of the events come one after the other, each once, and the callbacks called are exactly those of the descriptors registered when their turn comes, the waker apart, in order; all are through when the next select begins |
| SelectorHandling.CallRunsUserCode | _internal/curl_cffi/_asyncio_selector.py:232-250 | A callback is recorded exactly when `_handle_select` goes into user code, for the registered descriptor whose turn it is |
| SelectorHandling.WakerTurn | _internal/curl_cffi/_asyncio_selector.py:155-157 | The waker's turn takes up to 1024 of its bytes, no other turn any, and an unregistered descriptor is passed over |
| SelectorHandling.ReturnsRegistered | _internal/curl_cffi/_asyncio_selector.py:186-192 | Select returns something, every descriptor of a kind registered in the snapshot, and the waker exactly when it has bytes |
| SelectorHandling.FailsOnClosed | _internal/curl_cffi/_asyncio_selector.py:196-208 | Select fails on a bad descriptor only when the snapshot holds one that is closed |
| SelectorHandling.RegisteredExactly | _internal/curl_cffi/_asyncio_selector.py:252-278 | After every run a descriptor is registered exactly if its last registration was an addition |
| SelectorHandling.ThreadTakesOrWaits | _internal/curl_cffi/_asyncio_selector.py:168-177 | The thread leaves if it is to close, else takes the snapshot, else waits to look again |
| SelectorHandling.WakeGoesOn | _internal/curl_cffi/_asyncio_selector.py:149-153 | A wake-up adds a byte unless the waker is full or the selector closed, and user code goes on in any case |
| SelectorHandling.UserCodeEnds | _internal/curl_cffi/_asyncio_selector.py:232-250 | User code comes back to where it was called from; an exception in a callback of `_handle_select` ends the handling |
| SelectorProofs.OneTurn | _internal/curl_cffi/_asyncio_selector.py:109-239 | On every interleaving the turn to select is in at most one place, in exactly one until it is given up; the assertion in `_start_select` never fails and the waker is open whenever it is about to be written to |
| SelectorProofs.NoLostWakeUp | _internal/curl_cffi/_asyncio_selector.py:149-165 | Every snapshot contains the waker; a registration changed since, once its wake-up is sent, leaves a byte in the waker, so select may return and whatever it returns contains the waker |
| SelectorProofs.UnchangedIsCurrent | _internal/curl_cffi/_asyncio_selector.py:159-166 | A snapshot since which nothing changed is what is registered now |
| SelectorProofs.BadDescriptorRecovers | _internal/curl_cffi/_asyncio_selector.py:192-215 | When select fails on a closed descriptor the waker is readable, so the thread never dies of that error |
| SelectorRetry.WakeUpOutlivesRetry | _internal/curl_cffi/_asyncio_selector.py:196-250 | On every run after a bad descriptor, until select next returns, the waker has a byte, and at the next select the waker may be returned at once and is in whatever is returned |
| SelectorRetry.RetryHappens | _internal/curl_cffi/_asyncio_selector.py:192-250 | A run on which select fails on a closed descriptor and the polled waker is handled with its byte still there |
| SelectorProofs.JoinReturns | _internal/curl_cffi/_asyncio_selector.py:109-122 | While close waits in join the thread makes at most four steps by itself; when it can make no more, join returns |
| SelectorProofs.JoinCannotDeadlock | _internal/curl_cffi/_asyncio_selector.py:109-122 | Such a run to the end of the thread exists, without a step of the loop |
| SelectorProofs.SocketsOutliveThread | _internal/curl_cffi/_asyncio_selector.py:109-122 | Once the waker's sockets are closed, whatever runs, the thread never selects, polls or posts again and the sockets stay closed |
| SelectorClosing.CloseCompletes | _internal/curl_cffi/_asyncio_selector.py:109-122 | On every interleaving the two threads make at most ten steps while `close` runs, one of them can always make one, and then it returns with the sockets closed, the waker registered nowhere and the thread gone or leaving |
| SelectorClosing.CallBegins | _internal/curl_cffi/_asyncio_selector.py:109-115 | A call of `close` sets the flag and notifies the thread, unless it is over already |
| SelectorProgress.TurnComesRound | _internal/curl_cffi/_asyncio_selector.py:159-250 | From every reachable state of a clean run before close, the threads can get to selecting on exactly what is registered, within a stated number of steps |
| SelectorProgress.CalmNearer | _internal/curl_cffi/_asyncio_selector.py:159-250 | No step of either thread, registrations included, other than starting to close or failing, takes the turn farther from a select on a snapshot with the first n changes, whatever select returns, and every step of the turn's holder brings it strictly nearer |
| SelectorProgress.HolderCanMove | _internal/curl_cffi/_asyncio_selector.py:159-250 | The holder of the turn has a step enabled unless it waits for ordinary user code to return or for a wake-up to be sent |
| SelectorProgress.AlwaysReselects | _internal/curl_cffi/_asyncio_selector.py:159-250 | On every unending interleaving of such steps on which the holder keeps moving, with registrations at any time: from any point the thread gets to selecting on a snapshot with all changes made until that point, and on exactly what is registered if nothing changed since |
| Aliases.EndUnique | _internal/exchange_calendars/calendar_utils.py:495-509 | Off the aliases a chain stays where it is, so its end is unique |
| Aliases.LoopsForEver | _internal/exchange_calendars/calendar_utils.py:497-507 | A chain that comes back to a name it has seen never leaves the aliases |
| Aliases.ClosesCycleExactly | _internal/exchange_calendars/calendar_utils.py:456-466 | A new alias closes a cycle exactly when the chain from its target already led to it |
| Aliases.MoreAcyclic | _internal/exchange_calendars/calendar_utils.py:456-466 | If the new alias's own chain ends, every chain still does |
| Aliases.FewerAcyclic | _internal/exchange_calendars/calendar_utils.py:546-557 | Taking aliases out closes no cycle |
| Registration.AlwaysGood | _internal/exchange_calendars/calendar_utils.py:371-565 | Over every sequence of operations from a disjoint acyclic start the three maps stay disjoint and the aliases acyclic, so no name resolves with the cycle error |
| Registration.CycleRefusedExactly | _internal/exchange_calendars/calendar_utils.py:430-466 | The cycle error exactly when the target's chain comes back to the alias; refused without force nothing changes, with force only that name's entries go |
| Registration.AliasStandsForTarget | _internal/exchange_calendars/calendar_utils.py:430-466 | Right after its registration an alias resolves as its target does, or to the target itself if that dangles |
| Registration.InstanceIsGot | _internal/exchange_calendars/calendar_utils.py:237-397 | Refused exactly for a known name without force; otherwise that very calendar is what the name, and every alias that led to it, gets, with an error for any argument; every other name is known and resolves as before |
| Registration.FactoryIsAsked | _internal/exchange_calendars/calendar_utils.py:237-428 | The same for a factory: what it makes is what the name gets if nothing is cached there |
| Registration.DeregisterExact | _internal/exchange_calendars/calendar_utils.py:546-557 | The name alone is gone; every other entry and the cache stay |
| Registration.ClearedExact | _internal/exchange_calendars/calendar_utils.py:559-565 | No name is left; the cache stays |
| Registration.NormaliseExact | _internal/exchange_calendars/calendar_utils.py:298-324 | Refused exactly for a date that does not parse; each bound comes from its own argument, something falsy is as good as nothing, and the side stays |
| Registration.SameKwargs | _internal/exchange_calendars/calendar_utils.py:224-326 | Requests normalise alike exactly when they ask for the same dates and the same side |
| Registration.CacheAnswersSameRequest | _internal/exchange_calendars/calendar_utils.py:214-326 | After a build the same request gets the same calendar and builds nothing; any other has the factory asked, and its calendar takes the first one's place |
| Registration.BadDates | _internal/exchange_calendars/calendar_utils.py:307-324 | An instance is returned exactly for no argument at all; otherwise a date that does not parse is an error |
| Provenance.ReturnsWhatWasBuilt | _internal/exchange_calendars/calendar_utils.py:214-326 | A calendar not registered as an instance was built now or by the last build under the resolved name, asked for the same dates and the same side, by the factory registered then, still the current one exactly when it was not replaced for good |
| Provenance.CurrentExactly | _internal/exchange_calendars/calendar_utils.py:399-428 | The registered factory is the one that built exactly when every replacement since was undone |
| Provenance.ReplacedFactoryIsNotAsked | _internal/exchange_calendars/calendar_utils.py:224-326 | After a forced re-registration the old factory's calendar is still returned |
| Provenance.InvalidNameExactly | _internal/exchange_calendars/calendar_utils.py:237-326 | InvalidCalendarName exactly for an unknown name, or one that leads to neither an instance nor a factory, with dates that parse and nothing cached there for the same arguments |
| Provenance.RaisesUnlessCached | _internal/exchange_calendars/calendar_utils.py:237-326 | For an acyclic name that represents no calendar the documented error is raised unless a calendar is still cached there, which is then returned |
| Provenance.DanglingAliasReturnsCached | _internal/exchange_calendars/calendar_utils.py:214-326 | A run after which an alias still gets the calendar of a deregistered name while the name itself is refused |
| Provenance.SecondCallIsTheSame | _internal/exchange_calendars/calendar_utils.py:224-326 | Asking again with the same arguments returns the same object and builds nothing |
| Dispatcher.ExchangeCalendarDispatcher.ResolveAlias | _internal/exchange_calendars/calendar_utils.py:468-509 | Terminates on every alias map: an error for an unknown name, the cycle error exactly when the chain never leaves the aliases, otherwise the end of the chain |
| Dispatcher.ExchangeCalendarDispatcher.RegisterCalendar | _internal/exchange_calendars/calendar_utils.py:371-397 | Whole new state and error of registering an instance, with and without force |
| Dispatcher.ExchangeCalendarDispatcher.RegisterCalendarType | _internal/exchange_calendars/calendar_utils.py:399-428 | Whole new state and error of registering a factory |
| Dispatcher.ExchangeCalendarDispatcher.RegisterCalendarAlias | _internal/exchange_calendars/calendar_utils.py:430-466 | The entry is added and, when it closes a cycle, taken out again: the state is as if the cycle had been seen beforehand |
| Dispatcher.ExchangeCalendarDispatcher.Deregister | _internal/exchange_calendars/calendar_utils.py:546-557 | The name is gone from all three maps, all else and the cache stay |
| Dispatcher.ExchangeCalendarDispatcher.Clear | _internal/exchange_calendars/calendar_utils.py:559-565 | All three maps are empty, the cache stays |
| Dispatcher.ExchangeCalendarDispatcher.AliasesToNames | _internal/exchange_calendars/calendar_utils.py:511-525 | Maps every alias to the end of its chain, and fails exactly when some chain has none |
| Dispatcher.ExchangeCalendarDispatcher.NamesToAliases | _internal/exchange_calendars/calendar_utils.py:527-544 | The exact inverse of the map from aliases to names, over all canonical names; fails exactly when some alias dangles or runs in a circle |
| Dispatcher.EachAliasListedOnce | _internal/exchange_calendars/calendar_utils.py:511-544 | Every alias is listed once, under the name it resolves to, and nothing else is listed |
| Dispatcher.ExchangeCalendarDispatcher.GetCalendar | _internal/exchange_calendars/calendar_utils.py:237-326 | The instance, the cached calendar or a new one, with the cache entry it leaves, and every error in the order in which it is raised |

## Left out

- Time zones and wall clocks: `days_at_time` is a parameter (`Schedule.Clock`).
- Rounding: numbers of intervals are exact integer ceilings, not float64 quotients.
- CalendarIndex.IntervalIndex: asks that the aligned starts of the sessions asked for are in order; a start aligned past its own end gives a negative number of intervals, of which nothing is claimed. CalendarIndex.InstantIndex and CalendarIndex.IndexOf ask the same.
- MinuteEndpoints.IntervalsOfWhole: for starts that are not moved backwards, since a start moved back can precede an end that its session is not asked for. MinuteEndpoints.InstantsOfWhole likewise, and where the check passes on the whole.
- Input parsing (`parse_timestamp`, `parse_date` and the rest), `parse=False`, and the checks that `align` and `period` are well formed.
- `_override_defaults` when the code inside it raises, which leaves the flags overridden: in the model nothing inside it raises.
- The one override of `apply_special_offsets` (exchange_calendar_xkrx.py): the hook is a parameter of `Construction.ScheduleFromRules`, and how that override handles dates that are no sessions is not claimed to be right.
- Holiday rules and session lists (`CustomBusinessDay`): the dates of rules, holidays and sessions are inputs.
- The files of single exchanges: constants and holiday tables.
- next_open, next_close, previous_minute and their kin: thin uses of the divider searches, which are modelled.
- Texts of errors and warnings; the cycle error does not carry its cycle.
- SelectorThread as a class: it is a transition system on values, because its fields are shared by two threads; a stretch of code in which one thread cannot be told apart by the other is one step.
- The exit hook `_atexit_callback`, which closes from a third thread, and the loop class around SelectorThread.
- SelectorProgress.TurnComesRound: one schedule of the threads; SelectorProgress.AlwaysReselects speaks of all of them.
- SelectorProgress.AlwaysReselects: user code and the wake-ups it sends are left to return; nothing is claimed once a callback of `_handle_select` raises, select raises another error or the loop refuses a call, since the turn is then given up by design.
- Failures of the wake-up send other than a full buffer.
- The order of `names_to_aliases` lists and of `get_calendar_names`, which is that of Python dictionaries and sets.
- Dispatcher.ExchangeCalendarDispatcher.GetCalendar: a factory is a black box that returns a given object or raises; that it might use the dispatcher itself is not modelled. The map of instances given to the constructor is copied, not shared.
- libcurl wrappers, charset detection, certificates, uvicorn and websockets: foreign calls, heuristics over tables, or I/O.
