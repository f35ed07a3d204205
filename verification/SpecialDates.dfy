/** The dates with special opens or closes, and their effect on the standard times. */
module SpecialDates {
  import opened Arrays
  import opened Schedule

  /** A non-standard time and the dates it is for. */
  datatype Rule = Rule(time: int, dates: seq<int>)

  /** A row of a series: a date and the instant it maps to. */
  datatype Entry = Entry(date: int, at: int)

  /** The first instant a series has for a date. */
  function Lookup(series: seq<Entry>, d: int): Option<int> {
    if series == [] then None
    else if series[0].date == d then Some(series[0].at)
    else Lookup(series[1..], d)
  }

  ghost predicate Distinct(series: seq<Entry>) {
    forall i, j :: 0 <= i < j < |series| ==> series[i].date != series[j].date
  }

  ghost predicate ByDate(series: seq<Entry>) {
    forall i, j :: 0 <= i < j < |series| ==> series[i].date < series[j].date
  }

  /** The rows of one rule, dates outside the range dropped. */
  function RuleSeries(dates: seq<int>, time: int, start: Option<int>, end: Option<int>, clock: Clock): seq<Entry> {
    if dates == [] then [] else
      (if (start.Some? ==> start.value <= dates[0]) && (end.Some? ==> dates[0] <= end.value)
       then [Entry(dates[0], clock(dates[0], time, 0))] else [])
      + RuleSeries(dates[1..], time, start, end, clock)
  }

  /** pd.concat of the rows of all rules */
  function AllSeries(rules: seq<Rule>, start: Option<int>, end: Option<int>, clock: Clock): seq<Entry> {
    if rules == [] then [] else
      RuleSeries(rules[0].dates, rules[0].time, start, end, clock) + AllSeries(rules[1..], start, end, clock)
  }

  /** ~index.duplicated(keep="first") */
  function KeepFirst(series: seq<Entry>): seq<Entry> {
    if series == [] then [] else
      var n := |series| - 1;
      var kept := KeepFirst(series[..n]);
      if Lookup(kept, series[n].date).Some? then kept else kept + [series[n]]
  }

  /** ~index.isin(holidays) */
  function Exclude(series: seq<Entry>, holidays: seq<int>): seq<Entry> {
    if series == [] then [] else
      (if series[0].date in holidays then [] else [series[0]]) + Exclude(series[1..], holidays)
  }

  // ----- what a special date means -----

  predicate InRange(d: int, start: Option<int>, end: Option<int>) {
    (start.Some? ==> start.value <= d) && (end.Some? ==> d <= end.value)
  }

  /** The time given by the lowest-index rule that names `d`. */
  function FirstNaming(rules: seq<Rule>, d: int): Option<int> {
    if rules == [] then None
    else if d in rules[0].dates then Some(rules[0].time)
    else FirstNaming(rules[1..], d)
  }

  /** The special instant of a date: ad-hoc rules before regular ones, lowest index
      first within each, and nothing on a holiday. */
  function SpecialAt(
    adhoc: seq<Rule>, regular: seq<Rule>, start: int, end: int, holidays: seq<int>, clock: Clock, d: int): Option<int>
  {
    if d in holidays then None
    else if start <= d <= end && FirstNaming(adhoc, d).Some? then Some(clock(d, FirstNaming(adhoc, d).value, 0))
    else match FirstNaming(regular, d)
      case Some(time) => Some(clock(d, time, 0))
      case None => None
  }

  // ----- facts -----

  lemma {:induction false} LookupConcat(a: seq<Entry>, b: seq<Entry>, d: int)
    ensures Lookup(a + b, d) == if Lookup(a, d).Some? then Lookup(a, d) else Lookup(b, d)
  {
    if a == [] {
      assert a + b == b;
    } else {
      assert (a + b)[1..] == a[1..] + b;
      LookupConcat(a[1..], b, d);
    }
  }

  lemma {:induction false} LookupMember(series: seq<Entry>, d: int)
    ensures Lookup(series, d).Some? ==> Entry(d, Lookup(series, d).value) in series
    ensures forall i :: 0 <= i < |series| && series[i].date == d ==> Lookup(series, d).Some?
  {
    if series != [] {
      LookupMember(series[1..], d);
      forall i | 0 <= i < |series| && series[i].date == d
        ensures Lookup(series, d).Some?
      {
        assert i > 0 ==> series[1..][i - 1] == series[i];
      }
    }
  }

  lemma LookupDistinct(series: seq<Entry>, e: Entry)
    requires Distinct(series) && e in series
    ensures Lookup(series, e.date) == Some(e.at)
  {
    LookupMember(series, e.date);
  }

  /** Two series with the same rows, each date once, look the same. */
  lemma SameLookup(a: seq<Entry>, b: seq<Entry>, d: int)
    requires Distinct(a) && Distinct(b)
    requires forall e :: e in a <==> e in b
    ensures Lookup(a, d) == Lookup(b, d)
  {
    LookupMember(a, d);
    LookupMember(b, d);
    if Lookup(a, d).Some? {
      LookupDistinct(b, Entry(d, Lookup(a, d).value));
    } else if Lookup(b, d).Some? {
      LookupDistinct(a, Entry(d, Lookup(b, d).value));
    }
  }

  lemma {:induction false} LookupRule(dates: seq<int>, time: int, start: Option<int>, end: Option<int>, clock: Clock,
    d: int)
    ensures Lookup(RuleSeries(dates, time, start, end, clock), d)
      == if d in dates && InRange(d, start, end) then Some(clock(d, time, 0)) else None
  {
    if dates != [] {
      LookupRule(dates[1..], time, start, end, clock, d);
      var head := if InRange(dates[0], start, end) then [Entry(dates[0], clock(dates[0], time, 0))] else [];
      LookupConcat(head, RuleSeries(dates[1..], time, start, end, clock), d);
      assert dates == [dates[0]] + dates[1..];
      assert d in dates <==> d == dates[0] || d in dates[1..];
    }
  }

  lemma {:induction false} LookupRules(rules: seq<Rule>, start: Option<int>, end: Option<int>, clock: Clock, d: int)
    ensures Lookup(AllSeries(rules, start, end, clock), d) ==
      if InRange(d, start, end) && FirstNaming(rules, d).Some? then Some(clock(d, FirstNaming(rules, d).value, 0))
        else None
  {
    if rules != [] {
      LookupRules(rules[1..], start, end, clock, d);
      LookupRule(rules[0].dates, rules[0].time, start, end, clock, d);
      LookupConcat(RuleSeries(rules[0].dates, rules[0].time, start, end, clock),
        AllSeries(rules[1..], start, end, clock), d);
    }
  }

  lemma {:induction false} KeepFirstExact(series: seq<Entry>)
    ensures Distinct(KeepFirst(series))
    ensures forall d :: Lookup(KeepFirst(series), d) == Lookup(series, d)
  {
    if series != [] {
      var n := |series| - 1;
      var kept, last := KeepFirst(series[..n]), series[n];
      KeepFirstExact(series[..n]);
      assert series == series[..n] + [last];
      LookupMember(kept, last.date);
      forall d
        ensures Lookup(KeepFirst(series), d) == Lookup(series, d)
      {
        LookupConcat(series[..n], [last], d);
        LookupConcat(kept, [last], d);
      }
    }
  }

  lemma {:induction false} ExcludeExact(series: seq<Entry>, holidays: seq<int>, d: int)
    ensures Lookup(Exclude(series, holidays), d) == if d in holidays then None else Lookup(series, d)
  {
    if series != [] {
      ExcludeExact(series[1..], holidays, d);
      LookupConcat(if series[0].date in holidays then [] else [series[0]], Exclude(series[1..], holidays), d);
    }
  }

  lemma {:induction false} ExcludeByDate(series: seq<Entry>, holidays: seq<int>)
    requires ByDate(series)
    ensures ByDate(Exclude(series, holidays))
    ensures forall e :: e in Exclude(series, holidays) ==> e in series
  {
    if series != [] {
      ExcludeByDate(series[1..], holidays);
      assert forall e :: e in series[1..] ==> e in series && series[0].date < e.date;
    }
  }

  /** The position to insert a date at. */
  function Place(series: seq<Entry>, d: int): (k: nat)
    ensures k <= |series|
    ensures forall i :: 0 <= i < k ==> series[i].date < d
    ensures k < |series| ==> d <= series[k].date
  {
    PlaceFrom(series, d, 0)
  }

  function PlaceFrom(series: seq<Entry>, d: int, i: nat): (k: nat)
    requires i <= |series|
    ensures i <= k <= |series|
    ensures forall j :: i <= j < k ==> series[j].date < d
    ensures k < |series| ==> d <= series[k].date
    decreases |series| - i
  {
    if i < |series| && series[i].date < d then PlaceFrom(series, d, i + 1) else i
  }

  lemma InsertMembers<T>(xs: seq<T>, k: nat, x: T)
    requires k <= |xs|
    ensures forall y :: y in InsertAt(xs, k, x) <==> y in xs || y == x
  {
    MultisetInsert(xs, k, x);
    forall y
      ensures y in InsertAt(xs, k, x) <==> y in xs || y == x
    {
      assert y in InsertAt(xs, k, x) <==> y in multiset(InsertAt(xs, k, x));
      assert y in xs <==> y in multiset(xs);
    }
  }

  lemma JoinByDate(a: seq<Entry>, b: seq<Entry>)
    requires ByDate(a) && ByDate(b)
    requires a != [] && b != [] ==> a[|a| - 1].date < b[0].date
    ensures ByDate(a + b)
  {
    assert forall i :: 0 <= i < |a| ==> a[i].date <= a[|a| - 1].date;
    assert forall j :: 0 <= j < |b| ==> b[0].date <= b[j].date;
  }

  lemma InsertEntry(series: seq<Entry>, e: Entry)
    requires ByDate(series)
    requires forall i :: 0 <= i < |series| ==> series[i].date != e.date
    ensures ByDate(InsertAt(series, Place(series, e.date), e))
  {
    var k := Place(series, e.date);
    assert k < |series| ==> e.date < series[k].date;
    JoinByDate(series[..k], [e]);
    JoinByDate(series[..k] + [e], series[k..]);
  }

  /** sort_index */
  method SortIndex(series: seq<Entry>) returns (r: seq<Entry>)
    requires Distinct(series)
    ensures ByDate(r)
    ensures forall e :: e in r <==> e in series
  {
    r := [];
    for n := 0 to |series|
      invariant ByDate(r)
      invariant forall e :: e in r <==> e in series[..n]
    {
      assert series[..n + 1] == series[..n] + [series[n]];
      forall i | 0 <= i < |r|
        ensures r[i].date != series[n].date
      {
        assert r[i] in series[..n];
      }
      InsertEntry(r, series[n]);
      InsertMembers(r, Place(r, series[n].date), series[n]);
      r := InsertAt(r, Place(r, series[n].date), series[n]);
    }
    assert series[..|series|] == series;
  }

  /** `_special_dates`: the rows are in date order, each date once, and each date maps
      to the instant of the rule that takes precedence. */
  method ComputeSpecialDates(
    regular: seq<Rule>, adhoc: seq<Rule>, start: int, end: int,
    adhocHolidays: seq<int>, regularHolidays: seq<int>, clock: Clock) returns (r: seq<Entry>)
    ensures ByDate(r)
    ensures forall d :: Lookup(r, d) == SpecialAt(adhoc, regular, start, end, adhocHolidays + regularHolidays, clock, d)
  {
    var merged := AllSeries(adhoc, Some(start), Some(end), clock) + AllSeries(regular, None, None, clock);
    var first := KeepFirst(merged);
    KeepFirstExact(merged);
    r := SortIndex(first);
    ghost var sorted := r;
    r := Exclude(r, adhocHolidays);
    ghost var working := r;
    r := Exclude(r, regularHolidays);
    ExcludeByDate(sorted, adhocHolidays);
    ExcludeByDate(working, regularHolidays);
    forall d
      ensures Lookup(r, d) == SpecialAt(adhoc, regular, start, end, adhocHolidays + regularHolidays, clock, d)
    {
      LookupRules(adhoc, Some(start), Some(end), clock, d);
      LookupRules(regular, None, None, clock, d);
      LookupConcat(AllSeries(adhoc, Some(start), Some(end), clock), AllSeries(regular, None, None, clock), d);
      SameLookup(first, sorted, d);
      ExcludeExact(sorted, adhocHolidays, d);
      ExcludeExact(working, regularHolidays, d);
    }
  }

  // ----- applying special times to sessions -----

  /** The position of a label, or -1. */
  function IndexOf(labels: seq<int>, d: int): (r: int)
    ensures -1 <= r < |labels|
    ensures r >= 0 ==> labels[r] == d
    ensures r == -1 ==> d !in labels
  {
    if labels == [] then -1
    else if labels[0] == d then 0
    else
      var r := IndexOf(labels[1..], d);
      if r == -1 then -1 else r + 1
  }

  /** session_labels.get_indexer(series.index) */
  function GetIndexer(labels: seq<int>, series: seq<Entry>): (r: seq<int>)
    ensures |r| == |series|
    ensures forall k :: 0 <= k < |r| ==> r[k] == IndexOf(labels, series[k].date)
  {
    seq(|series|, k requires 0 <= k < |series| => IndexOf(labels, series[k].date))
  }

  /** srs.iloc[indexer] = values */
  function AssignAt(srs: seq<int>, indexer: seq<int>, values: seq<int>): (r: seq<int>)
    requires |indexer| == |values|
    requires forall k :: 0 <= k < |indexer| ==> 0 <= indexer[k] < |srs|
    ensures |r| == |srs|
    decreases |indexer|
  {
    if indexer == [] then srs else AssignAt(srs[indexer[0] := values[0]], indexer[1..], values[1..])
  }

  function Instants(series: seq<Entry>): (r: seq<int>)
    ensures |r| == |series|
    ensures forall k :: 0 <= k < |r| ==> r[k] == series[k].at
  {
    seq(|series|, k requires 0 <= k < |series| => series[k].at)
  }

  function Repeated(n: nat, v: int): (r: seq<int>)
    ensures |r| == n
    ensures forall k :: 0 <= k < n ==> r[k] == v
  {
    seq(n, _ => v)
  }

  ghost predicate AllSessions(labels: seq<int>, series: seq<Entry>) {
    forall k :: 0 <= k < |series| ==> series[k].date in labels
  }

  /** Assigning at distinct positions: an entry changes exactly when it is named. */
  lemma {:induction false} AssignExact(srs: seq<int>, indexer: seq<int>, values: seq<int>)
    requires |indexer| == |values|
    requires forall k :: 0 <= k < |indexer| ==> 0 <= indexer[k] < |srs|
    requires forall j, k :: 0 <= j < k < |indexer| ==> indexer[j] != indexer[k]
    ensures forall k :: 0 <= k < |indexer| ==> AssignAt(srs, indexer, values)[indexer[k]] == values[k]
    ensures forall i :: 0 <= i < |srs| && i !in indexer ==> AssignAt(srs, indexer, values)[i] == srs[i]
    decreases |indexer|
  {
    if indexer != [] {
      var rest := indexer[1..];
      assert forall k :: 0 <= k < |rest| ==> rest[k] == indexer[k + 1];
      AssignExact(srs[indexer[0] := values[0]], rest, values[1..]);
      assert indexer[0] !in rest;
      forall k | 1 <= k < |indexer|
        ensures AssignAt(srs, indexer, values)[indexer[k]] == values[k]
      {
        assert rest[k - 1] == indexer[k] && values[1..][k - 1] == values[k];
      }
      assert forall i :: i !in indexer ==> i !in rest && i != indexer[0];
    }
  }

  lemma {:induction false} IndexOfLabel(labels: seq<int>, i: nat)
    requires Increasing(labels) && i < |labels|
    ensures IndexOf(labels, labels[i]) == i
  {
    var r := IndexOf(labels, labels[i]);
    assert r != -1;
  }

  /** Overriding a series of times by date. */
  ghost predicate Overridden(
    labels: seq<int>, standard: seq<int>, r: seq<int>, value: Entry -> int, series: seq<Entry>)
  {
    && |r| == |labels| == |standard|
    && forall i :: 0 <= i < |labels| ==>
      r[i] == match Lookup(series, labels[i]) case Some(at) => value(Entry(labels[i], at)) case None => standard[i]
  }

  lemma AssignByDate(labels: seq<int>, standard: seq<int>, series: seq<Entry>, values: seq<int>, value: Entry -> int)
    requires Increasing(labels) && |standard| == |labels| && ByDate(series) && AllSessions(labels, series)
    requires |values| == |series|
    requires forall k :: 0 <= k < |series| ==> values[k] == value(series[k])
    ensures forall k :: 0 <= k < |series| ==> 0 <= GetIndexer(labels, series)[k] < |labels|
    ensures Overridden(labels, standard, AssignAt(standard, GetIndexer(labels, series), values), value, series)
  {
    var indexer := GetIndexer(labels, series);
    forall j, k | 0 <= j < k < |indexer|
      ensures indexer[j] != indexer[k]
    {
      assert labels[indexer[j]] == series[j].date < series[k].date == labels[indexer[k]];
    }
    AssignExact(standard, indexer, values);
    forall i | 0 <= i < |labels|
      ensures AssignAt(standard, indexer, values)[i]
        == match Lookup(series, labels[i]) case Some(at) => value(Entry(labels[i], at)) case None => standard[i]
    {
      LookupMember(series, labels[i]);
      IndexOfLabel(labels, i);
      if Lookup(series, labels[i]).Some? {
        var k :| 0 <= k < |series| && series[k] == Entry(labels[i], Lookup(series, labels[i]).value);
        assert indexer[k] == i;
      } else {
        assert i !in indexer;
      }
    }
  }

  /** `_adjust_special_dates` */
  method AdjustSpecialDates(labels: seq<int>, standard: seq<int>, special: seq<Entry>)
    returns (r: Result<seq<int>, ScheduleError>)
    requires Increasing(labels) && ByDate(special)
    ensures r.Ok? <==> special == [] || (|standard| == |labels| && AllSessions(labels, special))
    ensures special == [] ==> r == Ok(standard)
    ensures r.Ok? && |standard| == |labels| ==> Overridden(labels, standard, r.value, (e: Entry) => e.at, special)
    ensures r.Err? ==> r.error == ValueError
  {
    if special == [] {
      return Ok(standard);
    }
    if |labels| != |standard| {
      return Err(ValueError);
    }
    var indexer := GetIndexer(labels, special);
    if -1 in indexer {
      var k :| 0 <= k < |indexer| && indexer[k] == -1;
      assert special[k].date !in labels;
      return Err(ValueError);
    }
    AssignByDate(labels, standard, special, Instants(special), (e: Entry) => e.at);
    var srs := AssignAt(standard, indexer, Instants(special));
    return Ok(srs);
  }

  /** `_remove_breaks_for_special_dates`, for an exchange with breaks */
  method RemoveBreaks(labels: seq<int>, standard: seq<int>, special: seq<Entry>)
    returns (r: Result<seq<int>, ScheduleError>)
    requires Increasing(labels) && ByDate(special)
    ensures r.Ok? <==> special == [] || (|standard| == |labels| && AllSessions(labels, special))
    ensures special == [] ==> r == Ok(standard)
    ensures r.Ok? && |standard| == |labels| ==> Overridden(labels, standard, r.value, (e: Entry) => NAT, special)
    ensures r.Err? ==> r.error == ValueError
  {
    if special == [] {
      return Ok(standard);
    }
    if |labels| != |standard| {
      return Err(ValueError);
    }
    var indexer := GetIndexer(labels, special);
    if -1 in indexer {
      var k :| 0 <= k < |indexer| && indexer[k] == -1;
      assert special[k].date !in labels;
      return Err(ValueError);
    }
    AssignByDate(labels, standard, special, Repeated(|special|, NAT), (e: Entry) => NAT);
    var srs := AssignAt(standard, indexer, Repeated(|special|, NAT));
    return Ok(srs);
  }

  // ----- precedence -----

  /** Rule `i` is the first of the list that names `d`. */
  ghost predicate FirstRule(rules: seq<Rule>, d: int, i: int) {
    0 <= i < |rules| && d in rules[i].dates && forall k :: 0 <= k < i ==> d !in rules[k].dates
  }

  ghost predicate Named(rules: seq<Rule>, d: int) {
    exists i :: 0 <= i < |rules| && d in rules[i].dates
  }

  lemma {:induction false} FirstNamingExact(rules: seq<Rule>, d: int)
    ensures forall i :: FirstRule(rules, d, i) ==> FirstNaming(rules, d) == Some(rules[i].time)
    ensures FirstNaming(rules, d).Some? <==> Named(rules, d)
  {
    if rules != [] {
      FirstNamingExact(rules[1..], d);
      forall i | FirstRule(rules, d, i)
        ensures FirstNaming(rules, d) == Some(rules[i].time)
      {
        if i > 0 {
          assert d !in rules[0].dates;
          assert FirstRule(rules[1..], d, i - 1) by {
            assert forall k :: 0 <= k < i - 1 ==> rules[1..][k] == rules[k + 1];
          }
        }
      }
      if Named(rules[1..], d) {
        var i :| 0 <= i < |rules[1..]| && d in rules[1..][i].dates;
        assert d in rules[i + 1].dates;
      }
      if i :| 0 <= i < |rules| && d in rules[i].dates {
        assert i > 0 ==> d in rules[1..][i - 1].dates;
      }
    }
  }

  /** A holiday has no special time. Otherwise, within the range, the first ad-hoc rule
      that names the date decides; where none does, or out of range, the first regular
      rule that names it; where none does, there is none. */
  lemma SpecialAtExact(
    adhoc: seq<Rule>, regular: seq<Rule>, start: int, end: int, holidays: seq<int>, clock: Clock, d: int)
    ensures var r := SpecialAt(adhoc, regular, start, end, holidays, clock, d);
      && (d in holidays ==> r == None)
      && (d !in holidays && start <= d <= end ==>
            forall i :: FirstRule(adhoc, d, i) ==> r == Some(clock(d, adhoc[i].time, 0)))
      && (d !in holidays && !(start <= d <= end && Named(adhoc, d)) ==>
            forall i :: FirstRule(regular, d, i) ==> r == Some(clock(d, regular[i].time, 0)))
      && (d !in holidays && !(start <= d <= end && Named(adhoc, d)) && !Named(regular, d) ==> r == None)
  {
    FirstNamingExact(adhoc, d);
    FirstNamingExact(regular, d);
  }
}
