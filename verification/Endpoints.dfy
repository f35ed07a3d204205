/** What it means for a trading index to start or end at a minute. */
module Endpoints {
  import opened Arrays
  import opened Grid
  import opened Coverage
  import opened Columns
  import opened Overlap
  import opened TradingIndex
  import opened CalendarIndex
  import Calendar

  // ----- filters -----

  lemma {:induction false} SelectAppend<T>(a: seq<T>, b: seq<T>, ma: seq<bool>, mb: seq<bool>)
    requires |a| == |ma| && |b| == |mb|
    ensures Select(a + b, ma + mb) == Select(a, ma) + Select(b, mb)
  {
    if a == [] {
      assert a + b == b && ma + mb == mb;
    } else {
      SelectAppend(a[1..], b, ma[1..], mb);
      assert a + b == [a[0]] + (a[1..] + b) && ma + mb == [ma[0]] + (ma[1..] + mb);
      SelectCons(a[0], a[1..] + b, ma[0], ma[1..] + mb);
      Regroup(if ma[0] then [a[0]] else [], Select(a[1..], ma[1..]), Select(b, mb));
    }
  }

  lemma SelectCons<T>(x: T, a: seq<T>, m: bool, ma: seq<bool>)
    requires |a| == |ma|
    ensures Select([x] + a, [m] + ma) == (if m then [x] else []) + Select(a, ma)
  {
    assert ([x] + a)[1..] == a && ([m] + ma)[1..] == ma;
  }

  lemma Regroup<T>(a: seq<T>, b: seq<T>, c: seq<T>)
    ensures a + (b + c) == (a + b) + c
  {}

  lemma {:induction false} SelectNone<T>(a: seq<T>, ma: seq<bool>)
    requires |a| == |ma|
    ensures Select(a, ma) == [] <==> forall k :: 0 <= k < |ma| ==> !ma[k]
  {
    if a != [] {
      SelectNone(a[1..], ma[1..]);
      if forall k :: 0 <= k < |ma[1..]| ==> !ma[1..][k] {
        assert forall k :: 1 <= k < |ma| ==> ma[k] == ma[1..][k - 1];
      } else {
        var k :| 0 <= k < |ma[1..]| && ma[1..][k];
        assert ma[k + 1];
      }
    }
  }

  lemma IntervalsAppend(a: seq<Interval>, b: seq<Interval>, start: Option<int>, end: Option<int>)
    ensures CurtailIntervals(a + b, start, end) == CurtailIntervals(a, start, end) + CurtailIntervals(b, start, end)
  {
    var ka, kb := Kept(Lefts(a), Rights(a), start, end), Kept(Lefts(b), Rights(b), start, end);
    assert Kept(Lefts(a + b), Rights(a + b), start, end) == ka + kb;
    SelectAppend(a, b, ka, kb);
  }

  lemma InstantsAppend(a: seq<int>, b: seq<int>, start: Option<int>, end: Option<int>)
    ensures CurtailInstants(a + b, start, end) == CurtailInstants(a, start, end) + CurtailInstants(b, start, end)
  {
    var ka, kb := Kept(a, a, start, end), Kept(b, b, start, end);
    assert Kept(a + b, a + b, start, end) == ka + kb;
    SelectAppend(a, b, ka, kb);
  }

  predicate InTimes(t: int, start: Option<int>, end: Option<int>) {
    (start.Some? ==> start.value <= t) && (end.Some? ==> t <= end.value)
  }

  lemma NoInstants(a: seq<int>, start: Option<int>, end: Option<int>)
    ensures CurtailInstants(a, start, end) == [] <==> forall t :: t in a ==> !InTimes(t, start, end)
  {
    var kept := Kept(a, a, start, end);
    SelectNone(a, kept);
    if forall t :: t in a ==> !InTimes(t, start, end) {
      forall k | 0 <= k < |kept| ensures !kept[k] {
        assert a[k] in a;
      }
    }
  }

  // ----- windows of neighbouring slices -----

  lemma {:induction false} CutWindows(c: Cols, i: nat, j: nat, k: nat)
    requires c.Aligned() && i <= j <= k <= |c.opens|
    ensures Cut(c, i, k).Windows() == Cut(c, i, j).Windows() + Cut(c, j, k).Windows()
    decreases j - i
  {
    if i < j {
      CutWindows(c, i + 1, j, k);
      CutTail(c, i, j);
      CutTail(c, i, k);
    }
  }

  lemma CutTail(c: Cols, i: nat, j: nat)
    requires c.Aligned() && i < j <= |c.opens|
    ensures Cut(c, i, j).Tail() == Cut(c, i + 1, j)
    ensures Cut(c, i, j).Windows() == Cut(c, i, i + 1).Head() + Cut(c, i + 1, j).Windows()
  {
    assert Cut(c, i, j).Tail() == Cut(c, i + 1, j);
    assert Cut(c, i, j).Head() == Cut(c, i, i + 1).Head();
  }

  /** The last window of session `k`. */
  function LastWindow(c: Cols, k: nat): Window
    requires c.Aligned() && k < |c.opens|
  {
    Window(if c.mask[k] then c.breakEnds[k] else c.opens[k], c.closes[k], c.forceClose)
  }

  lemma LastOfCut(c: Cols, i: nat, j: nat)
    requires c.Aligned() && i < j <= |c.opens|
    ensures var ws := Cut(c, i, j).Windows(); ws != [] && ws[|ws| - 1] == LastWindow(c, j - 1)
  {
    CutWindows(c, i, j - 1, j);
    CutTail(c, j - 1, j);
    assert Cut(c, j, j).Windows() == [];
  }

  lemma FirstOfCut(c: Cols, i: nat, j: nat)
    requires c.Aligned() && i < j <= |c.opens|
    ensures var ws := Cut(c, i, j).Windows(); ws != [] && ws[0].start == c.opens[i]
  {
    CutTail(c, i, j);
  }

  lemma {:induction false} WindowsEnd(c: Cols, m: int)
    requires c.Aligned() && AllInOrder(c) && forall k :: 0 <= k < |c.opens| ==> c.closes[k] <= m
    ensures forall w :: w in c.Windows() ==> w.end <= m
    decreases |c.opens|
  {
    if c.opens != [] {
      TailInOrder(c);
      assert InOrder(c, 0);
      WindowsEnd(c.Tail(), m);
    }
  }

  // ----- intervals -----

  lemma {:induction false} TilesBefore(ws: seq<Window>, p: Period, m: int)
    requires Chronological(ws) && forall w :: w in ws ==> w.end <= m
    ensures forall t :: t in AllTiles(ws, p) ==> t.left < m
  {
    if ws != [] {
      Step(ws, p);
      TilesChain(ws[0], p);
      TilesBefore(ws[1..], p, m);
    }
  }

  lemma {:induction false} TilesAfter(ws: seq<Window>, p: Period, m: int)
    requires Chronological(ws) && forall w :: w in ws ==> m <= w.start
    ensures forall t :: t in AllTiles(ws, p) ==> m < t.right
  {
    if ws != [] {
      Step(ws, p);
      TilesChain(ws[0], p);
      TilesAfter(ws[1..], p, m);
    }
  }

  lemma DropsIntervals(ts: seq<Interval>, start: Option<int>, end: Option<int>)
    requires (start.Some? && forall t :: t in ts ==> t.left < start.value)
      || (end.Some? && forall t :: t in ts ==> end.value < t.right) || ts == []
    ensures CurtailIntervals(ts, start, end) == []
  {
    var kept := Kept(Lefts(ts), Rights(ts), start, end);
    SelectNone(ts, kept);
    forall k | 0 <= k < |kept| ensures !kept[k] {
      assert ts[k] in ts;
    }
  }

  /** The last interval, cut off at `next`. */
  function CutLast(ts: seq<Interval>, next: int): seq<Interval>
    requires ts != []
  {
    var last := ts[|ts| - 1];
    ts[..|ts| - 1] + [Interval(last.left, Min(last.right, next))]
  }

  /** Curtailing two runs of intervals together only cuts the last one of the first. */
  lemma CurtailAppend(a: seq<Interval>, b: seq<Interval>)
    ensures Curtail(a + b) == (if a == [] || b == [] then Curtail(a) else CutLast(Curtail(a), b[0].left)) + Curtail(b)
  {
    var ab := a + b;
    var r := (if a == [] || b == [] then Curtail(a) else CutLast(Curtail(a), b[0].left)) + Curtail(b);
    forall k | 0 <= k < |ab|
      ensures Curtail(ab)[k] == r[k]
    {
      assert ab[k] == if k < |a| then a[k] else b[k - |a|];
      if k + 1 < |ab| {
        assert ab[k + 1] == if k + 1 < |a| then a[k + 1] else b[k + 1 - |a|];
      }
    }
  }

  /** The left side of the last period of a window. */
  function LastLeft(w: Window, p: Period): int {
    w.start + (Periods(w, p) - 1) * p
  }

  lemma {:induction false} TilesEnds(ws: seq<Window>, p: Period)
    requires Chronological(ws) && ws != []
    ensures var ts, w := AllTiles(ws, p), ws[|ws| - 1];
      ts != [] && ts[0].left == ws[0].start && ts[|ts| - 1] == Interval(LastLeft(w, p), Last(w, p))
  {
    Step(ws, p);
    TilesChain(ws[0], p);
    if |ws| > 1 {
      TilesEnds(ws[1..], p);
    } else {
      assert AllTiles(ws[1..], p) == [];
      assert AllTiles(ws, p) == Tiles(ws[0], p);
    }
  }

  lemma DropsEarly(ws: seq<Window>, ts: seq<Interval>, p: Period, start: int, end: Option<int>)
    requires Chronological(ws) && forall w :: w in ws ==> w.end <= start
    requires Lefts(ts) == Lefts(AllTiles(ws, p))
    ensures CurtailIntervals(ts, Some(start), end) == []
  {
    var all := AllTiles(ws, p);
    TilesBefore(ws, p, start);
    forall t | t in ts
      ensures t.left < start
    {
      var k :| 0 <= k < |ts| && ts[k] == t;
      assert Lefts(ts)[k] == Lefts(all)[k];
      assert all[k] in all;
    }
    DropsIntervals(ts, Some(start), end);
  }

  lemma DropsLate(ws: seq<Window>, p: Period, start: Option<int>, end: int)
    requires Chronological(ws) && forall w :: w in ws ==> end <= w.start
    ensures CurtailIntervals(Curtail(AllTiles(ws, p)), start, Some(end)) == []
  {
    var ts := Curtail(AllTiles(ws, p));
    EveryOpenInstantOnce(ws, p);
    TilesStart(ws, p, end);
    forall t | t in ts
      ensures end < t.right
    {
      var k :| 0 <= k < |ts| && ts[k] == t;
      assert AllTiles(ws, p)[k] in AllTiles(ws, p);
    }
    DropsIntervals(ts, start, Some(end));
  }

  lemma {:induction false} TilesStart(ws: seq<Window>, p: Period, m: int)
    requires Chronological(ws) && forall w :: w in ws ==> m <= w.start
    ensures forall t :: t in AllTiles(ws, p) ==> m <= t.left
  {
    if ws != [] {
      Step(ws, p);
      TilesChain(ws[0], p);
      TilesStart(ws[1..], p, m);
    }
  }

  /** The last period of `bs` runs over the start of `cs`, which is the very end asked
      for, and begins no earlier than the start asked for. */
  predicate CutsIntoLast(bs: seq<Window>, cs: seq<Window>, p: Period, start: Option<int>, end: Option<int>) {
    && bs != [] && cs != [] && end == Some(cs[0].start)
    && Last(bs[|bs| - 1], p) > cs[0].start
    && (start.Some? ==> start.value <= LastLeft(bs[|bs| - 1], p))
  }

  lemma OneInterval(t: Interval, start: Option<int>, end: Option<int>)
    ensures CurtailIntervals([t], start, end) ==
      if (start.Some? ==> t.left >= start.value) && (end.Some? ==> t.right <= end.value) then [t] else []
  {
    var kept := Kept(Lefts([t]), Rights([t]), start, end);
    assert kept[1..] == [] && [t][1..] == [];
    assert Lefts([t])[0] == t.left && Rights([t])[0] == t.right;
  }

  lemma CutLastKept(ts: seq<Interval>, next: int, start: Option<int>, end: int)
    requires ts != [] && end <= next
    ensures var last := ts[|ts| - 1];
      CurtailIntervals(CutLast(ts, next), start, Some(end)) == CurtailIntervals(ts, start, Some(end)) <==>
        !(last.right > next && end == next && (start.Some? ==> start.value <= last.left))
  {
    var n, last := |ts| - 1, ts[|ts| - 1];
    var cut := Interval(last.left, Min(last.right, next));
    assert ts == ts[..n] + [last];
    IntervalsAppend(ts[..n], [last], start, Some(end));
    IntervalsAppend(ts[..n], [cut], start, Some(end));
    OneInterval(last, start, Some(end));
    OneInterval(cut, start, Some(end));
    var kept := CurtailIntervals(ts[..n], start, Some(end));
    if last.right > next {
      assert kept + [] == kept;
      assert |kept + [cut]| == |kept| + 1;
    }
  }

  lemma TilesAppend(a: seq<Window>, b: seq<Window>, p: Period)
    ensures AllTiles(a + b, p) == AllTiles(a, p) + AllTiles(b, p)
  {
    FlatMapConcat(a, b, TilesBy(p));
  }

  /** Windows that are over by the start add nothing. */
  lemma EarlierAddNothing(a: seq<Window>, b: seq<Window>, p: Period, start: Option<int>, end: Option<int>)
    requires Chronological(a)
    requires a != [] ==> start.Some? && forall w :: w in a ==> w.end <= start.value
    ensures CurtailIntervals(Curtail(AllTiles(a + b, p)), start, end)
      == CurtailIntervals(Curtail(AllTiles(b, p)), start, end)
  {
    var ta, tb := AllTiles(a, p), AllTiles(b, p);
    TilesAppend(a, b, p);
    CurtailAppend(ta, tb);
    var first := if ta == [] || tb == [] then Curtail(ta) else CutLast(Curtail(ta), tb[0].left);
    assert Lefts(first) == Lefts(ta);
    IntervalsAppend(first, Curtail(tb), start, end);
    if a == [] {
      assert ta == [] && first == [];
      assert CurtailIntervals(first, start, end) == [];
    } else {
      DropsEarly(a, first, p, start.value, end);
    }
  }

  /** Windows that begin no earlier than the end add nothing, unless they cut the last
      period before them down to the end. */
  lemma LaterAddNothing(b: seq<Window>, d: seq<Window>, p: Period, start: Option<int>, end: Option<int>)
    requires Chronological(b) && Chronological(d)
    requires d != [] ==> end.Some? && forall w :: w in d ==> end.value <= w.start
    ensures CurtailIntervals(Curtail(AllTiles(b + d, p)), start, end)
      == CurtailIntervals(Curtail(AllTiles(b, p)), start, end)
      <==> !CutsIntoLast(b, d, p, start, end)
  {
    var tb, td := AllTiles(b, p), AllTiles(d, p);
    TilesAppend(b, d, p);
    CurtailAppend(tb, td);
    if d == [] {
      assert td == [] && Curtail(td) == [] && tb + td == tb;
    } else {
      TilesEnds(d, p);
      DropsLate(d, p, start, end.value);
      if b == [] {
        assert tb == [];
        IntervalsAppend(Curtail(tb), Curtail(td), start, end);
      } else {
        TilesEnds(b, p);
        var cut := CutLast(Curtail(tb), td[0].left);
        IntervalsAppend(cut, Curtail(td), start, end);
        CutLastKept(Curtail(tb), td[0].left, start, end.value);
      }
    }
  }
}
