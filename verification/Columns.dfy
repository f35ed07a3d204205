/** The parallel arrays of a trading index, and the windows they describe. */
module Columns {
  import opened Arrays
  import opened Grid

  /** One entry per session.  `mask` marks the sessions with a break; the break
      arrays mean nothing elsewhere. */
  datatype Cols = Cols(
    opens: seq<int>, breakStarts: seq<int>, breakEnds: seq<int>, closes: seq<int>,
    mask: seq<bool>, forceBreakClose: bool, forceClose: bool)
  {
    predicate Aligned() {
      |opens| == |breakStarts| == |breakEnds| == |closes| == |mask|
    }

    function Tail(): (c: Cols)
      requires Aligned() && opens != []
      ensures c.Aligned() && |c.opens| == |opens| - 1
    {
      Cols(opens[1..], breakStarts[1..], breakEnds[1..], closes[1..], mask[1..], forceBreakClose, forceClose)
    }

    /** The windows of the first session. */
    function Head(): (ws: seq<Window>)
      requires Aligned() && opens != []
      ensures ws != [] && ws[0].start == opens[0]
    {
      if mask[0] then
        [Window(opens[0], breakStarts[0], forceBreakClose), Window(breakEnds[0], closes[0], forceClose)]
      else
        [Window(opens[0], closes[0], forceClose)]
    }

    /** All windows, session by session. */
    function Windows(): seq<Window>
      requires Aligned()
      decreases |opens|
    {
      if opens == [] then [] else Head() + Tail().Windows()
    }
  }

  /** break_starts != NaT, unless breaks are ignored */
  function BreakMask(breakStarts: seq<int>, ignoreBreaks: bool): (r: seq<bool>)
    ensures |r| == |breakStarts|
    ensures forall i :: 0 <= i < |r| ==> (r[i] <==> !ignoreBreaks && breakStarts[i] != NAT)
  {
    seq(|breakStarts|, i requires 0 <= i < |breakStarts| => !ignoreBreaks && breakStarts[i] != NAT)
  }

  /** The windows of one call of `_create_index_for_sessions`. */
  function Zip(starts: seq<int>, ends: seq<int>, forced: bool): (ws: seq<Window>)
    requires |starts| == |ends|
    ensures |ws| == |starts|
  {
    seq(|starts|, i requires 0 <= i < |starts| => Window(starts[i], ends[i], forced))
  }

  // The three groups in which `_trading_index` visits the windows.

  function Morning(c: Cols): seq<Window>
    requires c.Aligned()
  {
    SelectSize(c.opens, c.breakStarts, c.mask);
    Zip(Select(c.opens, c.mask), Select(c.breakStarts, c.mask), c.forceBreakClose)
  }

  function Afternoon(c: Cols): seq<Window>
    requires c.Aligned()
  {
    SelectSize(c.breakEnds, c.closes, c.mask);
    Zip(Select(c.breakEnds, c.mask), Select(c.closes, c.mask), c.forceClose)
  }

  function WholeDay(c: Cols): seq<Window>
    requires c.Aligned()
  {
    SelectSize(c.opens, c.closes, Not(c.mask));
    Zip(Select(c.opens, Not(c.mask)), Select(c.closes, Not(c.mask)), c.forceClose)
  }

  function Grouped(c: Cols): seq<Window>
    requires c.Aligned()
  {
    Morning(c) + Afternoon(c) + WholeDay(c)
  }

  lemma {:induction false} SelectSize<T, U>(a: seq<T>, b: seq<U>, mask: seq<bool>)
    requires |a| == |b| == |mask|
    ensures |Select(a, mask)| == |Select(b, mask)|
  {
    if a != [] {
      SelectSize(a[1..], b[1..], mask[1..]);
    }
  }

  lemma MorningStep(c: Cols)
    requires c.Aligned() && c.opens != []
    ensures Morning(c) == (if c.mask[0] then [Window(c.opens[0], c.breakStarts[0], c.forceBreakClose)] else [])
      + Morning(c.Tail())
  {}

  lemma AfternoonStep(c: Cols)
    requires c.Aligned() && c.opens != []
    ensures Afternoon(c) == (if c.mask[0] then [Window(c.breakEnds[0], c.closes[0], c.forceClose)] else [])
      + Afternoon(c.Tail())
  {}

  lemma WholeDayStep(c: Cols)
    requires c.Aligned() && c.opens != []
    ensures WholeDay(c) == (if c.mask[0] then [] else [Window(c.opens[0], c.closes[0], c.forceClose)])
      + WholeDay(c.Tail())
  {
    assert Not(c.mask)[1..] == Not(c.mask[1..]);
  }

  /** Grouping loses no window and invents none. */
  lemma {:induction false} GroupedPermutes(c: Cols)
    requires c.Aligned()
    ensures multiset(Grouped(c)) == multiset(c.Windows())
    decreases |c.opens|
  {
    if c.opens != [] {
      MorningStep(c);
      AfternoonStep(c);
      WholeDayStep(c);
      GroupedPermutes(c.Tail());
    }
  }

  /** A group taken in session order is in time order. */
  lemma ChronologicalCons(w: Window, ws: seq<Window>)
    requires w.start < w.end && Chronological(ws)
    requires forall v :: v in ws ==> w.end <= v.start
    ensures Chronological([w] + ws)
  {
    var all := [w] + ws;
    forall i, j | 0 <= i < j < |all|
      ensures all[i].end <= all[j].start
    {
      assert all[j] == ws[j - 1] && all[j] in ws;
      assert i > 0 ==> all[i] == ws[i - 1];
    }
  }

  lemma TailChronological(a: seq<Window>, b: seq<Window>)
    requires Chronological(a + b)
    ensures Chronological(a) && Chronological(b)
    ensures forall u, v :: u in a && v in b ==> u.end <= v.start
  {
    forall i, j | 0 <= i < j < |b|
      ensures b[i].end <= b[j].start
    {
      assert (a + b)[|a| + i] == b[i] && (a + b)[|a| + j] == b[j];
    }
    forall i | 0 <= i < |b|
      ensures b[i].start < b[i].end
    {
      assert (a + b)[|a| + i] == b[i];
    }
    forall i, j | 0 <= i < j < |a|
      ensures a[i].end <= a[j].start
    {
      assert (a + b)[i] == a[i] && (a + b)[j] == a[j];
    }
    forall i | 0 <= i < |a|
      ensures a[i].start < a[i].end
    {
      assert (a + b)[i] == a[i];
    }
    forall u, v | u in a && v in b
      ensures u.end <= v.start
    {
      var i :| 0 <= i < |a| && a[i] == u;
      var j :| 0 <= j < |b| && b[j] == v;
      assert (a + b)[i] == u && (a + b)[|a| + j] == v;
    }
  }

  lemma GroupMembers(c: Cols, v: Window)
    requires c.Aligned()
    requires v in Morning(c) || v in Afternoon(c) || v in WholeDay(c)
    ensures v in c.Windows()
  {
    GroupedPermutes(c);
    assert v in Grouped(c);
    assert v in multiset(Grouped(c));
  }

  lemma {:induction false} GroupsChronological(c: Cols)
    requires c.Aligned() && Chronological(c.Windows())
    ensures Chronological(Morning(c)) && Chronological(Afternoon(c)) && Chronological(WholeDay(c))
    decreases |c.opens|
  {
    if c.opens != [] {
      var t := c.Tail();
      TailChronological(c.Head(), t.Windows());
      GroupsChronological(t);
      MorningStep(c);
      AfternoonStep(c);
      WholeDayStep(c);
      forall u, v | u in c.Head() && (v in Morning(t) || v in Afternoon(t) || v in WholeDay(t))
        ensures u.end <= v.start
      {
        GroupMembers(t, v);
      }
      HeadGroups(c);
    }
  }

  lemma HeadGroups(c: Cols)
    requires c.Aligned() && c.opens != [] && Chronological(c.Head())
    requires var t := c.Tail();
      && Chronological(Morning(t)) && Chronological(Afternoon(t)) && Chronological(WholeDay(t))
      && forall u, v :: u in c.Head() && (v in Morning(t) || v in Afternoon(t) || v in WholeDay(t)) ==> u.end <= v.start
    ensures Chronological(Morning(c)) && Chronological(Afternoon(c)) && Chronological(WholeDay(c))
  {
    var t := c.Tail();
    MorningStep(c);
    AfternoonStep(c);
    WholeDayStep(c);
    assert c.Head()[0] in c.Head();
    if c.mask[0] {
      assert c.Head()[1] in c.Head();
      ChronologicalCons(c.Head()[0], Morning(t));
      ChronologicalCons(c.Head()[1], Afternoon(t));
      assert [] + WholeDay(t) == WholeDay(t);
    } else {
      ChronologicalCons(c.Head()[0], WholeDay(t));
      assert [] + Morning(t) == Morning(t);
      assert [] + Afternoon(t) == Afternoon(t);
    }
  }

  /** Without breaks the sessions are the windows. */
  lemma {:induction false} NoBreaks(c: Cols)
    requires c.Aligned()
    requires forall i :: 0 <= i < |c.mask| ==> !c.mask[i]
    ensures c.Windows() == Zip(c.opens, c.closes, c.forceClose)
    decreases |c.opens|
  {
    if c.opens != [] {
      NoBreaks(c.Tail());
    }
  }

  /** Windows that agree in everything but `forced`. */
  ghost predicate SameTimes(a: seq<Window>, b: seq<Window>) {
    && |a| == |b|
    && forall i :: 0 <= i < |a| ==> a[i].start == b[i].start && a[i].end == b[i].end
  }

  lemma {:induction false} LeftIgnoresForce(a: seq<Window>, b: seq<Window>, p: Period)
    requires SameTimes(a, b)
    ensures AllPoints(a, p, Left) == AllPoints(b, p, Left)
  {
    if a != [] {
      assert Points(a[0], p, Left) == Points(b[0], p, Left);
      LeftIgnoresForce(a[1..], b[1..], p);
    }
  }

  /** The left and right sides of the periods, as two lists of instants. */
  lemma {:induction false} SidesOfTiles(ws: seq<Window>, p: Period)
    ensures AllPoints(ws, p, Left) == Lefts(AllTiles(ws, p))
    ensures AllPoints(ws, p, Right) == Rights(AllTiles(ws, p))
  {
    if ws != [] {
      SidesOfTiles(ws[1..], p);
      var a: seq<Interval>, b: seq<Interval> := Tiles(ws[0], p), AllTiles(ws[1..], p);
      assert AllTiles(ws, p) == a + b;
      assert Lefts(a + b) == Lefts(a) + Lefts(b);
      assert Rights(a + b) == Rights(a) + Rights(b);
    }
  }
}
