/** The vectorised grid of `_create_index_for_sessions` against the windows it cuts. */
module VectorGrid {
  import opened Arrays
  import opened Grid
  import opened Columns

  // ----- the array expressions of the method -----

  function CeilDivs(starts: seq<int>, ends: seq<int>, p: Period): (r: seq<int>)
    requires |starts| == |ends|
    ensures |r| == |starts|
    ensures forall i :: 0 <= i < |r| ==> r[i] == CeilDiv(ends[i] - starts[i], p)
  {
    seq(|starts|, i requires 0 <= i < |starts| => CeilDiv(ends[i] - starts[i], p))
  }

  function AddAll(xs: seq<int>, d: int): (r: seq<int>)
    ensures |r| == |xs|
    ensures forall i :: 0 <= i < |r| ==> r[i] == xs[i] + d
  {
    seq(|xs|, i requires 0 <= i < |xs| => xs[i] + d)
  }

  /** np.arange(start, stop) for every stop */
  function Aranges(start: int, stops: seq<int>): (r: seq<seq<int>>)
    ensures |r| == |stops|
  {
    seq(|stops|, i requires 0 <= i < |stops| => Arange(start, stops[i]))
  }

  /** base + ranges * p */
  function Combine(base: seq<int>, ranges: seq<int>, p: Period): seq<int>
    requires |base| == |ranges|
  {
    seq(|base|, i requires 0 <= i < |base| => base[i] + ranges[i] * p)
  }

  // ----- what they compute, window by window -----

  function Row(start: int, count: nat, first: int, p: Period): seq<int> {
    seq(count, (k: nat) => start + (first + k) * p)
  }

  function Rows(starts: seq<int>, counts: seq<int>, first: int, p: Period): seq<int>
    requires |starts| == |counts|
    requires forall i :: 0 <= i < |counts| ==> 0 <= counts[i]
  {
    if starts == [] then [] else Row(starts[0], counts[0], first, p) + Rows(starts[1..], counts[1..], first, p)
  }

  lemma CombineConcat(a: seq<int>, b: seq<int>, x: seq<int>, y: seq<int>, p: Period)
    requires |a| == |x| && |b| == |y|
    ensures Combine(a + b, x + y, p) == Combine(a, x, p) + Combine(b, y, p)
  {}

  /** Repeat counts and range lengths agree, and the sum is the rows in order. */
  lemma {:induction false} VectorRows(starts: seq<int>, counts: seq<int>, first: int, p: Period)
    requires |starts| == |counts|
    requires forall i :: 0 <= i < |counts| ==> 0 <= counts[i]
    ensures |Repeat(starts, counts)| == |Concatenate(Aranges(first, AddAll(counts, first)))|
    ensures Combine(Repeat(starts, counts), Concatenate(Aranges(first, AddAll(counts, first))), p)
      == Rows(starts, counts, first, p)
  {
    var stops := AddAll(counts, first);
    if starts != [] {
      VectorRows(starts[1..], counts[1..], first, p);
      assert stops[1..] == AddAll(counts[1..], first);
      assert Aranges(first, stops)[1..] == Aranges(first, stops[1..]);
      var a, x := seq(counts[0], _ => starts[0]), Arange(first, stops[0]);
      CombineConcat(a, Repeat(starts[1..], counts[1..]), x, Concatenate(Aranges(first, stops[1..])), p);
      assert Combine(a, x, p) == Row(starts[0], counts[0], first, p);
    }
  }

  /** The number of indices the method asks for in a window. */
  function Indices(n: int, closed: Closed, split: bool): int {
    n - (if split then 1 else 0) + (if closed == Both then 1 else if closed == Neither then -1 else 0)
  }

  function First(closed: Closed): nat {
    if closed.OnLeft() then 0 else 1
  }

  /** Whether the plain grid already ends where the last period should. */
  ghost predicate GridSuffices(w: Window, p: Period, closed: Closed) {
    closed.OnRight() && w.forced ==> w.start + Periods(w, p) * p == w.end
  }

  lemma RowIs(start: int, count: nat, first: int, p: Period, xs: seq<int>)
    requires |xs| == count
    requires forall k :: 0 <= k < count ==> xs[k] == start + (first + k) * p
    ensures Row(start, count, first, p) == xs
  {}

  /** Every left side is a grid point; so is every right side but the last. */
  lemma TileSides(w: Window, p: Period)
    requires w.start < w.end
    ensures forall k :: 0 <= k < Periods(w, p) ==> Tiles(w, p)[k].left == w.start + k * p
    ensures forall k :: 0 <= k < Periods(w, p) - 1 ==> Tiles(w, p)[k].right == w.start + (1 + k) * p
  {
    forall k | 0 <= k < Periods(w, p) - 1
      ensures Tiles(w, p)[k].right == w.start + (1 + k) * p
    {
      TileBounds(w, p, k);
    }
  }

  lemma GridPoints(w: Window, p: Period, closed: Closed)
    requires w.start < w.end && GridSuffices(w, p, closed)
    ensures Indices(Periods(w, p), closed, false) >= 0
    ensures Row(w.start, Indices(Periods(w, p), closed, false), First(closed), p) == Points(w, p, closed)
  {
    var n := Periods(w, p);
    PeriodsBounds(w, p);
    TilesChain(w, p);
    TileSides(w, p);
    RowIs(w.start, Indices(n, closed, false), First(closed), p, Points(w, p, closed));
  }

  lemma SplitPoints(w: Window, p: Period, closed: Closed)
    requires w.start < w.end && w.forced && closed.OnRight()
    ensures Indices(Periods(w, p), closed, true) >= 0
    ensures Row(w.start, Indices(Periods(w, p), closed, true), First(closed), p) + [w.end] == Points(w, p, closed)
  {
    var n := Periods(w, p);
    PeriodsBounds(w, p);
    TilesChain(w, p);
    TileSides(w, p);
    var xs := Points(w, p, closed);
    RowIs(w.start, Indices(n, closed, true), First(closed), p, xs[..|xs| - 1]);
    assert xs == xs[..|xs| - 1] + [w.end];
  }

  ghost predicate CountsFor(
    starts: seq<int>, ends: seq<int>, counts: seq<int>, p: Period, closed: Closed, split: bool)
  {
    && |starts| == |ends| == |counts|
    && forall i :: 0 <= i < |counts| ==> counts[i] == Indices(CeilDiv(ends[i] - starts[i], p), closed, split)
  }

  lemma CountsNonNegative(starts: seq<int>, ends: seq<int>, forced: bool, counts: seq<int>,
    p: Period, closed: Closed, split: bool)
    requires CountsFor(starts, ends, counts, p, closed, split)
    requires Chronological(Zip(starts, ends, forced))
    requires split ==> closed.OnRight()
    ensures forall i :: 0 <= i < |counts| ==> 0 <= counts[i]
  {
    forall i | 0 <= i < |counts|
      ensures 0 <= counts[i]
    {
      PeriodsBounds(Zip(starts, ends, forced)[i], p);
    }
  }

  lemma ZipTail(starts: seq<int>, ends: seq<int>, forced: bool)
    requires |starts| == |ends| && starts != []
    ensures Zip(starts, ends, forced) == [Window(starts[0], ends[0], forced)] + Zip(starts[1..], ends[1..], forced)
    ensures Zip(starts, ends, forced)[1..] == Zip(starts[1..], ends[1..], forced)
  {}

  /** On frequency, or not forced: the rows are the instants wanted. */
  lemma {:induction false} RowsOnGrid(starts: seq<int>, ends: seq<int>, forced: bool, counts: seq<int>, p: Period,
    closed: Closed)
    requires CountsFor(starts, ends, counts, p, closed, false)
    requires Chronological(Zip(starts, ends, forced))
    requires forall i :: 0 <= i < |starts| ==> GridSuffices(Zip(starts, ends, forced)[i], p, closed)
    requires forall i :: 0 <= i < |counts| ==> 0 <= counts[i]
    ensures Rows(starts, counts, First(closed), p) == AllPoints(Zip(starts, ends, forced), p, closed)
  {
    if starts != [] {
      var ws := Zip(starts, ends, forced);
      ZipTail(starts, ends, forced);
      assert forall i :: 0 <= i < |starts| - 1 ==> ws[1..][i] == ws[i + 1];
      GridPoints(ws[0], p, closed);
      RowsOnGrid(starts[1..], ends[1..], forced, counts[1..], p, closed);
      GridStep(starts, ends, forced, counts, p, closed);
    }
  }

  lemma GridStep(starts: seq<int>, ends: seq<int>, forced: bool, counts: seq<int>, p: Period, closed: Closed)
    requires |starts| == |ends| == |counts| && starts != []
    requires forall i :: 0 <= i < |counts| ==> 0 <= counts[i]
    requires Row(starts[0], counts[0], First(closed), p) == Points(Window(starts[0], ends[0], forced), p, closed)
    requires Rows(starts[1..], counts[1..], First(closed), p)
      == AllPoints(Zip(starts[1..], ends[1..], forced), p, closed)
    ensures Rows(starts, counts, First(closed), p) == AllPoints(Zip(starts, ends, forced), p, closed)
  {
    ZipTail(starts, ends, forced);
  }

  /** Off frequency: the rows and the window ends together are the instants wanted. */
  lemma {:induction false} RowsSplit(starts: seq<int>, ends: seq<int>, counts: seq<int>, p: Period, closed: Closed)
    requires CountsFor(starts, ends, counts, p, closed, true) && closed.OnRight()
    requires Chronological(Zip(starts, ends, true))
    requires forall i :: 0 <= i < |counts| ==> 0 <= counts[i]
    ensures multiset(Rows(starts, counts, First(closed), p) + ends)
      == multiset(AllPoints(Zip(starts, ends, true), p, closed))
  {
    if starts != [] {
      var ws := Zip(starts, ends, true);
      ZipTail(starts, ends, true);
      SplitPoints(ws[0], p, closed);
      RowsSplit(starts[1..], ends[1..], counts[1..], p, closed);
      SplitStep(starts, ends, counts, p, closed);
    }
  }

  lemma SplitStep(starts: seq<int>, ends: seq<int>, counts: seq<int>, p: Period, closed: Closed)
    requires |starts| == |ends| == |counts| && starts != []
    requires forall i :: 0 <= i < |counts| ==> 0 <= counts[i]
    requires Row(starts[0], counts[0], First(closed), p) + [ends[0]]
      == Points(Window(starts[0], ends[0], true), p, closed)
    requires multiset(Rows(starts[1..], counts[1..], First(closed), p) + ends[1..])
      == multiset(AllPoints(Zip(starts[1..], ends[1..], true), p, closed))
    ensures multiset(Rows(starts, counts, First(closed), p) + ends)
      == multiset(AllPoints(Zip(starts, ends, true), p, closed))
  {
    var ws := Zip(starts, ends, true);
    ZipTail(starts, ends, true);
    var a, b := Row(starts[0], counts[0], First(closed), p), Rows(starts[1..], counts[1..], First(closed), p);
    Shuffle(a, b, ends);
    assert AllPoints(ws, p, closed) == (a + [ends[0]]) + AllPoints(ws[1..], p, closed);
  }

  lemma Shuffle(a: seq<int>, b: seq<int>, ends: seq<int>)
    requires ends != []
    ensures multiset((a + b) + ends) == multiset(a + [ends[0]]) + multiset(b + ends[1..])
  {
    assert ends == [ends[0]] + ends[1..];
  }
}
