/** Sequence helpers: the numpy calls the calendar code is written in, and the
    facts about sorting and flattening that the proofs share. */
module Arrays {

  /** pandas' NaT as an int64: below every time. */
  const NAT: int := -9223372036854775808

  type Period = p: int | 0 < p witness 1

  datatype Option<+T> = None | Some(value: T)

  datatype Result<+T, +E> = Ok(value: T) | Err(error: E) {
    predicate IsFailure() { Err? }

    function PropagateFailure<U>(): Result<U, E>
      requires Err?
    {
      Err(error)
    }

    function Extract(): T
      requires Ok?
    {
      value
    }
  }

  ghost predicate Sorted(xs: seq<int>) {
    forall i, j :: 0 <= i <= j < |xs| ==> xs[i] <= xs[j]
  }

  ghost predicate Increasing(xs: seq<int>) {
    forall i, j :: 0 <= i < j < |xs| ==> xs[i] < xs[j]
  }

  function Min(a: int, b: int): int { if a <= b then a else b }

  /** Exact ceiling of a quotient, for any sign of the dividend. */
  function CeilDiv(a: int, p: Period): (n: int)
    ensures (n - 1) * p < a <= n * p
    ensures 0 < a ==> 1 <= n
  {
    var q := (-a) / p;
    assert -a == q * p + (-a) % p;
    -q
  }

  lemma Distribute(i: int, j: int, p: int)
    ensures (j - i) * p == j * p - i * p
    ensures (j + i) * p == j * p + i * p
  {}

  lemma {:induction false} MulAtLeast(k: int, p: Period)
    requires 1 <= k
    ensures p <= k * p
    decreases k
  {
    if k > 1 {
      MulAtLeast(k - 1, p);
      Distribute(1, k, p);
    }
  }

  lemma MulMonotone(i: int, j: int, p: Period)
    requires i <= j
    ensures i * p <= j * p
    ensures i < j ==> i * p + p <= j * p
  {
    if i < j {
      MulAtLeast(j - i, p);
      Distribute(i, j, p);
    }
  }

  /** The multiple of `p` that rounds `a` up is the only one in its window. */
  lemma CeilUnique(a: int, n: int, p: Period)
    requires (n - 1) * p < a <= n * p
    ensures n == CeilDiv(a, p)
  {
    var m := CeilDiv(a, p);
    if n < m {
      MulMonotone(n, m - 1, p);
    } else if m < n {
      MulMonotone(m, n - 1, p);
    }
  }

  // ----- numpy calls -----

  /** np.arange(lo, hi) */
  function Arange(lo: int, hi: int): (r: seq<int>)
    ensures |r| == if lo <= hi then hi - lo else 0
    ensures forall i :: 0 <= i < |r| ==> r[i] == lo + i
  {
    seq(if lo <= hi then hi - lo else 0, i => lo + i)
  }

  /** xs.repeat(counts); numpy raises on a negative count. */
  function Repeat(xs: seq<int>, counts: seq<int>): seq<int>
    requires |xs| == |counts|
    requires forall i :: 0 <= i < |counts| ==> 0 <= counts[i]
  {
    if xs == [] then [] else seq(counts[0], _ => xs[0]) + Repeat(xs[1..], counts[1..])
  }

  /** np.concatenate of an array of arrays */
  function Concatenate(xss: seq<seq<int>>): seq<int> {
    if xss == [] then [] else xss[0] + Concatenate(xss[1..])
  }

  /** xs[mask] */
  function Select<T>(xs: seq<T>, mask: seq<bool>): (r: seq<T>)
    requires |xs| == |mask|
    ensures |r| <= |xs|
  {
    if xs == [] then [] else (if mask[0] then [xs[0]] else []) + Select(xs[1..], mask[1..])
  }

  /** ~mask */
  function Not(mask: seq<bool>): (r: seq<bool>)
    ensures |r| == |mask|
    ensures forall i :: 0 <= i < |r| ==> r[i] == !mask[i]
  {
    seq(|mask|, i requires 0 <= i < |mask| => !mask[i])
  }

  /** np.searchsorted(xs, v, side="left") */
  function SearchLeft(xs: seq<int>, v: int): (r: nat)
    ensures r <= |xs|
    ensures forall i :: 0 <= i < r ==> xs[i] < v
    ensures r < |xs| ==> v <= xs[r]
  {
    FirstFrom(xs, v, 0)
  }

  /** np.searchsorted(xs, v, side="right") */
  function SearchRight(xs: seq<int>, v: int): (r: nat)
    ensures r <= |xs|
    ensures forall i :: 0 <= i < r ==> xs[i] <= v
    ensures r < |xs| ==> v < xs[r]
  {
    FirstFrom(xs, v + 1, 0)
  }

  /** The first position, from `i` on, of something not less than `v`. */
  function FirstFrom(xs: seq<int>, v: int, i: nat): (r: nat)
    requires i <= |xs|
    ensures i <= r <= |xs|
    ensures forall j :: i <= j < r ==> xs[j] < v
    ensures r < |xs| ==> v <= xs[r]
    decreases |xs| - i
  {
    if i < |xs| && xs[i] < v then FirstFrom(xs, v, i + 1) else i
  }

  function InsertAt<T>(xs: seq<T>, k: nat, x: T): (r: seq<T>)
    requires k <= |xs|
  {
    xs[..k] + [x] + xs[k..]
  }

  function RemoveAt<T>(xs: seq<T>, k: nat): seq<T>
    requires k < |xs|
  {
    xs[..k] + xs[k + 1..]
  }

  lemma MultisetInsert<T>(xs: seq<T>, k: nat, x: T)
    requires k <= |xs|
    ensures multiset(InsertAt(xs, k, x)) == multiset(xs) + multiset{x}
  {
    assert xs == xs[..k] + xs[k..];
  }

  lemma MultisetRemove<T>(xs: seq<T>, k: nat)
    requires k < |xs|
    ensures multiset(xs) == multiset(RemoveAt(xs, k)) + multiset{xs[k]}
  {
    assert xs == xs[..k] + [xs[k]] + xs[k + 1..];
  }

  lemma MultisetPrefix<T>(xs: seq<T>, n: nat)
    requires n < |xs|
    ensures multiset(xs[..n + 1]) == multiset(xs[..n]) + multiset{xs[n]}
  {
    assert xs[..n + 1] == xs[..n] + [xs[n]];
  }

  lemma InsertSorted(xs: seq<int>, v: int)
    requires Sorted(xs)
    ensures Sorted(InsertAt(xs, SearchLeft(xs, v), v))
  {
    var k := SearchLeft(xs, v);
    assert forall i :: k <= i < |xs| ==> v <= xs[i];
  }

  /** xs.sort() */
  method Sort(xs: seq<int>) returns (r: seq<int>)
    ensures Sorted(r) && multiset(r) == multiset(xs)
  {
    r := [];
    for n := 0 to |xs|
      invariant Sorted(r)
      invariant multiset(r) == multiset(xs[..n])
    {
      var k := SearchLeft(r, xs[n]);
      InsertSorted(r, xs[n]);
      MultisetInsert(r, k, xs[n]);
      MultisetPrefix(xs, n);
      r := InsertAt(r, k, xs[n]);
    }
    assert xs[..|xs|] == xs;
  }

  /** A permutation of the positions of `xs` that lists its values in order.
      Which of several equal values comes first is left open. */
  ghost predicate IsArgSort(xs: seq<int>, idx: seq<int>) {
    && multiset(idx) == multiset(Arange(0, |xs|))
    && (forall i :: 0 <= i < |idx| ==> 0 <= idx[i] < |xs|)
    && Sorted(Take(xs, idx))
  }

  function Take(xs: seq<int>, idx: seq<int>): (r: seq<int>)
    requires forall i :: 0 <= i < |idx| ==> 0 <= idx[i] < |xs|
    ensures |r| == |idx|
    ensures forall i :: 0 <= i < |r| ==> r[i] == xs[idx[i]]
  {
    seq(|idx|, i requires 0 <= i < |idx| => xs[idx[i]])
  }

  lemma TakeInsert(xs: seq<int>, idx: seq<int>, k: nat, n: nat)
    requires k <= |idx| && n < |xs|
    requires forall i :: 0 <= i < |idx| ==> 0 <= idx[i] < |xs|
    ensures forall i :: 0 <= i < |idx| + 1 ==> 0 <= InsertAt(idx, k, n)[i] < |xs|
    ensures Take(xs, InsertAt(idx, k, n)) == InsertAt(Take(xs, idx), k, xs[n])
  {}

  /** xs.argsort() */
  method ArgSort(xs: seq<int>) returns (idx: seq<int>)
    ensures IsArgSort(xs, idx)
  {
    idx := [];
    for n := 0 to |xs|
      invariant multiset(idx) == multiset(Arange(0, n))
      invariant forall i :: 0 <= i < |idx| ==> 0 <= idx[i] < |xs|
      invariant Sorted(Take(xs, idx))
    {
      var k := SearchLeft(Take(xs, idx), xs[n]);
      InsertSorted(Take(xs, idx), xs[n]);
      TakeInsert(xs, idx, k, n);
      MultisetInsert(idx, k, n);
      assert Arange(0, n + 1) == Arange(0, n) + [n];
      idx := InsertAt(idx, k, n);
    }
  }

  // ----- flattening -----

  function FlatMap<T, U>(xs: seq<T>, f: T -> seq<U>): seq<U> {
    if xs == [] then [] else f(xs[0]) + FlatMap(xs[1..], f)
  }

  lemma {:induction false} FlatMapConcat<T, U>(a: seq<T>, b: seq<T>, f: T -> seq<U>)
    ensures FlatMap(a + b, f) == FlatMap(a, f) + FlatMap(b, f)
  {
    if a == [] {
      assert a + b == b;
    } else {
      assert (a + b)[1..] == a[1..] + b;
      FlatMapConcat(a[1..], b, f);
    }
  }

  lemma FlatMapRemove<T, U>(b: seq<T>, j: nat, f: T -> seq<U>)
    requires j < |b|
    ensures multiset(FlatMap(b, f)) == multiset(f(b[j])) + multiset(FlatMap(RemoveAt(b, j), f))
  {
    assert b == b[..j] + b[j..];
    FlatMapConcat(b[..j], b[j..], f);
    assert b[j..][1..] == b[j + 1..];
    FlatMapConcat(b[..j], b[j + 1..], f);
  }

  lemma SameHead<T>(a: seq<T>, b: seq<T>, j: nat)
    requires multiset(a) == multiset(b)
    requires a != [] && j < |b| && b[j] == a[0]
    ensures multiset(a[1..]) == multiset(RemoveAt(b, j))
  {
    MultisetRemove(a, 0);
    assert RemoveAt(a, 0) == a[1..];
    MultisetRemove(b, j);
    var x := multiset{a[0]};
    assert multiset(a[1..]) + x == multiset(RemoveAt(b, j)) + x;
    assert multiset(a[1..]) == multiset(a[1..]) + x - x;
  }

  lemma Locate<T>(a: seq<T>, b: seq<T>) returns (j: nat)
    requires multiset(a) == multiset(b)
    requires a != []
    ensures j < |b| && b[j] == a[0]
  {
    assert a[0] in multiset(a);
    j :| j < |b| && b[j] == a[0];
  }

  lemma SameSize<T>(a: seq<T>, b: seq<T>)
    requires multiset(a) == multiset(b)
    ensures |a| == |b|
  {
    assert |multiset(a)| == |a| && |multiset(b)| == |b|;
  }

  /** Flattening a rearranged list rearranges the flattened list. */
  lemma {:induction false} FlatMapPermutation<T, U>(a: seq<T>, b: seq<T>, f: T -> seq<U>)
    requires multiset(a) == multiset(b)
    ensures multiset(FlatMap(a, f)) == multiset(FlatMap(b, f))
  {
    SameSize(a, b);
    if a != [] {
      var j := Locate(a, b);
      SameHead(a, b, j);
      FlatMapPermutation(a[1..], RemoveAt(b, j), f);
      FlatMapRemove(b, j, f);
    }
  }

  /** A list sorted by distinct keys is the only sorted arrangement of its elements. */
  lemma {:induction false} SortedUnique<T>(a: seq<T>, b: seq<T>, key: T -> int)
    requires multiset(a) == multiset(b)
    requires forall i, j :: 0 <= i < j < |a| ==> key(a[i]) < key(a[j])
    requires forall i, j :: 0 <= i <= j < |b| ==> key(b[i]) <= key(b[j])
    ensures a == b
  {
    SameSize(a, b);
    if a != [] {
      var j := Locate(a, b);
      var i := Locate(b, a);
      assert a[0] == b[0];
      SameHead(a, b, 0);
      assert RemoveAt(b, 0) == b[1..];
      SortedUnique(a[1..], b[1..], key);
    }
  }

  lemma SameTail(a: seq<int>, b: seq<int>)
    requires multiset(a) == multiset(b) && a != [] && b != [] && a[0] == b[0]
    ensures multiset(a[1..]) == multiset(b[1..])
  {
    assert a == [a[0]] + a[1..];
    assert b == [b[0]] + b[1..];
    assert multiset(a[1..]) == multiset(a) - multiset{a[0]};
    assert multiset(b[1..]) == multiset(b) - multiset{b[0]};
  }

  lemma SameLeast(a: seq<int>, b: seq<int>)
    requires multiset(a) == multiset(b) && a != [] && b != []
    requires Sorted(a) && Sorted(b)
    ensures a[0] == b[0]
  {
    var j := Locate(a, b);
    var i := Locate(b, a);
    assert a[0] <= a[i] && b[0] <= b[j];
  }

  /** Two sorted arrangements of the same integers are equal. */
  lemma {:induction false} SortedSame(a: seq<int>, b: seq<int>)
    requires multiset(a) == multiset(b)
    requires Sorted(a) && Sorted(b)
    ensures a == b
  {
    SameSize(a, b);
    if a != [] {
      SameLeast(a, b);
      SameTail(a, b);
      SortedSame(a[1..], b[1..]);
    }
  }

  function Pick<T>(xs: seq<T>, i: int): seq<T> {
    if 0 <= i < |xs| then [xs[i]] else []
  }

  /** Picking the elements of `xs` by a permutation of its positions rearranges `xs`. */
  lemma PermutedMultiset<T>(xs: seq<T>, idx: seq<int>, picked: seq<T>)
    requires multiset(idx) == multiset(Arange(0, |xs|))
    requires forall i :: 0 <= i < |idx| ==> 0 <= idx[i] < |xs|
    requires |picked| == |idx|
    requires forall i :: 0 <= i < |idx| ==> picked[i] == xs[idx[i]]
    ensures multiset(picked) == multiset(xs)
  {
    var pick := (i: int) => Pick(xs, i);
    FlatMapPermutation(idx, Arange(0, |xs|), pick);
    FlatMapSingletons(idx, pick, picked);
    FlatMapSingletons(Arange(0, |xs|), pick, xs);
  }

  lemma {:induction false} FlatMapSingletons<T, U>(xs: seq<T>, f: T -> seq<U>, ys: seq<U>)
    requires |xs| == |ys|
    requires forall i :: 0 <= i < |xs| ==> f(xs[i]) == [ys[i]]
    ensures FlatMap(xs, f) == ys
  {
    if xs != [] {
      FlatMapSingletons(xs[1..], f, ys[1..]);
    }
  }
}
