/** Alias chains: a map from aliases to names, followed as far as it goes. */
module Aliases {

  type Name = string

  /** `n` after at most `k` steps along the map. */
  function Follow(m: map<Name, Name>, n: Name, k: nat): Name
    decreases k
  {
    if k == 0 || n !in m then n else Follow(m, m[n], k - 1)
  }

  /** The chain from `n` comes to a name that is not an alias. */
  ghost predicate Leaves(m: map<Name, Name>, n: Name) {
    exists k: nat :: Follow(m, n, k) !in m
  }

  ghost function End(m: map<Name, Name>, n: Name): Name
    requires Leaves(m, n)
  {
    var k: nat :| Follow(m, n, k) !in m;
    Follow(m, n, k)
  }

  /** No chain runs for ever. */
  ghost predicate Acyclic(m: map<Name, Name>) {
    forall n: Name :: Leaves(m, n)
  }

  lemma {:induction false} FollowOn(m: map<Name, Name>, n: Name, i: nat, j: nat)
    ensures Follow(m, n, i + j) == Follow(m, Follow(m, n, i), j)
    decreases i
  {
    if i > 0 && n in m {
      FollowOn(m, m[n], i - 1, j);
    }
  }

  lemma FollowNext(m: map<Name, Name>, n: Name, i: nat)
    ensures Follow(m, n, i) in m ==> Follow(m, n, i + 1) == m[Follow(m, n, i)]
  {
    FollowOn(m, n, i, 1);
    if Follow(m, n, i) in m {
      assert Follow(m, m[Follow(m, n, i)], 0) == m[Follow(m, n, i)];
    }
  }

  /** Off the aliases the chain stays where it is, so its end is unique. */
  lemma EndUnique(m: map<Name, Name>, n: Name, k: nat)
    requires Follow(m, n, k) !in m
    ensures Leaves(m, n) && End(m, n) == Follow(m, n, k)
  {
    var j: nat :| Follow(m, n, j) !in m && End(m, n) == Follow(m, n, j);
    if j <= k {
      FollowOn(m, n, j, k - j);
    } else {
      FollowOn(m, n, k, j - k);
    }
  }

  lemma EndOf(m: map<Name, Name>, n: Name) returns (k: nat)
    requires Leaves(m, n)
    ensures Follow(m, n, k) !in m && End(m, n) == Follow(m, n, k)
  {
    k :| Follow(m, n, k) !in m;
    EndUnique(m, n, k);
  }

  /** A chain that comes back to a name runs for ever. */
  lemma {:induction false} LoopsForEver(m: map<Name, Name>, n: Name, i: nat, j: nat, k: nat)
    requires i < j && Follow(m, n, i) == Follow(m, n, j)
    requires forall x: nat :: x < j ==> Follow(m, n, x) in m
    ensures Follow(m, n, k) in m
    decreases k
  {
    if k >= j {
      FollowOn(m, n, j, k - j);
      FollowOn(m, n, i, k - j);
      LoopsForEver(m, n, i, j, i + (k - j));
    }
  }

  /** Distinct names drawn from the aliases are no more than there are aliases. */
  lemma {:induction false} Pigeonhole(seen: seq<Name>, keys: set<Name>)
    requires forall i, j :: 0 <= i < j < |seen| ==> seen[i] != seen[j]
    requires forall i :: 0 <= i < |seen| ==> seen[i] in keys
    ensures |seen| <= |keys|
    decreases |seen|
  {
    if seen != [] {
      Pigeonhole(seen[1..], keys - {seen[0]});
    }
  }

  // ----- changing the map -----

  /** Taking entries out of the map only makes chains shorter. */
  lemma {:induction false} FewerLeaves(m: map<Name, Name>, fewer: map<Name, Name>, n: Name, k: nat)
    requires fewer.Keys <= m.Keys && forall a :: a in fewer ==> fewer[a] == m[a]
    requires Follow(m, n, k) !in m
    ensures Follow(fewer, n, k) !in fewer
    decreases k
  {
    if k > 0 && n in fewer {
      FewerLeaves(m, fewer, m[n], k - 1);
    }
  }

  lemma FewerAcyclic(m: map<Name, Name>, fewer: map<Name, Name>)
    requires Acyclic(m)
    requires fewer.Keys <= m.Keys && forall a :: a in fewer ==> fewer[a] == m[a]
    ensures Acyclic(fewer)
  {
    forall n: Name ensures Leaves(fewer, n) {
      var k := EndOf(m, n);
      FewerLeaves(m, fewer, n, k);
    }
  }

  /** With one more alias a chain goes where it went, and on if it ended at that alias. */
  lemma {:induction false} FollowWithMore(m: map<Name, Name>, alias: Name, target: Name, n: Name, k: nat)
    requires alias !in m
    requires forall x: nat :: x < k ==> Follow(m, n, x) != alias
    ensures Follow(m[alias := target], n, k) == Follow(m, n, k)
    decreases k
  {
    if k > 0 && n in m {
      assert Follow(m, n, 0) == n;
      forall x: nat | x < k - 1 ensures Follow(m, m[n], x) != alias {
        assert Follow(m, n, x + 1) == Follow(m, m[n], x);
      }
      FollowWithMore(m, alias, target, m[n], k - 1);
    } else if k > 0 {
      assert Follow(m, n, 0) == n;
    }
  }

  /** The first time the chain is at `alias`, if it ever is. */
  lemma {:induction false} FirstVisit(m: map<Name, Name>, n: Name, alias: Name, k: nat) returns (first: nat)
    requires Follow(m, n, k) == alias
    ensures first <= k && Follow(m, n, first) == alias
    ensures forall x: nat :: x < first ==> Follow(m, n, x) != alias
    decreases k
  {
    if x: nat :| x < k && Follow(m, n, x) == alias {
      first := FirstVisit(m, n, alias, x);
    } else {
      first := k;
    }
  }

  ghost predicate Reaches(m: map<Name, Name>, n: Name, goal: Name) {
    exists k: nat :: Follow(m, n, k) == goal
  }

  /** A new alias closes a cycle exactly when its target's chain already led to it. */
  lemma ClosesCycleExactly(m: map<Name, Name>, alias: Name, target: Name)
    requires Acyclic(m) && alias !in m
    ensures Leaves(m[alias := target], alias) <==> !Reaches(m, target, alias)
  {
    var more := m[alias := target];
    if Reaches(m, target, alias) {
      var k: nat :| Follow(m, target, k) == alias;
      var first := FirstVisit(m, target, alias, k);
      FollowWithMore(m, alias, target, target, first);
      assert Follow(more, alias, first + 1) == Follow(more, target, first);
      assert Follow(more, alias, 0) == alias;
      forall x: nat ensures Follow(more, alias, x) in more {
        AlongCycle(m, alias, target, first, x);
      }
    } else {
      var k := EndOf(m, target);
      FollowWithMore(m, alias, target, target, k);
      assert Follow(more, alias, k + 1) == Follow(more, target, k);
    }
  }

  lemma AlongCycle(m: map<Name, Name>, alias: Name, target: Name, first: nat, x: nat)
    requires alias !in m && Follow(m, target, first) == alias
    requires forall y: nat :: y < first ==> Follow(m, target, y) != alias
    ensures Follow(m[alias := target], alias, x) in m[alias := target]
  {
    var more := m[alias := target];
    FollowWithMore(m, alias, target, target, first);
    forall y: nat | y < first + 1 ensures Follow(more, alias, y) in more {
      if y > 0 {
        FollowWithMore(m, alias, target, target, y - 1);
        if Follow(m, target, y - 1) !in m {
          FollowOn(m, target, y - 1, first - (y - 1));
        }
      }
    }
    assert Follow(more, alias, 0) == alias;
    LoopsForEver(more, alias, 0, first + 1, x);
  }

  /** If the new alias's own chain ends, every chain still does. */
  lemma MoreAcyclic(m: map<Name, Name>, alias: Name, target: Name)
    requires Acyclic(m) && alias !in m && Leaves(m[alias := target], alias)
    ensures Acyclic(m[alias := target])
  {
    var more := m[alias := target];
    forall n: Name ensures Leaves(more, n) {
      var k := EndOf(m, n);
      if Reaches(m, n, alias) {
        var v: nat :| Follow(m, n, v) == alias;
        var first := FirstVisit(m, n, alias, v);
        FollowWithMore(m, alias, target, n, first);
        var j := EndOf(more, alias);
        FollowOn(more, n, first, j);
      } else {
        FollowWithMore(m, alias, target, n, k);
      }
    }
  }
}
