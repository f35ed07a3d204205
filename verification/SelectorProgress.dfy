/** The turn to select comes round: the thread gets to selecting on what is registered. */
module SelectorProgress {
  import opened Arrays
  import opened Selector
  import opened SelectorInvariant
  import opened SelectorProofs

  // ----- it can -----

  /** The thread is about to select on exactly what is registered. */
  predicate SelectsOnCurrent(s: State) {
    s.thread == Got(Snapshot(s.readers, s.writers, s.changes))
  }

  /** Nothing was given up, and close has not begun. */
  predicate Clean(s: State) {
    Inv(s) && s.lost == 0 && !s.closing
  }

  /** An action after which nothing has been given up, closed or registered. */
  predicate Benign(a: Action) {
    || a.EndCallback? || a.SendWake? || a.Boot? || a.RunPosted? || a.HandleNext? || a.BeginSelect?
    || a.TakeArgs? || a.SelectReturns? || a.SelectBadDescriptor? || a.PollWaker? || a == Post(true)
  }

  predicate AllBenign(actions: seq<Action>) {
    forall i :: 0 <= i < |actions| ==> Benign(actions[i])
  }

  /** The next move of whoever has the turn, once user code has come back. */
  function NextMove(s: State): Action {
    if s.loop.User? then EndCallback
    else if s.loop.Wake? then SendWake(false)
    else if s.loop.Dispatch? then HandleNext
    else if s.loop.StartSelect? then BeginSelect
    else if s.bootPending then Boot
    else if s.posted != [] then RunPosted
    else if s.selectArgs.Some? then TakeArgs
    else match s.thread
      case Got(_) => Leave(s)
      case Retry(_) => PollWaker
      case _ => Post(true)
  }

  function Events(ready: Ready): nat { |ready.rs| + |ready.ws| }

  function ContextMoves(c: Context): nat {
    match c
    case Ordinary => 0
    case Handling(rest) => 2 * Events(rest) + 3
  }

  function LoopMoves(l: Loop): nat {
    match l
    case User(c) => 1 + ContextMoves(c)
    case Wake(c) => 2 + ContextMoves(c)
    case Dispatch(rest) => 2 * Events(rest) + 3
    case StartSelect => 2
    case _ => 0
  }

  /** At most so many moves until the thread selects on the current registrations. */
  function Moves(s: State): nat {
    if SelectsOnCurrent(s) then 0
    else
      LoopMoves(s.loop) +
      if s.bootPending then 3
      else if s.posted != [] then 2 * Events(s.posted[0]) + 4
      else if s.selectArgs.Some? then
        if s.selectArgs.value == Snapshot(s.readers, s.writers, s.changes) then 1 else 10
      else match s.thread
        case Got(_) => 9
        case Retry(_) => 8
        case Chosen(ready) => 2 * Events(ready) + 5
        case _ => 0
  }

  /** `a` leads from `s` to `t` and leaves what is registered alone. */
  predicate Advances(s: State, a: Action, t: State) {
    && Step(s, a) == Some(t) && Benign(a)
    && t.lost == s.lost && t.closing == s.closing
    && t.readers == s.readers && t.writers == s.writers && t.changes == s.changes
  }

  lemma UserAdvances(s: State)
    requires Clean(s) && (s.loop.User? || s.loop.Wake?) && !SelectsOnCurrent(s)
    ensures exists t :: Advances(s, NextMove(s), t) && Moves(t) < Moves(s)
  {
    var t := Step(s, NextMove(s)).value;
    assert Advances(s, NextMove(s), t);
  }

  lemma HandleAdvances(s: State)
    requires Clean(s) && s.loop.Dispatch? && !SelectsOnCurrent(s)
    ensures exists t :: Advances(s, NextMove(s), t) && Moves(t) < Moves(s)
  {
    var t := Step(s, NextMove(s)).value;
    LoopAlone(s);
    assert Advances(s, NextMove(s), t);
  }

  lemma StartAdvances(s: State)
    requires Clean(s) && (s.loop.StartSelect? || (s.loop.Idle? && (s.bootPending || s.posted != [])))
      && !SelectsOnCurrent(s)
    ensures exists t :: Advances(s, NextMove(s), t) && Moves(t) < Moves(s)
  {
    var t := Step(s, NextMove(s)).value;
    assert Advances(s, NextMove(s), t);
  }

  lemma TakeAdvances(s: State)
    requires Clean(s) && s.loop.Idle? && !s.bootPending && s.posted == [] && s.selectArgs.Some?
    ensures exists t :: Advances(s, NextMove(s), t) && Moves(t) < Moves(s)
  {
    assert s.thread == Top;
    var t := Step(s, NextMove(s)).value;
    assert t.thread == Got(s.selectArgs.value);
    assert Advances(s, NextMove(s), t);
  }

  lemma ThreadAdvances(s: State)
    requires Clean(s) && s.loop.Idle? && !s.bootPending && s.posted == [] && s.selectArgs.None? && !SelectsOnCurrent(s)
    ensures exists t :: Advances(s, NextMove(s), t) && Moves(t) < Moves(s)
  {
    assert ThreadHolds(s.thread);
    if s.thread.Got? {
      var snapshot := s.thread.snapshot;
      assert snapshot.stamp < s.changes && WAKER in snapshot.readers && s.bytes > 0;
    }
    var t := Step(s, NextMove(s)).value;
    if s.thread.Chosen? {
      assert t.posted == [s.thread.ready];
    } else if !t.thread.Retry? {
      assert t.thread == Chosen(Ready([if s.thread.Got? then WAKER else WAKER_NUMBER], []));
    }
    assert Advances(s, NextMove(s), t);
  }

  /** One move brings the turn closer. */
  lemma MoveAdvances(s: State)
    requires Clean(s) && !SelectsOnCurrent(s)
    ensures exists t :: Advances(s, NextMove(s), t) && Moves(t) < Moves(s)
  {
    if s.loop.User? || s.loop.Wake? {
      UserAdvances(s);
    } else if s.loop.Dispatch? {
      HandleAdvances(s);
    } else if s.loop.StartSelect? || s.bootPending || s.posted != [] {
      StartAdvances(s);
    } else if s.selectArgs.Some? {
      TakeAdvances(s);
    } else {
      ThreadAdvances(s);
    }
  }

  /** From every reachable state in which nothing was given up and close has not begun,
      the two threads get to selecting on exactly what is registered, within `Moves`
      steps of which none gives up the turn, closes or registers anything: the turn is never stuck. */
  lemma TurnComesRound(s: State)
    requires Reachable(s) && s.lost == 0 && !s.closing
    ensures exists actions: seq<Action>, t: State ::
              && Runs(s, actions, t) && AllBenign(actions) && |actions| <= Moves(s)
              && t.thread == Got(Snapshot(s.readers, s.writers, s.changes))
              && t.readers == s.readers && t.writers == s.writers
  {
    ReachableInv(s);
    var actions, t := RoundWitness(s);
  }

  lemma {:induction false} RoundWitness(s: State) returns (actions: seq<Action>, t: State)
    requires Clean(s)
    ensures Runs(s, actions, t) && AllBenign(actions) && |actions| <= Moves(s)
    ensures t.thread == Got(Snapshot(s.readers, s.writers, s.changes))
    ensures t.readers == s.readers && t.writers == s.writers
    decreases Moves(s)
  {
    if SelectsOnCurrent(s) {
      actions, t := [], s;
    } else {
      MoveAdvances(s);
      var next :| Advances(s, NextMove(s), next) && Moves(next) < Moves(s);
      StepKeeps(s, NextMove(s));
      var rest;
      rest, t := RoundWitness(next);
      actions := [NextMove(s)] + rest;
      assert actions[1..] == rest;
    }
  }

  // ----- it does, on every interleaving -----

  /** Any step but those by which close begins or the turn is given up; registrations
      may change at any time. */
  predicate Calm(a: Action) {
    !a.CallClose? && !a.CallbackRaises? && !a.SelectRaises? && a != Post(false)
  }

  /** The thread selects on a snapshot taken after at least `n` registration changes. */
  predicate SelectsSince(s: State, n: nat) {
    s.thread.Got? && s.thread.snapshot.stamp >= n
  }

  /** How far the turn is from a select on a snapshot with the first `n` changes. */
  function Stage(s: State, n: nat): nat {
    if SelectsSince(s, n) then 0
    else if s.selectArgs.Some? then (if s.selectArgs.value.stamp >= n then 1 else 8)
    else if s.loop.StartSelect? then 2
    else if LoopHolds(s.loop) || s.bootPending then 3
    else if s.posted != [] then 4
    else match s.thread
      case Chosen(_) => 5
      case Retry(_) => 6
      case Got(_) => 7
      case _ => 9
  }

  /** What is left to do within a stage: the events still to be handled, and the
      callback to come back from, whether or not it has just registered something. */
  function Remaining(s: State): nat {
    match s.loop
    case Dispatch(rest) => 2 * Events(rest) + 1
    case User(Handling(rest)) => 2 * Events(rest) + 2
    case Wake(Handling(rest)) => 2 * Events(rest) + 2
    case _ => 0
  }

  /** Strictly nearer. */
  predicate Nearer(t: State, s: State, n: nat) {
    Stage(t, n) < Stage(s, n) || (Stage(t, n) == Stage(s, n) && Remaining(t) < Remaining(s))
  }

  predicate NoFarther(t: State, s: State, n: nat) {
    Nearer(t, s, n) || (Stage(t, n) == Stage(s, n) && Remaining(t) == Remaining(s))
  }

  /** The action is one by whoever has the turn, towards passing it on. */
  predicate ByHolder(s: State, a: Action) {
    || (a.TakeArgs? && s.selectArgs.Some?)
    || a.SelectReturns? || a.SelectBadDescriptor? || a.PollWaker? || a.Post?
    || a.Boot? || a.RunPosted? || a.HandleNext? || a.BeginSelect?
    || (a.EndCallback? && s.loop.User? && s.loop.c.Handling?)
  }

  ghost predicate GetsNearer(s: State, a: Action, n: nat)
    requires Step(s, a).Some?
  {
    var t := Step(s, a).value;
    Clean(t) && t.changes >= s.changes && NoFarther(t, s, n) && (ByHolder(s, a) ==> Nearer(t, s, n))
  }

  lemma ThreadNearer(s: State, a: Action, n: nat)
    requires Clean(s) && n <= s.changes && !SelectsSince(s, n) && Calm(a) && ByThread(a) && Step(s, a).Some?
    ensures GetsNearer(s, a, n)
  {
    StepKeeps(s, a);
  }

  lemma UserNearer(s: State, a: Action, n: nat)
    requires Clean(s) && n <= s.changes && !SelectsSince(s, n) && Calm(a)
    requires !ByThread(a) && s.loop.User? && Step(s, a).Some?
    ensures GetsNearer(s, a, n)
  {
    StepKeeps(s, a);
  }

  lemma HandleNearer(s: State, a: Action, n: nat)
    requires Clean(s) && n <= s.changes && !SelectsSince(s, n) && Calm(a)
    requires !ByThread(a) && s.loop.Dispatch? && Step(s, a).Some?
    ensures GetsNearer(s, a, n)
  {
    StepKeeps(s, a);
  }

  lemma LoopNearer(s: State, a: Action, n: nat)
    requires Clean(s) && n <= s.changes && !SelectsSince(s, n) && Calm(a)
    requires !ByThread(a) && !s.loop.User? && !s.loop.Dispatch? && Step(s, a).Some?
    ensures GetsNearer(s, a, n)
  {
    StepKeeps(s, a);
  }

  /** No calm step of either thread, registrations included, takes the turn farther
      away, whatever select returns, and every step by its holder brings it strictly
      nearer. */
  lemma CalmNearer(s: State, a: Action, n: nat)
    requires Clean(s) && n <= s.changes && !SelectsSince(s, n) && Calm(a) && Step(s, a).Some?
    ensures GetsNearer(s, a, n)
  {
    if ByThread(a) {
      ThreadNearer(s, a, n);
    } else if s.loop.User? {
      UserNearer(s, a, n);
    } else if s.loop.Dispatch? {
      HandleNearer(s, a, n);
    } else {
      LoopNearer(s, a, n);
    }
  }

  lemma CalmThreadClean(s: State, a: Action)
    requires Clean(s) && Calm(a) && ByThread(a) && Step(s, a).Some?
    ensures Clean(Step(s, a).value) && Step(s, a).value.changes >= s.changes
  {
    StepKeeps(s, a);
  }

  lemma CalmUserClean(s: State, a: Action)
    requires Clean(s) && Calm(a) && s.loop.User? && !ByThread(a) && Step(s, a).Some?
    ensures Clean(Step(s, a).value) && Step(s, a).value.changes >= s.changes
  {
    StepKeeps(s, a);
  }

  lemma CalmStaysClean(s: State, a: Action)
    requires Clean(s) && Calm(a) && Step(s, a).Some?
    ensures Clean(Step(s, a).value) && Step(s, a).value.changes >= s.changes
  {
    if ByThread(a) {
      CalmThreadClean(s, a);
    } else if s.loop.User? {
      CalmUserClean(s, a);
    } else {
      StepKeeps(s, a);
    }
  }

  /** The holder is never stuck: one of its steps is enabled, unless it waits for
      ordinary user code on the loop to return, or for a wake-up to be sent. */
  lemma HolderCanMove(s: State, n: nat)
    requires Reachable(s) && s.lost == 0 && !s.closing && n <= s.changes && !SelectsSince(s, n)
    requires s.loop != User(Ordinary) && !s.loop.Wake?
    ensures exists a :: Calm(a) && ByHolder(s, a) && Step(s, a).Some?
  {
    ReachableInv(s);
    MoveAdvances(s);
    var a := NextMove(s);
    assert Calm(a) && ByHolder(s, a) && Step(s, a).Some?;
  }

  /** An unending run of calm steps of both threads, in any order. */
  ghost predicate CalmRun(run: nat -> State, acts: nat -> Action) {
    forall i: nat :: Calm(acts(i)) && Step(run(i), acts(i)) == Some(run(i + 1))
  }

  ghost predicate HolderMovesAfter(run: nat -> State, acts: nat -> Action, i: nat) {
    exists j: nat :: i <= j && ByHolder(run(j), acts(j))
  }

  /** Whoever has the turn at last makes a step, except that a select on what is
      registered may block for ever. */
  ghost predicate HolderKeepsMoving(run: nat -> State, acts: nat -> Action) {
    forall i: nat :: SelectsOnCurrent(run(i)) || HolderMovesAfter(run, acts, i)
  }

  lemma {:induction false} CleanAlong(run: nat -> State, acts: nat -> Action, i: nat, j: nat)
    requires CalmRun(run, acts) && Clean(run(0)) && i <= j
    ensures Clean(run(j)) && run(i).changes <= run(j).changes
    decreases j
  {
    if j > 0 {
      CleanAlong(run, acts, if i < j then i else i - 1, j - 1);
      assert Step(run(j - 1), acts(j - 1)) == Some(run(j - 1 + 1));
      CalmStaysClean(run(j - 1), acts(j - 1));
    }
  }

  lemma OneStep(run: nat -> State, acts: nat -> Action, i: nat, n: nat)
    requires CalmRun(run, acts) && Clean(run(i)) && n <= run(i).changes && !SelectsSince(run(i), n)
    ensures NoFarther(run(i + 1), run(i), n)
    ensures ByHolder(run(i), acts(i)) ==> Nearer(run(i + 1), run(i), n)
  {
    assert Step(run(i), acts(i)) == Some(run(i + 1));
    CalmNearer(run(i), acts(i), n);
  }

  lemma Transitive(u: State, t: State, s: State, n: nat)
    requires NoFarther(u, t, n) && NoFarther(t, s, n)
    ensures NoFarther(u, s, n)
  {}

  /** Until the goal is met, the turn gets no farther away. */
  lemma {:induction false} NoFartherAlong(run: nat -> State, acts: nat -> Action, i: nat, j: nat, n: nat)
    requires CalmRun(run, acts) && Clean(run(0)) && i <= j && n <= run(i).changes
    requires forall k: nat :: i <= k < j ==> !SelectsSince(run(k), n)
    ensures NoFarther(run(j), run(i), n)
    decreases j
  {
    if i < j {
      NoFartherAlong(run, acts, i, j - 1, n);
      CleanAlong(run, acts, i, j - 1);
      OneStep(run, acts, j - 1, n);
      Transitive(run(j - 1 + 1), run(j - 1), run(i), n);
    }
  }

  lemma {:induction false} GetsThere(run: nat -> State, acts: nat -> Action, i: nat, n: nat) returns (k: nat)
    requires CalmRun(run, acts) && HolderKeepsMoving(run, acts) && Clean(run(0)) && n <= run(i).changes
    ensures i <= k && SelectsSince(run(k), n)
    decreases Stage(run(i), n), Remaining(run(i))
  {
    if SelectsSince(run(i), n) {
      return i;
    }
    assert HolderMovesAfter(run, acts, i);
    var j: nat :| i <= j && ByHolder(run(j), acts(j));
    if m: nat :| i <= m <= j && SelectsSince(run(m), n) {
      k := m;
    } else {
      NoFartherAlong(run, acts, i, j, n);
      CleanAlong(run, acts, i, j);
      OneStep(run, acts, j, n);
      CleanAlong(run, acts, i, j + 1);
      k := GetsThere(run, acts, j + 1, n);
    }
  }

  /** On every interleaving of calm steps on which the holder of the turn keeps moving,
      whatever is registered meanwhile: from any point the thread gets to selecting on a
      snapshot with all the changes made until that point, and on exactly what is
      registered if nothing changed since. */
  lemma AlwaysReselects(run: nat -> State, acts: nat -> Action, i: nat)
    requires Reachable(run(0)) && run(0).lost == 0 && !run(0).closing
    requires CalmRun(run, acts) && HolderKeepsMoving(run, acts)
    ensures exists k: nat ::
      && i <= k && SelectsSince(run(k), run(i).changes)
      && (run(k).changes == run(i).changes ==> SelectsOnCurrent(run(k)))
  {
    ReachableInv(run(0));
    var k := GetsThere(run, acts, i, run(i).changes);
    CleanAlong(run, acts, i, k);
  }
}
