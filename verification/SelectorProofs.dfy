/** What holds of `SelectorThread` on every interleaving of its two threads. */
module SelectorProofs {
  import opened Arrays
  import opened Selector
  import opened SelectorInvariant

  lemma {:induction false} RunKeeps(s: State, actions: seq<Action>, t: State)
    requires Inv(s) && Runs(s, actions, t)
    ensures Inv(t)
    decreases |actions|
  {
    if actions != [] {
      StepKeeps(s, actions[0]);
      RunKeeps(Step(s, actions[0]).value, actions[1..], t);
    }
  }

  lemma ReachableInv(s: State)
    requires Reachable(s)
    ensures Inv(s)
  {
    var i: State, actions: seq<Action> :| Init(i) && Runs(i, actions, s);
    InitInv(i);
    RunKeeps(i, actions, s);
  }

  // ----- one turn -----

  /** Whose turn it is to select is recorded in at most one place, in exactly one as
      long as nothing was given up, so `_start_select` finds `_select_args` empty and
      its assertion never fails; nor is the closed waker ever written to. */
  lemma OneTurn(s: State)
    requires Reachable(s)
    ensures s.lost <= 1
    ensures Tokens(s) == 1 - s.lost
    ensures s.loop == StartSelect ==> s.selectArgs == None && !ThreadHolds(s.thread) && s.posted == []
    ensures s.selectArgs.Some? ==> !ThreadHolds(s.thread) && s.posted == [] && !LoopHolds(s.loop)
    ensures ThreadHolds(s.thread) ==> s.posted == [] && !LoopHolds(s.loop)
    ensures |s.posted| <= 1 && (s.posted != [] ==> !LoopHolds(s.loop))
    ensures s.loop.CloseWake? || s.loop.CloseRemoveWake? || (s.loop.Wake? && !s.closed) ==> s.wakerOpen
    ensures s.loop != AssertionFailed && s.loop != SentOnClosedSocket
  {
    ReachableInv(s);
  }

  // ----- no lost wake-up -----

  /** While the waker is open every snapshot contains it; and if a registration
      changed after the snapshot was taken, and the wake-up for that has been sent,
      the waker has a byte: select cannot block, it may return the waker, and
      whatever it returns contains the waker. */
  lemma NoLostWakeUp(s: State, snapshot: Snapshot)
    requires Reachable(s) && s.wakerOpen && Held(s, snapshot)
    ensures WAKER in snapshot.readers
    ensures snapshot.stamp <= s.changes
    ensures snapshot.stamp < s.changes ==> s.bytes > 0 || s.loop.Wake? || s.loop.CloseRemoveWake?
    ensures snapshot.stamp < Announced(s) ==> s.bytes > 0
    ensures snapshot.stamp < Announced(s) && s.thread == Got(snapshot) ==>
              && Step(s, SelectReturns(Ready([WAKER], []))).Some?
              && forall ready :: Step(s, SelectReturns(ready)).Some? ==> WAKER in ready.rs
  {
    ReachableInv(s);
  }

  /** A snapshot that nothing has changed since is what is registered now. */
  lemma UnchangedIsCurrent(s: State, snapshot: Snapshot)
    requires Reachable(s) && Held(s, snapshot) && snapshot.stamp == s.changes
    ensures snapshot.readers == s.readers && snapshot.writers == s.writers
  {
    ReachableInv(s);
  }

  /** When select fails on a closed descriptor, polling the waker alone finds it
      readable, so the thread never dies of that error. */
  lemma BadDescriptorRecovers(s: State)
    requires Reachable(s)
    ensures s.thread != Dead(true)
    ensures s.thread.Retry? ==>
      s.wakerOpen && Step(s, PollWaker) == Some(s.(thread := Chosen(Ready([WAKER_NUMBER], []))))
    ensures Step(s, SelectBadDescriptor).Some? ==> s.bytes > 0 && s.thread.snapshot.stamp < s.changes
  {
    ReachableInv(s);
  }

  // ----- shutdown -----

  /** The most steps that the select thread still makes once it is told to stop. */
  function Left(t: Thread): nat {
    match t
    case Got(_) => 4
    case Retry(_) => 3
    case Chosen(_) => 2
    case Top => 1
    case Waiting => 2
    case _ => 0
  }

  /** The step that the select thread can then take, whatever the loop does: a select
      that fails on a closed descriptor is not expected to return. */
  function Leave(s: State): Action {
    match s.thread
    case Got(snapshot) =>
      if snapshot.All() * s.bad != {} then SelectBadDescriptor else SelectReturns(Ready([WAKER], []))
    case Retry(_) => PollWaker
    case Chosen(_) => Post(true)
    case Waiting => SpuriousWakeUp
    case _ => TakeArgs
  }

  predicate AllByThread(actions: seq<Action>) {
    forall i :: 0 <= i < |actions| ==> ByThread(actions[i])
  }

  lemma LeaveWorks(s: State)
    requires Inv(s) && s.loop.CloseJoin? && !Gone(s.thread)
    ensures ByThread(Leave(s)) && Step(s, Leave(s)).Some?
  {
    if s.thread.Got? {
      assert WAKER in s.thread.snapshot.readers;
    }
  }

  lemma ThreadLeaves(s: State, a: Action)
    requires s.closing && s.thread != Waiting && ByThread(a) && Step(s, a).Some?
    ensures var t := Step(s, a).value;
      && t.loop == s.loop && t.closing && t.thread != Waiting && Left(t.thread) < Left(s.thread)
  {}

  /** While the loop's thread waits in join, the select thread makes at most four
      steps; when it can make no more, it is gone and join returns. */
  lemma {:induction false} JoinReturns(s: State, actions: seq<Action>, t: State)
    requires Reachable(s) && s.loop.CloseJoin?
    requires Runs(s, actions, t) && AllByThread(actions)
    ensures |actions| + Left(t.thread) <= Left(s.thread) <= 4
    ensures t.loop == s.loop
    ensures Step(t, Leave(t)).Some? || Step(t, Join).Some?
  {
    ReachableInv(s);
    RunKeeps(s, actions, t);
    ShutdownRun(s, actions, t);
    if !Gone(t.thread) {
      LeaveWorks(t);
    }
  }

  lemma {:induction false} ShutdownRun(s: State, actions: seq<Action>, t: State)
    requires Inv(s) && s.loop.CloseJoin? && Runs(s, actions, t) && AllByThread(actions)
    ensures |actions| + Left(t.thread) <= Left(s.thread)
    ensures t.loop == s.loop
    decreases |actions|
  {
    if actions != [] {
      var next := Step(s, actions[0]).value;
      ThreadLeaves(s, actions[0]);
      StepKeeps(s, actions[0]);
      ShutdownRun(next, actions[1..], t);
    }
  }

  /** And such a run to the end of the thread exists: join cannot deadlock. */
  lemma JoinCannotDeadlock(s: State)
    requires Reachable(s) && s.loop.CloseJoin?
    ensures exists actions: seq<Action>, t: State ::
              Runs(s, actions, t) && AllByThread(actions) && |actions| <= 4 && Step(t, Join).Some?
  {
    ReachableInv(s);
    var actions, t := ShutdownWitness(s);
  }

  lemma {:induction false} ShutdownWitness(s: State) returns (actions: seq<Action>, t: State)
    requires Inv(s) && s.loop.CloseJoin?
    ensures Runs(s, actions, t) && AllByThread(actions) && |actions| <= Left(s.thread) && Step(t, Join).Some?
    decreases Left(s.thread)
  {
    if Gone(s.thread) {
      actions, t := [], s;
    } else {
      var a := Leave(s);
      LeaveWorks(s);
      ThreadLeaves(s, a);
      StepKeeps(s, a);
      var rest;
      rest, t := ShutdownWitness(Step(s, a).value);
      actions := [a] + rest;
      assert actions[1..] == rest;
    }
  }

  /** The waker's sockets are closed only after the thread has let go of its snapshot,
      and from then on, whatever runs, it never selects, polls or posts again and the
      sockets stay closed. */
  lemma SocketsOutliveThread(s: State, actions: seq<Action>, t: State)
    requires Reachable(s) && !s.wakerOpen && Runs(s, actions, t)
    ensures !t.wakerOpen && WAKER !in t.readers
    ensures t.thread.Top? || Gone(t.thread)
    ensures !Step(t, SelectBadDescriptor).Some? && !Step(t, PollWaker).Some?
    ensures forall ready :: !Step(t, SelectReturns(ready)).Some?
  {
    ReachableInv(s);
    RunKeeps(s, actions, t);
    StaysShut(s, actions, t);
  }

  lemma {:induction false} StaysShut(s: State, actions: seq<Action>, t: State)
    requires !s.wakerOpen && Runs(s, actions, t)
    ensures !t.wakerOpen
    decreases |actions|
  {
    if actions != [] {
      ShutStep(s, actions[0]);
      StaysShut(Step(s, actions[0]).value, actions[1..], t);
    }
  }

  lemma ShutUserStep(s: State, c: Context, a: Action)
    requires UserStep(s, c, a).Some?
    ensures UserStep(s, c, a).value.wakerOpen == s.wakerOpen
  {}

  lemma ShutStep(s: State, a: Action)
    requires !s.wakerOpen && Step(s, a).Some?
    ensures !Step(s, a).value.wakerOpen
  {
    if s.loop.User? && !ByThread(a) {
      ShutUserStep(s, s.loop.c, a);
    }
  }
}
