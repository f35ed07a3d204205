/** What becomes of the wake-up that gets the select thread past a bad descriptor. */
module SelectorRetry {
  import opened Arrays
  import opened Selector
  import opened SelectorInvariant
  import opened SelectorProofs

  /** Only the number of the waker was reported. */
  predicate OnlyNumber(ready: Ready) {
    ready.ws == [] && forall i :: 0 <= i < |ready.rs| ==> ready.rs[i] == WAKER_NUMBER
  }

  /** The waker has bytes, and nobody is about to take them. */
  predicate Unread(s: State) {
    && s.bytes > 0
    && (s.thread.Chosen? ==> OnlyNumber(s.thread.ready))
    && (forall i :: 0 <= i < |s.posted| ==> OnlyNumber(s.posted[i]))
    && (s.loop.Dispatch? ==> OnlyNumber(s.loop.rest))
    && (s.loop.User? || s.loop.Wake? || InClose(s.loop) ==> s.loop.c.Ordinary?)
  }

  lemma ThreadLeavesUnread(s: State, a: Action)
    requires Inv(s) && Unread(s) && ByThread(a) && !a.SelectReturns? && Step(s, a).Some?
    ensures Unread(Step(s, a).value)
  {}

  lemma UserLeavesUnread(s: State, a: Action)
    requires Unread(s) && s.loop.User? && !ByThread(a) && Step(s, a).Some?
    ensures Unread(Step(s, a).value)
  {}

  lemma HandlingLeavesUnread(s: State, rest: Ready)
    requires WAKER_NUMBER !in s.readers && Unread(s) && s.loop == Dispatch(rest)
    ensures Unread(HandleEvent(s, rest))
  {}

  lemma LoopLeavesUnread(s: State, a: Action)
    requires CloseInv(s) && Unread(s) && !s.loop.User? && !ByThread(a) && Step(s, a).Some?
    ensures Unread(Step(s, a).value)
  {
    if s.loop.Dispatch? {
      HandlingLeavesUnread(s, s.loop.rest);
    }
  }

  lemma {:induction false} StaysUnread(s: State, actions: seq<Action>, t: State)
    requires Inv(s) && Unread(s) && Runs(s, actions, t)
    requires forall i :: 0 <= i < |actions| ==> !actions[i].SelectReturns?
    ensures Inv(t) && Unread(t)
    decreases |actions|
  {
    if actions != [] {
      var a := actions[0];
      StepKeeps(s, a);
      if ByThread(a) {
        ThreadLeavesUnread(s, a);
      } else if s.loop.User? {
        UserLeavesUnread(s, a);
      } else {
        LoopLeavesUnread(s, a);
      }
      StaysUnread(Step(s, a).value, actions[1..], t);
    }
  }

  /** The poll after a bad descriptor reports the waker by its number, under which
      nothing is registered, so the wake-up is not consumed: on every run from there,
      until select next returns, the waker has a byte, and then select can return at
      once and whatever it returns contains the waker. */
  lemma WakeUpOutlivesRetry(s: State, actions: seq<Action>, t: State)
    requires Reachable(s) && s.thread.Retry? && Runs(s, actions, t)
    requires forall i :: 0 <= i < |actions| ==> !actions[i].SelectReturns?
    ensures t.bytes > 0
    ensures t.thread.Got? ==>
              && Step(t, SelectReturns(Ready([WAKER], []))).Some?
              && forall ready :: Step(t, SelectReturns(ready)).Some? ==> WAKER in ready.rs
  {
    ReachableInv(s);
    StaysUnread(s, actions, t);
  }

  lemma {:induction false} RunsOn(s: State, actions: seq<Action>, t: State, a: Action)
    requires Runs(s, actions, t) && Step(t, a).Some?
    ensures Runs(s, actions + [a], Step(t, a).value)
    decreases |actions|
  {
    if actions == [] {
      assert [] + [a] == [a];
    } else {
      RunsOn(Step(s, actions[0]).value, actions[1..], t, a);
      assert (actions + [a])[1..] == actions[1..] + [a];
    }
  }

  lemma ReachOn(s: State, a: Action)
    requires Reachable(s) && Step(s, a).Some?
    ensures Reachable(Step(s, a).value)
  {
    var i: State, actions: seq<Action> :| Init(i) && Runs(i, actions, s);
    RunsOn(i, actions, s, a);
  }

  // A run on which select fails on a descriptor that was closed after its removal.

  function Snap(readers: set<Fd>, stamp: nat): Snapshot { Snapshot(readers, {}, stamp) }

  /** An open object with nothing to write to and no turn given up. */
  function Example(
    readers: set<Fd>, changes: nat, bytes: nat, bad: set<Fd>, posted: seq<Ready>, thread: Thread, loop: Loop): State
  {
    State(None, false, false, readers, {}, changes, bytes, true, false, posted, bad, thread, loop, 0, [])
  }

  lemma Does(s: State, a: Action, t: State)
    requires Reachable(s) && Step(s, a) == Some(t)
    ensures Reachable(t)
  {
    ReachOn(s, a);
  }

  lemma StartsUp()
    ensures Reachable(Example({WAKER}, 1, 1, {}, [], Got(Snap({WAKER}, 1)), Idle))
  {
    var s := State(None, false, false, {WAKER}, {}, 1, 1, true, true, [], {}, NotStarted, Idle, 0, []);
    assert Runs(s, [], s);
    var booted := s.(bootPending := false, thread := Top, loop := StartSelect);
    Does(s, Boot, booted);
    var begun := booted.(selectArgs := Some(Snap({WAKER}, 1)), loop := Idle);
    Does(booted, BeginSelect, begun);
    Does(begun, TakeArgs, Example({WAKER}, 1, 1, {}, [], Got(Snap({WAKER}, 1)), Idle));
  }

  lemma Registers()
    ensures Reachable(Example({WAKER, 5}, 2, 2, {}, [], Got(Snap({WAKER}, 1)), Idle))
  {
    StartsUp();
    var s := Example({WAKER}, 1, 1, {}, [], Got(Snap({WAKER}, 1)), Idle);
    Does(s, RunCallback, s.(loop := User(Ordinary)));
    assert s.readers + {5} == {WAKER, 5};
    var added := s.(readers := {WAKER, 5}, changes := 2, loop := Wake(Ordinary));
    Does(s.(loop := User(Ordinary)), AddReader(5), added);
    Does(added, SendWake(false), added.(bytes := 2, loop := User(Ordinary)));
    Does(added.(bytes := 2, loop := User(Ordinary)), EndCallback, added.(bytes := 2, loop := Idle));
  }

  lemma WakesUp()
    ensures Reachable(Example({WAKER, 5}, 2, 2, {}, [], Top, Dispatch(Ready([WAKER], []))))
  {
    Registers();
    var ready := Ready([WAKER], []);
    var s := Example({WAKER, 5}, 2, 2, {}, [], Got(Snap({WAKER}, 1)), Idle);
    assert Selectable(Snap({WAKER}, 1), 2, ready);
    Does(s, SelectReturns(ready), s.(thread := Chosen(ready)));
    assert s.posted + [ready] == [ready];
    Does(s.(thread := Chosen(ready)), Post(true), s.(thread := Top, posted := [ready]));
    assert [ready][1..] == [];
    Does(s.(thread := Top, posted := [ready]), RunPosted, s.(thread := Top, loop := Dispatch(ready)));
  }

  lemma SelectsOnFive()
    ensures Reachable(Example({WAKER, 5}, 2, 0, {}, [], Got(Snap({WAKER, 5}, 2)), Idle))
  {
    WakesUp();
    var s := Example({WAKER, 5}, 2, 2, {}, [], Top, Dispatch(Ready([WAKER], [])));
    assert [WAKER][1..] == [];
    var handled := s.(bytes := 0, loop := Dispatch(Ready([], [])));
    Does(s, HandleNext, handled);
    Does(handled, HandleNext, handled.(loop := StartSelect));
    var begun := handled.(selectArgs := Some(Snap({WAKER, 5}, 2)), loop := Idle);
    Does(handled.(loop := StartSelect), BeginSelect, begun);
    Does(begun, TakeArgs, Example({WAKER, 5}, 2, 0, {}, [], Got(Snap({WAKER, 5}, 2)), Idle));
  }

  lemma Unregisters()
    ensures Reachable(Example({WAKER}, 3, 1, {5}, [], Got(Snap({WAKER, 5}, 2)), Idle))
  {
    SelectsOnFive();
    var s := Example({WAKER, 5}, 2, 0, {}, [], Got(Snap({WAKER, 5}, 2)), Idle);
    Does(s, RunCallback, s.(loop := User(Ordinary)));
    assert s.readers - {5} == {WAKER};
    var removed := s.(readers := {WAKER}, changes := 3, loop := Wake(Ordinary));
    Does(s.(loop := User(Ordinary)), RemoveReader(5), removed);
    var woken := removed.(bytes := 1, loop := User(Ordinary));
    Does(removed, SendWake(false), woken);
    assert woken.bad + {5} == {5};
    Does(woken, CloseDescriptor(5), woken.(bad := {5}));
    Does(woken.(bad := {5}), EndCallback, woken.(bad := {5}, loop := Idle));
  }

  /** Such runs exist: select fails, and when the polled waker is handled its byte is
      still there. */
  lemma RetryHappens()
    ensures Reachable(Example({WAKER}, 3, 1, {5}, [], Retry(Snap({WAKER, 5}, 2)), Idle))
    ensures Reachable(Example({WAKER}, 3, 1, {5}, [], Top, Dispatch(Ready([WAKER_NUMBER], []))))
  {
    Unregisters();
    var ready := Ready([WAKER_NUMBER], []);
    var s := Example({WAKER}, 3, 1, {5}, [], Got(Snap({WAKER, 5}, 2)), Idle);
    assert 5 in Snap({WAKER, 5}, 2).All() * s.bad;
    Does(s, SelectBadDescriptor, s.(thread := Retry(Snap({WAKER, 5}, 2))));
    Does(s.(thread := Retry(Snap({WAKER, 5}, 2))), PollWaker, s.(thread := Chosen(ready)));
    assert s.posted + [ready] == [ready];
    Does(s.(thread := Chosen(ready)), Post(true), s.(thread := Top, posted := [ready]));
    assert [ready][1..] == [];
    Does(s.(thread := Top, posted := [ready]), RunPosted, s.(thread := Top, loop := Dispatch(ready)));
  }
}
