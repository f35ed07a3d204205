/** What `_handle_select` does with the events that select returned, and what is
    registered at any time. */
module SelectorHandling {
  import opened Arrays
  import opened Selector
  import opened SelectorInvariant
  import opened SelectorProofs

  // ----- events -----

  datatype Event = Reads(fd: Fd) | Writes(fd: Fd)

  /** The events in the order of their turns: those for reading, then those for writing. */
  function EventsOf(ready: Ready): (es: seq<Event>)
    ensures |es| == |ready.rs| + |ready.ws|
  {
    seq(|ready.rs|, i requires 0 <= i < |ready.rs| => Reads(ready.rs[i]))
    + seq(|ready.ws|, i requires 0 <= i < |ready.ws| => Writes(ready.ws[i]))
  }

  /** The events whose turn is yet to come: select has returned them, they are posted, or
      some of them have been handled. */
  function Pending(s: State): Option<Ready> {
    if s.thread.Chosen? then Some(s.thread.ready)
    else if s.posted != [] then Some(s.posted[0])
    else if s.loop.Dispatch? then Some(s.loop.rest)
    else if s.loop.StartSelect? then Some(Ready([], []))
    else if (s.loop.User? || s.loop.Wake? || InClose(s.loop)) && s.loop.c.Handling? then Some(s.loop.c.rest)
    else None
  }

  /** The callback that is due for an event when its turn comes in state `u`. */
  function CallFor(e: Event, u: State): seq<Call> {
    match e
    case Reads(fd) => if fd in u.readers && fd != WAKER then [ReaderCall(fd)] else []
    case Writes(fd) => if fd in u.writers then [WriterCall(fd)] else []
  }

  /** Those that are due for events whose turns come in the states `turns`. */
  function CallsFor(es: seq<Event>, turns: seq<State>): seq<Call>
    requires |es| == |turns|
  {
    if es == [] then [] else CallFor(es[0], turns[0]) + CallsFor(es[1..], turns[1..])
  }

  /** A step of the loops in `_handle_select`, not the one that leaves them. */
  predicate IsTurn(s: State, a: Action) {
    a.HandleNext? && s.loop.Dispatch? && EventsOf(s.loop.rest) != []
  }

  /** The states at which the turn of some event comes. */
  function Turns(s: State, actions: seq<Action>): seq<State>
    decreases |actions|
  {
    if actions == [] || Step(s, actions[0]).None? then []
    else (if IsTurn(s, actions[0]) then [s] else []) + Turns(Step(s, actions[0]).value, actions[1..])
  }

  /** A step that does not begin another select and on which nothing is given up. */
  predicate Keeps(a: Action) {
    !a.BeginSelect? && !a.CallbackRaises? && a != Post(false)
  }

  /** What is left of the events when the first has had its turn. */
  function Tail(rest: Ready): Ready
    requires EventsOf(rest) != []
  {
    if rest.rs != [] then Ready(rest.rs[1..], rest.ws) else Ready([], rest.ws[1..])
  }

  lemma TailEvents(rest: Ready)
    requires EventsOf(rest) != []
    ensures EventsOf(rest) == [if rest.rs != [] then Reads(rest.rs[0]) else Writes(rest.ws[0])] + EventsOf(Tail(rest))
  {}

  lemma TurnStep(s: State, rest: Ready)
    requires s.loop == Dispatch(rest) && EventsOf(rest) != []
    ensures var t := HandleEvent(s, rest);
      && t.thread == s.thread && t.posted == s.posted
      && (t.loop == Dispatch(Tail(rest)) || t.loop == User(Handling(Tail(rest))))
      && t.calls == s.calls + CallFor(if rest.rs != [] then Reads(rest.rs[0]) else Writes(rest.ws[0]), s)
  {
    assert s.calls + [] == s.calls;
  }

  lemma ThreadKeepsPending(s: State, a: Action)
    requires TokenInv(s) && Pending(s).Some? && ByThread(a) && Keeps(a) && Step(s, a).Some?
    ensures Pending(Step(s, a).value) == Pending(s) && Step(s, a).value.calls == s.calls
  {}

  lemma UserKeepsPending(s: State, a: Action)
    requires TokenInv(s) && Pending(s).Some? && !ByThread(a) && s.loop.User? && Keeps(a) && Step(s, a).Some?
    ensures Pending(Step(s, a).value) == Pending(s) && Step(s, a).value.calls == s.calls
  {}

  lemma LoopKeepsPending(s: State, a: Action)
    requires TokenInv(s) && CloseInv(s) && Pending(s).Some? && Keeps(a)
    requires !ByThread(a) && !s.loop.User? && !IsTurn(s, a) && Step(s, a).Some?
    ensures Pending(Step(s, a).value) == Pending(s) && Step(s, a).value.calls == s.calls
  {
    if s.loop.Dispatch? {
      assert s.loop.rest == Ready([], []);
    }
  }

  lemma OtherStep(s: State, a: Action)
    requires Inv(s) && Pending(s).Some? && Keeps(a) && !IsTurn(s, a) && Step(s, a).Some?
    ensures Pending(Step(s, a).value) == Pending(s) && Step(s, a).value.calls == s.calls
  {
    if ByThread(a) {
      ThreadKeepsPending(s, a);
    } else if s.loop.User? {
      UserKeepsPending(s, a);
    } else {
      LoopKeepsPending(s, a);
    }
  }

  lemma EventTurn(s: State, a: Action)
    requires Inv(s) && IsTurn(s, a)
    ensures Pending(s) == Some(s.loop.rest) && Step(s, a).Some?
    ensures var t := Step(s, a).value;
      && Pending(t).Some?
      && EventsOf(s.loop.rest) == [EventsOf(s.loop.rest)[0]] + EventsOf(Pending(t).value)
      && t.calls == s.calls + CallFor(EventsOf(s.loop.rest)[0], s)
  {
    LoopAlone(s);
    TurnStep(s, s.loop.rest);
    TailEvents(s.loop.rest);
  }

  lemma {:induction false} RunHandles(s: State, actions: seq<Action>, t: State)
    requires Inv(s) && Pending(s).Some? && Runs(s, actions, t)
    requires forall i :: 0 <= i < |actions| ==> Keeps(actions[i])
    ensures Pending(t).Some?
    ensures var all, turns := EventsOf(Pending(s).value), Turns(s, actions);
      && |turns| <= |all| && all == all[..|turns|] + EventsOf(Pending(t).value)
      && t.calls == s.calls + CallsFor(all[..|turns|], turns)
    decreases |actions|
  {
    var all := EventsOf(Pending(s).value);
    if actions == [] {
      assert all[..0] == [] && all == all[..0] + all;
      assert t.calls == t.calls + [];
    } else {
      var a, next := actions[0], Step(s, actions[0]).value;
      StepKeeps(s, a);
      if IsTurn(s, a) {
        EventTurn(s, a);
        RunHandles(next, actions[1..], t);
        OneMoreTurn(s, all, EventsOf(Pending(next).value), Turns(next, actions[1..]), EventsOf(Pending(t).value),
          s.calls, next.calls, t.calls);
      } else {
        OtherStep(s, a);
        RunHandles(next, actions[1..], t);
        assert Turns(s, actions) == [] + Turns(next, actions[1..]) == Turns(next, actions[1..]);
      }
    }
  }

  lemma OneMoreTurn(
    s: State, all: seq<Event>, rest: seq<Event>, turns: seq<State>, left: seq<Event>,
    before: seq<Call>, during: seq<Call>, after: seq<Call>)
    requires all != [] && all == [all[0]] + rest && |turns| <= |rest| && rest == rest[..|turns|] + left
    requires during == before + CallFor(all[0], s)
    requires after == during + CallsFor(rest[..|turns|], turns)
    ensures var more := [s] + turns;
      && all == all[..|more|] + left
      && after == before + CallsFor(all[..|more|], more)
  {
    var more := [s] + turns;
    var done := all[..|more|];
    assert done == [all[0]] + rest[..|turns|];
    assert done[1..] == rest[..|turns|] && more[1..] == turns;
    assert CallsFor(done, more) == CallFor(all[0], s) + CallsFor(rest[..|turns|], turns);
  }

  /** From when select returns its events, on every run and whatever callbacks register
      meanwhile, as long as no other select begins and nothing is given up: the turns of
      the events come one after the other, each once; and the callbacks called are
      exactly those of the descriptors that are registered when their turn comes, the
      waker apart, in that order.  When the next select begins every event has had its
      turn. */
  lemma EventsAreHandled(s: State, actions: seq<Action>, t: State, ready: Ready)
    requires Reachable(s) && Pending(s) == Some(ready) && Runs(s, actions, t)
    requires forall i :: 0 <= i < |actions| ==> Keeps(actions[i])
    ensures var all, turns := EventsOf(ready), Turns(s, actions);
      && |turns| <= |all| && t.calls == s.calls + CallsFor(all[..|turns|], turns)
      && Pending(t).Some? && all == all[..|turns|] + EventsOf(Pending(t).value)
      && (t.loop == StartSelect ==> |turns| == |all| && t.calls == s.calls + CallsFor(all, turns))
  {
    ReachableInv(s);
    RunHandles(s, actions, t);
    if t.loop == StartSelect {
      RunKeeps(s, actions, t);
      LoopAlone(t);
      var all, turns := EventsOf(ready), Turns(s, actions);
      assert EventsOf(Ready([], [])) == [];
      assert all[..|turns|] == all;
    }
  }

  /** A step of one thread that is not a turn calls nobody. */
  lemma NoTurnNoCall(s: State, a: Action)
    requires Step(s, a).Some? && (ByThread(a) || !s.loop.Dispatch?)
    ensures Step(s, a).value.calls == s.calls
  {
    if ByThread(a) {
      ThreadCallsNobody(s, a);
    } else if s.loop.User? {
      UserCallsNobody(s, s.loop.c, a);
    } else {
      LoopCallsNobody(s, a);
    }
  }

  lemma ThreadCallsNobody(s: State, a: Action)
    requires ThreadStep(s, a).Some?
    ensures var t := ThreadStep(s, a).value;
      t.calls == s.calls && t.readers == s.readers && t.writers == s.writers
  {}

  lemma UserCallsNobody(s: State, c: Context, a: Action)
    requires UserStep(s, c, a).Some?
    ensures UserStep(s, c, a).value.calls == s.calls
  {}

  lemma LoopCallsNobody(s: State, a: Action)
    requires !s.loop.User? && !s.loop.Dispatch? && LoopStep(s, a).Some?
    ensures var t := LoopStep(s, a).value;
      t.calls == s.calls && t.readers - {WAKER} == s.readers - {WAKER} && t.writers == s.writers
  {}

  /** Calling a callback is running user code: the record grows exactly by a step from
      `_handle_select` into user code, and then by the call for the event whose turn it
      is, for a descriptor that is registered. */
  lemma CallRunsUserCode(s: State, a: Action)
    requires Step(s, a).Some?
    ensures var t := Step(s, a).value;
      && (t.calls == s.calls <==> !(s.loop.Dispatch? && !ByThread(a) && t.loop.User?))
      && (t.calls != s.calls ==> t.loop.c.Handling? && EventsOf(s.loop.rest) != [])
      && (t.calls != s.calls && s.loop.rest.rs != [] ==>
            var fd := s.loop.rest.rs[0]; t.calls == s.calls + [ReaderCall(fd)] && fd in s.readers && fd != WAKER)
      && (t.calls != s.calls && s.loop.rest.rs == [] ==>
            var fd := s.loop.rest.ws[0]; t.calls == s.calls + [WriterCall(fd)] && fd in s.writers)
  {
    if ByThread(a) || !s.loop.Dispatch? {
      NoTurnNoCall(s, a);
    } else {
      DispatchCalls(s, s.loop.rest);
    }
  }

  lemma DispatchCalls(s: State, rest: Ready)
    requires s.loop == Dispatch(rest)
    ensures var t := HandleEvent(s, rest);
      && (t.calls == s.calls <==> !t.loop.User?)
      && (t.calls != s.calls ==> t.loop.c.Handling? && EventsOf(rest) != [])
      && (t.calls != s.calls && rest.rs != [] ==>
            t.calls == s.calls + [ReaderCall(rest.rs[0])] && rest.rs[0] in s.readers && rest.rs[0] != WAKER)
      && (t.calls != s.calls && rest.rs == [] ==>
            t.calls == s.calls + [WriterCall(rest.ws[0])] && rest.ws[0] in s.writers)
  {
    var t := HandleEvent(s, rest);
    if t.loop.User? {
      assert |t.calls| == |s.calls| + 1;
    }
  }

  /** The waker's own turn takes up to 1024 of its bytes, and no other turn any; an event
      for a descriptor that is not registered is passed over. */
  lemma WakerTurn(s: State, rest: Ready)
    requires s.loop == Dispatch(rest) && rest.rs != []
    ensures var t, next := Step(s, HandleNext).value, Dispatch(Ready(rest.rs[1..], rest.ws));
      && (rest.rs[0] == WAKER && WAKER in s.readers ==>
            t == s.(loop := next, bytes := if s.bytes > 1024 then s.bytes - 1024 else 0))
      && (rest.rs[0] !in s.readers ==> t == s.(loop := next))
      && (rest.rs[0] != WAKER ==> t.bytes == s.bytes)
  {}

  // ----- what is registered -----

  /** Whether the last action on the reader `fd`, if there was one, added it. */
  function LastReader(actions: seq<Action>, fd: Fd): Option<bool> {
    if actions == [] then None
    else
      var n := |actions| - 1;
      if actions[n] == AddReader(fd) then Some(true)
      else if actions[n] == RemoveReader(fd) then Some(false)
      else LastReader(actions[..n], fd)
  }

  function LastWriter(actions: seq<Action>, fd: Fd): Option<bool> {
    if actions == [] then None
    else
      var n := |actions| - 1;
      if actions[n] == AddWriter(fd) then Some(true)
      else if actions[n] == RemoveWriter(fd) then Some(false)
      else LastWriter(actions[..n], fd)
  }

  function Now(last: Option<bool>, before: bool): bool {
    if last.Some? then last.value else before
  }

  lemma UserRegisters(s: State, c: Context, a: Action, fd: Fd)
    requires Own(fd) && UserStep(s, c, a).Some?
    ensures var t := UserStep(s, c, a).value;
      && (fd in t.readers <==> a == AddReader(fd) || (a != RemoveReader(fd) && fd in s.readers))
      && (fd in t.writers <==> a == AddWriter(fd) || (a != RemoveWriter(fd) && fd in s.writers))
  {}

  lemma StepRegisters(s: State, a: Action, fd: Fd)
    requires Own(fd) && Step(s, a).Some?
    ensures var t := Step(s, a).value;
      && (fd in t.readers <==> a == AddReader(fd) || (a != RemoveReader(fd) && fd in s.readers))
      && (fd in t.writers <==> a == AddWriter(fd) || (a != RemoveWriter(fd) && fd in s.writers))
  {
    if ByThread(a) {
      ThreadCallsNobody(s, a);
    } else if s.loop.User? {
      UserRegisters(s, s.loop.c, a, fd);
    } else if s.loop.Dispatch? {
      HandlingKeepsRegistered(s, s.loop.rest);
    } else {
      LoopCallsNobody(s, a);
      LoopActions(s, a);
      assert fd in Step(s, a).value.readers - {WAKER} <==> fd in s.readers - {WAKER};
    }
  }

  lemma HandlingKeepsRegistered(s: State, rest: Ready)
    ensures HandleEvent(s, rest).readers == s.readers && HandleEvent(s, rest).writers == s.writers
  {}

  /** Registering is for user code alone. */
  lemma LoopActions(s: State, a: Action)
    requires !s.loop.User? && LoopStep(s, a).Some?
    ensures !a.AddReader? && !a.RemoveReader? && !a.AddWriter? && !a.RemoveWriter?
  {}

  lemma {:induction false} LastPrepend(a: Action, actions: seq<Action>, fd: Fd)
    ensures LastReader([a] + actions, fd) ==
      if LastReader(actions, fd).Some? then LastReader(actions, fd) else LastReader([a], fd)
    ensures LastWriter([a] + actions, fd) ==
      if LastWriter(actions, fd).Some? then LastWriter(actions, fd) else LastWriter([a], fd)
    decreases |actions|
  {
    var all := [a] + actions;
    if actions == [] {
      assert all == [a];
    } else {
      assert all[..|all| - 1] == [a] + actions[..|actions| - 1];
      LastPrepend(a, actions[..|actions| - 1], fd);
    }
  }

  /** After every run a descriptor is registered for reading, or for writing, exactly if
      the last such registration of it was an addition, or there was none and it was. */
  lemma {:induction false} RegisteredExactly(s: State, actions: seq<Action>, t: State, fd: Fd)
    requires Own(fd) && Runs(s, actions, t)
    ensures fd in t.readers <==> Now(LastReader(actions, fd), fd in s.readers)
    ensures fd in t.writers <==> Now(LastWriter(actions, fd), fd in s.writers)
    decreases |actions|
  {
    if actions != [] {
      var a := actions[0];
      StepRegisters(s, a, fd);
      RegisteredExactly(Step(s, a).value, actions[1..], t, fd);
      assert actions == [a] + actions[1..];
      LastPrepend(a, actions[1..], fd);
      assert [a][..0] == [];
    }
  }

  /** What select returned is what is to be handled. */
  lemma ReturnedIsPending(s: State, ready: Ready)
    requires Step(s, SelectReturns(ready)).Some?
    ensures Pending(Step(s, SelectReturns(ready)).value) == Some(ready)
  {}

  /** Select returns something, each descriptor of a kind for which it was registered when
      the snapshot was taken, and the waker exactly when it has bytes. */
  lemma ReturnsRegistered(s: State, snapshot: Snapshot, ready: Ready)
    requires Reachable(s) && s.thread == Got(snapshot)
    ensures Step(s, SelectReturns(ready)).Some? <==>
      && EventsOf(ready) != []
      && (forall fd :: fd in ready.rs ==> fd in snapshot.readers)
      && (forall fd :: fd in ready.ws ==> fd in snapshot.writers)
      && (WAKER in ready.rs <==> s.bytes > 0)
  {
    ReachableInv(s);
    AllIn(ready.rs, snapshot.readers);
    AllIn(ready.ws, snapshot.writers);
    assert |EventsOf(ready)| == |ready.rs| + |ready.ws|;
    assert Selectable(snapshot, s.bytes, ready) <==> Step(s, SelectReturns(ready)).Some?;
  }

  lemma AllIn(fds: seq<Fd>, all: set<Fd>)
    ensures (forall i :: 0 <= i < |fds| ==> fds[i] in all) <==> forall fd :: fd in fds ==> fd in all
  {
    if forall fd :: fd in fds ==> fd in all {
      forall i | 0 <= i < |fds| ensures fds[i] in all {
        assert fds[i] in fds;
      }
    }
  }

  /** Select can fail on a bad descriptor exactly when the snapshot has one that is closed. */
  lemma FailsOnClosed(s: State, snapshot: Snapshot)
    requires s.thread == Got(snapshot)
    ensures Step(s, SelectBadDescriptor) ==
      if exists fd :: fd in s.bad && (fd in snapshot.readers || fd in snapshot.writers)
      then Some(s.(thread := Retry(snapshot))) else None
  {
    if fd :| fd in s.bad && (fd in snapshot.readers || fd in snapshot.writers) {
      assert fd in snapshot.All() * s.bad;
    }
    var both := snapshot.All() * s.bad;
    if forall fd :: !(fd in s.bad && (fd in snapshot.readers || fd in snapshot.writers)) {
      forall fd ensures fd !in both {
        assert !(fd in s.bad && (fd in snapshot.readers || fd in snapshot.writers));
      }
      assert both == {};
    }
  }

  /** With the condition variable the thread leaves if it is to close, else takes the
      snapshot that is there, else waits; and waiting it only comes back to look again. */
  lemma ThreadTakesOrWaits(s: State)
    ensures s.thread == Top ==> Step(s, TakeArgs) == Some(
      if s.closing then s.(thread := Returned)
      else match s.selectArgs
        case None => s.(thread := Waiting)
        case Some(snapshot) => s.(thread := Got(snapshot), selectArgs := None))
    ensures s.thread == Waiting ==> Step(s, SpuriousWakeUp) == Some(s.(thread := Top)) && Step(s, TakeArgs).None?
  {}

  /** After a registration the waker gets one byte more, or none when it is full or once
      the selector is closed; in any case the loop goes on in user code. */
  lemma WakeGoesOn(s: State, c: Context, full: bool)
    requires Reachable(s) && s.loop == Wake(c)
    ensures s.closed ==> Step(s, SendWake(full)) == Some(s.(loop := User(c)))
    ensures !s.closed && !full ==> Step(s, SendWake(full)) == Some(s.(loop := User(c), bytes := s.bytes + 1))
    ensures !s.closed && full ==> Step(s, SendWake(full)) == if s.bytes > 0 then Some(s.(loop := User(c))) else None
  {
    ReachableInv(s);
  }

  /** User code comes back to where it was called from; an exception in it ends the
      handling of events, if it was called by that, and gives up the turn. */
  lemma UserCodeEnds(s: State, c: Context)
    requires s.loop == User(c)
    ensures Step(s, EndCallback) == Some(s.(loop := if c.Handling? then Dispatch(c.rest) else Idle))
    ensures Step(s, CallbackRaises) == Some(
      if c.Handling? then s.(loop := Idle, lost := s.lost + 1) else s.(loop := Idle))
  {}

  /** What user code may do with descriptors: register open ones of its own, and close
      those that are registered nowhere. */
  lemma UserMay(s: State, c: Context, fd: Fd)
    requires s.loop == User(c)
    ensures Step(s, AddReader(fd)).Some? <==> fd >= 0 && fd !in s.bad
    ensures Step(s, AddWriter(fd)).Some? <==> fd >= 0 && fd !in s.bad
    ensures Step(s, RemoveReader(fd)).Some? <==> fd >= 0
    ensures Step(s, RemoveWriter(fd)).Some? <==> fd >= 0
    ensures Step(s, CloseDescriptor(fd)) ==
      if fd >= 0 && fd !in s.readers && fd !in s.writers then Some(s.(bad := s.bad + {fd})) else None
    ensures Step(s, OpenDescriptor(fd)) == if fd >= 0 then Some(s.(bad := s.bad - {fd})) else None
  {}
}
