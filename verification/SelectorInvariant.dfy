/** What every step of the two threads keeps. */
module SelectorInvariant {
  import opened Arrays
  import opened Selector

  // ----- the token: whose turn it is to select -----

  function One(b: bool): nat { if b then 1 else 0 }

  predicate InClose(l: Loop) {
    l.CloseWake? || l.CloseJoin? || l.CloseRemove? || l.CloseRemoveWake? || l.CloseSockets? || l.CloseDone?
  }

  /** The loop is inside `_handle_select`, or about to start selecting. */
  predicate LoopHolds(l: Loop) {
    l.Dispatch? || l.StartSelect? || ((l.User? || l.Wake? || InClose(l)) && l.c.Handling?)
  }

  predicate ThreadHolds(t: Thread) {
    t.Got? || t.Retry? || t.Chosen?
  }

  /** All the places where the turn to select may be. */
  function Tokens(s: State): nat {
    One(s.bootPending) + One(s.selectArgs.Some?) + One(ThreadHolds(s.thread)) + |s.posted| + One(LoopHolds(s.loop))
  }

  predicate Failed(l: Loop) { l == AssertionFailed || l == SentOnClosedSocket }

  /** The turn is in one place, until it is given up. */
  predicate TokenInv(s: State) {
    Tokens(s) + s.lost == 1
  }

  // ----- closing -----

  predicate AfterJoin(l: Loop) {
    l.CloseRemove? || l.CloseRemoveWake? || l.CloseSockets? || l.CloseDone?
  }

  predicate WakerRemoved(l: Loop) {
    l.CloseRemoveWake? || l.CloseSockets? || l.CloseDone?
  }

  /** The select thread is gone, or has not begun. */
  predicate Gone(t: Thread) {
    t.NotStarted? || t.Returned? || t.Dead?
  }

  predicate CloseInv(s: State) {
    && !Failed(s.loop)
    && (s.thread.NotStarted? <==> s.bootPending)
    && (s.thread == Waiting ==> s.selectArgs.None? && !s.closing)
    && (s.closing <==> InClose(s.loop) || s.closed)
    && (s.wakerOpen <==> !s.loop.CloseDone? && !s.closed)
    && (s.loop.CloseJoin? ==> s.bytes > 0)
    && (AfterJoin(s.loop) ==> Gone(s.thread))
    && (s.thread.Returned? ==> s.closing) && (s.thread.Dead? ==> s.lost > 0)
    && (s.closed ==> Gone(s.thread) || s.thread == Top)
    && (s.closed ==> !InClose(s.loop))
    && (WAKER in s.readers <==> !WakerRemoved(s.loop) && !s.closed)
    && WAKER !in s.bad && WAKER !in s.writers && WAKER_NUMBER !in s.readers
  }

  // ----- snapshots -----

  /** The snapshot that is waiting to be taken, or that the thread selects on. */
  predicate Held(s: State, snapshot: Snapshot) {
    || s.selectArgs == Some(snapshot)
    || s.thread == Got(snapshot)
    || s.thread == Retry(snapshot)
  }

  /** The registration changes whose wake-up has been sent. */
  function Announced(s: State): int {
    s.changes - One(s.loop.Wake? || s.loop.CloseRemoveWake?)
  }

  /** A held snapshot is current, or a wake-up is in the socket, or one is about to be
      sent; and it has a closed descriptor only when a wake-up is in the socket. */
  predicate SnapshotOk(s: State, snapshot: Snapshot) {
    && snapshot.stamp <= s.changes
    && (snapshot.stamp == s.changes ==> snapshot.readers == s.readers && snapshot.writers == s.writers)
    && (s.wakerOpen ==> WAKER in snapshot.readers)
    && (s.wakerOpen && snapshot.stamp < Announced(s) ==> s.bytes > 0)
    && (s.wakerOpen && snapshot.All() * s.bad != {} ==> s.bytes > 0)
    && (s.wakerOpen && s.thread == Retry(snapshot) ==> s.bytes > 0)
  }

  predicate SnapshotInv(s: State) {
    && (s.selectArgs.Some? ==> SnapshotOk(s, s.selectArgs.value))
    && (s.thread.Got? || s.thread.Retry? ==> SnapshotOk(s, s.thread.snapshot))
    && (s.readers + s.writers) * s.bad == {}
    && s.thread != Dead(true)
  }

  predicate Inv(s: State) {
    TokenInv(s) && CloseInv(s) && SnapshotInv(s)
  }

  lemma InitInv(s: State)
    requires Init(s)
    ensures Inv(s)
  {}

  lemma TokenKeptByThread(s: State, a: Action)
    requires TokenInv(s) && ByThread(a) && Step(s, a).Some?
    ensures TokenInv(Step(s, a).value)
  {
    if s.thread.Top? {
      assert Step(s, a).value.loop == s.loop;
    }
  }

  lemma TokenKeptByUser(s: State, a: Action)
    requires TokenInv(s) && s.loop.User? && !ByThread(a) && Step(s, a).Some?
    requires s.thread == Waiting ==> s.selectArgs.None?
    ensures TokenInv(Step(s, a).value)
  {}

  lemma TokenKeptByHandle(s: State, rest: Ready)
    requires TokenInv(s) && s.loop == Dispatch(rest)
    ensures TokenInv(HandleEvent(s, rest))
  {}

  /** Closing neither takes the turn nor passes it on. */
  lemma CloseKeepsTurn(s: State, a: Action)
    requires InClose(s.loop) && s.wakerOpen == !s.loop.CloseDone? && !ByThread(a) && Step(s, a).Some?
    ensures var t := Step(s, a).value;
      && t.thread == s.thread && t.bootPending == s.bootPending && t.selectArgs == s.selectArgs
      && t.posted == s.posted && t.lost == s.lost && LoopHolds(t.loop) == LoopHolds(s.loop)
  {}

  lemma TokenKeptByClose(s: State, a: Action)
    requires TokenInv(s) && InClose(s.loop) && s.wakerOpen == !s.loop.CloseDone? && !ByThread(a) && Step(s, a).Some?
    ensures TokenInv(Step(s, a).value)
  {
    CloseKeepsTurn(s, a);
  }

  lemma TokenKeptByLoop(s: State, a: Action)
    requires TokenInv(s) && CloseInv(s) && !s.loop.User? && !s.loop.Dispatch? && !InClose(s.loop) && !ByThread(a)
      && Step(s, a).Some?
    ensures TokenInv(Step(s, a).value)
  {}

  lemma TokenKept(s: State, a: Action)
    requires TokenInv(s) && CloseInv(s) && Step(s, a).Some?
    ensures TokenInv(Step(s, a).value)
  {
    if ByThread(a) {
      TokenKeptByThread(s, a);
    } else if s.loop.User? {
      TokenKeptByUser(s, a);
    } else if s.loop.Dispatch? {
      TokenKeptByHandle(s, s.loop.rest);
    } else if InClose(s.loop) {
      TokenKeptByClose(s, a);
    } else {
      TokenKeptByLoop(s, a);
    }
  }

  /** Once the turn is with the loop, nobody else holds a snapshot. */
  lemma LoopAlone(s: State)
    requires TokenInv(s) && LoopHolds(s.loop)
    ensures s.selectArgs.None? && !ThreadHolds(s.thread) && s.posted == [] && !s.bootPending && s.lost == 0
  {}

  lemma CloseKeptByThread(s: State, a: Action)
    requires Inv(s) && ByThread(a) && Step(s, a).Some?
    ensures CloseInv(Step(s, a).value)
  {}

  lemma CloseKeptByUser(s: State, a: Action)
    requires Inv(s) && s.loop.User? && !ByThread(a) && Step(s, a).Some?
    ensures CloseInv(Step(s, a).value)
  {}

  lemma CloseKeptByClose(s: State, a: Action)
    requires Inv(s) && InClose(s.loop) && !ByThread(a) && Step(s, a).Some?
    ensures CloseInv(Step(s, a).value)
  {}

  lemma CloseKeptByLoop(s: State, a: Action)
    requires Inv(s) && !s.loop.User? && !InClose(s.loop) && !ByThread(a) && Step(s, a).Some?
    ensures CloseInv(Step(s, a).value)
  {
    if LoopHolds(s.loop) {
      LoopAlone(s);
    }
  }

  lemma SnapshotKeptByThread(s: State, a: Action)
    requires Inv(s) && ByThread(a) && Step(s, a).Some?
    ensures SnapshotInv(Step(s, a).value)
  {}

  lemma SnapshotKeptByUser(s: State, a: Action)
    requires Inv(s) && s.loop.User? && !ByThread(a) && Step(s, a).Some?
    ensures SnapshotInv(Step(s, a).value)
  {}

  lemma SnapshotKeptByClose(s: State, a: Action)
    requires Inv(s) && InClose(s.loop) && !ByThread(a) && Step(s, a).Some?
    ensures SnapshotInv(Step(s, a).value)
  {}

  lemma SnapshotKeptByLoop(s: State, a: Action)
    requires Inv(s) && !s.loop.User? && !InClose(s.loop) && !ByThread(a) && Step(s, a).Some?
    ensures SnapshotInv(Step(s, a).value)
  {
    if LoopHolds(s.loop) {
      LoopAlone(s);
    }
  }

  /** Every action of either thread keeps the invariant. */
  lemma StepKeeps(s: State, a: Action)
    requires Inv(s) && Step(s, a).Some?
    ensures Inv(Step(s, a).value)
  {
    TokenKept(s, a);
    if ByThread(a) {
      CloseKeptByThread(s, a);
      SnapshotKeptByThread(s, a);
    } else if s.loop.User? {
      CloseKeptByUser(s, a);
      SnapshotKeptByUser(s, a);
    } else if InClose(s.loop) {
      CloseKeptByClose(s, a);
      SnapshotKeptByClose(s, a);
    } else {
      CloseKeptByLoop(s, a);
      SnapshotKeptByLoop(s, a);
    }
  }
}
