/** `close` comes to its end, on every interleaving. */
module SelectorClosing {
  import opened Arrays
  import opened Selector
  import opened SelectorInvariant
  import opened SelectorProofs

  /** The steps of `close` still to be made. */
  function CloseMoves(l: Loop): nat {
    match l
    case CloseWake(_) => 6
    case CloseJoin(_) => 5
    case CloseRemove(_) => 4
    case CloseRemoveWake(_) => 3
    case CloseSockets(_) => 2
    case CloseDone(_) => 1
    case _ => 0
  }

  lemma LoopCloses(s: State, a: Action)
    requires CloseInv(s) && InClose(s.loop) && !ByThread(a) && Step(s, a).Some?
    ensures var t := Step(s, a).value;
      && t.thread == s.thread && CloseMoves(t.loop) < CloseMoves(s.loop)
      && if s.loop.CloseDone? then t.loop == User(s.loop.c) && t.closed else InClose(t.loop) && t.loop.c == s.loop.c
  {}

  lemma ThreadWhileClosing(s: State, a: Action)
    requires CloseInv(s) && InClose(s.loop) && ByThread(a) && Step(s, a).Some?
    ensures var t := Step(s, a).value; t.loop == s.loop && Left(t.thread) < Left(s.thread)
  {
    ThreadLeaves(s, a);
  }

  /** A next step of `close`, or of the thread where that has to leave first. */
  function NextClosing(s: State): Action
    requires InClose(s.loop)
  {
    match s.loop
    case CloseWake(_) => SendWake(false)
    case CloseJoin(_) => if Gone(s.thread) then Join else Leave(s)
    case CloseRemove(_) => RemoveWaker
    case CloseRemoveWake(_) => SendWake(false)
    case CloseSockets(_) => ShutSockets
    case _ => MarkClosed
  }

  lemma ClosingIsNotStuck(s: State)
    requires Inv(s) && InClose(s.loop)
    ensures Step(s, NextClosing(s)).Some?
  {
    if s.loop.CloseJoin? && !Gone(s.thread) {
      LeaveWorks(s);
    }
  }

  /** Every step of either thread while `close` runs. */
  predicate Closing(s: State, actions: seq<Action>)
    decreases |actions|
  {
    actions == [] || (InClose(s.loop) && Step(s, actions[0]).Some? && Closing(Step(s, actions[0]).value, actions[1..]))
  }

  lemma {:induction false} ClosingRun(s: State, actions: seq<Action>, t: State)
    requires Inv(s) && InClose(s.loop) && Runs(s, actions, t) && Closing(s, actions)
    ensures |actions| + CloseMoves(t.loop) + Left(t.thread) <= CloseMoves(s.loop) + Left(s.thread)
    ensures if InClose(t.loop) then t.loop.c == s.loop.c else t.loop == User(s.loop.c) && t.closed
    decreases |actions|
  {
    if actions != [] {
      var a, next := actions[0], Step(s, actions[0]).value;
      StepKeeps(s, a);
      if ByThread(a) {
        ThreadWhileClosing(s, a);
        ClosingRun(next, actions[1..], t);
      } else {
        LoopCloses(s, a);
        if InClose(next.loop) {
          ClosingRun(next, actions[1..], t);
        } else {
          assert actions[1..] == [] && t == next;
        }
      }
    }
  }

  /** On every interleaving of the two threads a call of `close` makes progress: while it
      runs they make at most ten steps together, one of them can always make one, and
      when it is over it returns to the user code that called it, with the sockets
      closed, the waker registered nowhere and the thread gone or on its way out. */
  lemma CloseCompletes(s: State, actions: seq<Action>, t: State)
    requires Reachable(s) && InClose(s.loop) && Runs(s, actions, t) && Closing(s, actions)
    ensures |actions| <= 10
    ensures if InClose(t.loop) then exists a :: Step(t, a).Some?
      else
        && t.loop == User(s.loop.c) && t.closed && !t.wakerOpen
        && WAKER !in t.readers && (Gone(t.thread) || t.thread == Top)
  {
    ReachableInv(s);
    ClosingRun(s, actions, t);
    RunKeeps(s, actions, t);
    if InClose(t.loop) {
      ClosingIsNotStuck(t);
    }
  }

  /** Calling it begins it, unless it is over already, and wakes a waiting thread. */
  lemma CallBegins(s: State, c: Context)
    requires s.loop == User(c)
    ensures Step(s, CallClose) == Some(
      if s.closed then s
      else s.(closing := true, thread := if s.thread == Waiting then Top else s.thread, loop := CloseWake(c)))
  {}
}
