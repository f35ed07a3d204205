/** `SelectorThread` as a transition system: the event loop and the select thread
    step in any order.  A step that happens under the condition variable is one
    action, and so is everything between two points where the other thread can be
    told apart. */
module Selector {
  import opened Arrays

  type Fd = int

  /** The socket that wakes the select thread, as it is registered. */
  const WAKER: Fd := -1

  /** The number of the same socket: what is polled after a bad descriptor, but
      registered nowhere. */
  const WAKER_NUMBER: Fd := -2

  /** A descriptor of user code. */
  predicate Own(fd: Fd) { fd >= 0 }

  /** The registered descriptors as they were at some moment; `stamp` counts the
      registration changes made until then. */
  datatype Snapshot = Snapshot(readers: set<Fd>, writers: set<Fd>, stamp: nat) {
    function All(): set<Fd> { readers + writers }
  }

  /** What the select calls returned. */
  datatype Ready = Ready(rs: seq<Fd>, ws: seq<Fd>)

  /** The select thread. */
  datatype Thread =
    | NotStarted
    | Top                         // about to take the condition variable
    | Waiting                     // in wait()
    | Got(snapshot: Snapshot)     // in select(to_read, to_write, to_write)
    | Retry(snapshot: Snapshot)   // select raised "bad descriptor"; about to poll the waker
    | Chosen(ready: Ready)        // about to post _handle_select to the loop
    | Returned
    | Dead(badFd: bool)           // an exception left _run_select

  /** On whose behalf the loop runs user code: an ordinary callback, or one called by
      `_handle_select`, with the events it has yet to handle. */
  datatype Context = Ordinary | Handling(rest: Ready)

  /** The event loop's thread. */
  datatype Loop =
    | Idle
    | User(c: Context)            // in user code
    | Dispatch(rest: Ready)       // in _handle_select, between two events
    | StartSelect                 // about to run _start_select
    | Wake(c: Context)            // registration changed, about to wake the selector
    | CloseWake(c: Context)       // close: flag set, about to wake
    | CloseJoin(c: Context)       // close: about to join the thread
    | CloseRemove(c: Context)     // close: about to remove the waker's reader
    | CloseRemoveWake(c: Context) // close: reader removed, about to wake once more
    | CloseSockets(c: Context)    // close: about to close the two sockets
    | CloseDone(c: Context)       // close: about to set _closed
    | AssertionFailed
    | SentOnClosedSocket

  /** A callback of user code that was called for a ready descriptor. */
  datatype Call = ReaderCall(fd: Fd) | WriterCall(fd: Fd)

  datatype State = State(
    selectArgs: Option<Snapshot>, closing: bool, closed: bool,
    readers: set<Fd>, writers: set<Fd>, changes: nat,
    bytes: nat, wakerOpen: bool,
    bootPending: bool, posted: seq<Ready>, bad: set<Fd>,
    thread: Thread, loop: Loop,
    lost: nat, calls: seq<Call>)
  // `changes` counts registration changes; `bytes` are those in the waker socket;
  // `bootPending` until the loop has started the thread; `bad` are the descriptors
  // that user code has closed; `lost` counts handshakes given up by design; `calls`
  // records the callbacks that `_handle_select` has called.

  /** A fresh object on a loop that has not run yet.  Adding the waker's reader has
      already sent one byte. */
  predicate Init(s: State) {
    && s.selectArgs == None && !s.closing && !s.closed
    && s.readers == {WAKER} && s.writers == {} && s.changes == 1
    && s.bytes == 1 && s.wakerOpen && s.bootPending && s.posted == [] && (forall fd :: fd in s.bad ==> Own(fd))
    && s.thread == NotStarted && s.loop == Idle && s.lost == 0 && s.calls == []
  }

  datatype Action =
    // loop thread
    | RunCallback
    | EndCallback
    | CallbackRaises
    | Boot
    | RunPosted
    | HandleNext
    | BeginSelect
    | AddReader(fd: Fd)
    | AddWriter(fd: Fd)
    | RemoveReader(fd: Fd)
    | RemoveWriter(fd: Fd)
    | SendWake(full: bool)
    | CloseDescriptor(fd: Fd)
    | OpenDescriptor(fd: Fd)
    | CallClose
    | Join
    | RemoveWaker
    | ShutSockets
    | MarkClosed
    // select thread
    | TakeArgs
    | SpuriousWakeUp
    | SelectReturns(ready: Ready)
    | SelectBadDescriptor
    | PollWaker
    | SelectRaises
    | Post(accepted: bool)

  predicate ByThread(a: Action) {
    || a.TakeArgs? || a.SpuriousWakeUp? || a.SelectReturns? || a.SelectBadDescriptor?
    || a.PollWaker? || a.SelectRaises? || a.Post?
  }

  function Notify(t: Thread): Thread {
    if t == Waiting then Top else t
  }

  /** `_waker_w.send(b"a")`: one byte more, or none when the buffer is full (which it
      can only be when it is not empty). */
  function Sent(s: State, full: bool, next: Loop): Option<State> {
    if !s.wakerOpen then Some(s.(loop := SentOnClosedSocket))
    else if full then if s.bytes > 0 then Some(s.(loop := next)) else None
    else Some(s.(bytes := s.bytes + 1, loop := next))
  }

  /** `_consume_waker`: up to 1024 bytes. */
  function Consumed(bytes: nat): nat {
    if bytes <= 1024 then 0 else bytes - 1024
  }

  /** Back from a callback. */
  function Resume(c: Context): Loop {
    match c
    case Ordinary => Idle
    case Handling(rest) => Dispatch(rest)
  }

  /** One turn of the loops in `_handle_select`: look the descriptor up, call its
      callback if there is one; `_start_select` once all events are handled. */
  function HandleEvent(s: State, rest: Ready): State {
    if rest.rs != [] then
      var r, rest' := rest.rs[0], rest.(rs := rest.rs[1..]);
      if r !in s.readers then s.(loop := Dispatch(rest'))
      else if r == WAKER then s.(bytes := Consumed(s.bytes), loop := Dispatch(rest'))
      else s.(loop := User(Handling(rest')), calls := s.calls + [ReaderCall(r)])
    else if rest.ws != [] then
      var w, rest' := rest.ws[0], rest.(ws := rest.ws[1..]);
      if w !in s.writers then s.(loop := Dispatch(rest'))
      else s.(loop := User(Handling(rest')), calls := s.calls + [WriterCall(w)])
    else s.(loop := StartSelect)
  }

  /** What user code may do: change registrations, open and close descriptors of its
      own, close the selector.  A descriptor is closed only once it is registered
      nowhere, and registered only while open. */
  function UserStep(s: State, c: Context, a: Action): Option<State> {
    match a
    case EndCallback => Some(s.(loop := Resume(c)))
    case CallbackRaises =>
      if c.Ordinary? then Some(s.(loop := Idle)) else Some(s.(loop := Idle, lost := s.lost + 1))
    case AddReader(fd) =>
      if !Own(fd) || fd in s.bad then None
      else Some(s.(readers := s.readers + {fd}, changes := s.changes + 1, loop := Wake(c)))
    case AddWriter(fd) =>
      if !Own(fd) || fd in s.bad then None
      else Some(s.(writers := s.writers + {fd}, changes := s.changes + 1, loop := Wake(c)))
    case RemoveReader(fd) =>
      if !Own(fd) then None
      else if fd !in s.readers then Some(s)
      else Some(s.(readers := s.readers - {fd}, changes := s.changes + 1, loop := Wake(c)))
    case RemoveWriter(fd) =>
      if !Own(fd) then None
      else if fd !in s.writers then Some(s)
      else Some(s.(writers := s.writers - {fd}, changes := s.changes + 1, loop := Wake(c)))
    case CloseDescriptor(fd) =>
      if !Own(fd) || fd in s.readers || fd in s.writers then None else Some(s.(bad := s.bad + {fd}))
    case OpenDescriptor(fd) => if !Own(fd) then None else Some(s.(bad := s.bad - {fd}))
    case CallClose =>
      if s.closed then Some(s)
      else Some(s.(closing := true, thread := Notify(s.thread), loop := CloseWake(c)))
    case _ => None
  }

  /** One step of the loop's thread; None when the action is not enabled. */
  function LoopStep(s: State, a: Action): Option<State> {
    match s.loop
    case Idle =>
      (match a
       case RunCallback => Some(s.(loop := User(Ordinary)))
       case Boot =>
         if s.bootPending then Some(s.(bootPending := false, thread := Top, loop := StartSelect)) else None
       case RunPosted =>
         if s.posted == [] then None else Some(s.(posted := s.posted[1..], loop := Dispatch(s.posted[0])))
       case _ => None)
    case User(c) => UserStep(s, c, a)
    case Dispatch(rest) => if a.HandleNext? then Some(HandleEvent(s, rest)) else None
    case StartSelect =>
      if !a.BeginSelect? then None
      else if s.selectArgs.Some? then Some(s.(loop := AssertionFailed))
      else Some(
        s.(selectArgs := Some(Snapshot(s.readers, s.writers, s.changes)), thread := Notify(s.thread), loop := Idle))
    case Wake(c) =>
      if !a.SendWake? then None
      else if s.closed then Some(s.(loop := User(c)))
      else Sent(s, a.full, User(c))
    case CloseWake(c) => if a.SendWake? then Sent(s, a.full, CloseJoin(c)) else None
    case CloseJoin(c) =>
      // without a thread there is nothing to join; otherwise wait for its end
      if a.Join? && (s.thread.NotStarted? || s.thread.Returned? || s.thread.Dead?)
      then Some(s.(loop := CloseRemove(c))) else None
    case CloseRemove(c) =>
      if !a.RemoveWaker? then None
      else if WAKER in s.readers then
        Some(s.(readers := s.readers - {WAKER}, changes := s.changes + 1, loop := CloseRemoveWake(c)))
      else Some(s.(loop := CloseSockets(c)))
    case CloseRemoveWake(c) => if a.SendWake? then Sent(s, a.full, CloseSockets(c)) else None
    case CloseSockets(c) => if a.ShutSockets? then Some(s.(wakerOpen := false, loop := CloseDone(c))) else None
    case CloseDone(c) => if a.MarkClosed? then Some(s.(closed := true, loop := User(c))) else None
    case AssertionFailed => None
    case SentOnClosedSocket => None
  }

  /** select() may return these: registered descriptors, at least one, and the waker
      exactly when it has bytes. */
  predicate Selectable(snapshot: Snapshot, bytes: nat, ready: Ready) {
    && (ready.rs != [] || ready.ws != [])
    && (forall i :: 0 <= i < |ready.rs| ==> ready.rs[i] in snapshot.readers)
    && (forall i :: 0 <= i < |ready.ws| ==> ready.ws[i] in snapshot.writers)
    && (WAKER in ready.rs <==> WAKER in snapshot.readers && bytes > 0)
  }

  /** One step of the select thread; None when the action is not enabled. */
  function ThreadStep(s: State, a: Action): Option<State> {
    match s.thread
    case Top =>
      if !a.TakeArgs? then None
      else if s.closing then Some(s.(thread := Returned))
      else if s.selectArgs.None? then Some(s.(thread := Waiting))
      else Some(s.(thread := Got(s.selectArgs.value), selectArgs := None))
    case Waiting => if a.SpuriousWakeUp? then Some(s.(thread := Top)) else None
    case Got(snapshot) =>
      if a.SelectReturns? && Selectable(snapshot, s.bytes, a.ready) then Some(s.(thread := Chosen(a.ready)))
      else if a.SelectBadDescriptor? && snapshot.All() * s.bad != {} then Some(s.(thread := Retry(snapshot)))
      else if a.SelectRaises? then Some(s.(thread := Dead(false), lost := s.lost + 1))
      else None
    case Retry(_) =>
      if !a.PollWaker? then None
      else if s.bytes > 0 then Some(s.(thread := Chosen(Ready([WAKER_NUMBER], []))))
      else Some(s.(thread := Dead(true), lost := s.lost + 1))
    case Chosen(ready) =>
      if !a.Post? then None
      else if a.accepted then Some(s.(thread := Top, posted := s.posted + [ready]))
      else Some(s.(thread := Top, lost := s.lost + 1))
    case _ => None
  }

  function Step(s: State, a: Action): Option<State> {
    if ByThread(a) then ThreadStep(s, a) else LoopStep(s, a)
  }

  /** A run from `s` to `t`. */
  ghost predicate Runs(s: State, actions: seq<Action>, t: State)
    decreases |actions|
  {
    if actions == [] then s == t
    else Step(s, actions[0]).Some? && Runs(Step(s, actions[0]).value, actions[1..], t)
  }

  ghost predicate Reachable(s: State) {
    exists i: State, actions: seq<Action> :: Init(i) && Runs(i, actions, s)
  }
}
