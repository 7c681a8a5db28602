/** The client's WebSocket as far as its decisions depend on it: the
    socket's state (the seven values of `WebSocketState`), whether it has
    been disposed, and `CloseWebSocket`, the shutdown step that chooses
    what to do by that state. */
module Session {
  import opened Wrappers

  /** `WebSocketState`; `Created` is the state named `None` there, that of
      a socket that was constructed and never connected. */
  datatype SocketState = Created | Connecting | Open | CloseSent | CloseReceived | Closed | Aborted

  /** A socket object: its state and whether `Dispose` was called. */
  class Socket {
    var state: SocketState
    var disposed: bool

    constructor ()
      ensures state == Created && !disposed
    {
      state := Created;
      disposed := false;
    }
  }

  /** The state of a possibly null socket reference. */
  function StateOf(socket: Socket?): Option<SocketState>
    reads socket
  {
    if socket == null then None else Some(socket.state)
  }

  /** What `CloseWebSocket` does. */
  datatype CloseAction =
    | CloseOutputThenWait   // send the close frame, then a three-second grace delay
    | WaitOnly              // the grace delay alone
    | ReportConnectionLost  // the error line "Connection lost."
    | NoAction

  function CloseDecision(s: Option<SocketState>): CloseAction
  {
    match s
    case None => NoAction
    case Some(Open) => CloseOutputThenWait
    case Some(CloseReceived) => CloseOutputThenWait
    case Some(Closed) => WaitOnly
    case Some(Aborted) => ReportConnectionLost
    case Some(_) => NoAction
  }

  /** The state once the client's close frame is out: an open socket waits
      for the peer's reply, one whose peer already closed is closed. */
  function AfterCloseOutput(st: SocketState): SocketState
  {
    if st == Open then CloseSent else if st == CloseReceived then Closed else st
  }

  /** The state after one `CloseWebSocket`. */
  function AfterClose(s: Option<SocketState>): Option<SocketState>
  {
    if CloseDecision(s) == CloseOutputThenWait then Some(AfterCloseOutput(s.value)) else s
  }

  /** `CloseWebSocket(socket)`. */
  method CloseWebSocket(socket: Socket?) returns (action: CloseAction)
    modifies socket
    ensures action == CloseDecision(old(StateOf(socket)))
    ensures StateOf(socket) == AfterClose(old(StateOf(socket)))
    ensures socket != null ==> socket.disposed == old(socket.disposed)
  {
    if socket == null {
      return NoAction;
    }
    if socket.state == Open || socket.state == CloseReceived {
      socket.state := AfterCloseOutput(socket.state);
      action := CloseOutputThenWait;
    } else if socket.state == Closed {
      action := WaitOnly;
    } else if socket.state == Aborted {
      action := ReportConnectionLost;
    } else {
      action := NoAction;
    }
  }

  // ---------------------------------------------------------------------
  // Properties of the close step
  // ---------------------------------------------------------------------

  /** A close frame is sent exactly when the socket exists and is Open or
      CloseReceived; a null socket, and every state other than those four,
      cause nothing. */
  lemma CloseOutputOnlyWhenOpen(s: Option<SocketState>)
    ensures CloseDecision(s) == CloseOutputThenWait <==> s == Some(Open) || s == Some(CloseReceived)
    ensures CloseDecision(s) == NoAction <==>
              s == None || s == Some(Created) || s == Some(Connecting) || s == Some(CloseSent)
  {
  }

  /** The actions of `n` successive calls starting from state `s`. */
  function CloseRepeatedly(s: Option<SocketState>, n: nat): (r: seq<CloseAction>)
    ensures |r| == n
    decreases n
  {
    if n == 0 then [] else [CloseDecision(s)] + CloseRepeatedly(AfterClose(s), n - 1)
  }

  function CountCloseFrames(actions: seq<CloseAction>): nat
  {
    if actions == [] then 0
    else (if actions[0] == CloseOutputThenWait then 1 else 0) + CountCloseFrames(actions[1..])
  }

  /** Once one call has run, no later call sends a close frame. */
  lemma {:induction false} NoCloseFrameAfterClose(s: Option<SocketState>, n: nat)
    ensures CountCloseFrames(CloseRepeatedly(AfterClose(s), n)) == 0
  {
    if n > 0 {
      assert AfterClose(AfterClose(s)) == AfterClose(s);
      NoCloseFrameAfterClose(s, n - 1);
      assert CloseRepeatedly(AfterClose(s), n)[1..] == CloseRepeatedly(AfterClose(s), n - 1);
    }
  }

  /** However often it is called, the shutdown step sends at most one close
      frame, and on an already closed socket none at all, every call only
      waiting. */
  lemma RepeatedCloseSendsAtMostOnce(s: Option<SocketState>, n: nat)
    ensures CountCloseFrames(CloseRepeatedly(s, n)) <= 1
    ensures s == Some(Closed) ==>
              CountCloseFrames(CloseRepeatedly(s, n)) == 0 &&
              forall k :: 0 <= k < n ==> CloseRepeatedly(s, n)[k] == WaitOnly
  {
    if n > 0 {
      NoCloseFrameAfterClose(s, n - 1);
      assert CloseRepeatedly(s, n)[1..] == CloseRepeatedly(AfterClose(s), n - 1);
    }
    if s == Some(Closed) {
      ClosedStaysClosed(n);
    }
  }

  lemma {:induction false} ClosedStaysClosed(n: nat)
    ensures forall k :: 0 <= k < n ==> CloseRepeatedly(Some(Closed), n)[k] == WaitOnly
  {
    if n > 0 {
      ClosedStaysClosed(n - 1);
      assert AfterClose(Some(Closed)) == Some(Closed);
    }
  }
}
