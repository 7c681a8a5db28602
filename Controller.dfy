/** The connection controller: the static state `username`, `reconnect`
    and `ws`, the username prompt, the `while (reconnect)` loop around
    `TryConnection`, and the reconnect prompt.  The console is a queue of
    lines (an exhausted queue reads as null, as at end of input); what the
    user sees is a log of events.  Whether the connection succeeds, which
    pump ends first and the socket's state afterwards are inputs. */
module Controller {
  import opened Wrappers
  import opened Text
  import Inbound
  import Outbound
  import opened Session

  const EmptyNameError := "Username cannot be empty. Please try again."
  const ConnectFailedError := "\nFailed to connect, Please try again."
  const UnexpectedErrorPrefix := "\nAn unexpected error occurred: "
  const ConnectionLostError := "\nConnection lost."

  /** The pump whose task completes first in the race. */
  datatype Pump = InboundPump | OutboundPump

  /** The duplex phase of a connection: the winner of the race, what the
      inbound pump's receive calls return and the console reads the
      outbound pump sees. */
  datatype Duplex = Duplex(winner: Pump, receipts: Inbound.Receipts, input: seq<Outbound.Read>)

  /** How `ConnectAsync` ends: success, a `WebSocketException`, or any
      other exception with its message. */
  datatype ConnectResult = Connected(duplex: Duplex) | SocketFailure | OtherFailure(message: string)

  /** One run of `TryConnection`: how the connection went and the state of
      the new socket when the method looks at it at the end. */
  datatype Attempt = Attempt(connect: ConnectResult, stateAfter: SocketState)

  datatype Event =
    | UsernamePrompted
    | ErrorShown(text: string)
    | OldSocketClosed          // the previous socket closed with reason "Reconnect"
    | ConnectedShown
    | Displayed(rendered: Inbound.Rendered)
    | Outgoing(action: Outbound.Outgoing)
    | ReconnectPrompted

  /** The controller's state as a value. */
  datatype State = State(
    username: Option<string>,
    reconnect: bool,
    socket: Option<SocketState>,
    console: seq<Option<string>>,
    log: seq<Event>)

  // ---------------------------------------------------------------------
  // Console reads and .NET string tests
  // ---------------------------------------------------------------------

  function NextLine(console: seq<Option<string>>): Option<string>
  {
    if console == [] then None else console[0]
  }

  function RestLines(console: seq<Option<string>>): seq<Option<string>>
  {
    if console == [] then [] else console[1..]
  }

  predicate IsNullOrEmpty(s: Option<string>)
  {
    s.None? || s.value == ""
  }

  predicate IsNullOrWhiteSpace(s: Option<string>)
  {
    s.None? || AllWhiteSpace(s.value)
  }

  // ---------------------------------------------------------------------
  // The reconnect prompt
  // ---------------------------------------------------------------------

  /** `input == "y"` for `input = line?.Trim().ToLower()`. */
  predicate ReconnectAnswer(line: Option<string>)
  {
    line.Some? && ToLower(Trim(line.value)) == "y"
  }

  function PromptReconnect(st: State): State
  {
    st.(reconnect := ReconnectAnswer(NextLine(st.console)),
        console := RestLines(st.console),
        log := st.log + [ReconnectPrompted])
  }

  // ---------------------------------------------------------------------
  // The username prompt
  // ---------------------------------------------------------------------

  /** The username loop: it reads while the name is null or empty, and
      leaves as soon as a read line is not blank or, on the next pass, as
      soon as the name is not empty.  The second result is false when input
      runs out with no name, where the program would prompt forever. */
  function UsernameLoop(st: State): (State, bool)
    decreases |st.console|
  {
    if !IsNullOrEmpty(st.username) then (st, true)
    else
      var line := NextLine(st.console);
      var read := st.(username := line, console := RestLines(st.console),
                      log := st.log + [UsernamePrompted]);
      if !IsNullOrWhiteSpace(line) then (read, true)
      else
        var warned := read.(log := read.log + [ErrorShown(EmptyNameError)]);
        if st.console == [] then (warned, false) else UsernameLoop(warned)
  }

  // ---------------------------------------------------------------------
  // TryConnection
  // ---------------------------------------------------------------------

  function DisplayEvents(rs: seq<Inbound.Rendered>): seq<Event>
  {
    seq(|rs|, k requires 0 <= k < |rs| => Displayed(rs[k]))
  }

  function OutgoingEvents(os: seq<Outbound.Outgoing>): seq<Event>
  {
    seq(|os|, k requires 0 <= k < |os| => Outgoing(os[k]))
  }

  /** The steps before connecting: an open previous socket is closed, the
      previous socket is disposed and a new one takes its place. */
  function Replaced(st: State): State
  {
    st.(socket := Some(Created),
        log := if st.socket == Some(Open) then st.log + [OldSocketClosed] else st.log)
  }

  /** The duplex phase, run to the end of the pump that wins the race. */
  function RunDuplex(st: State, d: Duplex): State
  {
    match d.winner
    case InboundPump =>
      st.(log := st.log + DisplayEvents(Inbound.Shown(d.receipts, st.username.GetOr(""))))
    case OutboundPump =>
      var o := Outbound.Pump(d.input, st.reconnect);
      st.(reconnect := o.reconnectAfter, log := st.log + OutgoingEvents(o.out))
  }

  /** The state at the end of the `try`/`catch` of `TryConnection`. */
  function TryBlock(st: State, at: Attempt): State
  {
    match at.connect
    case Connected(d) =>
      RunDuplex(st.(log := st.log + [ConnectedShown]), d).(socket := Some(at.stateAfter))
    case SocketFailure =>
      PromptReconnect(st.(log := st.log + [ErrorShown(ConnectFailedError)], socket := Some(at.stateAfter)))
    case OtherFailure(m) =>
      st.(log := st.log + [ErrorShown(UnexpectedErrorPrefix + m)], socket := Some(at.stateAfter))
  }

  /** `TryConnection`. */
  function Try(st: State, at: Attempt): State
  {
    var caught := TryBlock(Replaced(st), at);
    if at.stateAfter == Aborted then PromptReconnect(caught.(log := caught.log + [ErrorShown(ConnectionLostError)]))
    else caught
  }

  /** The `while (reconnect)` loop over the attempts the environment
      offers; the count is the number of `TryConnection` calls. */
  function RunAttempts(st: State, attempts: seq<Attempt>): (State, nat)
    decreases |attempts|
  {
    if !st.reconnect || attempts == [] then (st, 0)
    else
      var (fin, n) := RunAttempts(Try(st, attempts[0]), attempts[1..]);
      (fin, n + 1)
  }

  /** One pass of the username loop on a state with no name. */
  lemma UsernameStep(st: State)
    requires IsNullOrEmpty(st.username)
    ensures var line := NextLine(st.console);
      var read := st.(username := line, console := RestLines(st.console),
                      log := st.log + [UsernamePrompted]);
      var warned := read.(log := read.log + [ErrorShown(EmptyNameError)]);
      UsernameLoop(st) == if !IsNullOrWhiteSpace(line) then (read, true)
                          else if st.console == [] then (warned, false)
                          else UsernameLoop(warned)
  {
  }

  /** One pass of the connect loop while `reconnect` is set. */
  lemma RunAttemptsStep(st: State, attempts: seq<Attempt>, i: nat)
    requires st.reconnect && i < |attempts|
    ensures var next := RunAttempts(Try(st, attempts[i]), attempts[i + 1..]);
      RunAttempts(st, attempts[i..]) == (next.0, next.1 + 1)
  {
    assert attempts[i..][1..] == attempts[i + 1..];
  }

  /** `PromptUserNameAndConnect`: the username loop, then the connect
      loop; the flag says whether a name was obtained. */
  function Connect(st: State, attempts: seq<Attempt>): (State, bool, nat)
  {
    var (named, ok) := UsernameLoop(st);
    if !ok then (named, false, 0)
    else
      var (fin, n) := RunAttempts(named, attempts);
      (fin, true, n)
  }

  // ---------------------------------------------------------------------
  // The client object
  // ---------------------------------------------------------------------

  class Client {
    var username: Option<string>
    var reconnect: bool
    var ws: Socket?
    var console: seq<Option<string>>
    var log: seq<Event>

    function Abstract(): State
      reads this, ws
    {
      State(username, reconnect, StateOf(ws), console, log)
    }

    /** The static fields' initial values: no name, `reconnect` set, no
        socket. */
    constructor (input: seq<Option<string>>)
      ensures Abstract() == State(None, true, None, input, [])
      ensures ws == null
    {
      username, reconnect, ws, console, log := None, true, null, input, [];
    }

    /** `Console.ReadLine()`. */
    method ReadLine() returns (line: Option<string>)
      modifies this`console
      ensures line == NextLine(old(console)) && console == RestLines(old(console))
    {
      if console == [] {
        line := None;
      } else {
        line, console := console[0], console[1..];
      }
    }

    /** `PromptTryReconnecting`. */
    method PromptTryReconnecting()
      modifies this`reconnect, this`console, this`log
      ensures Abstract() == PromptReconnect(old(Abstract()))
    {
      log := log + [ReconnectPrompted];
      var input := ReadLine();
      reconnect := input.Some? && ToLower(Trim(input.value)) == "y";
    }

    /** The first steps of `TryConnection`: an open previous socket is
        closed with reason "Reconnect", the previous socket is disposed and
        a fresh one takes its place. */
    method ReplaceSocket()
      modifies this`ws, this`log, ws
      ensures Abstract() == Replaced(old(Abstract()))
      ensures fresh(ws) && !ws.disposed
      ensures old(ws) != null ==> old(ws).disposed
      ensures old(ws) != null ==> old(ws).state == (if old(ws.state) == Open then Closed else old(ws.state))
    {
      if ws != null && ws.state == Open {
        ws.state := Closed;
        log := log + [OldSocketClosed];
      }
      if ws != null {
        ws.disposed := true;
      }
      ws := new Socket();
    }

    /** The duplex phase: the pump that wins the race runs to its end. */
    method RunPumps(d: Duplex)
      modifies this`reconnect, this`log
      ensures Abstract() == RunDuplex(old(Abstract()), d)
    {
      if d.winner == InboundPump {
        var shown, _ := Inbound.ReceiveLoop(d.receipts, username.GetOr(""));
        assert shown == Inbound.Shown(d.receipts, username.GetOr(""));
        log := log + DisplayEvents(shown);
      } else {
        var out, stillReconnecting, _, _ := Outbound.SendLoop(d.input, reconnect);
        reconnect := stillReconnecting;
        log := log + OutgoingEvents(out);
      }
    }

    /** The `try`/`catch` block of `TryConnection`: connect, then race the
        pumps; a `WebSocketException` disposes the socket and asks about
        reconnecting, and any other exception is only reported. */
    method ConnectOrReport(at: Attempt)
      requires ws != null && !ws.disposed
      modifies this`reconnect, this`console, this`log, ws
      ensures Abstract() == TryBlock(old(Abstract()), at)
      ensures ws.disposed <==> at.connect.SocketFailure?
    {
      match at.connect {
        case Connected(d) =>
          ws.state := Open;
          log := log + [ConnectedShown];
          RunPumps(d);
          ws.state := at.stateAfter;
        case SocketFailure =>
          log := log + [ErrorShown(ConnectFailedError)];
          ws.state := at.stateAfter;
          ws.disposed := true;
          PromptTryReconnecting();
        case OtherFailure(m) =>
          log := log + [ErrorShown(UnexpectedErrorPrefix + m)];
          ws.state := at.stateAfter;
      }
    }

    /** `TryConnection`: the previous socket is closed if open and always
        disposed, a fresh socket replaces it, and the reconnect prompt runs
        after a `WebSocketException` and again when the socket ends up
        aborted. */
    method TryConnection(at: Attempt)
      modifies this, ws
      ensures Abstract() == Try(old(Abstract()), at)
      ensures fresh(ws)
      ensures old(ws) != null ==> old(ws).disposed
      ensures ws.disposed <==> at.connect.SocketFailure?
    {
      ReplaceSocket();
      ConnectOrReport(at);
      ghost var caught := Abstract();
      assert caught == TryBlock(Replaced(old(Abstract())), at);
      if ws.state == Aborted {
        log := log + [ErrorShown(ConnectionLostError)];
        PromptTryReconnecting();
      }
    }

    /** The username loop of `PromptUserNameAndConnect`: it prompts while
        the name is null or empty.  `named` is false when input ran out
        before a name was given. */
    method PromptUserName() returns (named: bool)
      modifies this`username, this`console, this`log
      ensures (Abstract(), named) == UsernameLoop(old(Abstract()))
    {
      while IsNullOrEmpty(username)
        invariant UsernameLoop(Abstract()) == UsernameLoop(old(Abstract()))
        decreases |console|
      {
        ghost var pre := Abstract();
        UsernameStep(pre);
        log := log + [UsernamePrompted];
        var atEnd := console == [];
        var line := ReadLine();
        username := line;
        if !IsNullOrWhiteSpace(line) {
          return true;
        }
        log := log + [ErrorShown(EmptyNameError)];
        if atEnd {
          // At end of input the program shows this error forever.
          return false;
        }
      }
      named := true;
    }

    /** The `while (reconnect)` loop of `PromptUserNameAndConnect`, over
        the attempts the environment offers; `tries` counts the
        `TryConnection` calls. */
    method ReconnectLoop(attempts: seq<Attempt>) returns (tries: nat)
      modifies this, ws
      ensures (Abstract(), tries) == RunAttempts(old(Abstract()), attempts)
      ensures ws == old(ws) || fresh(ws)
    {
      ghost var target := RunAttempts(Abstract(), attempts);
      assert attempts[0..] == attempts;
      var i := 0;
      while reconnect && i < |attempts|
        invariant 0 <= i <= |attempts|
        invariant RunAttempts(Abstract(), attempts[i..]).0 == target.0
        invariant RunAttempts(Abstract(), attempts[i..]).1 + i == target.1
        invariant ws == old(ws) || fresh(ws)
      {
        ghost var pre := Abstract();
        RunAttemptsStep(pre, attempts, i);
        TryConnection(attempts[i]);
        assert Abstract() == Try(pre, attempts[i]);
        i := i + 1;
      }
      assert RunAttempts(Abstract(), attempts[i..]) == (Abstract(), 0);
      tries := i;
    }

    /** `PromptUserNameAndConnect`, over the attempts the environment
        offers.  `named` is false when input ran out before a name was
        given; `tries` counts the `TryConnection` calls. */
    method PromptUserNameAndConnect(attempts: seq<Attempt>) returns (named: bool, tries: nat)
      modifies this, ws
      ensures (Abstract(), named, tries) == Connect(old(Abstract()), attempts)
      ensures ws == old(ws) || fresh(ws)
    {
      named := PromptUserName();
      if !named {
        return false, 0;
      }
      tries := ReconnectLoop(attempts);
    }
  }

  // ---------------------------------------------------------------------
  // The reconnect answer
  // ---------------------------------------------------------------------

  /** The answer counts as yes exactly when the line is a single `y` or `Y`
      with only whitespace around it. */
  lemma ReconnectAnswerIff(line: Option<string>)
    ensures ReconnectAnswer(line) <==>
      line.Some? &&
      exists i :: 0 <= i < |line.value| && (line.value[i] == 'y' || line.value[i] == 'Y') &&
        AllWhiteSpace(line.value[..i]) && AllWhiteSpace(line.value[i + 1..])
  {
    if line.Some? {
      var s := line.value;
      if ReconnectAnswer(line) {
        var i, j := TrimShape(s);
        assert |s[i..j]| == 1;
        assert j == i + 1;
        assert LowerChar(s[i]) == ToLower(Trim(s))[0] == 'y';
        assert s[i] == 'y' || s[i] == 'Y';
      }
      forall i | 0 <= i < |s| && (s[i] == 'y' || s[i] == 'Y') &&
        AllWhiteSpace(s[..i]) && AllWhiteSpace(s[i + 1..])
        ensures ReconnectAnswer(line)
      {
        assert s == s[..i] + [s[i]] + s[i + 1..];
        TrimOfPadded(s[..i], [s[i]], s[i + 1..]);
        assert ToLower([s[i]]) == [LowerChar(s[i])] == "y";
      }
    }
  }

  /** End of input, "yes" and "n" all mean no; a padded capital Y means
      yes. */
  lemma ReconnectAnswerExamples()
    ensures !ReconnectAnswer(None)
    ensures !ReconnectAnswer(Some("yes"))
    ensures !ReconnectAnswer(Some("n"))
    ensures ReconnectAnswer(Some(" Y\t"))
  {
    TrimOfPadded([], "yes", []);
    assert [] + "yes" + [] == "yes";
    TrimOfPadded([], "n", []);
    assert [] + "n" + [] == "n";
    assert ToLower("n") == [LowerChar('n')] == "n";
    ReconnectAnswerIff(Some(" Y\t"));
    assert " Y\t"[..1] == " " && " Y\t"[2..] == "\t";
  }

  // ---------------------------------------------------------------------
  // The username prompt
  // ---------------------------------------------------------------------

  /** The position of the first line that is neither null nor empty. */
  function FirstNonEmpty(console: seq<Option<string>>): (k: nat)
    ensures k <= |console|
    ensures k < |console| ==> !IsNullOrEmpty(console[k])
    ensures forall j :: 0 <= j < k ==> IsNullOrEmpty(console[j])
  {
    if console == [] || !IsNullOrEmpty(console[0]) then 0
    else 1 + FirstNonEmpty(console[1..])
  }

  /** What the user sees for one line read at the username prompt. */
  function NameEvents(line: Option<string>): seq<Event>
  {
    if IsNullOrWhiteSpace(line) then [UsernamePrompted, ErrorShown(EmptyNameError)]
    else [UsernamePrompted]
  }

  function PromptEvents(lines: seq<Option<string>>): seq<Event>
  {
    if lines == [] then [] else NameEvents(lines[0]) + PromptEvents(lines[1..])
  }

  lemma PromptEventsCons(line: Option<string>, rest: seq<Option<string>>, k: nat)
    requires k <= |rest|
    ensures PromptEvents(([line] + rest)[..k + 1]) == NameEvents(line) + PromptEvents(rest[..k])
  {
    assert ([line] + rest)[..k + 1] == [line] + rest[..k];
  }

  /** One pass of the username loop over a null or empty line. */
  lemma SkipEmptyName(st: State)
    requires IsNullOrEmpty(st.username) && st.console != [] && IsNullOrEmpty(st.console[0])
    ensures UsernameLoop(st) ==
      UsernameLoop(st.(username := st.console[0], console := st.console[1..],
                       log := st.log + NameEvents(st.console[0])))
  {
    assert st.log + [UsernamePrompted] + [ErrorShown(EmptyNameError)] == st.log + NameEvents(st.console[0]);
  }

  /** The state once the username prompt has read `lines`, kept `name` as
      the name and left `rest` unread. */
  function AfterNames(st: State, lines: seq<Option<string>>, name: Option<string>,
                      rest: seq<Option<string>>): State
  {
    st.(username := name, console := rest, log := st.log + PromptEvents(lines))
  }

  lemma OnePromptEvents(line: Option<string>)
    ensures PromptEvents([line]) == NameEvents(line)
  {
    assert [line][1..] == [];
    assert NameEvents(line) + [] == NameEvents(line);
  }

  lemma AfterNamesCons(st: State, line: Option<string>, mid: seq<Option<string>>,
                       lines: seq<Option<string>>, name: Option<string>, rest: seq<Option<string>>)
    ensures AfterNames(AfterNames(st, [line], line, mid), lines, name, rest)
            == AfterNames(st, [line] + lines, name, rest)
  {
    assert ([line] + lines)[0] == line && ([line] + lines)[1..] == lines;
    assert PromptEvents([line] + lines) == NameEvents(line) + PromptEvents(lines);
    OnePromptEvents(line);
  }

  /** With a line that is neither null nor empty somewhere in the input,
      the loop takes the first such line as the name (even when it is only
      whitespace), consumes the input up to it and shows the prompt and,
      for each blank line, the error. */
  lemma {:induction false} UsernameLoopFound(st: State)
    requires IsNullOrEmpty(st.username) && FirstNonEmpty(st.console) < |st.console|
    decreases |st.console|
    ensures var k := FirstNonEmpty(st.console);
      UsernameLoop(st) == (AfterNames(st, st.console[..k + 1], st.console[k], st.console[k + 1..]), true)
  {
    var c := st.console;
    var line := c[0];
    var k := FirstNonEmpty(c);
    if IsNullOrEmpty(line) {
      var next := AfterNames(st, [line], line, c[1..]);
      SkipEmptyLine(st);
      var k' := FirstNonEmpty(c[1..]);
      assert k == k' + 1;
      UsernameLoopFound(next);
      AfterNamesCons(st, line, c[1..], c[1..][..k' + 1], c[1..][k'], c[1..][k' + 1..]);
      ConsoleShift(c, k');
    } else {
      assert k == 0 && c[..1] == [line];
      NameAtFront(st);
    }
  }

  lemma ConsoleShift(c: seq<Option<string>>, k: nat)
    requires k + 1 < |c|
    ensures [c[0]] + c[1..][..k + 1] == c[..k + 2]
    ensures c[1..][k] == c[k + 1] && c[1..][k + 1..] == c[k + 2..]
  {
  }

  /** A pass over a null or empty line, in terms of `AfterNames`. */
  lemma SkipEmptyLine(st: State)
    requires IsNullOrEmpty(st.username) && st.console != [] && IsNullOrEmpty(st.console[0])
    ensures UsernameLoop(st) == UsernameLoop(AfterNames(st, [st.console[0]], st.console[0], st.console[1..]))
  {
    SkipEmptyName(st);
    OnePromptEvents(st.console[0]);
  }

  /** A first line that is neither null nor empty is taken as the name,
      blank or not. */
  lemma NameAtFront(st: State)
    requires IsNullOrEmpty(st.username) && st.console != [] && !IsNullOrEmpty(st.console[0])
    ensures UsernameLoop(st) == (AfterNames(st, [st.console[0]], st.console[0], st.console[1..]), true)
  {
    var line := st.console[0];
    UsernameStep(st);
    OnePromptEvents(line);
    var read := st.(username := line, console := st.console[1..], log := st.log + [UsernamePrompted]);
    if IsNullOrWhiteSpace(line) {
      var warned := read.(log := read.log + [ErrorShown(EmptyNameError)]);
      assert UsernameLoop(st) == UsernameLoop(warned);
      assert warned.log == st.log + NameEvents(line);
    } else {
      assert read.log == st.log + NameEvents(line);
    }
  }

  /** With no such line the loop reads past the end of input and stops
      there (the program would prompt forever). */
  lemma {:induction false} UsernameLoopExhausted(st: State)
    requires IsNullOrEmpty(st.username) && FirstNonEmpty(st.console) == |st.console|
    decreases |st.console|
    ensures UsernameLoop(st) == (AfterNames(st, st.console + [None], None, []), false)
  {
    var c := st.console;
    if c == [] {
      var eof: seq<Option<string>> := [None];
      assert c + [None] == eof;
      OnePromptEvents(None);
      assert st.log + [UsernamePrompted] + [ErrorShown(EmptyNameError)] == st.log + PromptEvents(eof);
    } else {
      var line := c[0];
      var next := st.(username := line, console := c[1..], log := st.log + NameEvents(line));
      SkipEmptyName(st);
      assert FirstNonEmpty(c[1..]) == |c[1..]|;
      UsernameLoopExhausted(next);
      assert next == AfterNames(st, [line], line, c[1..]) by {
        OnePromptEvents(line);
      }
      AfterNamesCons(st, line, c[1..], c[1..] + [None], None, []);
      assert [line] + (c[1..] + [None]) == c + [None];
    }
  }

  /** A name made only of whitespace draws the error but, since the next
      pass tests for an empty name only, is then accepted. */
  lemma WhitespaceNameAccepted(st: State, name: string, rest: seq<Option<string>>)
    requires IsNullOrEmpty(st.username)
    requires name != [] && AllWhiteSpace(name)
    ensures UsernameLoop(st.(console := [Some(name)] + rest)) ==
      (st.(username := Some(name), console := rest,
           log := st.log + [UsernamePrompted, ErrorShown(EmptyNameError)]), true)
  {
    var s := st.(console := [Some(name)] + rest);
    assert s.console[1..] == rest;
    var warned := st.(username := Some(name), console := rest,
                      log := st.log + [UsernamePrompted] + [ErrorShown(EmptyNameError)]);
    assert st.log + [UsernamePrompted] + [ErrorShown(EmptyNameError)] ==
      st.log + [UsernamePrompted, ErrorShown(EmptyNameError)];
    assert UsernameLoop(s) == UsernameLoop(warned);
    assert !IsNullOrEmpty(warned.username);
  }

  // ---------------------------------------------------------------------
  // TryConnection
  // ---------------------------------------------------------------------

  function CountPrompts(log: seq<Event>): nat
  {
    if log == [] then 0
    else CountPrompts(log[..|log| - 1]) + (if log[|log| - 1] == ReconnectPrompted then 1 else 0)
  }

  lemma {:induction false} CountPromptsAppend(a: seq<Event>, b: seq<Event>)
    decreases |b|
    ensures CountPrompts(a + b) == CountPrompts(a) + CountPrompts(b)
  {
    if b == [] {
      assert a + b == a;
    } else {
      var b' := b[..|b| - 1];
      assert (a + b)[..|a + b| - 1] == a + b';
      CountPromptsAppend(a, b');
    }
  }

  lemma {:induction false} NoPromptAmong(log: seq<Event>)
    requires forall k :: 0 <= k < |log| ==> log[k] != ReconnectPrompted
    ensures CountPrompts(log) == 0
  {
    if log != [] {
      NoPromptAmong(log[..|log| - 1]);
    }
  }

  /** How many times `TryConnection` asks about reconnecting: once for a
      `WebSocketException`, once more when the socket ends up aborted. */
  function PromptsIn(at: Attempt): nat
  {
    (if at.connect.SocketFailure? then 1 else 0) + (if at.stateAfter == Aborted then 1 else 0)
  }

  /** The console with its first n lines read. */
  function Drop(console: seq<Option<string>>, n: nat): seq<Option<string>>
  {
    if n >= |console| then [] else console[n..]
  }

  /** The duplex phase never asks about reconnecting. */
  lemma DuplexHasNoPrompt(st: State, d: Duplex)
    ensures |RunDuplex(st, d).log| >= |st.log|
    ensures RunDuplex(st, d).log[..|st.log|] == st.log
    ensures CountPrompts(RunDuplex(st, d).log) == CountPrompts(st.log)
    ensures RunDuplex(st, d).console == st.console
    ensures RunDuplex(st, d).reconnect ==> st.reconnect
    ensures d.winner == InboundPump ==> RunDuplex(st, d).reconnect == st.reconnect
  {
    var added: seq<Event>;
    match d.winner {
      case InboundPump =>
        added := DisplayEvents(Inbound.Shown(d.receipts, st.username.GetOr("")));
      case OutboundPump =>
        added := OutgoingEvents(Outbound.Pump(d.input, st.reconnect).out);
    }
    assert RunDuplex(st, d).log == st.log + added;
    NoPromptAmong(added);
    CountPromptsAppend(st.log, added);
  }

  lemma CountPromptsSnoc(log: seq<Event>, e: Event)
    ensures CountPrompts(log + [e]) == CountPrompts(log) + (if e == ReconnectPrompted then 1 else 0)
  {
    assert (log + [e])[..|log|] == log;
  }

  /** Asking about reconnecting adds one question and reads one line. */
  lemma PromptReconnectCounts(st: State)
    ensures CountPrompts(PromptReconnect(st).log) == CountPrompts(st.log) + 1
    ensures PromptReconnect(st).console == RestLines(st.console)
  {
    CountPromptsSnoc(st.log, ReconnectPrompted);
  }

  /** The `try`/`catch` of `TryConnection` asks only after a
      `WebSocketException`. */
  lemma TryBlockPrompts(r: State, at: Attempt)
    ensures CountPrompts(TryBlock(r, at).log) ==
              CountPrompts(r.log) + (if at.connect.SocketFailure? then 1 else 0)
    ensures TryBlock(r, at).console ==
              if at.connect.SocketFailure? then RestLines(r.console) else r.console
  {
    match at.connect {
      case Connected(d) =>
        var shown := r.(log := r.log + [ConnectedShown]);
        CountPromptsSnoc(r.log, ConnectedShown);
        DuplexHasNoPrompt(shown, d);
      case SocketFailure =>
        var failed := r.(log := r.log + [ErrorShown(ConnectFailedError)], socket := Some(at.stateAfter));
        CountPromptsSnoc(r.log, ErrorShown(ConnectFailedError));
        PromptReconnectCounts(failed);
      case OtherFailure(m) =>
        CountPromptsSnoc(r.log, ErrorShown(UnexpectedErrorPrefix + m));
    }
  }

  /** `TryConnection` asks about reconnecting once on a
      `WebSocketException` and once when the socket is aborted, and at no
      other time; each question reads one console line. */
  lemma TryPrompts(st: State, at: Attempt)
    ensures CountPrompts(Try(st, at).log) == CountPrompts(st.log) + PromptsIn(at)
    ensures Try(st, at).console == Drop(st.console, PromptsIn(at))
  {
    var r := Replaced(st);
    assert CountPrompts(r.log) == CountPrompts(st.log) && r.console == st.console by {
      if st.socket == Some(Open) {
        CountPromptsSnoc(st.log, OldSocketClosed);
      }
    }
    var caught := TryBlock(r, at);
    TryBlockPrompts(r, at);
    if at.stateAfter == Aborted {
      var lost := caught.(log := caught.log + [ErrorShown(ConnectionLostError)]);
      CountPromptsSnoc(caught.log, ErrorShown(ConnectionLostError));
      PromptReconnectCounts(lost);
      assert Try(st, at) == PromptReconnect(lost);
      if at.connect.SocketFailure? {
        assert RestLines(RestLines(st.console)) == Drop(st.console, 2);
      } else {
        assert RestLines(st.console) == Drop(st.console, 1);
      }
    } else {
      assert Try(st, at) == caught;
      assert RestLines(st.console) == Drop(st.console, 1);
      assert st.console == Drop(st.console, 0);
    }
  }

  /** After a prompt, `reconnect` is the answer to the last one; without a
      prompt it is never set, and it is kept unless the outbound pump ended
      the phase by `exit` or a cleared flag.  In particular another
      exception leaves `reconnect` as it was. */
  lemma TryReconnect(st: State, at: Attempt)
    ensures PromptsIn(at) > 0 ==>
      (Try(st, at).reconnect <==> ReconnectAnswer(NextLine(Drop(st.console, PromptsIn(at) - 1))))
    ensures PromptsIn(at) == 0 ==> (Try(st, at).reconnect ==> st.reconnect)
    ensures PromptsIn(at) == 0 && !(at.connect.Connected? && at.connect.duplex.winner == OutboundPump) ==>
      Try(st, at).reconnect == st.reconnect
  {
    if at.connect.Connected? {
      DuplexHasNoPrompt(Replaced(st).(log := Replaced(st).log + [ConnectedShown]), at.connect.duplex);
    }
    if at.connect.SocketFailure? && at.stateAfter == Aborted {
      assert Drop(st.console, 1) == RestLines(st.console);
    }
  }

  /** `log` begins with `prefix` and is longer. */
  predicate Extends(log: seq<Event>, prefix: seq<Event>)
  {
    |log| > |prefix| && log[..|prefix|] == prefix
  }

  lemma ExtendsTrans(a: seq<Event>, b: seq<Event>, c: seq<Event>)
    requires Extends(b, a) && (b == c || Extends(c, b))
    ensures Extends(c, a) && c[|a|] == b[|a|]
  {
    if b != c {
      assert c[..|a|] == c[..|b|][..|a|];
    }
  }

  /** The first event the `try`/`catch` block shows. */
  function FirstShown(c: ConnectResult): Event
  {
    match c
    case Connected(_) => ConnectedShown
    case SocketFailure => ErrorShown(ConnectFailedError)
    case OtherFailure(m) => ErrorShown(UnexpectedErrorPrefix + m)
  }

  lemma TryBlockExtends(r: State, at: Attempt)
    ensures Extends(TryBlock(r, at).log, r.log) && TryBlock(r, at).log[|r.log|] == FirstShown(at.connect)
    ensures TryBlock(r, at).socket == Some(at.stateAfter) && TryBlock(r, at).username == r.username
  {
    var shown := r.log + [FirstShown(at.connect)];
    assert Extends(shown, r.log) && shown[|r.log|] == FirstShown(at.connect);
    match at.connect {
      case Connected(d) =>
        var s := r.(log := shown);
        DuplexHasNoPrompt(s, d);
        ExtendsTrans(r.log, shown, TryBlock(r, at).log);
      case SocketFailure =>
        ExtendsTrans(r.log, shown, TryBlock(r, at).log);
      case OtherFailure(m) =>
    }
  }

  /** The previous socket is closed exactly when it is open, the new
      socket's state is the one observed at the end, and the name is kept;
      earlier events stay as they were. */
  lemma TryReplacesSocket(st: State, at: Attempt)
    ensures Try(st, at).socket == Some(at.stateAfter)
    ensures Try(st, at).username == st.username
    ensures |Try(st, at).log| > |st.log| && Try(st, at).log[..|st.log|] == st.log
    ensures Try(st, at).log[|st.log|] == OldSocketClosed <==> st.socket == Some(Open)
  {
    var r := Replaced(st);
    var caught := TryBlock(r, at);
    TryBlockExtends(r, at);
    if st.socket == Some(Open) {
      assert Extends(r.log, st.log) && r.log[|st.log|] == OldSocketClosed;
      ExtendsTrans(st.log, r.log, caught.log);
    } else {
      assert r.log == st.log;
    }
    assert Extends(caught.log, st.log);
    var first := caught.log[|st.log|];
    assert first == OldSocketClosed <==> st.socket == Some(Open);
    if at.stateAfter == Aborted {
      var lost := caught.log + [ErrorShown(ConnectionLostError)] + [ReconnectPrompted];
      assert Try(st, at).log == lost;
      assert Extends(lost, caught.log);
      ExtendsTrans(st.log, caught.log, lost);
    }
  }

  /** A failed connection answered with `n`, on a socket that is not
      aborted, ends the connect loop after this attempt. */
  lemma FailureAnsweredNoStops(st: State, at: Attempt, more: seq<Attempt>)
    requires st.reconnect
    requires at.connect == SocketFailure && at.stateAfter != Aborted
    requires NextLine(st.console) == Some("n")
    ensures !Try(st, at).reconnect
    ensures RunAttempts(st, [at] + more) == (Try(st, at), 1)
  {
    ReconnectAnswerExamples();
    TryReconnect(st, at);
    assert ([at] + more)[1..] == more;
  }

  /** Typing `exit` ends the session: no reconnect question, `reconnect`
      cleared and the connect loop left after this attempt. */
  lemma ExitStops(st: State, word: string, receipts: Inbound.Receipts, rest: seq<Outbound.Read>,
                  after: SocketState, more: seq<Attempt>)
    requires st.reconnect && after != Aborted
    requires ToLower(word) == "exit"
    ensures var at := Attempt(Connected(Duplex(OutboundPump, receipts, [Outbound.Read(Some(word), false)] + rest)), after);
      !Try(st, at).reconnect && CountPrompts(Try(st, at).log) == CountPrompts(st.log) &&
      RunAttempts(st, [at] + more) == (Try(st, at), 1)
  {
    var at := Attempt(Connected(Duplex(OutboundPump, receipts, [Outbound.Read(Some(word), false)] + rest)), after);
    Outbound.ExitEndsLoop(word, rest);
    TryPrompts(st, at);
    assert ([at] + more)[1..] == more;
  }

  // ---------------------------------------------------------------------
  // The connect loop
  // ---------------------------------------------------------------------

  /** Every attempt in order, with no test of `reconnect`. */
  function AllAttempts(st: State, attempts: seq<Attempt>): State
    decreases |attempts|
  {
    if attempts == [] then st else AllAttempts(Try(st, attempts[0]), attempts[1..])
  }

  /** `TryConnection` runs exactly while `reconnect` is set: the loop makes
      the first n attempts, `reconnect` held before each of them, and it
      stops early only with `reconnect` cleared.  The name is kept
      throughout. */
  lemma {:induction false} RunAttemptsWhileReconnect(st: State, attempts: seq<Attempt>)
    decreases |attempts|
    ensures var (fin, n) := RunAttempts(st, attempts);
      n <= |attempts| &&
      fin == AllAttempts(st, attempts[..n]) &&
      (forall k :: 0 <= k < n ==> AllAttempts(st, attempts[..k]).reconnect) &&
      (n < |attempts| ==> !fin.reconnect) &&
      fin.username == st.username
  {
    if st.reconnect && attempts != [] {
      var next := Try(st, attempts[0]);
      var rest := attempts[1..];
      RunAttemptsWhileReconnect(next, rest);
      TryReplacesSocket(st, attempts[0]);
      var (fin, n) := RunAttempts(next, rest);
      assert attempts[..n + 1][1..] == rest[..n];
      forall k | 0 <= k < n + 1
        ensures AllAttempts(st, attempts[..k]).reconnect
      {
        if k > 0 {
          assert attempts[..k][1..] == rest[..k - 1];
        }
      }
    } else {
      assert attempts[..0] == [];
    }
  }

  /** The username loop leaves with a name that is neither null nor empty
      whenever it leaves at all, and a name already set is kept without
      reading anything. */
  lemma {:induction false} UsernameLoopOutcome(st: State)
    decreases |st.console|
    ensures UsernameLoop(st).1 ==> !IsNullOrEmpty(UsernameLoop(st).0.username)
    ensures !IsNullOrEmpty(st.username) ==> UsernameLoop(st) == (st, true)
  {
    if IsNullOrEmpty(st.username) {
      var line := NextLine(st.console);
      if IsNullOrWhiteSpace(line) && st.console != [] {
        var warned := st.(username := line, console := RestLines(st.console),
                          log := st.log + [UsernamePrompted] + [ErrorShown(EmptyNameError)]);
        UsernameLoopOutcome(warned);
      } else if !IsNullOrWhiteSpace(line) {
        assert line.value != [] by {
          if line.value == [] { assert AllWhiteSpace(line.value); }
        }
      }
    }
  }

  /** `PromptUserNameAndConnect` keeps the name it obtains for every
      attempt; an empty name is never used, and a name already set is used
      without asking. */
  lemma ConnectKeepsName(st: State, attempts: seq<Attempt>)
    ensures var (fin, named, _) := Connect(st, attempts);
      (named ==> !IsNullOrEmpty(fin.username)) &&
      (!IsNullOrEmpty(st.username) ==>
         (named && fin.username == st.username && Connect(st, attempts).2 == RunAttempts(st, attempts).1))
  {
    UsernameLoopOutcome(st);
    var (s1, ok) := UsernameLoop(st);
    RunAttemptsWhileReconnect(s1, attempts);
  }
}
