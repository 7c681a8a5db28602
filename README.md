# ChatApplication client: a Dafny model of its decision logic

The client is a console program that connects to a chat server over one
WebSocket. It then runs two pumps over that socket. The inbound pump
receives frames and colours them by substring tests. The outbound pump
reads console lines and either sends them or treats them as local commands.
A controller keeps the static state `username`, `reconnect` and `ws`. It
prompts for a name and retries the connection while `reconnect` is set. It
asks the user whether to reconnect after a failed or aborted connection.
On shutdown, `CloseWebSocket` chooses what to do from the socket's state.

The model has six modules:

- `Wrappers`: an `Option` for values the client may see as null (a
  console line at end of input, an unset username, a missing socket).
- `Text`: the .NET string operations the client relies on (ordinal
  `Contains`, `Replace` and `Split`, `Trim`, ASCII `ToLower`), with lemmas
  about them. Examples: `Replace` is `Join` over `Split`; a split on one
  character gives one piece more than there are occurrences; `Trim` undoes
  whitespace padding.
- `Inbound`: the frame classifier `Classify`, which returns the colour
  class, the rewritten text and an optional user list. Beside it is the
  receive loop `ReceiveLoop` over `Receipts`, the values successive
  `ReceiveAsync` calls return: any sequence of data chunks of at most one
  1024-byte buffer each, and close frames. `Deliver`, a transport that
  fills the buffer on every call, is one such sequence.
- `Outbound`: the line interpreter `Interpret` and the send loop
  `SendLoop`, over a sequence of console reads. `SendLoop` is proved
  equal to the pure run `Pump`. Each read records whether
  the Ctrl+C handler had cleared `reconnect` by then.
- `Session`: the socket state (the seven values of `WebSocketState`; the
  one .NET calls `None` is named `Created` here), a `Socket` class with its
  state and disposed flag, and `CloseWebSocket` with the pure decision
  `CloseDecision` it follows.
- `Controller`: the `Client` class with the fields `username`,
  `reconnect`, `ws`, the console input queue and a log of what the user
  sees. Its methods are `PromptUserNameAndConnect`, `TryConnection` and
  `PromptTryReconnecting`. Each method is proved equal to a pure function
  on a `State` value (`Connect`, `Try`, `PromptReconnect`), and the
  lemmas are stated about those functions.

Some things the program gets from outside are inputs to the model: whether
`ConnectAsync` succeeds, fails with a `WebSocketException` or fails with
another exception; which pump wins `Task.WhenAny`; what the inbound pump's
receive calls return and what the outbound pump reads from the console;
and the socket's state when `TryConnection` looks at it at the end.

Where the code and its comments disagree, the model follows the code:

- The comment at `Program.cs:364` says an empty line is skipped. The code
  skips only a null line, so the empty line `""` is sent as a frame.
- The username loop tests `IsNullOrEmpty` at line 50 but
  `IsNullOrWhiteSpace` at line 61. So a name made only of whitespace
  draws the error message and is then accepted on the next pass
  (`WhitespaceNameAccepted`).

## Model

| member | source | states |
|---|---|---|
| `Inbound.Highlight` | ChatApplication-Client/Program.cs:314-322 | The colour decision: only a system message is rewritten, and the rewrite only deletes text, so the result is never longer than the payload |
| `Inbound.UserList` | ChatApplication-Client/Program.cs:325-333 | The user list is present exactly for a message containing `ConnectedUserList`: the trimmed pieces of the text, split on commas after the prefix is removed. Its shape is proved by `UserListShape` |
| `Inbound.Classify` | ChatApplication-Client/Program.cs:314-336 | The whole treatment of one frame. The text shown is never longer than the frame, and a frame that is neither a system message nor a user list is shown as it came |
| `Inbound.OwnMessageWins` | ChatApplication-Client/Program.cs:314-315 | A payload containing `(username)` is classified as the user's own message whatever else it contains, the system tag included, and its text is not rewritten |
| `Inbound.SystemMessageStripped` | ChatApplication-Client/Program.cs:316-320 | A payload without the self tag but with `SystemDisplay(System)` is a system message. The text is the pieces of the payload between occurrences of `SystemDisplay` joined together, and no piece contains `SystemDisplay`: every occurrence is removed, not only a leading one. The `(System)` label survives the removal |
| `Inbound.PlainMessageUnchanged` | ChatApplication-Client/Program.cs:321-322 | A payload with neither tag is plain and passes through unchanged |
| `Inbound.UserListShape` | ChatApplication-Client/Program.cs:325-336 | A message containing `ConnectedUserList` yields a list after the prefix `(System)ConnectedUserList: ` is removed. The list has one entry per comma plus one, each entry is the trimmed piece between commas, and the pieces rejoined with commas give back the text. Any other message yields no list |
| `Inbound.ReceiveLoop` | ChatApplication-Client/Program.cs:296-311 | Receipts are handled in order, each chunk is classified on its own, and the loop stops at the first close frame without classifying it. `closed` holds exactly when a close frame was received. Since every chunk fits the buffer, no text shown is longer than 1024 characters |
| `Inbound.DeliverFits` | ChatApplication-Client/Program.cs:298-302 | A transport that fills the buffer on every call hands over chunks that each fit the 1024-byte buffer, so its receipts are valid `Receipts` |
| `Inbound.ChunksShape` | ChatApplication-Client/Program.cs:298-311 | A message is delivered in pieces of at most one buffer that concatenate back to it, and a longer message takes at least two pieces |
| `Inbound.LongMessageShownInPieces` | ChatApplication-Client/Program.cs:298-311 | No reassembly: when the transport fills the buffer on every call, a message longer than the buffer is shown as several separately classified pieces, the first being its first 1024 characters. For any other cutting, `ReceiveLoop` still classifies each chunk on its own |
| `Inbound.OwnEchoExample` | ChatApplication-Client/Program.cs:314-315 | `(alice)hello` received by `alice` is her own message, shown unchanged and with no user list |
| `Inbound.SystemNoticeExample` | ChatApplication-Client/Program.cs:316-320 | `SystemDisplay(System)<body>` is shown as the system message `(System)<body>`, for a body with no `D` and no `C` (so it holds neither marker) and a user whose tag it does not contain |
| `Inbound.UserListExample` | ChatApplication-Client/Program.cs:325-336 | `(System)ConnectedUserList: a, b` renders the list `[a, b]`, for names with no comma, no `S` and no `D` and no whitespace at either end, and a user whose tag the message does not contain |
| `Outbound.MenuForm` | ChatApplication-Client/Program.cs:375 | The form compared with `showmenu`: lower-cased, trimmed and with every space deleted. `SpacedMenuWord` and `PaddedExitSent` state what it accepts |
| `Outbound.Interpret` | ChatApplication-Client/Program.cs:365-384 | The tests on one line, in order: null is skipped, `exit` after lower-casing ends the loop, the menu form `showmenu` opens the menu, anything else is sent. `EmptyLineSent`, `PaddedExitSent` and `NoCommandSent` state its cases |
| `Outbound.Pump` | ChatApplication-Client/Program.cs:352-386 | A run of the pump: the reads before the halting one take effect in order, the halting read is consumed unsent, `reconnect` stays set only when input runs out first, and the reason for stopping is recorded |
| `Outbound.SendLoop` | ChatApplication-Client/Program.cs:350-386 | Its result is `Pump` of the reads. The loop runs up to the first read after which `reconnect` is false or the line is `exit`, and it sends nothing for that read. It returns the frames and menu events of the earlier reads in order, the final `reconnect` (false after that read, unchanged if input runs out), the reads consumed and the reason it stopped |
| `Outbound.HaltIndex` | ChatApplication-Client/Program.cs:357-373 | The halting read is the first read where `reconnect` is found false or the line lower-cases to `exit`; no earlier read halts |
| `Outbound.HaltIgnoresRest` | ChatApplication-Client/Program.cs:357-373 | Nothing after the halting read affects where the loop stops |
| `Outbound.FramesAreSendableLines` | ChatApplication-Client/Program.cs:364-384 | The frames sent are exactly the non-null lines that are neither `exit` nor `showmenu` under their tests, each sent once and in input order |
| `Outbound.NoCommandSent` | ChatApplication-Client/Program.cs:368-378 | No frame ever sent is an `exit` or `showmenu` command |
| `Outbound.EffectsAppend` | ChatApplication-Client/Program.cs:352-386 | The effects of consecutive runs of reads are concatenated in input order |
| `Outbound.HelloSentOnce` | ChatApplication-Client/Program.cs:379-384 | An ordinary line such as `hello` is sent as exactly one frame with that text: the run sends it, keeps `reconnect` set, consumes the read and stops only because input ran out |
| `Outbound.ExitEndsLoop` | ChatApplication-Client/Program.cs:368-373 | A line that lower-cases to `exit` halts the loop at once, whatever follows: nothing is sent, `reconnect` is cleared, one read is consumed and the reason is `ExitTyped` |
| `Outbound.EmptyLineSent` | ChatApplication-Client/Program.cs:364-384 | The empty line is not skipped; it is transmitted |
| `Outbound.PaddedExitSent` | ChatApplication-Client/Program.cs:369-384 | `exit` must match exactly after lower-casing: ` exit` with a leading space is sent as an ordinary line |
| `Outbound.SpacedMenuWord` | ChatApplication-Client/Program.cs:375-378 | The menu test ignores case and deletes spaces, so `Show Menu` opens the menu |
| `Session.CloseDecision` | ChatApplication-Client/Program.cs:244-290 | The branch taken for each socket state: Open and CloseReceived send a close frame and wait, Closed only waits, Aborted reports the lost connection, the rest and a null socket do nothing. `CloseOutputOnlyWhenOpen` states it both ways |
| `Session.CloseWebSocket` | ChatApplication-Client/Program.cs:241-291 | The action is the one `CloseDecision` gives for the socket's state. An open socket moves to CloseSent and a CloseReceived one to Closed, other states are untouched, and a null socket does nothing |
| `Session.CloseOutputOnlyWhenOpen` | ChatApplication-Client/Program.cs:244-290 | A close frame is sent exactly when the socket exists and is Open or CloseReceived. Nothing is done exactly for a null socket or the states None, Connecting and CloseSent |
| `Session.NoCloseFrameAfterClose` | ChatApplication-Client/Program.cs:241-291 | Once one shutdown call has run, no later call sends a close frame |
| `Session.RepeatedCloseSendsAtMostOnce` | ChatApplication-Client/Program.cs:241-291 | Repeated calls send at most one close frame in all. On a Closed socket they send none and only wait, every time |
| `Controller.Client.ReadLine` | ChatApplication-Client/Program.cs:58 | `Console.ReadLine`: returns the next queued line, or null when the queue is exhausted, and removes it from the queue |
| `Controller.PromptReconnect` | ChatApplication-Client/Program.cs:220-235 | The reconnect question on a state: one prompt, one line read, and `reconnect` set to `ReconnectAnswer` of it. `ReconnectAnswerIff` characterises the answer |
| `Controller.Client.PromptTryReconnecting` | ChatApplication-Client/Program.cs:220-235 | The new state is `PromptReconnect` of the old one: asks once, reads one console line, and sets `reconnect` to whether the trimmed, lower-cased line is `y` |
| `Controller.ReconnectAnswerIff` | ChatApplication-Client/Program.cs:230-234 | The answer is yes if and only if the line is a single `y` or `Y` with only whitespace around it |
| `Controller.ReconnectAnswerExamples` | ChatApplication-Client/Program.cs:230-234 | End of input, `yes` and `n` all mean no, and a padded ` Y` means yes |
| `Controller.Replaced` | ChatApplication-Client/Program.cs:152-166 | The steps before connecting: an Open previous socket is closed (an `OldSocketClosed` event), and a new socket in state None takes the old one's place. `TryReplacesSocket` states it |
| `Controller.RunDuplex` | ChatApplication-Client/Program.cs:191-196 | The duplex phase: the inbound pump shows what `Shown` gives for the receipts, or the outbound pump's `Pump` run takes effect. `DuplexHasNoPrompt` states what it leaves alone |
| `Controller.TryBlock` | ChatApplication-Client/Program.cs:168-209 | The `try`/`catch` of `TryConnection` for each connect outcome. `TryBlockPrompts` states when it asks about reconnecting |
| `Controller.Try` | ChatApplication-Client/Program.cs:152-216 | One `TryConnection`: replace the socket, the `try`/`catch`, then the Aborted check. `TryPrompts`, `TryReconnect` and `TryReplacesSocket` state its properties |
| `Controller.Client.TryConnection` | ChatApplication-Client/Program.cs:152-217 | The new state is `Try` of the old one. The old socket, if any, is disposed, and a fresh socket replaces it. The new socket is disposed exactly after a `WebSocketException` |
| `Controller.Client.ReplaceSocket` | ChatApplication-Client/Program.cs:152-166 | The new state is `Replaced` of the old one. The old socket, if any, moves from Open to Closed when it was Open and is disposed, and a fresh, undisposed socket takes its place |
| `Controller.Client.ConnectOrReport` | ChatApplication-Client/Program.cs:168-209 | The new state is `TryBlock` of the old one. The socket is disposed exactly when the connect raised a `WebSocketException` |
| `Controller.Client.RunPumps` | ChatApplication-Client/Program.cs:191-196 | The new state is `RunDuplex` of the old one: the winning pump runs to its end and its events are appended to the log |
| `Controller.TryReplacesSocket` | ChatApplication-Client/Program.cs:155-166 | The previous socket is closed exactly when it is Open. The new socket ends in the observed state, the name is kept, and earlier events are untouched |
| `Controller.TryBlockPrompts` | ChatApplication-Client/Program.cs:170-209 | Within the try/catch, the reconnect question is asked, and one line read, only after a `WebSocketException`. Any other exception is only reported |
| `Controller.DuplexHasNoPrompt` | ChatApplication-Client/Program.cs:191-196 | The duplex phase never asks about reconnecting and leaves the controller's console queue alone; the outbound pump's own console reads are `Duplex.input`. Only the outbound pump can clear `reconnect` |
| `Controller.TryPrompts` | ChatApplication-Client/Program.cs:198-216 | `TryConnection` asks once for a `WebSocketException` and once more when the socket ends up Aborted, and at no other time. Each question reads one line |
| `Controller.TryReconnect` | ChatApplication-Client/Program.cs:198-216 | After a question, `reconnect` is the answer to the last one. Without a question, `reconnect` is only ever cleared, and it is left unchanged unless the outbound pump ended the phase |
| `Controller.FailureAnsweredNoStops` | ChatApplication-Client/Program.cs:198-204 | A failed connect answered with `n` clears `reconnect` and ends the connect loop after that attempt |
| `Controller.ExitStops` | ChatApplication-Client/Program.cs:152-217 | Typing `exit` while connected, on a socket that does not end Aborted, clears `reconnect`, asks no reconnect question, and ends the connect loop after that attempt |
| `Controller.UsernameLoop` | ChatApplication-Client/Program.cs:47-69 | The username loop on a state, with whether a name was obtained. `UsernameLoopOutcome`, `UsernameLoopFound`, `UsernameLoopExhausted` and `WhitespaceNameAccepted` state its behaviour |
| `Controller.RunAttempts` | ChatApplication-Client/Program.cs:72-75 | The `while (reconnect)` loop over the attempts offered, with the number of `TryConnection` calls. `RunAttemptsWhileReconnect` states its behaviour |
| `Controller.Connect` | ChatApplication-Client/Program.cs:41-76 | `PromptUserNameAndConnect`: the username loop, then the connect loop only when a name was obtained. `ConnectKeepsName` states its behaviour |
| `Controller.Client.PromptUserNameAndConnect` | ChatApplication-Client/Program.cs:41-76 | The new state, whether a name was obtained and the number of `TryConnection` calls are those of `Connect` on the old state |
| `Controller.Client.PromptUserName` | ChatApplication-Client/Program.cs:47-69 | The new state and whether a name was obtained are those of `UsernameLoop` on the old state |
| `Controller.Client.ReconnectLoop` | ChatApplication-Client/Program.cs:72-75 | The new state and the number of `TryConnection` calls are those of `RunAttempts` on the old state and the attempts |
| `Controller.UsernameLoopOutcome` | ChatApplication-Client/Program.cs:47-69 | The username loop leaves only with a non-empty name. A name already set is kept without a prompt |
| `Controller.UsernameLoopFound` | ChatApplication-Client/Program.cs:47-69 | The loop takes the first line that is neither null nor empty as the name, consumes input up to it, and shows one prompt per line and one error per blank line |
| `Controller.UsernameLoopExhausted` | ChatApplication-Client/Program.cs:47-69 | With no such line, the loop reads past the end of input and stops without a name |
| `Controller.WhitespaceNameAccepted` | ChatApplication-Client/Program.cs:50-66 | A whitespace-only name draws the error but is accepted on the next pass |
| `Controller.RunAttemptsWhileReconnect` | ChatApplication-Client/Program.cs:72-75 | `TryConnection` runs exactly while `reconnect` is set: `reconnect` held before each attempt made, the loop stops early only with it cleared, and the name is kept |
| `Controller.ConnectKeepsName` | ChatApplication-Client/Program.cs:41-76 | A name obtained is non-empty and used for every attempt. A name already set is never re-prompted |
| `Text.ContainsIff` | ChatApplication-Client/Program.cs:314-325 | Ordinal `Contains` holds exactly when the pattern occurs at some position |
| `Text.ReplaceIsJoinOfSplit` | ChatApplication-Client/Program.cs:318-328 | `Replace` replaces every non-overlapping occurrence: it equals joining the pieces of the split on the pattern with the replacement, and no piece contains the pattern |
| `Text.SplitPieces` | ChatApplication-Client/Program.cs:318-331 | No piece of a split contains the separator, for a separator of any length |
| `Text.ReplaceByEmptyShortens` | ChatApplication-Client/Program.cs:318-328 | Deleting occurrences never makes a string longer |
| `Text.JoinSplitRoundTrip` | ChatApplication-Client/Program.cs:331 | Joining the pieces of a split with the separator gives back the string |
| `Text.SplitCharCount` | ChatApplication-Client/Program.cs:331 | Splitting on one character gives one more piece than there are occurrences of it |
| `Text.TrimShape` | ChatApplication-Client/Program.cs:333 | `Trim` gives the infix left after cutting whitespace off both ends, with no whitespace at either end |
| `Text.TrimOfPadded` | ChatApplication-Client/Program.cs:230 | `Trim` undoes any whitespace padding of a trimmed string |

## Left out

- WebSocket I/O (`ConnectAsync`, `SendAsync`, `ReceiveAsync`, `CloseAsync`, `CloseOutputAsync`, `Dispose`) is foreign library code. These calls are events, outputs or a state change on the `Socket` object. The connect outcome, the race winner and the final socket state are inputs.
- The server URL `ws://localhost:6000/ws?name=<username>` (line 173) is not modelled, because whether the connection succeeds is an input.
- Concurrency: `Task.Run` and `Task.WhenAny` (lines 192-196) become a sequential run of the winning pump only. The losing pump keeps running in the program but is not modelled.
- The outbound pump's console lines come with each connection attempt (`Duplex.input`). They are not taken from the controller's console queue, because the program's two readers of the console interleave with the concurrent pumps.
- The Ctrl+C handler (lines 24-29) is not a separate thread. Its clearing of `reconnect` is the `cleared` flag on each outbound read, and its `Environment.Exit` is not modelled.
- The `ProcessExit` hook (lines 32-35), `Main` and `Environment.Exit` are process lifecycle. `CloseWebSocket` is modelled on its own.
- `Controller.Try`: the disposal of the old `receiveTask` and `sendTask` (lines 160-161) is not modelled. `Task.Dispose` cancels nothing, and on a task that is still running it throws `InvalidOperationException` outside the `try`, so the exception escapes `TryConnection`. That happens when the previous socket is still Open while the losing pump still runs, for example the send pump blocked in `ReadLine` after the receive pump failed. In that case the model logs `OldSocketClosed` and goes on connecting.
- A pump that ends by an exception is not modelled as such. A `ReceiveAsync` that throws when the link drops is a receipt list that ends without a close frame; the state after the race (Aborted) then leads to "Connection lost.". A `SendAsync` that throws on a dead socket ends the outbound pump early, which the model shows as input that runs out. A `Send` in the log records the `SendAsync` call; it does not promise the frame was delivered.
- `Inbound.Deliver`: the transport that fills the buffer on every call is one way of cutting messages into chunks. The controller takes any `Receipts`, so it does not depend on that choice.
- Delays, `Thread.Sleep` and the progress dots (lines 176-180, 188, 256-273) are feedback only; `CloseOutputThenWait` and `WaitOnly` stand for them.
- UTF-8 encoding and decoding: payloads are strings, and the 1024-byte buffer is a bound on characters.
- `Text.ToLower`: only ASCII letters are lower-cased, not .NET's culture-sensitive `ToLower`.
- `Text.Trim`: a fixed whitespace set (space, tab to carriage return, U+0085, U+00A0), not all Unicode white space.
- Presentation: `ShowMainMenu` and its dispatch, `ViewConnectedUsers` and its `getConnectedUsers` request (lines 79-97), `ConsoleBorder`, `ConsoleCenterAlignment`, `ShowErrorMessage` (the message text is logged), colours and `Console.Clear`. A `showmenu` line is only a `MenuShown` event.
- `Controller.UsernameLoop`: at end of input the program re-prompts forever. The model stops there and reports that no name was obtained.
- `Controller.RunAttempts`: the program retries for as long as `reconnect` stays set. The model runs over the finite list of attempts the environment offers and stops when that list runs out.
- `Outbound.SendLoop`: when input runs out, the program would spin on null lines. The model stops there and leaves `reconnect` unchanged.
