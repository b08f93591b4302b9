# chatting-app: a Dafny model of the relay server and the login handshake

chatting-app is a Java chat application. A server accepts connections and keeps one
`ClientHandler` per connection in a list. The first line a client sends is a login line,
`LOGIN:<nickname>:<password>`. The handler checks it against the password the server was
started with and replies `LOGIN_SUCCESS` or `LOGIN_FAILED`. After a successful login, every
line the client sends is broadcast to every listed handler, the sender included.

Every message goes out as a block: its lines, then one empty line. A message longer than 90
characters is cut into a head line and indented continuation lines. When a client leaves,
the server unlists its handler and tells the others `Client <nickname> disconnected`.
The login window trims and checks the two fields and builds the login line. It then reacts
to the server's reply.

The project has these modules:

- `JavaString`: the parts of `java.lang.String` the code relies on. These are `indexOf`,
  `startsWith`, `repeat`, `trim`, and the one-character `split`, which drops trailing empty
  fields.
- `Segmenter`: `cutUpMessage` as a pure specification. It also holds the reader that puts a
  cut message back together, and the proofs of line length, piece shape, piece count,
  termination and round trip.
- `Login`: `validatePassword` and `passwordValid` as a pure check, with its
  consequences under Java's `split`.
- `LoginForm`: the checks and the login line of `LoginController.connect`, and the switch
  that reacts to the server's replies.
- `Delivery`: what the server writes to each connection, as values:
  - an `Endpoint` holds the delivered lines, the pending buffer and whether writes still
    succeed;
  - `Send` is one `sendMessage`;
  - `SessionView` is one whole `ClientHandler.run`, seen from every listed handler.
- `Networking`: the classes `ClientHandler` and `Server`. Their methods mutate the buffer,
  the output, the nickname and the client list, and each is proved against `Delivery`.
- `Handshake`: the login line from the window, through a handler's session, back to the
  window's reaction.

The continuation lines of a cut message overlap its head line. The loop changes its step
inside the loop body, before the loop adds the step to the index. So the second line starts
at index `85 - c` (with `c` the first colon's index, or -1), not at 90, and the last
`c + 5` characters of the head line are sent again at the start of the second line.
`Segmenter.NaiveRejoinRepeats` proves that gluing the lines together with their indents
stripped repeats those characters. `Segmenter.Reassemble` is a reader that does take the
overlap into account, and `Segmenter.RoundTrip` proves that it recovers every message whose
cut completes.

The code has two more edge cases that the model keeps:

- A first colon at index 85 makes the step zero, so the cutting loop never ends.
- A first colon after index 85 makes the step negative, so `substring` throws.

Both show up in the model as a `Fate`.

## Model

| member | source | states |
|---|---|---|
| JavaString.IndexOf | src/main/java/Networking/ClientHandler.java:90 | the result is the first index holding the character, and -1 exactly when the character is absent |
| JavaString.Split | src/main/java/Networking/ClientHandler.java:156 | with no separator the result is `[s]`; otherwise it is the fields between separators with the trailing empty fields dropped (only empty fields are dropped, and no field holds the separator) |
| JavaString.FieldsJoin | src/main/java/Networking/ClientHandler.java:156 | joining the fields of a string with the separator between neighbours gives the string back, so the fields lose nothing but the separators |
| JavaString.Trim | src/main/java/GUI/LoginController.java:55-56 | the result is a slice of the input, every character cut off before and after it is at most U+0020, and the result neither starts nor ends with such a character |
| JavaString.TrimIdempotent | src/main/java/GUI/LoginController.java:55-56 | trimming twice is trimming once |
| Segmenter.Indent | src/main/java/Networking/ClientHandler.java:90-91 | the indent is `c + 5` blanks, where `c + 4` is the label width, and indent plus step is 90 |
| Segmenter.PiecesFitLine | src/main/java/Networking/ClientHandler.java:95-99 | no line a message is sent as is longer than 90 characters, continuation lines included |
| Segmenter.PieceShape | src/main/java/Networking/ClientHandler.java:88-100 | the head is `m[0..90)`; piece `k >= 1` is the indent followed by `m[k*step .. min(len,(k+1)*step))` |
| Segmenter.PieceCount | src/main/java/Networking/ClientHandler.java:93-100 | a cut message has `ceil(len/step)` pieces: `(n-1)*step < len <= n*step` |
| Segmenter.Termination | src/main/java/Networking/ClientHandler.java:90-97 | for a message over 90 characters, the cut completes exactly when the first colon is before index 85, and never ends exactly when it is at 85 |
| Segmenter.RoundTrip | src/main/java/Networking/ClientHandler.java:93-99 | the first `step` characters of the head, then each continuation without its indent, give back every message whose cut completes |
| Segmenter.NaiveRejoinRepeats | src/main/java/Networking/ClientHandler.java:93-99 | gluing the head and the unindented continuations gives `m[..90] + m[step..]`, which is not `m`: the `c + 5` characters `m[step..90)` come out twice |
| Segmenter.JustOverLimit | src/main/java/Networking/ClientHandler.java:64-99 | a colon-free line of 91 characters becomes `m[..90]` and four blanks followed by `m[86..]` |
| Segmenter.ColonFreeCompletes | src/main/java/Networking/ClientHandler.java:90-97 | a line without a colon always cuts cleanly, with a 4-blank indent and step 86 |
| Segmenter.ChatLineCompletes | src/main/java/Networking/ClientHandler.java:90-97 | a chat line `nickname + ": " + text` with a colon-free nickname shorter than 85 characters always cuts cleanly, with an indent of the nickname's length plus 5 |
| Segmenter.AliceExample | src/main/java/Networking/ClientHandler.java:88-100 | a 200-character line labelled `Alice: ` goes out as 3 lines; the head is its first 90 characters, no line is over 90, and the reader recovers the line |
| Login.PasswordValid | src/main/java/Networking/Server.java:122-124 | an attempt is valid only if it equals the stored password, and never while no password is stored |
| Login.Check | src/main/java/Networking/ClientHandler.java:153-168 | accepted if and only if all of these hold: the line exists, it starts with `LOGIN:`, it splits into exactly 3 fields, and the third field is the password; the nickname is the second field, colon-free |
| Login.LoginLineSplit | src/main/java/Networking/ClientHandler.java:154-158 | `LOGIN:u:p` followed by any number of colons splits into exactly `LOGIN`, `u`, `p` |
| Login.LoginLineChecked | src/main/java/Networking/ClientHandler.java:153-167 | such a line is accepted with nickname `u` exactly when `p` is the server's password |
| Login.EmptyPasswordRejected | src/main/java/Networking/ClientHandler.java:156-158 | `LOGIN:u:` is always rejected |
| Login.InnerColonRejected | src/main/java/Networking/ClientHandler.java:156-158 | a password with a colon inside makes four fields, and the line is always rejected |
| Login.ColonPasswordUnmatchable | src/main/java/Networking/ClientHandler.java:156-163 | a server password containing a colon is never matched |
| Login.TrailingColonExample | src/main/java/Networking/ClientHandler.java:153-167 | `LOGIN:bob:pw:` is accepted with nickname `bob` under password `pw` |
| Login.EmptyNicknameExample | src/main/java/Networking/ClientHandler.java:153-167 | `LOGIN::pw` is accepted with the empty nickname |
| Login.MissingPasswordExample | src/main/java/Networking/ClientHandler.java:153-167 | `LOGIN:bob:` is always rejected |
| LoginForm.Connect | src/main/java/GUI/LoginController.java:55-66 | a submission is sent only with an acceptable username and a non-empty password, as the line `LOGIN:<username>:<password>` |
| LoginForm.ConnectTrims | src/main/java/GUI/LoginController.java:55-56 | only the trimmed fields matter, and the trimmed fields are what gets sent |
| LoginForm.ConnectOrder | src/main/java/GUI/LoginController.java:58-66 | "Invalid username" exactly when the trimmed username is empty, over 15 characters or holds a colon; "Please enter a password" exactly when the username passes and the trimmed password is empty; the error text shown is the one of the check that failed first |
| LoginForm.SentLineAccepted | src/main/java/GUI/LoginController.java:94 | the sent line splits into exactly `LOGIN`, username and a colon-free password, and the server accepts it, with the username as nickname, exactly when the password matches |
| LoginForm.InnerColonPasswordRejected | src/main/java/GUI/LoginController.java:63-66 | the window lets a password with an inner colon through, and the server then rejects it whatever its password |
| LoginForm.Dispatch | src/main/java/GUI/LoginController.java:70-80 | `LOGIN_SUCCESS` and nothing else opens the chat; `SERVER_FULL` shows "Server is full" and `LOGIN_FAILED` shows "Invalid credentials"; every other line has no effect |
| LoginForm.Reactions | src/main/java/GUI/LoginController.java:70-80 | the listener reacts to each line read, once and in order |
| LoginForm.ReplyBlocks | src/main/java/GUI/LoginController.java:70-80 | each reply block opens the chat or shows "Invalid credentials" once, and its empty framing line has no effect |
| Delivery.RemoveFirstDistinct | src/main/java/Networking/Server.java:88 | removing from a duplicate-free list: one fewer element when it was listed, the same list when it was not, no trace of it, the others kept in order |
| Delivery.SendAllDelivers | src/main/java/Networking/ClientHandler.java:68-75 | on a working writer with nothing pending, messages that cut cleanly are delivered as their blocks, in order, and nothing stays pending |
| Delivery.ShortBlocksVerbatim | src/main/java/Networking/ClientHandler.java:64-73 | messages of at most 90 characters (90 included) go out verbatim, each followed by one empty line |
| Delivery.SendKeepsLinesShort | src/main/java/Networking/ClientHandler.java:63-79 | no send ever writes or buffers a line over 90 characters |
| Delivery.StaleHeadResent | src/main/java/Networking/ClientHandler.java:68-78 | the head piece of a message whose cut fails stays buffered, and the next good message carries it in front of its own lines |
| Delivery.DepartureCompletes | src/main/java/Networking/Server.java:89 | a departure notice for a colon-free nickname, or for none, always cuts cleanly |
| Delivery.SessionExtends | src/main/java/Networking/ClientHandler.java:115-143 | a session only appends to a listed handler's output |
| Delivery.SessionGreets | src/main/java/Networking/ClientHandler.java:118-125 | the first block the logging-in handler gets is `LOGIN_SUCCESS` or `LOGIN_FAILED`, as the verdict says |
| Delivery.FailedLoginSession | src/main/java/Networking/ClientHandler.java:118-142 | a rejected or missing login gives the handler exactly the `LOGIN_FAILED` block, and each other handler exactly `Client null disconnected`; no later line is broadcast |
| Delivery.AcceptedSession | src/main/java/Networking/ClientHandler.java:124-142 | after an accepted login whose lines all cut, the handler gets `LOGIN_SUCCESS` and then every line's block in arrival order; every other handler gets the same blocks, then the departure notice |
| Networking.ClientHandler.constructor | src/main/java/Networking/ClientHandler.java:28-38 | a new handler has no nickname, nothing buffered or delivered, and a working writer |
| Networking.ClientHandler.Terminate | src/main/java/Networking/ClientHandler.java:43-51 | afterwards every write fails; nothing else changes |
| Networking.ClientHandler.CutUpMessage | src/main/java/Networking/ClientHandler.java:88-102 | the loop appends exactly the pieces of `Segmenter.CutUp` to the buffer and ends with its fate |
| Networking.ClientHandler.SendMessage | src/main/java/Networking/ClientHandler.java:63-79 | the new view is `Delivery.Send` of the old one, and the result is the message's fate |
| Networking.ClientHandler.ValidatePassword | src/main/java/Networking/ClientHandler.java:153-168 | the result is `Login.Check` of the line; the nickname is set to the checked nickname on acceptance and left alone otherwise |
| Networking.ClientHandler.Run | src/main/java/Networking/ClientHandler.java:115-143 | the fate is `SessionFate`; the nickname is set exactly on acceptance; the handler is unlisted unless the run never ends; every other listed handler keeps its nickname; every handler listed at the start ends where `SessionView` says |
| Networking.ClientHandler.Relay | src/main/java/Networking/ClientHandler.java:127-131 | every listed handler ends at `Relayed` of its old view, and the loop's fate is `RelayFate` |
| Networking.ClientHandler.Finish | src/main/java/Networking/ClientHandler.java:139-142 | the handler is unlisted and closed; each other handler listed before gets the departure notice of its nickname |
| Networking.Server.constructor | src/main/java/Networking/Server.java:20-23 | no handler is listed yet, and the password is the one given |
| Networking.Server.AcceptConnection | src/main/java/Networking/Server.java:43-44 | a fresh handler, not logged in, is appended to the end of the list, which stays duplicate-free |
| Networking.Server.Broadcast | src/main/java/Networking/Server.java:70-76 | every listed handler, the sender and handlers not yet logged in included, gets `Send` of the message; a message whose cut fails reaches only the first handler; the list is unchanged |
| Networking.Server.RemoveClient | src/main/java/Networking/Server.java:87-93 | the list loses exactly the first occurrence of the handler, or is unchanged if it was not listed; every handler still listed gets the departure notice; the removed handler gets nothing |
| Networking.Server.GetClientCount | src/main/java/Networking/Server.java:95-97 | the result is the length of the list |
| Networking.Server.Terminate | src/main/java/Networking/Server.java:105-114 | every listed handler gets `Server is shutting down` and keeps its nickname, and the list is unchanged |
| Handshake.SubmissionAnswered | src/main/java/GUI/LoginController.java:55-94 | for a submission the window sends, with a colon-free password, the lines the handler had delivered before stay first (broadcasts reach a listed handler before it reads its login line); the next line opens the chat exactly when the password is the server's and otherwise shows "Invalid credentials", and the line after it has no effect |
| Handshake.SilentClientRejected | src/main/java/Networking/ClientHandler.java:118-122 | a connection that ends before any line is rejected, and the others get `Client null disconnected` |

## Left out

- Sockets, streams, `accept`, `readLine`, `flush` and `close`. The input of a connection is
  the sequence of lines its reader yields before it ends. A read error after the login line
  ends it the same way, because both leave the read loop for the same `finally` block. Each
  writer is an append-only sequence of lines, and whether writing still succeeds is a flag.
- A read error on the login line itself. It skips the `LOGIN_FAILED` reply and goes straight
  to the cleanup, while an input that ends before any line (`readLine` returning null) gets
  the reply. The model has only the second case: an empty input gets `LOGIN_FAILED`.
- Text outside the Basic Multilingual Plane. Java's `length`, `indexOf` and `substring`
  count UTF-16 code units, and a `string` here stands for the message's code units, one
  character per unit. A message with surrogate pairs is therefore not modelled: Java counts
  each such character twice when it decides whether to cut and where, and its `substring`
  can split a pair, which a Dafny `string` cannot hold.
- Threads, `synchronized` and the `running` flags. Each call runs to its end before the next
  one starts, so interleavings of handlers are not modelled.
- The accept loop as a loop. `Networking.Server.AcceptConnection` models one turn of it:
  the handler is created and listed. Starting its thread amounts to calling `Run` later.
- `Networking.ClientHandler.CutUpMessage`: when the step is zero, the source keeps
  appending indent-only pieces without end. The model returns `NeverEnds` after the head
  piece instead, so the endless growth of the buffer is not modelled.
- `Networking.ClientHandler.Run`: a run that never ends is modelled as returning
  `NeverEnds` with no cleanup. It also requires the handler to be listed already, as the
  accept loop guarantees before the thread starts.
- `Networking.ClientHandler.Finish`: requires a colon-free nickname. `ValidatePassword`
  only ever assigns such a nickname.
- `Networking.ClientHandler.constructor`: it models only streams that open. When they
  fail, the source closes the handler with null streams, and a later write then throws a
  `NullPointerException`.
- Partial writes: a writer either delivers a whole block or fails before its first line.
- The closing of the server socket in `Server.terminate`, and `Server.main`'s console
  prompt. The password is a constructor argument, and `None` stands for a password that was
  never typed.
- Client.java, ChattingApp.java and ChattingAppController.java: network-client plumbing
  and JavaFX wiring. Client.java is not part of this model beyond the fact that every line
  it reads is handed to the listener (`LoginForm.Reactions`).
- Console logging and the distinction between a reset connection and other I/O errors.
  Neither changes any state.
