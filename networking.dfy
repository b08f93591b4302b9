/**
  The classes of the server side: `ClientHandler`, one per accepted
  connection, and `Server`, which keeps the list of handlers. Threads are
  not modelled: every call runs to its end before the next one starts,
  which is what the `synchronized` methods of the server give each
  broadcast and removal. Every method is proved against the values of
  `Delivery`: after it, each handler's `View()` is what `Send`,
  `SendAll` or `SessionView` say of its view before.
 */
module Networking {
  import opened Wrappers
  import opened JavaString
  import opened Segmenter
  import opened Delivery
  import Login

  class ClientHandler {
    /** The server that accepted the connection. */
    const server: Server
    /** Set by a successful login; `None` stands for Java's null. */
    var nickname: Option<string>
    /** The pieces waiting to be written (`messages`). */
    var messages: seq<string>
    /** Every line the writer has delivered to the client so far, empty framing lines included. */
    var output: seq<string>
    /** Whether writing still succeeds: false once `terminate` has closed the streams. */
    var writable: bool

    function View(): Endpoint
      reads this
    {
      Endpoint(output, messages, writable)
    }

    /** A handler for a freshly accepted connection whose streams opened. */
    constructor (server: Server)
      ensures this.server == server && nickname == None
      ensures View() == Endpoint([], [], true)
    {
      this.server := server;
      nickname := None;
      messages := [];
      output := [];
      writable := true;
    }

    /** `terminate`: closes the streams, after which every write fails. */
    method Terminate()
      modifies this`writable
      ensures View() == old(View()).(writable := false)
    {
      writable := false;
    }

    /**
      `cutUpMessage(message)`: appends the head piece and the indented
      continuation pieces to the buffer. When the step is zero the loop
      would go on appending indents forever, and when it is negative the
      next `substring` throws; the method then returns that fate with the
      head piece appended.
     */
    method CutUpMessage(message: string) returns (fate: Fate)
      modifies this`messages
      ensures messages == old(messages) + CutUp(message).pieces
      ensures fate == CutUp(message).fate
    {
      var first := true;
      var nicknamespace := IndexOf(message, ':') + 4;
      var spaces := Repeat(' ', nicknamespace + 1);
      var limit := 90;
      var i := 0;
      while i < |message|
        invariant first ==> i == 0 && limit == 90 && messages == old(messages)
        invariant !first ==> 0 < |message| && limit == Step(message) && spaces == Indent(message)
        invariant !first && limit <= 0 ==> i == limit && messages == old(messages) + CutUp(message).pieces
        invariant !first && 0 < limit ==>
          (limit <= i && messages + Continuations(message, i, limit, spaces) == old(messages) + CutUp(message).pieces)
        decreases if first then 1 else 0, |message| - i
      {
        if first {
          messages := messages + [message[i..Min(|message|, i + 90)]];
          first := false;
          limit := 90 - nicknamespace - 1;
        } else {
          if limit == 0 {
            // the index no longer advances: indents are appended without end
            return NeverEnds;
          } else if i < 0 {
            // `substring` with a negative start
            return IndexOutOfBounds;
          }
          messages := messages + [spaces + message[i..Min(|message|, i + limit)]];
        }
        i := i + limit;
      }
      fate := Completes;
    }

    /**
      `sendMessage(message)`: buffers the message, or its cut when it is
      longer than 90 characters, then writes every buffered piece on its own
      line, then an empty line, and clears the buffer. A write that fails is
      swallowed and leaves the buffer as it is; a cut that fails propagates
      before anything is written.
     */
    method SendMessage(message: string) returns (fate: Fate)
      modifies this`messages, this`output
      ensures View() == Send(old(View()), message)
      ensures fate == Outgoing(message).fate
    {
      if |message| > 90 {
        fate := CutUpMessage(message);
        if fate != Completes {
          return;
        }
      } else {
        messages := messages + [message];
        fate := Completes;
      }
      if !writable {
        // the first write throws; the exception is caught and the buffer kept
        return;
      }
      ghost var before := output;
      ghost var buffered := messages;
      for j := 0 to |messages|
        invariant messages == buffered
        invariant output == before + messages[..j]
      {
        output := output + [messages[j]];
      }
      output := output + [""];
      messages := [];
    }

    /**
      `validatePassword(line)`: accepts a line of the form
      `LOGIN:<nickname>:<password>` whose password is the server's, and then
      records the nickname.
     */
    method ValidatePassword(line: Option<string>) returns (ok: bool)
      modifies this`nickname
      ensures ok == Login.Check(line, server.password).Accepted?
      ensures ok ==> nickname == Some(Login.Check(line, server.password).nickname)
      ensures !ok ==> nickname == old(nickname)
    {
      if line.None? || !StartsWith(line.value, "LOGIN:") {
        return false;
      }
      var parts := Split(line.value, ':');
      if |parts| != 3 {
        return false;
      }
      var username := parts[1];
      var password := parts[2];
      var valid := Login.PasswordValid(server.password, password);
      if valid {
        nickname := Some(username);
        return true;
      } else {
        return false;
      }
    }

    /**
      `run`, for a connection whose reader yields the lines of `input` and
      then ends (a read error after the login line ends it the same way). The login line decides;
      a rejected one gets `LOGIN_FAILED` and the handler is closed; an
      accepted one gets `LOGIN_SUCCESS`, and then every later line is
      broadcast. Unless a line never stops being cut, the `finally` block
      removes the handler from the server and closes it. Every handler
      listed at the start ends as `SessionView` says.
     */
    method Run(input: seq<string>) returns (fate: Fate)
      requires server.Valid() && this in server.clients && nickname == None
      modifies this, server, server.clients
      ensures var verdict := Login.Check(LoginAttempt(input), server.password);
        && fate == SessionFate(verdict, ChatLines(input))
        && nickname == (if verdict.Accepted? then Some(verdict.nickname) else None)
        && server.Valid()
        && server.clients == (if fate == NeverEnds then old(server.clients) else RemoveFirst(old(server.clients), this))
        && (forall c :: c in old(server.clients) && c != this ==> c.nickname == old(c.nickname))
        && forall c :: c in old(server.clients) ==>
             c.View() == SessionView(old(c.View()), c == this, c == old(server.clients)[0], verdict, ChatLines(input))
    {
      var ok := ValidatePassword(LoginAttempt(input));
      if !ok {
        var _ := SendMessage("LOGIN_FAILED");
        Terminate();
        Finish();
        return Completes;
      }
      var _ := SendMessage("LOGIN_SUCCESS");
      fate := Relay(ChatLines(input));
      if fate != NeverEnds {
        Finish();
      }
    }

    /**
      The read loop of `run`: every line is broadcast, until the lines run
      out or a line cannot be cut.
     */
    method Relay(lines: seq<string>) returns (fate: Fate)
      requires server.Valid() && this in server.clients
      modifies server.clients
      ensures fate == RelayFate(lines)
      ensures forall c :: c in server.clients ==> c.nickname == old(c.nickname)
      ensures forall c :: c in server.clients ==> c.View() == Relayed(old(c.View()), c == server.clients[0], lines)
    {
      var i := 0;
      while i < |lines|
        invariant 0 <= i <= Completing(lines)
        invariant forall c :: c in server.clients ==> c.nickname == old(c.nickname)
        invariant forall c :: c in server.clients ==> c.View() == SendAll(old(c.View()), lines[..i])
      {
        fate := server.Broadcast(lines[i], this);
        ghost var prefix := lines[..i];
        forall c | c in server.clients
          ensures SendAll(old(c.View()), lines[..i + 1]) == Send(SendAll(old(c.View()), prefix), lines[i])
        {
          assert lines[..i + 1] == prefix + [lines[i]];
          SendAllSnoc(old(c.View()), prefix, lines[i]);
        }
        if fate != Completes {
          CompletingStops(lines, i);
          return;
        }
        i := i + 1;
      }
      assert lines[..i] == lines;
      fate := Completes;
    }

    /**
      The `finally` block of `run`: `removeClient(this)`, then `terminate`.
      A colon-free nickname makes the departure notice cut cleanly.
     */
    method Finish()
      requires server.Valid() && this in server.clients
      requires nickname.Some? ==> ':' !in nickname.value
      modifies this`writable, server, server.clients
      ensures server.Valid() && server.clients == RemoveFirst(old(server.clients), this)
      ensures forall c :: c in old(server.clients) ==> c.nickname == old(c.nickname)
      ensures forall c :: c in old(server.clients) ==>
        c.View() == Closed(old(c.View()), c == this, old(nickname))
    {
      DepartureCompletes(nickname);
      RemoveFirstDistinct(server.clients, this);
      var _ := server.RemoveClient(this);
      Terminate();
    }
  }

  class Server {
    /** The password typed when the server started; `None` until then. */
    const password: Option<string>
    /** The handlers of the open connections, in the order they were accepted. */
    var clients: seq<ClientHandler>

    /** No handler is listed twice. */
    ghost predicate Valid()
      reads this
    {
      Distinct(clients)
    }

    constructor (password: Option<string>)
      ensures this.password == password && clients == [] && Valid()
    {
      this.password := password;
      clients := [];
    }

    /** One turn of the accept loop: a handler for the new connection is created and listed last. */
    method AcceptConnection() returns (h: ClientHandler)
      requires Valid()
      modifies this
      ensures fresh(h) && h.server == this && h.nickname == None && h.View() == Endpoint([], [], true)
      ensures clients == old(clients) + [h] && Valid()
    {
      h := new ClientHandler(this);
      clients := clients + [h];
    }

    /**
      `broadcast(message, sender)`: sends the message to every listed
      handler, the sender included. A message whose cut fails fails at the
      first handler, which keeps the head piece, and reaches nobody else.
     */
    method Broadcast(message: string, sender: ClientHandler) returns (fate: Fate)
      requires Valid()
      modifies clients
      ensures clients == old(clients)
      ensures fate == if clients == [] then Completes else Outgoing(message).fate
      ensures forall c :: c in clients ==> c.nickname == old(c.nickname)
      ensures forall c :: c in clients ==>
        c.View() == if fate == Completes || c == clients[0] then Send(old(c.View()), message) else old(c.View())
    {
      var j := 0;
      while j < |clients|
        invariant 0 <= j <= |clients|
        invariant 0 < j ==> Cuts(message)
        invariant forall k :: 0 <= k < j ==> clients[k].View() == Send(old(clients[k].View()), message)
        invariant forall k :: j <= k < |clients| ==> clients[k].View() == old(clients[k].View())
        invariant forall c :: c in clients ==> c.nickname == old(c.nickname)
      {
        var f := clients[j].SendMessage(message);
        if f != Completes {
          return f;
        }
        j := j + 1;
      }
      fate := Completes;
    }

    /**
      `removeClient(h)`: unlists the first occurrence of `h`, then broadcasts
      its departure to the handlers still listed.
     */
    method RemoveClient(h: ClientHandler) returns (fate: Fate)
      requires Valid()
      modifies this, clients
      ensures Valid() && clients == RemoveFirst(old(clients), h)
      ensures fate == if clients == [] then Completes else Outgoing(Departure(old(h.nickname))).fate
      ensures forall c :: c in clients ==> c.nickname == old(c.nickname)
      ensures forall c :: c in clients ==>
        c.View() == if fate == Completes || c == clients[0]
                    then Send(old(c.View()), Departure(old(h.nickname))) else old(c.View())
      ensures h.View() == old(h.View()) && h.nickname == old(h.nickname)
    {
      RemoveFirstDistinct(clients, h);
      clients := RemoveFirst(clients, h);
      fate := Broadcast(Departure(h.nickname), h);
    }

    /** `getClientCount`. */
    method GetClientCount() returns (n: nat)
      ensures n == |clients|
    {
      n := |clients|;
    }

    /** The sending part of `terminate`: every listed handler is told the server is shutting down. */
    method Terminate()
      requires Valid()
      modifies clients
      ensures clients == old(clients)
      ensures forall c :: c in clients ==> c.nickname == old(c.nickname)
      ensures forall c :: c in clients ==> c.View() == Send(old(c.View()), ShutdownNotice)
    {
      assert Outgoing(ShutdownNotice) == Cut([ShutdownNotice], Completes);
      var j := 0;
      while j < |clients|
        invariant 0 <= j <= |clients|
        invariant forall k :: 0 <= k < j ==> clients[k].View() == Send(old(clients[k].View()), ShutdownNotice)
        invariant forall k :: j <= k < |clients| ==> clients[k].View() == old(clients[k].View())
        invariant forall c :: c in clients ==> c.nickname == old(c.nickname)
      {
        var _ := clients[j].SendMessage(ShutdownNotice);
        j := j + 1;
      }
    }
  }
}
