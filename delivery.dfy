/**
  What the server writes to each connection, as values. A handler's
  connection is seen through an `Endpoint`: the lines its writer has
  delivered, the pieces waiting in its buffer, and whether writes still
  succeed. `Send` is the effect of one `sendMessage`, and `SessionView` the
  effect of a whole `ClientHandler.run` on every handler listed when it
  starts. The handler and server classes are proved against these.
 */
module Delivery {
  import opened Wrappers
  import opened JavaString
  import opened Segmenter
  import Login

  /** The part of a handler a send changes: delivered lines, pending pieces, and whether writes succeed. */
  datatype Endpoint = Endpoint(output: seq<string>, buffer: seq<string>, writable: bool)

  /**
    The effect of `sendMessage(message)` on an endpoint. The message (or its
    cut) is appended to the buffer. If the cut completes and the writer
    works, the whole buffer goes out, each piece on its own line, then one
    empty line, and the buffer is cleared. If a write fails, the exception is
    swallowed and the buffer keeps its pieces; if the cut throws or never
    ends, the buffer keeps the pieces appended so far.
   */
  function Send(e: Endpoint, message: string): Endpoint
  {
    var cut := Outgoing(message);
    if cut.fate == Completes && e.writable then Endpoint(e.output + e.buffer + cut.pieces + [""], [], true)
    else e.(buffer := e.buffer + cut.pieces)
  }

  /** The cut of `message` completes, so a send of it reaches the writer. */
  predicate Cuts(message: string)
  {
    Outgoing(message).fate == Completes
  }

  /** `sendMessage` of each message in turn. */
  function SendAll(e: Endpoint, messages: seq<string>): Endpoint
    decreases |messages|
  {
    if messages == [] then e
    else Send(SendAll(e, messages[..|messages| - 1]), messages[|messages| - 1])
  }

  /** The lines one message takes on the wire: its pieces and the empty line that ends them. */
  function Block(message: string): seq<string>
  {
    Outgoing(message).pieces + [""]
  }

  function Blocks(messages: seq<string>): seq<string>
    decreases |messages|
  {
    if messages == [] then []
    else Blocks(messages[..|messages| - 1]) + Block(messages[|messages| - 1])
  }

  /** The number of leading messages whose cut completes. */
  function Completing(messages: seq<string>): (k: nat)
    ensures k <= |messages|
    ensures forall i :: 0 <= i < k ==> Cuts(messages[i])
    ensures k < |messages| ==> !Cuts(messages[k])
  {
    CompletingFrom(messages, 0)
  }

  /** The index of the first message from `start` on whose cut does not complete, or the length. */
  function CompletingFrom(messages: seq<string>, start: nat): (k: nat)
    requires start <= |messages|
    ensures start <= k <= |messages|
    ensures forall i :: start <= i < k ==> Cuts(messages[i])
    ensures k < |messages| ==> !Cuts(messages[k])
    decreases |messages| - start
  {
    if start == |messages| || !Cuts(messages[start]) then start
    else CompletingFrom(messages, start + 1)
  }

  /** The notice `removeClient` broadcasts; Java prints a null nickname as `null`. */
  function Departure(nickname: Option<string>): string
  {
    "Client " + (if nickname.Some? then nickname.value else "null") + " disconnected"
  }

  const ShutdownNotice := "Server is shutting down"

  predicate Distinct<T(==)>(s: seq<T>)
  {
    forall i, j :: 0 <= i < j < |s| ==> s[i] != s[j]
  }

  function Position<T(==)>(s: seq<T>, x: T): (i: nat)
    requires x in s
    ensures i < |s| && s[i] == x && x !in s[..i]
  {
    if s[0] == x then 0
    else
      var k := Position(s[1..], x);
      assert s[..k + 1] == [s[0]] + s[1..][..k];
      k + 1
  }

  /** `List.remove(Object)`: the list without the first occurrence of `x`; the list itself when `x` is absent. */
  function RemoveFirst<T(==)>(s: seq<T>, x: T): seq<T>
  {
    if x in s then s[..Position(s, x)] + s[Position(s, x) + 1..] else s
  }

  /**
    Removing from a duplicate-free list: one element fewer when it was
    there, the same list when it was not, no trace of it either way, every
    other element kept in its order, and still no duplicates.
   */
  lemma RemoveFirstDistinct<T>(s: seq<T>, x: T)
    requires Distinct(s)
    ensures var r := RemoveFirst(s, x);
      && Distinct(r)
      && x !in r
      && |r| == (if x in s then |s| - 1 else |s|)
      && (forall y :: y in r <==> y in s && y != x)
      && (x in s ==> r == s[..Position(s, x)] + s[Position(s, x) + 1..])
      && (x !in s ==> r == s)
  {
    if x in s {
      var p := Position(s, x);
      var r := RemoveFirst(s, x);
      assert forall i :: 0 <= i < |r| ==> r[i] == if i < p then s[i] else s[i + 1];
      forall y ensures y in r <==> y in s && y != x {
        if y in s && y != x {
          var i :| 0 <= i < |s| && s[i] == y;
          assert i != p;
          assert r[if i < p then i else i - 1] == y;
        }
      }
    }
  }

  /** A prefix of lines that all cut, followed by one that does not, ends the completing run. */
  lemma CompletingStops(lines: seq<string>, i: nat)
    requires i < |lines| && i <= Completing(lines) && !Cuts(lines[i])
    ensures Completing(lines) == i
  {
  }

  /** A send never takes back a delivered line: the old output is a prefix of the new. */
  lemma SendExtends(e: Endpoint, m: string)
    ensures e.output <= Send(e, m).output
  {
  }

  lemma {:induction false} SendAllExtends(e: Endpoint, messages: seq<string>)
    ensures e.output <= SendAll(e, messages).output
    decreases |messages|
  {
    if messages != [] {
      SendAllExtends(e, messages[..|messages| - 1]);
      SendExtends(SendAll(e, messages[..|messages| - 1]), messages[|messages| - 1]);
    }
  }

  /** Whatever the verdict and the later lines, a session only appends to a listed handler's output. */
  lemma SessionExtends(e: Endpoint, isSelf: bool, isFirst: bool, verdict: Login.Verdict, lines: seq<string>)
    ensures e.output <= SessionView(e, isSelf, isFirst, verdict, lines).output
  {
    var e1 := if isSelf then Send(e, if verdict.Rejected? then "LOGIN_FAILED" else "LOGIN_SUCCESS") else e;
    SendExtends(e, if verdict.Rejected? then "LOGIN_FAILED" else "LOGIN_SUCCESS");
    var k := Completing(lines);
    SendAllExtends(e1, lines[..k]);
    var e2 := SendAll(e1, lines[..k]);
    var e3 := if k < |lines| && isFirst then Send(e2, lines[k]) else e2;
    if k < |lines| {
      SendExtends(e2, lines[k]);
    }
    if verdict.Accepted? {
      assert e3 == Relayed(e1, isFirst, lines);
      SendExtends(e3, Departure(Some(verdict.nickname)));
    } else {
      SendExtends(e1, Departure(None));
    }
  }

  /**
    The first block the logging-in handler receives in its session is the
    reply to its login line, whatever follows.
   */
  lemma SessionGreets(e: Endpoint, isFirst: bool, verdict: Login.Verdict, lines: seq<string>)
    requires e.writable && e.buffer == []
    ensures e.output + [if verdict.Accepted? then "LOGIN_SUCCESS" else "LOGIN_FAILED", ""] <=
      SessionView(e, true, isFirst, verdict, lines).output
  {
    var reply := if verdict.Accepted? then "LOGIN_SUCCESS" else "LOGIN_FAILED";
    assert Outgoing(reply) == Cut([reply], Completes);
    var e1 := Send(e, reply);
    assert e1.output == e.output + [reply, ""];
    if verdict.Accepted? {
      var k := Completing(lines);
      SendAllExtends(e1, lines[..k]);
      var e2 := SendAll(e1, lines[..k]);
      if k < |lines| {
        SendExtends(e2, lines[k]);
      }
    }
  }

  lemma SendAllSnoc(e: Endpoint, messages: seq<string>, m: string)
    ensures SendAll(e, messages + [m]) == Send(SendAll(e, messages), m)
  {
    assert (messages + [m])[..|messages|] == messages;
  }

  /**
    On a working writer with nothing pending, sending messages whose cuts
    complete delivers exactly their blocks, in order, and leaves nothing
    pending.
   */
  lemma {:induction false} SendAllDelivers(e: Endpoint, messages: seq<string>)
    requires e.writable && e.buffer == []
    requires forall i :: 0 <= i < |messages| ==> Cuts(messages[i])
    ensures SendAll(e, messages) == Endpoint(e.output + Blocks(messages), [], true)
    decreases |messages|
  {
    if messages != [] {
      var init := messages[..|messages| - 1];
      var last := messages[|messages| - 1];
      assert forall i :: 0 <= i < |init| ==> init[i] == messages[i];
      SendAllDelivers(e, init);
      assert Cuts(last);
      SendDelivers(SendAll(e, init), last);
      assert SendAll(e, messages) == Send(SendAll(e, init), last);
      assert Blocks(messages) == Blocks(init) + Block(last);
    }
  }

  /** On a working writer with nothing pending, a message that cuts goes out as its block. */
  lemma SendDelivers(e: Endpoint, message: string)
    requires e.writable && e.buffer == [] && Cuts(message)
    ensures Send(e, message) == Endpoint(e.output + Block(message), [], true)
  {
    assert e.output + e.buffer + Outgoing(message).pieces + [""] == e.output + Block(message);
  }

  /** Lines of at most 90 characters go out verbatim, each followed by an empty line. */
  lemma {:induction false} ShortBlocksVerbatim(messages: seq<string>)
    requires forall i :: 0 <= i < |messages| ==> |messages[i]| <= LineLimit
    ensures |Blocks(messages)| == 2 * |messages|
    ensures forall i :: 0 <= i < |messages| ==>
      Blocks(messages)[2 * i] == messages[i] && Blocks(messages)[2 * i + 1] == ""
    decreases |messages|
  {
    if messages != [] {
      var n := |messages| - 1;
      var init := messages[..n];
      assert forall i :: 0 <= i < |init| ==> init[i] == messages[i];
      ShortBlocksVerbatim(init);
      assert Block(messages[n]) == [messages[n], ""];
    }
  }

  /** Every line a send writes is at most 90 characters: a bound every endpoint keeps. */
  lemma SendKeepsLinesShort(e: Endpoint, m: string)
    requires forall i :: 0 <= i < |e.output| ==> |e.output[i]| <= LineLimit
    requires forall i :: 0 <= i < |e.buffer| ==> |e.buffer[i]| <= LineLimit
    ensures var e' := Send(e, m);
      (forall i :: 0 <= i < |e'.output| ==> |e'.output[i]| <= LineLimit) &&
      (forall i :: 0 <= i < |e'.buffer| ==> |e'.buffer[i]| <= LineLimit)
  {
    PiecesFitLine(m);
  }

  /**
    A message whose cut throws leaves its head piece in the buffer of the
    handler it was being sent to, and the next message that handler gets
    carries that head in front of it, in the same block.
   */
  lemma StaleHeadResent(e: Endpoint, bad: string, next: string)
    requires e.writable && |bad| > LineLimit && Outgoing(bad).fate != Completes
    requires Outgoing(next).fate == Completes
    ensures Send(Send(e, bad), next).output == e.output + e.buffer + [bad[..LineLimit]] + Block(next)
  {
  }

  /** A departure notice never makes the cutting loop fail: nicknames come colon-free out of the split. */
  lemma DepartureCompletes(nickname: Option<string>)
    requires nickname.Some? ==> ':' !in nickname.value
    ensures Outgoing(Departure(nickname)).fate == Completes
  {
    var name := if nickname.Some? then nickname.value else "null";
    assert ':' !in "Client " && ':' !in name && ':' !in " disconnected";
    assert ':' !in Departure(nickname);
    ColonFreeCompletes(Departure(nickname));
  }

  /** The first line of a connection, `None` when the stream ends before it. */
  function LoginAttempt(input: seq<string>): Option<string>
  {
    if input == [] then None else Some(input[0])
  }

  /** The lines read after the login line. */
  function ChatLines(input: seq<string>): seq<string>
  {
    if input == [] then [] else input[1..]
  }

  /**
    The broadcast phase of `run` seen from one listed handler (`isFirst` for
    the head of the list): every later line in turn, until the stream ends
    or a line cannot be cut; such a line leaves its head piece with the
    first handler only.
   */
  function Relayed(e: Endpoint, isFirst: bool, lines: seq<string>): Endpoint
  {
    var k := Completing(lines);
    var e2 := SendAll(e, lines[..k]);
    if k < |lines| && isFirst then Send(e2, lines[k]) else e2
  }

  /** How the broadcast phase ends: the fate of the first line that cannot be cut, if any. */
  function RelayFate(lines: seq<string>): Fate
  {
    if Completing(lines) == |lines| then Completes else Outgoing(lines[Completing(lines)]).fate
  }

  /**
    The `finally` block of `run` seen from one handler listed before it:
    `self` is unlisted and closed, every other handler gets the departure
    notice of `self`'s nickname.
   */
  function Closed(e: Endpoint, isSelf: bool, nickname: Option<string>): Endpoint
  {
    if isSelf then e.(writable := false) else Send(e, Departure(nickname))
  }

  /**
    What `run` of handler `self` leaves in the endpoint `e` of a handler
    listed when the run starts (`isSelf` for `self` itself, `isFirst` for
    the head of the list), given the login verdict and the later lines.

    A rejected login sends `LOGIN_FAILED` to `self`; an accepted one sends
    `LOGIN_SUCCESS` and then relays the later lines. Unless a line never
    stops being cut, the cleanup follows.
   */
  function SessionView(e: Endpoint, isSelf: bool, isFirst: bool, verdict: Login.Verdict, lines: seq<string>): Endpoint
  {
    match verdict
    case Rejected =>
      Closed(if isSelf then Send(e, "LOGIN_FAILED") else e, isSelf, None)
    case Accepted(nick) =>
      var e3 := Relayed(if isSelf then Send(e, "LOGIN_SUCCESS") else e, isFirst, lines);
      if RelayFate(lines) == NeverEnds then e3 else Closed(e3, isSelf, Some(nick))
  }

  /** How `run` ends: normally, by the exception a line that cannot be cut raises, or never. */
  function SessionFate(verdict: Login.Verdict, lines: seq<string>): Fate
  {
    if verdict.Rejected? then Completes else RelayFate(lines)
  }

  /**
    A rejected login, or a stream that ends before any line, gives the
    handler exactly the `LOGIN_FAILED` block and nothing else, and the
    others exactly one departure notice naming `null`: no later line is
    broadcast.
   */
  lemma FailedLoginSession(e: Endpoint, isSelf: bool, isFirst: bool, lines: seq<string>)
    requires e.writable && e.buffer == []
    ensures var e' := SessionView(e, isSelf, isFirst, Login.Rejected, lines);
      if isSelf then e' == Endpoint(e.output + ["LOGIN_FAILED", ""], [], false)
      else e' == Endpoint(e.output + ["Client null disconnected", ""], [], true)
  {
    assert Departure(None) == "Client null disconnected";
    assert Outgoing("LOGIN_FAILED") == Cut(["LOGIN_FAILED"], Completes);
    assert Outgoing("Client null disconnected") == Cut(["Client null disconnected"], Completes);
  }

  /**
    After an accepted login whose later lines all cut, a listed handler with
    a working writer and nothing pending receives `LOGIN_SUCCESS` if it is
    the one logging in, then the block of every later line in arrival order,
    then, if it stays listed, the departure notice of the nickname.
   */
  lemma AcceptedSession(e: Endpoint, isSelf: bool, isFirst: bool, nick: string, lines: seq<string>)
    requires e.writable && e.buffer == [] && ':' !in nick
    requires forall i :: 0 <= i < |lines| ==> Cuts(lines[i])
    ensures SessionFate(Login.Accepted(nick), lines) == Completes
    ensures var e' := SessionView(e, isSelf, isFirst, Login.Accepted(nick), lines);
      if isSelf then e' == Endpoint(e.output + ["LOGIN_SUCCESS", ""] + Blocks(lines), [], false)
      else e' == Endpoint(e.output + Blocks(lines) + Block(Departure(Some(nick))), [], true)
  {
    var e1 := Send(e, "LOGIN_SUCCESS");
    SuccessDelivered(e);
    AllCuts(lines);
    AcceptedView(e, isSelf, isFirst, nick, lines);
    if isSelf {
      SendAllDelivers(e1, lines);
    } else {
      SendAllDelivers(e, lines);
      NoticeDelivered(SendAll(e, lines), nick);
    }
  }

  lemma SuccessDelivered(e: Endpoint)
    requires e.writable && e.buffer == []
    ensures Send(e, "LOGIN_SUCCESS") == Endpoint(e.output + ["LOGIN_SUCCESS", ""], [], true)
  {
    assert Outgoing("LOGIN_SUCCESS") == Cut(["LOGIN_SUCCESS"], Completes);
  }

  lemma NoticeDelivered(e: Endpoint, nick: string)
    requires e.writable && e.buffer == [] && ':' !in nick
    ensures Send(e, Departure(Some(nick))) == Endpoint(e.output + Block(Departure(Some(nick))), [], true)
  {
    DepartureCompletes(Some(nick));
  }

  lemma AllCuts(lines: seq<string>)
    requires forall i :: 0 <= i < |lines| ==> Cuts(lines[i])
    ensures Completing(lines) == |lines|
  {
  }

  lemma AcceptedView(e: Endpoint, isSelf: bool, isFirst: bool, nick: string, lines: seq<string>)
    requires Completing(lines) == |lines|
    ensures SessionView(e, isSelf, isFirst, Login.Accepted(nick), lines) ==
      if isSelf then SendAll(Send(e, "LOGIN_SUCCESS"), lines).(writable := false)
      else Send(SendAll(e, lines), Departure(Some(nick)))
  {
    assert lines[..|lines|] == lines;
  }

}
