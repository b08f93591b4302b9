/**
  The checks of `LoginController.connect` before it opens a connection,
  the login line it then sends, and how it reacts to the server's replies.
 */
module LoginForm {
  import opened Wrappers
  import opened JavaString
  import Login

  /** A username the window lets through: non-empty, at most 15 characters, colon-free. */
  predicate UsernameAcceptable(username: string)
  {
    username != "" && |username| <= 15 && ':' !in username
  }

  /** What pressing "Connect" does with the two fields. */
  datatype Submission =
    | InvalidUsername
    | MissingPassword
      /** a client is created and sends `line` */
    | Send(username: string, password: string, line: string)

  /** The text the window shows for a rejected submission. */
  function ErrorText(s: Submission): string
    requires !s.Send?
  {
    if s.InvalidUsername? then "Invalid username" else "Please enter a password"
  }

  /**
    `connect`: both fields are trimmed; a bad username is reported first,
    then an empty password; otherwise the login line is built from the
    trimmed values.
   */
  function Connect(usernameText: string, passwordText: string): (r: Submission)
    ensures r.Send? ==> UsernameAcceptable(r.username) && r.password != ""
    ensures r.Send? ==> r.line == Login.LoginLine(r.username, r.password)
  {
    var username := Trim(usernameText);
    var password := Trim(passwordText);
    if !UsernameAcceptable(username) then InvalidUsername
    else if password == "" then MissingPassword
    else Send(username, password, Login.LoginLine(username, password))
  }

  /** Only the trimmed texts matter: trimming the fields beforehand changes nothing. */
  lemma ConnectTrims(usernameText: string, passwordText: string)
    ensures Connect(Trim(usernameText), Trim(passwordText)) == Connect(usernameText, passwordText)
    ensures Connect(usernameText, passwordText).Send? ==>
      Connect(usernameText, passwordText).username == Trim(usernameText) &&
      Connect(usernameText, passwordText).password == Trim(passwordText)
  {
    TrimIdempotent(usernameText);
    TrimIdempotent(passwordText);
  }

  /** A bad username wins over a missing password; a good one leaves the password to decide. */
  lemma ConnectOrder(usernameText: string, passwordText: string)
    ensures Connect(usernameText, passwordText) == InvalidUsername <==> !UsernameAcceptable(Trim(usernameText))
    ensures Connect(usernameText, passwordText) == MissingPassword <==>
      UsernameAcceptable(Trim(usernameText)) && Trim(passwordText) == ""
    ensures !Connect(usernameText, passwordText).Send? ==>
      ErrorText(Connect(usernameText, passwordText)) ==
        if UsernameAcceptable(Trim(usernameText)) then "Please enter a password" else "Invalid username"
  {
  }

  /**
    The line the window sends for a colon-free password splits into exactly
    `LOGIN`, the username and the password, and the server accepts it, with
    the username as nickname, exactly when the password is the server's.
   */
  lemma SentLineAccepted(usernameText: string, passwordText: string, stored: Option<string>)
    requires Connect(usernameText, passwordText).Send?
    requires ':' !in Connect(usernameText, passwordText).password
    ensures var s := Connect(usernameText, passwordText);
      Split(s.line, ':') == ["LOGIN", s.username, s.password] &&
      Login.Check(Some(s.line), stored) ==
        if stored == Some(s.password) then Login.Accepted(s.username) else Login.Rejected
  {
    var s := Connect(usernameText, passwordText);
    Login.LoginLineSplit(s.username, s.password, 0);
    Login.LoginLineChecked(s.username, s.password, 0, stored);
    assert s.line + Repeat(':', 0) == s.line;
  }

  /**
    The window does not look for colons in the password: a password with a
    colon inside it (`a:b`) gives a line of four fields, which the server
    rejects whatever its own password.
   */
  lemma InnerColonPasswordRejected(usernameText: string, passwordText: string, stored: Option<string>,
                                   before: string, after: string)
    requires Connect(usernameText, passwordText).Send?
    requires Connect(usernameText, passwordText).password == before + ":" + after
    requires ':' !in before && before != "" && ':' !in after && after != ""
    ensures Login.Check(Some(Connect(usernameText, passwordText).line), stored) == Login.Rejected
  {
    var s := Connect(usernameText, passwordText);
    Login.InnerColonRejected(s.username, before, after, stored);
  }

  /** What the window does with a line from the server while it waits for the login reply. */
  datatype Reaction = OpenChat | ShowError(text: string) | NoEffect

  /** The `switch` of the message listener in `connect`. */
  function Dispatch(line: string): (r: Reaction)
    ensures r == OpenChat <==> line == "LOGIN_SUCCESS"
    ensures line == "SERVER_FULL" ==> r == ShowError("Server is full")
    ensures line == "LOGIN_FAILED" ==> r == ShowError("Invalid credentials")
    ensures r.ShowError? <==> line == "SERVER_FULL" || line == "LOGIN_FAILED"
    ensures r.NoEffect? <==> line !in {"SERVER_FULL", "LOGIN_SUCCESS", "LOGIN_FAILED"}
  {
    match line
    case "SERVER_FULL" => ShowError("Server is full")
    case "LOGIN_SUCCESS" => OpenChat
    case "LOGIN_FAILED" => ShowError("Invalid credentials")
    case _ => NoEffect
  }

  /** The listener applied to every line the client reads, in order. */
  function Reactions(lines: seq<string>): (r: seq<Reaction>)
    ensures |r| == |lines|
    ensures forall i :: 0 <= i < |lines| ==> r[i] == Dispatch(lines[i])
  {
    if lines == [] then [] else [Dispatch(lines[0])] + Reactions(lines[1..])
  }

  /**
    The two reply blocks of the handshake, each followed by its empty framing
    line: success opens the chat once, failure shows "Invalid credentials"
    once, and the framing line has no effect.
   */
  lemma ReplyBlocks()
    ensures Reactions(["LOGIN_SUCCESS", ""]) == [OpenChat, NoEffect]
    ensures Reactions(["LOGIN_FAILED", ""]) == [ShowError("Invalid credentials"), NoEffect]
    ensures Dispatch("") == NoEffect
  {
  }
}
