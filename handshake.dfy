/**
  The login handshake end to end: the line the login window sends is the
  first line a handler reads, the handler's session writes its reply, and
  the window's listener reacts to the first line it reads back.
 */
module Handshake {
  import opened Wrappers
  import opened Delivery
  import Login
  import LoginForm

  /**
    A submission the window lets through, with a colon-free password, is
    answered right after whatever the handler had already delivered (a
    handler is listed, and receives broadcasts, before it reads its login
    line): the next line read opens the chat exactly when the password is
    the server's and otherwise shows "Invalid credentials", and the line
    after it has no effect, whatever lines the client sends afterwards.
   */
  lemma SubmissionAnswered(usernameText: string, passwordText: string, stored: Option<string>,
                           e: Endpoint, isFirst: bool, lines: seq<string>)
    requires LoginForm.Connect(usernameText, passwordText).Send?
    requires ':' !in LoginForm.Connect(usernameText, passwordText).password
    requires e.writable && e.buffer == []
    ensures var s := LoginForm.Connect(usernameText, passwordText);
      var input := [s.line] + lines;
      var verdict := Login.Check(LoginAttempt(input), stored);
      var e' := SessionView(e, true, isFirst, verdict, ChatLines(input));
      && ChatLines(input) == lines
      && |e'.output| >= |e.output| + 2
      && e'.output[..|e.output|] == e.output
      && LoginForm.Dispatch(e'.output[|e.output|]) ==
           (if stored == Some(s.password) then LoginForm.OpenChat else LoginForm.ShowError("Invalid credentials"))
      && LoginForm.Dispatch(e'.output[|e.output| + 1]) == LoginForm.NoEffect
  {
    var s := LoginForm.Connect(usernameText, passwordText);
    var input := [s.line] + lines;
    assert LoginAttempt(input) == Some(s.line);
    assert ChatLines(input) == lines;
    LoginForm.SentLineAccepted(usernameText, passwordText, stored);
    var verdict := Login.Check(Some(s.line), stored);
    SessionGreets(e, isFirst, verdict, lines);
    var reply := if verdict.Accepted? then "LOGIN_SUCCESS" else "LOGIN_FAILED";
    ReplyRead(e.output, SessionView(e, true, isFirst, verdict, lines).output, reply);
  }

  lemma ReplyRead(before: seq<string>, after: seq<string>, reply: string)
    requires before + [reply, ""] <= after
    ensures |after| >= |before| + 2 && after[..|before|] == before
    ensures after[|before|] == reply && after[|before| + 1] == ""
  {
    assert after[..|before| + 2] == before + [reply, ""];
  }

  /**
    A connection that ends before it sends any line is rejected like a
    wrong password, and every other listed handler is told that `null`
    disconnected.
   */
  lemma SilentClientRejected(stored: Option<string>, e: Endpoint, isFirst: bool)
    requires e.writable && e.buffer == []
    ensures Login.Check(LoginAttempt([]), stored) == Login.Rejected
    ensures SessionView(e, false, isFirst, Login.Check(LoginAttempt([]), stored), ChatLines([])).output ==
      e.output + ["Client null disconnected", ""]
  {
    FailedLoginSession(e, false, isFirst, []);
  }
}
