/**
  The server side of the login handshake: `ClientHandler.validatePassword`
  and `Server.passwordValid`. The first line of a connection is accepted
  when it starts with `LOGIN:`, splits at `:` (Java `split`, trailing empty
  fields dropped) into exactly three fields, and the third field equals the
  password the server was started with.
 */
module Login {
  import opened Wrappers
  import opened JavaString

  /**
    `Server.passwordValid(attempt)`: `attempt.equals(password)`. The stored
    password is null (`None`) until the operator has typed one, and then no
    attempt is valid.
   */
  function PasswordValid(stored: Option<string>, attempt: string): (r: bool)
    ensures stored == None ==> !r
    ensures r ==> attempt == stored.value
  {
    stored == Some(attempt)
  }

  /** The outcome of `validatePassword`: accepted with the nickname it assigns, or rejected. */
  datatype Verdict = Accepted(nickname: string) | Rejected

  /** `validatePassword(line)`, `None` standing for the null of a stream that ended before any line. */
  function Check(line: Option<string>, stored: Option<string>): (r: Verdict)
    ensures r.Accepted? <==>
      && line.Some?
      && StartsWith(line.value, "LOGIN:")
      && |Split(line.value, ':')| == 3
      && PasswordValid(stored, Split(line.value, ':')[2])
    ensures r.Accepted? ==> r.nickname == Split(line.value, ':')[1] && ':' !in r.nickname
  {
    if line.None? || !StartsWith(line.value, "LOGIN:") then Rejected
    else
      var parts := Split(line.value, ':');
      if |parts| != 3 then Rejected
      else if PasswordValid(stored, parts[2]) then Accepted(parts[1])
      else Rejected
  }

  /** The login line the login window sends for `username` and `password`. */
  function LoginLine(username: string, password: string): string
  {
    "LOGIN:" + username + ":" + password
  }

  /** Splitting after a separator-free first field: that field, then the fields of the rest. */
  lemma FieldsAfter(p: string, s: string, sep: char)
    requires sep !in p
    ensures Fields(p + [sep] + s, sep) == [p] + Fields(s, sep)
  {
    var t := p + [sep] + s;
    assert t == p + ([sep] + s);
    IndexOfAfter(p, [sep] + s, sep);
    assert IndexOf([sep] + s, sep) == 0;
    assert IndexOf(t, sep) == |p|;
    assert t[..|p|] == p && t[|p| + 1..] == s;
    assert Fields(t, sep) == [t[..|p|]] + Fields(t[|p| + 1..], sep);
  }

  /** A string of `n` separators has `n + 1` fields, all empty. */
  lemma {:induction false} FieldsOfSeparators(n: nat, sep: char)
    ensures |Fields(Repeat(sep, n), sep)| == n + 1
    ensures forall i :: 0 <= i < n + 1 ==> Fields(Repeat(sep, n), sep)[i] == ""
  {
    if n > 0 {
      assert Repeat(sep, n) == "" + [sep] + Repeat(sep, n - 1);
      FieldsAfter("", Repeat(sep, n - 1), sep);
      FieldsOfSeparators(n - 1, sep);
    } else {
      assert sep !in Repeat(sep, 0);
    }
  }

  /** Empty fields after a non-empty last field are all that `split` drops. */
  lemma DropEmptyTail(fields: seq<string>, tail: seq<string>)
    requires fields != [] && fields[|fields| - 1] != ""
    requires forall i :: 0 <= i < |tail| ==> tail[i] == ""
    ensures DropTrailingEmpty(fields + tail) == fields
  {
    var all := fields + tail;
    assert all[..|fields|] == fields;
  }

  /**
    A login line built from a colon-free nickname and a non-empty colon-free
    password, followed by any number of colons, splits into exactly
    `LOGIN`, the nickname and the password (`LOGIN:bob:pw:` splits as
    `LOGIN:bob:pw`).
   */
  lemma LoginLineSplit(username: string, password: string, colons: nat)
    requires ':' !in username && ':' !in password && password != ""
    ensures Split(LoginLine(username, password) + Repeat(':', colons), ':') == ["LOGIN", username, password]
  {
    var rest := password + Repeat(':', colons);
    var line := LoginLine(username, rest);
    assert LoginLine(username, password) + Repeat(':', colons) == line;
    assert line[5] == ':';
    LoginFields(username, rest);
    var tail := PasswordFields(password, colons);
    var fields := ["LOGIN", username, password];
    assert ["LOGIN", username] + ([password] + tail) == fields + tail;
    SplitDrops(line, fields, tail);
  }

  /** When the fields of a line are `fields` followed by empty ones, `split` gives `fields`. */
  lemma SplitDrops(line: string, fields: seq<string>, tail: seq<string>)
    requires ':' in line && Fields(line, ':') == fields + tail
    requires fields != [] && fields[|fields| - 1] != ""
    requires forall i :: 0 <= i < |tail| ==> tail[i] == ""
    ensures Split(line, ':') == fields
  {
    DropEmptyTail(fields, tail);
  }

  lemma LoginFields(username: string, rest: string)
    requires ':' !in username
    ensures Fields(LoginLine(username, rest), ':') == ["LOGIN", username] + Fields(rest, ':')
  {
    assert LoginLine(username, rest) == "LOGIN" + [':'] + (username + [':'] + rest);
    FieldsAfter("LOGIN", username + [':'] + rest, ':');
    FieldsAfter(username, rest, ':');
  }

  /** The fields of a colon-free password followed by colons: the password, then empty fields. */
  lemma PasswordFields(password: string, colons: nat) returns (tail: seq<string>)
    requires ':' !in password
    ensures Fields(password + Repeat(':', colons), ':') == [password] + tail
    ensures forall i :: 0 <= i < |tail| ==> tail[i] == ""
  {
    if colons == 0 {
      assert password + Repeat(':', 0) == password;
      tail := [];
    } else {
      assert password + Repeat(':', colons) == password + [':'] + Repeat(':', colons - 1);
      FieldsAfter(password, Repeat(':', colons - 1), ':');
      FieldsOfSeparators(colons - 1, ':');
      tail := Fields(Repeat(':', colons - 1), ':');
    }
  }

  /**
    Such a line is accepted, with the nickname it names, exactly when the
    password is the server's; a nickname may be empty (`LOGIN::pw`).
   */
  lemma LoginLineChecked(username: string, password: string, colons: nat, stored: Option<string>)
    requires ':' !in username && ':' !in password && password != ""
    ensures Check(Some(LoginLine(username, password) + Repeat(':', colons)), stored) ==
      if stored == Some(password) then Accepted(username) else Rejected
  {
    LoginLineSplit(username, password, colons);
    var line := LoginLine(username, password) + Repeat(':', colons);
    assert line[..6] == "LOGIN:";
  }

  /** A line whose password field is empty, `LOGIN:bob:`, is rejected whatever the password. */
  lemma EmptyPasswordRejected(username: string, stored: Option<string>)
    requires ':' !in username
    ensures Check(Some(LoginLine(username, "")), stored) == Rejected
  {
    EmptyPasswordSplit(username);
  }

  /** `LOGIN:bob:` splits into fewer than three fields: the empty password field is dropped. */
  lemma EmptyPasswordSplit(username: string)
    requires ':' !in username
    ensures |Split(LoginLine(username, ""), ':')| < 3
  {
    var line := LoginLine(username, "");
    LoginFields(username, "");
    assert Fields("", ':') == [""];
    assert Fields(line, ':') == ["LOGIN", username, ""];
    assert line[5] == ':';
    assert Split(line, ':') == DropTrailingEmpty(["LOGIN", username, ""]);
  }

  /** A password with a colon inside it, `LOGIN:bob:a:b`, makes four fields and is rejected. */
  lemma InnerColonRejected(username: string, before: string, after: string, stored: Option<string>)
    requires ':' !in username && ':' !in before && ':' !in after && after != ""
    ensures Check(Some(LoginLine(username, before + ":" + after)), stored) == Rejected
  {
    InnerColonSplit(username, before, after);
  }

  /** `LOGIN:bob:a:b` splits into four fields. */
  lemma InnerColonSplit(username: string, before: string, after: string)
    requires ':' !in username && ':' !in before && ':' !in after && after != ""
    ensures |Split(LoginLine(username, before + ":" + after), ':')| == 4
  {
    var password := before + ":" + after;
    var line := LoginLine(username, password);
    var fields := ["LOGIN", username, before, after];
    assert ':' in line by {
      assert line[5] == ':';
    }
    assert Fields(password, ':') == [before, after] by {
      assert password == before + [':'] + after;
      FieldsAfter(before, after, ':');
      assert Fields(after, ':') == [after];
    }
    assert Fields(line, ':') == fields + [] by {
      LoginFields(username, password);
    }
    SplitDrops(line, fields, []);
  }

  /** A server password containing a colon can never be matched: every field of a split is colon-free. */
  lemma ColonPasswordUnmatchable(line: Option<string>, stored: Option<string>)
    requires stored.Some? && ':' in stored.value
    ensures Check(line, stored) == Rejected
  {
  }

  /** `LOGIN:bob:pw:` is accepted with password `pw`: the trailing empty field is dropped. */
  lemma TrailingColonExample()
    ensures Check(Some("LOGIN:bob:pw:"), Some("pw")) == Accepted("bob")
  {
    LoginLineChecked("bob", "pw", 1, Some("pw"));
    assert LoginLine("bob", "pw") + Repeat(':', 1) == "LOGIN:bob:pw:";
  }

  /** `LOGIN::pw` is accepted with an empty nickname. */
  lemma EmptyNicknameExample()
    ensures Check(Some("LOGIN::pw"), Some("pw")) == Accepted("")
  {
    LoginLineChecked("", "pw", 0, Some("pw"));
    assert LoginLine("", "pw") + Repeat(':', 0) == "LOGIN::pw";
  }

  /** `LOGIN:bob:` is rejected whatever the server's password. */
  lemma MissingPasswordExample(stored: Option<string>)
    ensures Check(Some("LOGIN:bob:"), stored) == Rejected
  {
    EmptyPasswordRejected("bob", stored);
    assert LoginLine("bob", "") == "LOGIN:bob:";
  }
}
