/**
  The line segmentation of `ClientHandler.cutUpMessage` as a pure
  specification. A message longer than 90 characters is cut into a head
  piece (its first 90 characters) and continuation pieces, each the indent
  `c + 5` spaces (c the index of the first colon, -1 without one) followed
  by the next `85 - c` characters. The second piece starts at `85 - c`, not
  at 90: the head and the continuations overlap by `c + 5` characters.
 */
module Segmenter {
  import opened JavaString

  /** The length up to which a message is sent as one line. */
  const LineLimit := 90

  /** How the cutting loop ends. */
  datatype Fate =
    | Completes
      /** the step is zero: the loop appends empty indented pieces forever */
    | NeverEnds
      /** the step is negative: the second `substring` gets a negative start and throws */
    | IndexOutOfBounds

  /** The pieces the loop appends to the buffer before it ends (or stops making progress). */
  datatype Cut = Cut(pieces: seq<string>, fate: Fate)

  /** `nicknamespace`: the index of the first colon plus 4, so 3 for a message without a colon. */
  function LabelWidth(m: string): int
  {
    IndexOf(m, ':') + 4
  }

  /** The loop step once the head piece is out, `90 - nicknamespace - 1`, that is `85 - c`. */
  function Step(m: string): int
  {
    LineLimit - LabelWidth(m) - 1
  }

  /** `spaces`: the `nicknamespace + 1` blanks in front of every continuation piece. */
  function Indent(m: string): (r: string)
    ensures |r| == LabelWidth(m) + 1 == LineLimit - Step(m)
  {
    Repeat(' ', LabelWidth(m) + 1)
  }

  /** The pieces the loop appends from index `start` on, `step` characters of `m` each, after `pad`. */
  function Continuations(m: string, start: nat, step: nat, pad: string): seq<string>
    requires 0 < step
    decreases |m| - start
  {
    if |m| <= start then []
    else [pad + m[start..Min(|m|, start + step)]] + Continuations(m, start + step, step, pad)
  }

  /** What `cutUpMessage(m)` appends to the buffer, and how its loop ends. */
  function CutUp(m: string): Cut
  {
    if |m| == 0 then Cut([], Completes)
    else
      var head := m[..Min(|m|, LineLimit)];
      var step := Step(m);
      if 0 < step then Cut([head] + Continuations(m, step, step, Indent(m)), Completes)
      else if step == 0 then Cut([head], NeverEnds)
      else Cut([head], IndexOutOfBounds)
  }

  /** What `sendMessage(m)` adds to the buffer: `m` itself up to 90 characters, its cut beyond. */
  function Outgoing(m: string): Cut
  {
    if |m| > LineLimit then CutUp(m) else Cut([m], Completes)
  }

  function Concat(parts: seq<string>): string
  {
    if parts == [] then "" else parts[0] + Concat(parts[1..])
  }

  /** Every line without its first `width` characters. */
  function Unindent(lines: seq<string>, width: nat): seq<string>
  {
    if lines == [] then [] else [lines[0][Min(width, |lines[0]|)..]] + Unindent(lines[1..], width)
  }

  /**
    A receiver's reading of the lines of one message: a single line as it
    is; otherwise the first `Step` characters of the head (computed from the
    head's own first colon) followed by every later line without its indent.
   */
  function Reassemble(lines: seq<string>): string
  {
    if |lines| <= 1 || Step(lines[0]) <= 0 then Concat(lines)
    else
      var head := lines[0];
      head[..Min(Step(head), |head|)] + Concat(Unindent(lines[1..], LabelWidth(head) + 1))
  }

  lemma {:induction false} ContinuationAt(m: string, start: nat, step: nat, pad: string, k: nat)
    requires 0 < step && k < |Continuations(m, start, step, pad)|
    ensures start + k * step < |m|
    ensures Continuations(m, start, step, pad)[k] == pad + m[start + k * step..Min(|m|, start + k * step + step)]
    decreases k
  {
    if k > 0 {
      var rest := Continuations(m, start + step, step, pad);
      assert Continuations(m, start, step, pad)[k] == rest[k - 1];
      ContinuationAt(m, start + step, step, pad, k - 1);
      assert start + step + (k - 1) * step == start + k * step;
    }
  }

  lemma {:induction false} ContinuationCount(m: string, start: nat, step: nat, pad: string)
    requires 0 < step
    ensures var n := |Continuations(m, start, step, pad)|;
      |m| <= start + n * step && (0 < n ==> start + (n - 1) * step < |m|)
    decreases |m| - start
  {
    if start < |m| {
      ContinuationCount(m, start + step, step, pad);
      var n' := |Continuations(m, start + step, step, pad)|;
      assert start + step + n' * step == start + (n' + 1) * step;
    }
  }

  lemma {:induction false} ContinuationLengths(m: string, start: nat, step: nat, pad: string)
    requires 0 < step
    ensures forall i :: 0 <= i < |Continuations(m, start, step, pad)| ==>
      |Continuations(m, start, step, pad)[i]| <= |pad| + step
    decreases |m| - start
  {
    if start < |m| {
      ContinuationLengths(m, start + step, step, pad);
    }
  }

  lemma {:induction false} ContinuationsRejoin(m: string, start: nat, step: nat, pad: string)
    requires 0 < step && start <= |m|
    ensures Concat(Unindent(Continuations(m, start, step, pad), |pad|)) == m[start..]
    decreases |m| - start
  {
    if start < |m| {
      var e := Min(|m|, start + step);
      var first := pad + m[start..e];
      var rest := Continuations(m, start + step, step, pad);
      assert Continuations(m, start, step, pad) == [first] + rest;
      assert ([first] + rest)[1..] == rest;
      assert first[Min(|pad|, |first|)..] == m[start..e];
      var u := Unindent(rest, |pad|);
      assert Unindent([first] + rest, |pad|) == [m[start..e]] + u;
      assert ([m[start..e]] + u)[1..] == u;
      if start + step <= |m| {
        ContinuationsRejoin(m, start + step, step, pad);
        assert m[start..e] + m[start + step..] == m[start..];
      } else {
        assert rest == [];
      }
    }
  }

  /** No line of a cut, continuations with their indent included, is longer than 90 characters. */
  lemma PiecesFitLine(m: string)
    ensures forall i :: 0 <= i < |Outgoing(m).pieces| ==> |Outgoing(m).pieces[i]| <= LineLimit
  {
    if |m| > LineLimit && 0 < Step(m) {
      ContinuationLengths(m, Step(m), Step(m), Indent(m));
    }
  }

  /**
    The shape of a cut message: the head is its first 90 characters and
    piece `k >= 1` is the indent followed by `m[k*step .. min(|m|, (k+1)*step))`.
   */
  lemma PieceShape(m: string, k: nat)
    requires |m| > LineLimit && 0 < Step(m) && k < |Outgoing(m).pieces|
    ensures k == 0 ==> Outgoing(m).pieces[k] == m[..LineLimit]
    ensures 0 < k ==>
      k * Step(m) < |m| && Outgoing(m).pieces[k] == Indent(m) + m[k * Step(m)..Min(|m|, (k + 1) * Step(m))]
  {
    var step := Step(m);
    if 0 < k {
      ContinuationAt(m, step, step, Indent(m), k - 1);
      assert step + (k - 1) * step == k * step;
      assert k * step + step == (k + 1) * step;
    }
  }

  /** A cut message has `ceil(|m| / step)` pieces, the head included. */
  lemma PieceCount(m: string)
    requires |m| > LineLimit && 0 < Step(m)
    ensures var n := |Outgoing(m).pieces|; (n - 1) * Step(m) < |m| <= n * Step(m)
  {
    var step := Step(m);
    var rest := Continuations(m, step, step, Indent(m));
    assert Outgoing(m) == CutUp(m) == Cut([m[..LineLimit]] + rest, Completes);
    ContinuationCount(m, step, step, Indent(m));
    var n' := |rest|;
    assert 0 < n';
    assert step + n' * step == (n' + 1) * step;
    assert step + (n' - 1) * step == n' * step;
    assert n' * step < |m| <= (n' + 1) * step;
  }

  /** The loop ends exactly when the first colon is before index 85; at 85 it never ends. */
  lemma Termination(m: string)
    requires |m| > LineLimit
    ensures Outgoing(m).fate == Completes <==> IndexOf(m, ':') < 85
    ensures Outgoing(m).fate == NeverEnds <==> IndexOf(m, ':') == 85
  {
  }

  /** Reading the lines back recovers every message whose cut completes. */
  lemma RoundTrip(m: string)
    requires Outgoing(m).fate == Completes
    ensures Reassemble(Outgoing(m).pieces) == m
  {
    if |m| > LineLimit {
      var step := Step(m);
      var head := m[..LineLimit];
      var rest := Continuations(m, step, step, Indent(m));
      var lines := [head] + rest;
      assert Outgoing(m).pieces == lines;
      IndexOfPrefix(m, ':', LineLimit);
      assert Step(head) == step && LabelWidth(head) == LabelWidth(m);
      assert rest != [];
      assert lines[1..] == rest;
      ContinuationsRejoin(m, step, step, Indent(m));
      assert head[..step] == m[..step];
      assert m[..step] + m[step..] == m;
    } else {
      assert Concat([m]) == m + Concat([]);
    }
  }

  /**
    Gluing the lines together with only the indents removed does not give
    the message back: the head's last `c + 5` characters, `m[step..90)`,
    come out twice.
   */
  lemma NaiveRejoinRepeats(m: string)
    requires |m| > LineLimit && 0 < Step(m)
    ensures var lines := Outgoing(m).pieces;
      1 < |lines| &&
      Concat([lines[0]] + Unindent(lines[1..], LabelWidth(m) + 1)) == m[..LineLimit] + m[Step(m)..] &&
      Concat([lines[0]] + Unindent(lines[1..], LabelWidth(m) + 1)) != m
  {
    var step := Step(m);
    var rest := Continuations(m, step, step, Indent(m));
    var lines := Outgoing(m).pieces;
    assert lines == [m[..LineLimit]] + rest && lines[1..] == rest && rest != [];
    ContinuationsRejoin(m, step, step, Indent(m));
    var u := Unindent(rest, LabelWidth(m) + 1);
    assert ([lines[0]] + u)[1..] == u;
    assert |m[..LineLimit] + m[step..]| == |m| + LineLimit - step;
  }

  /**
    A colon-free line of 91 characters, one over the limit, goes out as two
    lines: its first 90 characters, then four spaces and its characters from
    index 86 on, so characters 86 to 89 are sent twice.
   */
  lemma JustOverLimit(m: string)
    requires |m| == LineLimit + 1 && ':' !in m
    ensures Outgoing(m) == Cut([m[..LineLimit], "    " + m[86..]], Completes)
  {
    var step := Step(m);
    assert step == 86;
    assert Indent(m) == "    ";
    assert Continuations(m, 86 + 86, 86, Indent(m)) == [];
    assert Min(|m|, 86 + 86) == |m| && m[86..|m|] == m[86..];
    assert Continuations(m, 86, 86, Indent(m)) == ["    " + m[86..]];
  }

  /** A line without a colon always completes: a departure notice, the shutdown notice, the login replies. */
  lemma ColonFreeCompletes(m: string)
    requires ':' !in m
    ensures Outgoing(m).fate == Completes && |Indent(m)| == 4 && Step(m) == 86
  {
  }

  /**
    A chat line as the chat window builds it, `nickname + ": " + text` with a
    colon-free nickname of fewer than 85 characters, always completes, with
    the indent one longer than the label `nickname: `.
   */
  lemma ChatLineCompletes(nickname: string, text: string)
    requires ':' !in nickname && |nickname| < 85
    ensures Outgoing(nickname + ": " + text).fate == Completes
    ensures |nickname + ": " + text| > LineLimit ==> |Indent(nickname + ": " + text)| == |nickname| + 5
  {
    var m := nickname + ": " + text;
    assert m == nickname + (": " + text);
    IndexOfAfter(nickname, ": " + text, ':');
  }

  /**
    A 200-character line labelled `Alice: `: three pieces, the head its first 90
    characters, none longer than 90, read back to the whole line.
   */
  lemma AliceExample(text: string)
    requires |text| == 193
    ensures var m := "Alice: " + text; var lines := Outgoing(m).pieces;
      Outgoing(m).fate == Completes && |lines| == 3 && lines[0] == m[..LineLimit] &&
      (forall i :: 0 <= i < 3 ==> |lines[i]| <= LineLimit) &&
      Reassemble(lines) == m
  {
    var m := "Alice: " + text;
    ChatLineCompletes("Alice", text);
    assert "Alice" + ": " + text == m;
    assert Step(m) == 80 by {
      assert |Indent(m)| == 10;
    }
    PieceCount(m);
    var n := |Outgoing(m).pieces|;
    assert (n - 1) * 80 < 200 <= n * 80;
    PieceShape(m, 0);
    PiecesFitLine(m);
    RoundTrip(m);
  }
}
