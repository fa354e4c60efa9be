/** From typed characters to the words a command receives, directly and by way of the history. */
module TypedLines {
  import opened Config
  import opened HistoryQueue
  import opened Tokens
  import opened Terminal
  import opened LineEditor
  import opened EditorRuns

  /** The longest text the buffer takes beside its terminator. */
  const MAX_TEXT := COMMAND_LINE_LEN - 1

  function DropSpaces(s: string): string {
    if s == "" || s[0] != ' ' then s else DropSpaces(s[1..])
  }

  /** What typing `s` on an empty line leaves: no leading spaces, nothing past the buffer. */
  function Kept(s: string): string {
    var line := DropSpaces(s);
    if |line| > MAX_TEXT then line[..MAX_TEXT] else line
  }

  // ---------------------------------------------------------------- typing

  lemma {:induction false} DropSpacesOneMore(s: string, c: char)
    ensures DropSpaces(s + [c]) == if c == ' ' && DropSpaces(s) == "" then "" else DropSpaces(s) + [c]
  {
    if s != "" && s[0] == ' ' {
      assert (s + [c])[1..] == s[1..] + [c];
      DropSpacesOneMore(s[1..], c);
    } else if s == "" {
      assert [c][1..] == "";
    }
  }

  lemma {:induction false} KeptOneMore(s: string, c: char)
    ensures Kept(s + [c]) == if (c == ' ' && Kept(s) == "") || |Kept(s)| == MAX_TEXT then Kept(s) else Kept(s) + [c]
  {
    DropSpacesOneMore(s, c);
  }

  /** The line holds exactly `text`, with the cursor behind it and a terminator unless it is empty. */
  predicate LineIs(z: Zipper, text: string) {
    z.left == text && z.right == "" && (text != "" ==> z.tail != "" && z.tail[0] == '\0')
  }

  lemma {:induction false} TypeOneMore(z: Zipper, s: string, c: char)
    requires GoodLine(z) && LineIs(z, Stored(Kept(s))) && Printable(c)
    ensures LineIs(EditKey(z, c).zip, Stored(Kept(s + [c])))
  {
    KeptOneMore(s, c);
    assert c != ' ' ==> Stored([c]) == [c];
    assert Stored(Kept(s) + [c]) == Stored(Kept(s)) + [if c == ' ' then '\0' else c];
  }

  lemma {:induction false} TypingFills(st: State, s: string)
    requires Inv(st) && !st.escape && st.zip.Text() == "" && AllPrintable(s)
    ensures var o := Run(st, Typed(s, ""));
            && LineIs(o.state.zip, Stored(Kept(s))) && o.calls == []
            && o.state == st.(zip := o.state.zip)
  {
    if s == "" {
      assert Typed(s, "") == [];
    } else {
      var n := |s| - 1;
      var prefix, last := s[..n], s[n];
      assert s == prefix + [last] && Typed(s, "") == Typed(prefix, "") + [Event(last, "")];
      TypingFills(st, prefix);
      var before := Run(st, Typed(prefix, "")).state;
      TypeOneMore(before.zip, prefix, last);
      PrintableOnlyEdits(before, last);
      RunConcat(st, Typed(prefix, ""), [Event(last, "")]);
      RunOne(before, Event(last, ""));
    }
  }

  lemma {:induction false} PrintableOnlyEdits(st: State, c: char)
    requires Inv(st) && !st.escape && Printable(c)
    ensures Step(st, Event(c, "")) == Edited(st, EditKey(st.zip, c))
  {
  }

  // ---------------------------------------------------------------- words before and after storing

  /** The same text with the separator written differently. */
  ghost predicate SameText(u: string, a: char, v: string, b: char) {
    |u| == |v| && forall i :: 0 <= i < |u| ==> (u[i] == a <==> v[i] == b) && (u[i] != a ==> u[i] == v[i])
  }

  lemma {:induction false} SameWordAt(u: string, a: char, v: string, b: char, i: nat)
    requires SameText(u, a, v, b) && i <= |u|
    ensures WordAt(u, a, i) == WordAt(v, b, i)
    decreases |u| - i
  {
    if i < |u| && u[i] != a {
      SameWordAt(u, a, v, b, i + 1);
    }
  }

  lemma {:induction false} SameStarts(u: string, a: char, v: string, b: char)
    requires SameText(u, a, v, b)
    ensures WordStarts(u, a) == WordStarts(v, b)
  {
    if u != "" {
      SameStarts(u[..|u| - 1], a, v[..|u| - 1], b);
    }
  }

  lemma {:induction false} SameWords(u: string, a: char, v: string, b: char)
    requires SameText(u, a, v, b)
    ensures Words(u, a) == Words(v, b)
  {
    SameStarts(u, a, v, b);
    StartsAreExact(u, a);
    var starts := WordStarts(u, a);
    forall k | 0 <= k < |starts|
      ensures WordAt(u, a, starts[k]) == WordAt(v, b, starts[k])
    {
      assert IsWordStart(u, a, starts[k]);
      SameWordAt(u, a, v, b, starts[k]);
    }
  }

  lemma {:induction false} StoredWords(s: string)
    requires AllPrintable(s)
    ensures Words(Stored(Kept(s)), '\0') == Words(Kept(s), ' ')
  {
    KeptIsPrintable(s);
    SameWords(Stored(Kept(s)), '\0', Kept(s), ' ');
  }

  lemma {:induction false} KeptIsPrintable(s: string)
    requires AllPrintable(s)
    ensures AllPrintable(Kept(s))
  {
    var n := SpacesDropped(s);
    assert DropSpaces(s) == s[n..];
  }

  lemma {:induction false} SpacesDropped(s: string) returns (n: nat)
    ensures n <= |s| && DropSpaces(s) == s[n..]
  {
    if s == "" || s[0] != ' ' {
      n := 0;
    } else {
      n := SpacesDropped(s[1..]);
      n := n + 1;
    }
  }

  // ---------------------------------------------------------------- Enter

  lemma {:induction false} EnterRuns(st: State, line: string, reply: string)
    requires Inv(st) && !st.escape && LineIs(st.zip, line)
    ensures var words, o := Words(line, '\0'), Step(st, Event(KEY_CR, reply));
            && o.calls == (if 0 < |words| < COMMAND_TOKEN_NMB then [words] else [])
            && o.state == State(EmptyLine, if line == "" then st.lines else Save(st.lines, line), 0, false, st.escapeSeq)
  {
    assert st.zip.Text() == line;
    ArgvIsWordsIffTerminated(st.zip);
  }

  /** Typing a printable text on an empty line and Enter executes exactly its one to seven words, once. */
  lemma {:induction false} TypedLineExecutes(st: State, s: string, reply: string)
    requires Inv(st) && !st.escape && st.zip.Text() == "" && AllPrintable(s)
    ensures var words, o := Words(Kept(s), ' '), Run(st, Typed(s, "") + [Event(KEY_CR, reply)]);
            && o.calls == (if 0 < |words| < COMMAND_TOKEN_NMB then [words] else [])
            && o.state.zip == EmptyLine && o.state.cur == 0 && !o.state.escape
            && o.state.lines == if Kept(s) == "" then st.lines else Save(st.lines, Stored(Kept(s)))
  {
    TypingFills(st, s);
    StoredWords(s);
    var filled := Run(st, Typed(s, ""));
    EnterRuns(filled.state, Stored(Kept(s)), reply);
    RunConcat(st, Typed(s, ""), [Event(KEY_CR, reply)]);
    RunOne(filled.state, Event(KEY_CR, reply));
  }

  /** Up and Enter run the last saved line again, provided its words are its own. */
  lemma {:induction false} UpEnterRuns(st: State, line: Line, reply: string)
    requires Inv(st) && !st.escape && st.cur == 0
    requires st.lines != [] && st.lines[|st.lines| - 1] == line
    ensures var words := Words(line, '\0');
            Run(st, [Event(KEY_DLE, ""), Event(KEY_CR, reply)]).calls
            == if 0 < |words| < COMMAND_TOKEN_NMB then [words] else []
  {
    var recalled := Step(st, Event(KEY_DLE, ""));
    assert LineIs(recalled.state.zip, line);
    EnterRuns(recalled.state, line, reply);
    RunTwo(st, Event(KEY_DLE, ""), Event(KEY_CR, reply));
  }

  /** A typed line of at most 62 bytes survives the ring: Up and Enter pass the same words a second time. */
  lemma {:induction false} TypedLineAgain(st: State, s: string, reply: string)
    requires Inv(st) && !st.escape && st.zip.Text() == "" && AllPrintable(s)
    requires 0 < |Kept(s)| <= MAX_SAVED
    ensures var typed := Run(st, Typed(s, "") + [Event(KEY_CR, reply)]);
            Run(typed.state, [Event(KEY_DLE, ""), Event(KEY_CR, reply)]).calls == typed.calls
  {
    var line, typed := Stored(Kept(s)), Run(st, Typed(s, "") + [Event(KEY_CR, reply)]);
    TypedLineExecutes(st, s, reply);
    StoredWords(s);
    SavedLast(st.lines, line);
    ExecutedAgain(typed, line, reply);
  }

  lemma {:induction false} SavedLast(lines: seq<Line>, line: Line)
    requires |line| <= MAX_SAVED
    ensures Save(lines, line) != [] && Save(lines, line)[|Save(lines, line)| - 1] == line
  {
  }

  lemma {:induction false} ExecutedAgain(o: Outcome, line: Line, reply: string)
    requires Inv(o.state) && !o.state.escape && o.state.cur == 0
    requires o.state.lines != [] && o.state.lines[|o.state.lines| - 1] == line
    requires var words := Words(line, '\0'); o.calls == if 0 < |words| < COMMAND_TOKEN_NMB then [words] else []
    ensures Run(o.state, [Event(KEY_DLE, ""), Event(KEY_CR, reply)]).calls == o.calls
  {
    UpEnterRuns(o.state, line, reply);
  }

  // ---------------------------------------------------------------- typing and rubbing out again

  lemma {:induction false} TypedOneMore(z: Zipper, c: char)
    requires GoodLine(z) && Printable(c) && |z.tail| > 1 && (z.Text() != "" || c != ' ')
    ensures var z' := EditKey(z, c).zip;
            z'.left == z.left + Stored([c]) && z'.right == z.right && |z'.tail| == |z.tail| - 1
  {
    assert Stored([c]) == [if c == ' ' then '\0' else c];
  }

  lemma {:induction false} StoredOneMore(before: string, s: string, c: char)
    ensures before + Stored(s) + Stored([c]) == before + Stored(s + [c])
  {
  }

  /** Typing anywhere in a line with enough room inserts exactly the typed text at the cursor. */
  lemma {:induction false} TypingInserts(st: State, s: string)
    requires Inv(st) && !st.escape && AllPrintable(s) && |s| < |st.zip.tail|
    requires st.zip.Text() != "" || s == "" || s[0] != ' '
    ensures var o := Run(st, Typed(s, ""));
            && o.state == st.(zip := o.state.zip)
            && o.state.zip.left == st.zip.left + Stored(s) && o.state.zip.right == st.zip.right
            && |o.state.zip.tail| == |st.zip.tail| - |s|
  {
    if s == "" {
      assert Typed(s, "") == [] && st.zip.left + Stored(s) == st.zip.left;
    } else {
      var n := |s| - 1;
      var prefix, last := s[..n], s[n];
      assert s == prefix + [last] && Typed(s, "") == Typed(prefix, "") + [Event(last, "")];
      TypingInserts(st, prefix);
      var before := Run(st, Typed(prefix, "")).state;
      PrintableOnlyEdits(before, last);
      RunConcat(st, Typed(prefix, ""), [Event(last, "")]);
      RunOne(before, Event(last, ""));
      TypedOneMore(before.zip, last);
      StoredOneMore(st.zip.left, prefix, last);
    }
  }

  lemma {:induction false} BackspacesDropLeft(z: Zipper, n: nat)
    requires GoodLine(z) && n <= |z.left|
    ensures Backspaces(z, n).left == z.left[..|z.left| - n] && Backspaces(z, n).right == z.right
  {
    if n > 0 {
      BackspacesDropLeft(z, n - 1);
    }
  }

  function RubOuts(n: nat): seq<Event> {
    seq(n, _ => Event(KEY_DEL, ""))
  }

  lemma {:induction false} RubOutBackspaces(st: State)
    requires Inv(st) && !st.escape
    ensures Step(st, Event(KEY_DEL, "")).state == st.(zip := Backspace(st.zip))
  {
  }

  lemma {:induction false} RubOutsBackspace(st: State, n: nat)
    requires Inv(st) && !st.escape
    ensures Run(st, RubOuts(n)).state == st.(zip := Backspaces(st.zip, n))
  {
    if n > 0 {
      assert RubOuts(n) == RubOuts(n - 1) + [Event(KEY_DEL, "")];
      RubOutsBackspace(st, n - 1);
      RunConcat(st, RubOuts(n - 1), [Event(KEY_DEL, "")]);
      var before := Run(st, RubOuts(n - 1)).state;
      RunOne(before, Event(KEY_DEL, ""));
      RubOutBackspaces(before);
    }
  }

  /** As many rub-outs as characters typed bring back text, cursor and everything but the bytes behind the text. */
  lemma {:induction false} RubOutsUndoTyping(st: State, s: string)
    requires Inv(st) && !st.escape && AllPrintable(s) && |s| < |st.zip.tail|
    requires st.zip.Text() != "" || s == "" || s[0] != ' '
    ensures var o := Run(st, Typed(s, "") + RubOuts(|s|));
            o.state == st.(zip := o.state.zip) && o.state.zip.left == st.zip.left && o.state.zip.right == st.zip.right
  {
    TypingInserts(st, s);
    var typed := Run(st, Typed(s, "")).state;
    RubOutsBackspace(typed, |s|);
    BackspacesDropLeft(typed.zip, |s|);
    RunConcat(st, Typed(s, ""), RubOuts(|s|));
    assert (st.zip.left + Stored(s))[..|st.zip.left|] == st.zip.left;
  }
}
