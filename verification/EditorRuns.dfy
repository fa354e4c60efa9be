/** Whole runs of keys: what is executed, what is remembered, and arrow keys against control keys. */
module EditorRuns {
  import opened HistoryQueue
  import opened Tokens
  import opened Terminal
  import opened LineEditor

  // ---------------------------------------------------------------- arguments are the words, if terminated

  /** A zero byte, inside the text or behind it, ends the last word. */
  predicate Terminated(z: Zipper) {
    var text := z.Text();
    text == "" || text[|text| - 1] == '\0' || (z.tail != "" && z.tail[0] == '\0')
  }

  lemma {:induction false} RunOnBehindText(text: string, rest: string, sep: char, i: nat)
    requires i <= |text|
    ensures var run := WordAt(text, sep, i);
            WordAt(text + rest, sep, i) == run + if i + |run| == |text| then WordAt(rest, sep, 0) else ""
    decreases |text| - i
  {
    if i == |text| {
      ShiftedWord(text, rest, sep, 0);
    } else if text[i] != sep {
      RunOnBehindText(text, rest, sep, i + 1);
    }
  }

  lemma {:induction false} ShiftedWord(text: string, rest: string, sep: char, j: nat)
    requires j <= |rest|
    ensures WordAt(text + rest, sep, |text| + j) == WordAt(rest, sep, j)
    decreases |rest| - j
  {
    if j < |rest| && rest[j] != sep {
      ShiftedWord(text, rest, sep, j + 1);
    }
  }

  /** Argument `k` is word `k`, with whatever stale bytes follow the text if the word is the unterminated last one. */
  lemma {:induction false} ArgumentIsWord(z: Zipper, k: nat)
    requires k < WordCount(z)
    ensures |Argv(z)| == |Words(z.Text(), '\0')| == WordCount(z)
    ensures var i, word := WordStarts(z.Text(), '\0')[k], Words(z.Text(), '\0')[k];
            Argv(z)[k] == word + if i + |word| == |z.Text()| then WordAt(z.tail, '\0', 0) else ""
  {
    StartsInBuffer(z);
    var starts := WordStarts(z.Text(), '\0');
    StartsAreExact(z.Text(), '\0');
    assert IsWordStart(z.Text(), '\0', starts[k]);
    assert z.Buffer() == z.Text() + z.tail;
    RunOnBehindText(z.Text(), z.tail, '\0', starts[k]);
  }

  lemma {:induction false} LastWordReachesEnd(text: string)
    requires text != "" && text[|text| - 1] != '\0'
    ensures var words := Words(text, '\0');
            words != [] && WordStarts(text, '\0')[|words| - 1] + |words[|words| - 1]| == |text|
  {
    var starts := WordStarts(text, '\0');
    StartsAreExact(text, '\0');
    var s := RunStart(text, |text| - 1);
    assert IsWordStart(text, '\0', s);
    assert s in starts;
    var k :| 0 <= k < |starts| && starts[k] == s;
    WordIsMaximal(text, '\0', k);
    var last := |starts| - 1;
    WordIsMaximal(text, '\0', last);
    assert IsWordStart(text, '\0', starts[last]);
    if k < last {
      assert false;
    }
  }

  /** Where the zero-free stretch that contains `i` begins. */
  lemma {:induction false} RunStart(text: string, i: nat) returns (s: nat)
    requires i < |text| && text[i] != '\0'
    ensures s <= i && IsWordStart(text, '\0', s) && forall j :: s <= j <= i ==> text[j] != '\0'
  {
    if i == 0 || text[i - 1] == '\0' {
      s := i;
    } else {
      s := RunStart(text, i - 1);
    }
  }

  /** Enter passes exactly the words of the edited line if and only if the line is terminated. */
  lemma {:induction false} ArgvIsWordsIffTerminated(z: Zipper)
    requires GoodLine(z)
    ensures Argv(z) == Words(z.Text(), '\0') <==> Terminated(z)
  {
    if Terminated(z) {
      forall k | 0 <= k < WordCount(z)
        ensures Argv(z)[k] == Words(z.Text(), '\0')[k]
      {
        TerminatedArgument(z, k);
      }
      StartsInBuffer(z);
    } else {
      var words := Words(z.Text(), '\0');
      LastWordReachesEnd(z.Text());
      ArgumentIsWord(z, |words| - 1);
      assert WordAt(z.tail, '\0', 0) != "";
    }
  }

  lemma {:induction false} TerminatedArgument(z: Zipper, k: nat)
    requires GoodLine(z) && Terminated(z) && k < WordCount(z)
    ensures |Argv(z)| == |Words(z.Text(), '\0')| == WordCount(z)
    ensures Argv(z)[k] == Words(z.Text(), '\0')[k]
  {
    var text, i, word := z.Text(), WordStarts(z.Text(), '\0')[k], Words(z.Text(), '\0')[k];
    ArgumentIsWord(z, k);
    WordIsMaximal(text, '\0', k);
    if i + |word| == |text| {
      assert text[|text| - 1] == text[i..i + |word|][|word| - 1] == word[|word| - 1];
    }
  }

  /** ^K is the only key that can leave a line unterminated. */
  lemma {:induction false} StepKeepsTerminator(s: State, e: Event)
    requires Inv(s) && s.zip.tail[0] == '\0' && e.key != KEY_VT
    ensures Step(s, e).state.zip.tail[0] == '\0'
  {
    if !s.escape && e.key == KEY_NAK {
      BackspacesKeepTerminator(s.zip, |s.zip.left|);
    }
  }

  lemma {:induction false} BackspacesKeepTerminator(z: Zipper, n: nat)
    requires GoodLine(z) && z.tail[0] == '\0'
    ensures Backspaces(z, n).tail[0] == '\0'
  {
    if n > 0 {
      BackspacesKeepTerminator(z, n - 1);
    }
  }

  /** Without ^K every Enter of a run passes exactly the words of its line. */
  lemma {:induction false} RunKeepsTerminator(s: State, events: seq<Event>)
    requires Inv(s) && s.zip.tail[0] == '\0'
    requires forall i :: 0 <= i < |events| ==> events[i].key != KEY_VT
    ensures Run(s, events).state.zip.tail[0] == '\0'
    ensures Argv(Run(s, events).state.zip) == Words(Run(s, events).state.zip.Text(), '\0')
  {
    if events != [] {
      var n := |events| - 1;
      RunKeepsTerminator(s, events[..n]);
      StepKeepsTerminator(Run(s, events[..n]).state, events[n]);
    }
    ArgvIsWordsIffTerminated(Run(s, events).state.zip);
  }

  /**
   * ^K behind a word: the last argument is the last word the row shows and, if the cut went through it, the rest of
   * the word too, with whatever stale bytes follow.
   */
  lemma {:induction false} CutWordRunsOn(z: Zipper)
    requires GoodLine(z) && z.left != "" && z.left[|z.left| - 1] != '\0'
    ensures var words, args := Words(z.left, '\0'), Argv(KillRight(z));
            && KillRight(z).Text() == z.left && |args| == |words| > 0
            && args[|args| - 1] == words[|words| - 1] + WordAt(z.right + z.tail, '\0', 0)
            && (WordAt(z.right + z.tail, '\0', 0) == "" <==> (z.right + z.tail)[0] == '\0')
  {
    var cut := KillRight(z);
    assert cut.Text() == z.left;
    LastWordReachesEnd(z.left);
    ArgumentIsWord(cut, WordCount(cut) - 1);
  }

  /** With "ab" on the line and the cursor between, ^K shows "a" and the command receives "ab". */
  lemma {:induction false} CutWordIsPassedWhole(z: Zipper)
    requires GoodLine(z) && z.left == "a" && z.right == "b" && z.tail[0] == '\0'
    ensures KillRight(z).Text() == "a" && Argv(KillRight(z)) == ["ab"]
  {
    var stale := z.right + z.tail;
    CutWordRunsOn(z);
    assert WordStarts("a", '\0') == [0];
    assert WordAt("a", '\0', 0) == "a";
    assert stale[0] == 'b' && stale[1] == '\0';
    assert stale[0..0 + |"b"|] == "b";
    RunIs(stale, '\0', 0, "b");
    assert Words("a", '\0') == ["a"] && "a" + "b" == "ab";
    var args := Argv(KillRight(z));
    assert args == [args[0]];
  }

  // ---------------------------------------------------------------- what is remembered

  /** The non-empty line this key enters, if it does. */
  function EnteredBy(s: State, e: Event): seq<Line> {
    if !s.escape && e.key == KEY_CR && s.zip.Text() != "" then [s.zip.Text()] else []
  }

  /** The non-empty lines entered during a run, oldest first. */
  function Entered(s: State, events: seq<Event>): seq<Line>
    requires Inv(s)
  {
    if events == [] then []
    else
      var n := |events| - 1;
      Entered(s, events[..n]) + EnteredBy(Run(s, events[..n]).state, events[n])
  }

  lemma {:induction false} StepRemembers(s: State, e: Event)
    requires Inv(s)
    ensures Step(s, e).state.lines == SaveAll(s.lines, EnteredBy(s, e))
  {
    if EnteredBy(s, e) != [] {
      assert SaveAll(s.lines, [s.zip.Text()]) == Save(s.lines, s.zip.Text());
    }
  }

  lemma {:induction false} SaveAllConcat(lines: seq<Line>, a: seq<Line>, b: seq<Line>)
    ensures SaveAll(lines, a + b) == SaveAll(SaveAll(lines, a), b)
  {
    if b == [] {
      assert a + b == a;
    } else {
      assert (a + b)[..|a + b| - 1] == a + b[..|b| - 1];
      SaveAllConcat(lines, a, b[..|b| - 1]);
    }
  }

  lemma {:induction false} RunRemembers(s: State, events: seq<Event>)
    requires Inv(s)
    ensures Run(s, events).state.lines == SaveAll(s.lines, Entered(s, events))
    ensures forall i :: 0 <= i < |Entered(s, events)| ==> Entered(s, events)[i] != ""
  {
    if events != [] {
      var n := |events| - 1;
      var before := Run(s, events[..n]).state;
      RunRemembers(s, events[..n]);
      StepRemembers(before, events[n]);
      SaveAllConcat(s.lines, Entered(s, events[..n]), EnteredBy(before, events[n]));
    }
  }

  /**
   * After any run from start-up the history holds exactly the longest run of most recently entered lines
   * (those of at most 62 bytes) that fits the ring.
   */
  lemma {:induction false} HistoryAfterRun(s: State, events: seq<Event>)
    requires Inv(s) && s.lines == []
    ensures LongestFittingSuffix(Run(s, events).state.lines, ShortOnes(Entered(s, events)))
  {
    RunRemembers(s, events);
    HistoryIsLongestFittingSuffix(Entered(s, events));
  }

  // ---------------------------------------------------------------- arrow keys are control keys

  /** The escape sequence a terminal sends for the key that does the same as `key`. */
  function SequenceFor(key: char): string {
    if key == KEY_DLE then CSI + "A"
    else if key == KEY_SO then CSI + "B"
    else if key == KEY_ACK then CSI + "C"
    else if key == KEY_STX then CSI + "D"
    else if key == KEY_SOH then CSI + "7~"
    else if key == KEY_ENQ then CSI + "8~"
    else [key]
  }

  function Typed(keys: string, reply: string): seq<Event> {
    seq(|keys|, i requires 0 <= i < |keys| => Event(keys[i], reply))
  }

  predicate SameButSequence(a: State, b: State) {
    a.(escapeSeq := 0) == b.(escapeSeq := 0)
  }

  lemma {:induction false} RunTwo(s: State, a: Event, b: Event)
    requires Inv(s)
    ensures Run(s, [a, b]) == Then(Step(s, a), Step(Step(s, a).state, b))
  {
    assert [a, b] == [a] + [b];
    RunConcat(s, [a], [b]);
    RunOne(s, a);
    RunOne(Step(s, a).state, b);
  }

  lemma {:induction false} StepsConcat(s: State, a: seq<Event>, b: seq<Event>, first: Outcome, second: Outcome)
    requires Inv(s) && Run(s, a) == first && Run(first.state, b) == second
    ensures Run(s, a + b) == Then(first, second)
  {
    RunConcat(s, a, b);
  }

  lemma {:induction false} ThenSilent(s: State, o: Outcome)
    ensures Then(Silent(s), o) == o
  {
  }

  /** Introducer and bracket, whatever the last sequence left behind. */
  lemma {:induction false} OpeningWorks(s: State, reply: string)
    requires Inv(s) && !s.escape
    ensures Run(s, Typed(CSI, reply)) == Silent(s.(escape := true, escapeSeq := ESC_BRACKET))
  {
    RunTwo(s, Event(KEY_ESC, reply), Event('[', reply));
    assert Typed(CSI, reply) == [Event(KEY_ESC, reply), Event('[', reply)];
  }

  /** Introducer, bracket and a letter. */
  lemma {:induction false} ShortSequence(s: State, letter: char, reply: string)
    requires Inv(s) && !s.escape && letter != '['
    ensures Run(s, Typed(CSI + [letter], reply)) == BracketKey(s.(escape := true, escapeSeq := ESC_BRACKET), letter)
  {
    var inside := s.(escape := true, escapeSeq := ESC_BRACKET);
    OpeningWorks(s, reply);
    assert Typed(CSI + [letter], reply) == Typed(CSI, reply) + [Event(letter, reply)];
    RunOne(inside, Event(letter, reply));
    StepsConcat(s, Typed(CSI, reply), [Event(letter, reply)], Silent(inside), BracketKey(inside, letter));
    ThenSilent(inside, BracketKey(inside, letter));
  }

  /** The same with a digit and a tilde: Home or End. */
  lemma {:induction false} LongSequence(s: State, digit: char, reply: string)
    requires Inv(s) && !s.escape && (digit == '7' || digit == '8')
    ensures Run(s, Typed(CSI + [digit, '~'], reply))
            == Edited(s.(escapeSeq := if digit == '7' then ESC_HOME else ESC_END),
                      if digit == '7' then GoHome(s.zip) else GoEnd(s.zip))
  {
    var half := s.(escape := true, escapeSeq := if digit == '7' then ESC_HOME else ESC_END);
    ShortSequence(s, digit, reply);
    assert Typed(CSI + [digit, '~'], reply) == Typed(CSI + [digit], reply) + [Event('~', reply)];
    RunOne(half, Event('~', reply));
    var o := Step(half, Event('~', reply));
    StepsConcat(s, Typed(CSI + [digit], reply), [Event('~', reply)], Silent(half), o);
    ThenSilent(half, o);
  }

  /** Two outcomes that differ at most in what the last escape sequence left behind. */
  predicate SameOutcome(o: Outcome, o': Outcome) {
    o.out == o'.out && o.calls == o'.calls && SameButSequence(o.state, o'.state)
  }

  lemma {:induction false} PlainKeysIgnoreSequence(s: State, s': State, e: Event)
    requires Inv(s) && Inv(s') && SameButSequence(s, s') && !s.escape
    ensures SameOutcome(Step(s, e), Step(s', e))
  {
  }

  lemma {:induction false} VerticalArrowIsKey(s: State, letter: char, key: char, dir: Direction, reply: string)
    requires Inv(s) && !s.escape
    requires if dir == Up then letter == 'A' && key == KEY_DLE else letter == 'B' && key == KEY_SO
    ensures SameOutcome(BracketKey(s.(escape := true, escapeSeq := ESC_BRACKET), letter), PlainKey(s, key, reply))
  {
    SearchIgnoresSequence(s, s.(escape := false, escapeSeq := ESC_BRACKET), dir);
  }

  lemma {:induction false} SearchIgnoresSequence(s: State, s': State, dir: Direction)
    requires Inv(s) && SameButSequence(s, s')
    ensures Inv(s') && SameOutcome(Search(s', dir), Search(s, dir))
  {
  }

  lemma {:induction false} ArrowIsKey(s: State, letter: char, key: char, reply: string)
    requires Inv(s) && !s.escape
    requires (letter, key) == ('A', KEY_DLE) || (letter, key) == ('B', KEY_SO)
          || (letter, key) == ('C', KEY_ACK) || (letter, key) == ('D', KEY_STX)
    ensures SameOutcome(BracketKey(s.(escape := true, escapeSeq := ESC_BRACKET), letter), PlainKey(s, key, reply))
  {
    if letter == 'A' {
      VerticalArrowIsKey(s, letter, key, Up, reply);
    } else if letter == 'B' {
      VerticalArrowIsKey(s, letter, key, Down, reply);
    }
  }

  lemma {:induction false} ArrowSequenceIsKey(s: State, letter: char, e: Event)
    requires Inv(s) && !s.escape
    requires (letter, e.key) == ('A', KEY_DLE) || (letter, e.key) == ('B', KEY_SO)
          || (letter, e.key) == ('C', KEY_ACK) || (letter, e.key) == ('D', KEY_STX)
    ensures SameOutcome(Run(s, Typed(CSI + [letter], e.reply)), Step(s, e))
  {
    ShortSequence(s, letter, e.reply);
    ArrowIsKey(s, letter, e.key, e.reply);
  }

  lemma {:induction false} HomeEndSequenceIsKey(s: State, digit: char, e: Event)
    requires Inv(s) && !s.escape && ((digit, e.key) == ('7', KEY_SOH) || (digit, e.key) == ('8', KEY_ENQ))
    ensures SameOutcome(Run(s, Typed(CSI + [digit, '~'], e.reply)), Step(s, e))
  {
    LongSequence(s, digit, e.reply);
    HomeEndIsKey(s, digit, e);
  }

  lemma {:induction false} HomeEndIsKey(s: State, digit: char, e: Event)
    requires Inv(s) && !s.escape && ((digit, e.key) == ('7', KEY_SOH) || (digit, e.key) == ('8', KEY_ENQ))
    ensures SameOutcome(Edited(s.(escapeSeq := if digit == '7' then ESC_HOME else ESC_END),
                               if digit == '7' then GoHome(s.zip) else GoEnd(s.zip)),
                        Step(s, e))
  {
  }

  /** One control key against the sequence for it. */
  lemma {:induction false} SequenceIsKey(s: State, e: Event)
    requires Inv(s) && !s.escape && e.key != KEY_ESC
    ensures SameOutcome(Run(s, Typed(SequenceFor(e.key), e.reply)), Step(s, e))
  {
    if e.key == KEY_SOH || e.key == KEY_ENQ {
      var digit := if e.key == KEY_SOH then '7' else '8';
      assert SequenceFor(e.key) == CSI + [digit, '~'];
      HomeEndSequenceIsKey(s, digit, e);
    } else if SequenceFor(e.key) != [e.key] {
      var letter := SequenceFor(e.key)[2];
      assert SequenceFor(e.key) == CSI + [letter];
      ArrowSequenceIsKey(s, letter, e);
    } else {
      assert Typed([e.key], e.reply) == [e];
      RunOne(s, e);
    }
  }

  lemma {:induction false} PlainKeysStayPlain(s: State, e: Event)
    requires Inv(s) && !s.escape && e.key != KEY_ESC
    ensures !Step(s, e).state.escape
  {
  }

  function WithSequences(events: seq<Event>): seq<Event> {
    if events == [] then []
    else
      var n := |events| - 1;
      WithSequences(events[..n]) + Typed(SequenceFor(events[n].key), events[n].reply)
  }

  /**
   * Replacing every ^P ^N ^F ^B ^A ^E of a run by the arrow, Home and End sequences changes nothing: not the
   * text, cursor or history, not what is printed, not what is executed.
   */
  lemma {:induction false} ArrowsAreControlKeys(s: State, s': State, events: seq<Event>)
    requires Inv(s) && Inv(s') && SameButSequence(s, s') && !s.escape
    requires forall i :: 0 <= i < |events| ==> events[i].key != KEY_ESC
    ensures SameOutcome(Run(s, WithSequences(events)), Run(s', events))
    ensures !Run(s, WithSequences(events)).state.escape
  {
    if events != [] {
      var n := |events| - 1;
      ArrowsAreControlKeys(s, s', events[..n]);
      var o, o' := Run(s, WithSequences(events[..n])), Run(s', events[..n]);
      SequenceIsKey(o.state, events[n]);
      PlainKeysIgnoreSequence(o.state, o'.state, events[n]);
      PlainKeysStayPlain(o.state, events[n]);
      RunConcat(s, WithSequences(events[..n]), Typed(SequenceFor(events[n].key), events[n].reply));
    }
  }
}
