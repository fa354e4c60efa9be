/** What Enter does to any line, wherever its cursor is: which command runs, what is printed, what is kept. */
module EnterLines {
  import opened Config
  import opened HistoryQueue
  import opened Terminal
  import opened Tokens
  import opened LineEditor
  import opened EditorRuns
  import opened TypedLines
  import opened CursorRuns

  /** One to seven words of the whole text make a command. */
  predicate IsCommand(text: string) {
    1 <= |Words(text, '\0')| <= 7
  }

  /** The bytes behind the text up to the next zero, for a word that ends where the text does. */
  function RunOn(z: Zipper, k: nat): string
    requires k < |Words(z.Text(), '\0')|
  {
    if WordStarts(z.Text(), '\0')[k] + |Words(z.Text(), '\0')[k]| == |z.Text()| then WordAt(z.tail, '\0', 0) else ""
  }

  lemma {:induction false} CountIsWords(z: Zipper)
    ensures |Words(z.Text(), '\0')| == WordCount(z)
  {
  }

  /**
   * Enter calls the command once with one argument for each word of the whole text, or not at all. An argument is its
   * word, and the last one goes on with the bytes behind the text if the word ends there.
   */
  lemma {:induction false} EnterCalls(st: State, reply: string)
    requires Inv(st) && !st.escape
    ensures var text, words := st.zip.Text(), Words(st.zip.Text(), '\0');
            var calls := Step(st, Event(KEY_CR, reply)).calls;
            && |calls| == (if IsCommand(text) then 1 else 0)
            && (IsCommand(text) ==>
                  |calls[0]| == |words|
                  && forall k :: 0 <= k < |words| ==> calls[0][k] == words[k] + RunOn(st.zip, k))
  {
    CountIsWords(st.zip);
    var words := Words(st.zip.Text(), '\0');
    forall k | 0 <= k < |words|
      ensures |Argv(st.zip)| == |words|
      ensures Argv(st.zip)[k] == words[k] + RunOn(st.zip, k)
    {
      ArgumentIsWord(st.zip, k);
    }
  }

  /** On a terminated line, at any place of the cursor, these are exactly the words. */
  lemma {:induction false} EnterCallsWords(st: State, reply: string)
    requires Inv(st) && !st.escape && Terminated(st.zip)
    ensures Step(st, Event(KEY_CR, reply)).calls
            == if IsCommand(st.zip.Text()) then [Words(st.zip.Text(), '\0')] else []
  {
    CountIsWords(st.zip);
    ArgvIsWordsIffTerminated(st.zip);
  }

  /** Between a new line and the prompt stands what the command printed, the complaint, or nothing. */
  lemma {:induction false} EnterPrints(st: State, reply: string)
    requires Inv(st) && !st.escape
    ensures var text := st.zip.Text();
            Step(st, Event(KEY_CR, reply)).out
            == "\r\n"
               + (if IsCommand(text) then reply
                  else if Words(text, '\0') == [] then ""
                  else "ERROR:too many tokens\r")
               + (CSI + "32m~ >" + CSI + "0m ")
  {
    CountIsWords(st.zip);
  }

  /** A non-empty line is saved; then the line is empty and the history starts from its newest line. */
  lemma {:induction false} EnterKeeps(st: State, reply: string)
    requires Inv(st) && !st.escape
    ensures var text := st.zip.Text();
            Step(st, Event(KEY_CR, reply)).state
            == State(Zipper("", "", LineEditor.Zeros(COMMAND_LINE_LEN)),
                     if text == "" then st.lines else Save(st.lines, text), 0, false, st.escapeSeq)
  {
  }

  // ---------------------------------------------------------------- typed lines

  lemma {:induction false} FilledLine(st: State, s: string)
    requires Inv(st) && !st.escape && st.zip.Text() == "" && AllPrintable(s)
    ensures var typed := Run(st, Typed(s, "")).state;
            && Inv(typed) && !typed.escape && typed.zip.Text() == Stored(Kept(s)) && Terminated(typed.zip)
            && |typed.zip.Text()| == |Kept(s)|
  {
    TypingFills(st, s);
  }

  lemma {:induction false} MovedIsTerminated(st: State, n: nat)
    requires Inv(st) && Terminated(st.zip) && n <= |st.zip.Text()|
    ensures Inv(CursorRuns.At(st, n)) && Terminated(MoveTo(st.zip, n)) && MoveTo(st.zip, n).Text() == st.zip.Text()
  {
    assert st.zip.Text()[..n] + st.zip.Text()[n..] == st.zip.Text();
  }

  /** A line typed, the cursor moved to any place, and Enter: the command gets exactly the words typed. */
  lemma {:induction false} TypeMoveEnter(st: State, s: string, n: nat, reply: string)
    requires Inv(st) && !st.escape && st.zip.Text() == "" && AllPrintable(s) && n <= |Kept(s)|
    ensures var typed := Run(st, Typed(s, "")).state;
            var moved := Run(typed, [Event(KEY_SOH, "")] + Presses(KEY_ACK, n)).state;
            && |moved.zip.left| == n
            && Step(moved, Event(KEY_CR, reply)).calls
               == if 1 <= |Words(Kept(s), ' ')| <= 7 then [Words(Kept(s), ' ')] else []
  {
    var typed := Run(st, Typed(s, "")).state;
    FilledLine(st, s);
    HomeThenForwards(typed, n);
    MovedIsTerminated(typed, n);
    EnterCallsWords(CursorRuns.At(typed, n), reply);
    StoredWords(s);
  }
}
