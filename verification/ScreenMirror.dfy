/** The terminal row always shows the prompt and the edited line, with the terminal's cursor where the editor's is. */
module ScreenMirror {
  import opened Config
  import opened HistoryQueue
  import opened Terminal
  import opened LineEditor

  /** Prompt, longest line and one more column, so that drawing never wraps. */
  const MIN_WIDTH := PROMPT_LEN + COMMAND_LINE_LEN

  const PROMPT_TEXT := "~ > "

  /** The row a user should see. */
  function Showing(width: nat, text: string, cursor: nat): (t: Screen)
    requires |text| < COMMAND_LINE_LEN && width >= MIN_WIDTH && cursor <= |text|
    ensures Valid(t)
  {
    Screen(width, PROMPT_TEXT + Shown(text) + Blank(width - PROMPT_LEN - |text|), PROMPT_LEN + cursor, Ground)
  }

  predicate Mirrors(t: Screen, z: Zipper)
    requires GoodLine(z)
  {
    t.width >= MIN_WIDTH && t == Showing(t.width, z.Text(), |z.left|)
  }

  // ---------------------------------------------------------------- the codes at work

  lemma {:induction false} ForwardWorks(t: Screen, offset: int)
    requires Valid(t) && t.mode == Ground && 0 < offset < t.width - t.col
    ensures Exec(t, MoveCode(offset)) == t.(col := t.col + offset)
  {
    ExecControl(t, offset, 'C');
  }

  lemma {:induction false} BackWorks(t: Screen, n: nat)
    requires Valid(t) && t.mode == Ground && 0 < n <= t.col
    ensures Exec(t, MoveCode(0 - n)) == t.(col := t.col - n)
  {
    ExecControl(t, n, 'D');
  }

  lemma {:induction false} StayWorks(t: Screen)
    requires Valid(t)
    ensures Exec(t, MoveCode(0)) == t
  {
  }

  lemma {:induction false} MoveWorks(t: Screen, offset: int)
    requires Valid(t) && t.mode == Ground && 0 <= t.col + offset < t.width
    ensures Exec(t, MoveCode(offset)) == t.(col := t.col + offset)
  {
    if offset > 0 {
      ForwardWorks(t, offset);
    } else if offset < 0 {
      BackWorks(t, -offset);
    } else {
      StayWorks(t);
    }
  }

  lemma {:induction false} ResetWorks(t: Screen)
    requires Valid(t) && t.mode == Ground && t.width >= MIN_WIDTH && t.col <= COMMAND_LINE_LEN + PROMPT_LEN + 2
    ensures Exec(t, RESET_CURSOR) == t.(col := PROMPT_LEN)
  {
    var back := COMMAND_LINE_LEN + PROMPT_LEN + 2;
    ExecConcat(t, MoveCode(-back), MoveCode(PROMPT_LEN));
    ExecControl(t, back, 'D');
    MoveWorks(t.(col := 0), PROMPT_LEN);
  }

  lemma {:induction false} EraseWorks(t: Screen)
    requires Valid(t) && t.mode == Ground
    ensures Exec(t, ERASE) == t.(row := t.row[..t.col] + Blank(t.width - t.col))
  {
    assert ERASE == CSI + Decimal(0) + "K";
    ExecControl(t, 0, 'K');
  }

  lemma {:induction false} ShownIsPrintable(text: string)
    requires AllStorable(text)
    ensures AllPrintable(Shown(text))
  {
    assert forall i :: 0 <= i < |text| ==> Storable(text[i]);
  }

  /** Redrawing from `pos` on completes the row, provided everything before `pos` is right already. */
  lemma {:induction false} PrintLineWorks(t: Screen, z: Zipper, pos: nat)
    requires GoodLine(z) && pos <= |z.Text()|
    requires Valid(t) && t.mode == Ground && t.width >= MIN_WIDTH && t.col == PROMPT_LEN + pos
    requires t.row[..t.col] == PROMPT_TEXT + Shown(z.Text())[..pos]
    ensures Exec(t, PrintLine(z, pos)) == Showing(t.width, z.Text(), |z.left|)
  {
    var text := z.Text();
    var tail := Shown(text[pos..]);
    var erased := t.(row := t.row[..t.col] + Blank(t.width - t.col));
    var drawn := Showing(t.width, text, |text|);
    EraseWorks(t);
    DrawTail(erased, text, pos);
    ResetWorks(drawn);
    MoveWorks(drawn.(col := PROMPT_LEN), |z.left|);
    ExecFour(t, ERASE, tail, RESET_CURSOR, MoveCode(|z.left|));
  }

  lemma {:induction false} ExecFour(t: Screen, a: string, b: string, c: string, d: string)
    requires Valid(t)
    ensures Exec(t, a + b + c + d) == Exec(Exec(Exec(Exec(t, a), b), c), d)
  {
    ExecConcat(t, a, b);
    ExecConcat(t, a + b, c);
    ExecConcat(t, a + b + c, d);
  }

  /** Drawing the rest of the text behind its first `pos` bytes completes the row. */
  lemma {:induction false} DrawTail(t: Screen, text: string, pos: nat)
    requires |text| < COMMAND_LINE_LEN && AllStorable(text) && pos <= |text|
    requires Valid(t) && t.mode == Ground && t.width >= MIN_WIDTH && t.col == PROMPT_LEN + pos
    requires t.row == PROMPT_TEXT + Shown(text)[..pos] + Blank(t.width - PROMPT_LEN - pos)
    ensures Exec(t, Shown(text[pos..])) == Showing(t.width, text, |text|)
  {
    ShownIsPrintable(text[pos..]);
    ExecText(t, Shown(text[pos..]));
    RowCompleted(t.width, text, pos);
  }

  lemma {:induction false} RowCompleted(width: nat, text: string, pos: nat)
    requires width >= MIN_WIDTH && |text| < COMMAND_LINE_LEN && pos <= |text|
    ensures var col, end := PROMPT_LEN + pos, PROMPT_LEN + |text|;
            var row := PROMPT_TEXT + Shown(text)[..pos] + Blank(width - PROMPT_LEN - pos);
            row[..col] + Shown(text[pos..]) + row[end..] == PROMPT_TEXT + Shown(text) + Blank(width - PROMPT_LEN - |text|)
  {
    assert Shown(text) == Shown(text)[..pos] + Shown(text[pos..]);
  }

  /** The prompt's colour codes draw nothing. */
  lemma {:induction false} PromptWorks(t: Screen)
    requires Valid(t) && t.mode == Ground && t.col == 0 && t.width >= MIN_WIDTH
    ensures Exec(t, PROMPT) == t.(row := PROMPT_TEXT + t.row[PROMPT_LEN..], col := PROMPT_LEN)
  {
    var name := "~ >";
    var named := t.(row := name + t.row[|name|..], col := |name|);
    GreenWorks(t);
    NameWorks(t, name);
    PlainWorks(named);
    LastSpace(t, named);
    ExecFour(t, CSI + "32m", name, CSI + "0m", " ");
    assert PROMPT == CSI + "32m" + name + (CSI + "0m") + " ";
  }

  lemma {:induction false} NameWorks(t: Screen, name: string)
    requires Valid(t) && t.mode == Ground && t.col == 0 && |name| < t.width && AllPrintable(name)
    ensures Exec(t, name) == t.(row := name + t.row[|name|..], col := |name|)
  {
    ExecText(t, name);
    assert t.row[..0] + name + t.row[|name|..] == name + t.row[|name|..];
  }

  lemma {:induction false} GreenWorks(t: Screen)
    requires Valid(t) && t.mode == Ground
    ensures Exec(t, CSI + "32m") == t
  {
    assert Decimal(3) == "3";
    assert CSI + "32m" == CSI + Decimal(32) + "m";
    ExecControl(t, 32, 'm');
  }

  lemma {:induction false} PlainWorks(t: Screen)
    requires Valid(t) && t.mode == Ground
    ensures Exec(t, CSI + "0m") == t
  {
    ExecConcat(t, CSI, "0m");
    ExecTwo(t, ESC, '[');
    ExecTwo(t.(mode := Param(0)), '0', 'm');
  }

  lemma {:induction false} LastSpace(t: Screen, named: Screen)
    requires Valid(t) && t.mode == Ground && t.width >= MIN_WIDTH
    requires named == t.(row := "~ >" + t.row[3..], col := 3)
    ensures Exec(named, " ") == t.(row := PROMPT_TEXT + t.row[PROMPT_LEN..], col := PROMPT_LEN)
  {
    ExecText(named, " ");
    assert named.row[..3] + " " + named.row[PROMPT_LEN..] == PROMPT_TEXT + t.row[PROMPT_LEN..];
  }

  // ---------------------------------------------------------------- each kind of key

  lemma {:induction false} MovedMirrors(t: Screen, moved: Screen, z: Zipper, n: nat)
    requires GoodLine(z) && Mirrors(t, z) && n <= |z.Text()|
    requires moved == t.(col := PROMPT_LEN + n)
    ensures Mirrors(moved, MoveTo(z, n))
  {
    assert MoveTo(z, n).Text() == z.Text();
  }

  lemma {:induction false} GoToMirrors(t: Screen, z: Zipper, n: nat)
    requires GoodLine(z) && Mirrors(t, z) && n <= |z.Text()|
    ensures Mirrors(Exec(t, GoTo(z, n).out), GoTo(z, n).zip)
  {
    MoveWorks(t, n - |z.left|);
    MovedMirrors(t, Exec(t, MoveCode(n - |z.left|)), z, n);
  }

  lemma {:induction false} GoHomeMirrors(t: Screen, z: Zipper)
    requires GoodLine(z) && Mirrors(t, z)
    ensures Mirrors(Exec(t, GoHome(z).out), GoHome(z).zip)
  {
    ResetWorks(t);
    MovedMirrors(t, Exec(t, RESET_CURSOR), z, 0);
  }

  /** A line drawn from the prompt on replaces whatever line was there. */
  lemma {:induction false} ReplacedMirrors(t: Screen, z: Zipper, line: Zipper)
    requires GoodLine(z) && GoodLine(line) && Mirrors(t, z)
    ensures Mirrors(Exec(t, RESET_CURSOR + PrintLine(line, 0)), line)
  {
    ExecConcat(t, RESET_CURSOR, PrintLine(line, 0));
    ResetWorks(t);
    PrintLineWorks(t.(col := PROMPT_LEN), line, 0);
  }

  lemma {:induction false} SearchMirrors(t: Screen, s: State, dir: Direction)
    requires Inv(s) && Mirrors(t, s.zip)
    ensures Mirrors(Exec(t, Search(s, dir).out), Search(s, dir).state.zip)
  {
    var recall := Navigate(s.lines, s.cur, dir);
    if recall.shown.Some? {
      ReplacedMirrors(t, s.zip, Recalled(s.zip, recall.shown.value, dir));
    }
  }

  lemma {:induction false} TypeMirrors(t: Screen, z: Zipper, c: char)
    requires GoodLine(z) && Mirrors(t, z) && Printable(c)
    ensures Mirrors(Exec(t, Type(z, c).out), Type(z, c).zip)
  {
    if |z.tail| > 1 {
      var zip, pos := Insert(z, c), |z.left|;
      assert zip.Text()[..pos] == z.left == z.Text()[..pos];
      assert Shown(zip.Text())[..pos] == Shown(z.Text())[..pos];
      PrintLineWorks(t, zip, pos);
    }
  }

  lemma {:induction false} EraseRightMirrors(t: Screen, z: Zipper)
    requires GoodLine(z) && Mirrors(t, z)
    ensures Mirrors(Exec(t, ERASE), KillRight(z))
  {
    EraseWorks(t);
    assert z.Text()[..|z.left|] == z.left == KillRight(z).Text();
    assert Shown(z.Text())[..|z.left|] == Shown(z.left);
  }

  /** During a run of backspaces the row up to the cursor stays right; the rest is redrawn at the end. */
  ghost predicate RightUpToCursor(t: Screen, z: Zipper)
    requires GoodLine(z)
  {
    && Valid(t) && t.mode == Ground && t.width >= MIN_WIDTH
    && t.col == PROMPT_LEN + |z.left| && t.row[..t.col] == PROMPT_TEXT + Shown(z.left)
  }

  lemma {:induction false} RubOutWorks(t: Screen, z: Zipper)
    requires GoodLine(z) && z.left != "" && RightUpToCursor(t, z)
    ensures RightUpToCursor(Exec(t, RUB_OUT), Backspace(z))
  {
    ExecRubOut(t);
    var n := |z.left| - 1;
    assert Shown(z.left)[..n] == Shown(z.left[..n]);
    assert t.row[..t.col - 1] == t.row[..t.col][..t.col - 1];
  }

  lemma {:induction false} RubOutsWork(t: Screen, z: Zipper, n: nat)
    requires GoodLine(z) && n <= |z.left| && RightUpToCursor(t, z)
    ensures |Backspaces(z, n).left| == |z.left| - n && Backspaces(z, n).right == z.right
    ensures RightUpToCursor(Exec(t, Repeat(RUB_OUT, n)), Backspaces(z, n))
  {
    if n > 0 {
      RubOutsWork(t, z, n - 1);
      ExecConcat(t, Repeat(RUB_OUT, n - 1), RUB_OUT);
      RubOutWorks(Exec(t, Repeat(RUB_OUT, n - 1)), Backspaces(z, n - 1));
    }
  }

  lemma {:induction false} MirrorIsRightUpToCursor(t: Screen, z: Zipper)
    requires GoodLine(z) && Mirrors(t, z)
    ensures RightUpToCursor(t, z)
  {
    assert Shown(z.Text())[..|z.left|] == Shown(z.left);
  }

  lemma {:induction false} FinishRow(t: Screen, z: Zipper)
    requires GoodLine(z) && RightUpToCursor(t, z)
    ensures Mirrors(Exec(t, PrintLine(z, |z.left|)), z)
  {
    assert Shown(z.Text())[..|z.left|] == Shown(z.left);
    PrintLineWorks(t, z, |z.left|);
  }

  lemma {:induction false} EraseMirrors(t: Screen, z: Zipper)
    requires GoodLine(z) && Mirrors(t, z)
    ensures Mirrors(Exec(t, Erase(z).out), Erase(z).zip)
  {
    MirrorIsRightUpToCursor(t, z);
    var zip, rub := Backspace(z), if z.left == "" then "" else RUB_OUT;
    if z.left != "" {
      RubOutWorks(t, z);
    }
    ExecConcat(t, rub, PrintLine(zip, |zip.left|));
    FinishRow(Exec(t, rub), zip);
  }

  lemma {:induction false} EraseLeftMirrors(t: Screen, z: Zipper)
    requires GoodLine(z) && Mirrors(t, z)
    ensures Mirrors(Exec(t, EraseLeft(z).out), EraseLeft(z).zip)
  {
    MirrorIsRightUpToCursor(t, z);
    var n := |z.left|;
    var zip := Backspaces(z, n);
    RubOutsWork(t, z, n);
    ExecConcat(t, Repeat(RUB_OUT, n), PrintLine(zip, 0));
    FinishRow(Exec(t, Repeat(RUB_OUT, n)), zip);
  }

  /** ^R rebuilds the row from whatever the terminal shows. */
  lemma {:induction false} RedrawRecovers(t: Screen, z: Zipper)
    requires GoodLine(z) && Valid(t) && t.mode == Ground && t.width >= MIN_WIDTH
    ensures Mirrors(Exec(t, Redraw(z).out), z)
  {
    ExecNewline(t);
    PromptWorks(Fresh(t.width));
    var prompted := Exec(Fresh(t.width), PROMPT);
    ResetWorks(prompted);
    PrintLineWorks(prompted, z, 0);
    ExecFour(t, NEWLINE, PROMPT, RESET_CURSOR, PrintLine(z, 0));
  }

  lemma {:induction false} EditKeyMirrors(t: Screen, z: Zipper, key: char)
    requires GoodLine(z) && Mirrors(t, z)
    ensures Mirrors(Exec(t, EditKey(z, key).out), EditKey(z, key).zip)
  {
    if key == KEY_NAK {
      EraseLeftMirrors(t, z);
    } else if key == KEY_VT {
      EraseRightMirrors(t, z);
    } else if key == KEY_ENQ {
      GoToMirrors(t, z, |z.Text()|);
    } else if key == KEY_SOH {
      GoHomeMirrors(t, z);
    } else if key == KEY_ACK {
      ForwardMirrors(t, z);
    } else if key == KEY_STX {
      BackMirrors(t, z);
    } else if key == KEY_DEL || key == KEY_BS {
      EraseMirrors(t, z);
    } else if key == KEY_DC2 {
      RedrawRecovers(t, z);
    } else if !(IsControlChar(key) || (key == ' ' && z.Text() == "")) {
      TypeMirrors(t, z, key);
    }
  }

  lemma {:induction false} ForwardMirrors(t: Screen, z: Zipper)
    requires GoodLine(z) && Mirrors(t, z)
    ensures Mirrors(Exec(t, Forward(z).out), Forward(z).zip)
  {
    GoToMirrors(t, z, if z.right == "" then |z.left| else |z.left| + 1);
  }

  lemma {:induction false} BackMirrors(t: Screen, z: Zipper)
    requires GoodLine(z) && Mirrors(t, z)
    ensures Mirrors(Exec(t, Back(z).out), Back(z).zip)
  {
    GoToMirrors(t, z, if z.left == "" then 0 else |z.left| - 1);
  }

  // ---------------------------------------------------------------- Enter

  predicate TooManyTokens(s: State, e: Event) {
    !s.escape && e.key == KEY_CR && WordCount(s.zip) >= COMMAND_TOKEN_NMB
  }

  predicate Executes(s: State, e: Event) {
    !s.escape && e.key == KEY_CR && 0 < WordCount(s.zip) < COMMAND_TOKEN_NMB
  }

  predicate Interrupts(s: State, e: Event) {
    !s.escape && e.key == KEY_ETX
  }

  lemma {:induction false} FreshPromptMirrors(width: nat)
    requires width >= MIN_WIDTH
    ensures Mirrors(Exec(Fresh(width), PROMPT), EmptyLine)
  {
    PromptWorks(Fresh(width));
  }

  /** A carriage return without a line feed: the prompt overwrites only the start of the message. */
  lemma {:induction false} ErrorStaysOnRow(width: nat)
    requires width >= MIN_WIDTH
    ensures !Mirrors(Exec(Fresh(width), TOO_MANY_TOKENS + PROMPT), EmptyLine)
  {
    var message, below := "ERROR:too many tokens", Fresh(width);
    var written := below.(row := message + below.row[|message|..], col := |message|);
    NameWorks(below, message);
    ExecOne(written, '\r');
    PromptWorks(written.(col := 0));
    assert TOO_MANY_TOKENS + PROMPT == message + "\r" + PROMPT;
    ExecConcat(below, message, "\r");
    ExecConcat(below, message + "\r", PROMPT);
    assert written.row[4] == message[4] == 'R';
    assert Showing(width, "", 0).row[4] == ' ';
  }

  lemma {:induction false} EnterMirrors(t: Screen, s: State, reply: string)
    requires Inv(s) && Valid(t) && t.mode == Ground && t.width >= MIN_WIDTH
    requires 0 < WordCount(s.zip) < COMMAND_TOKEN_NMB ==> Exec(Fresh(t.width), reply) == Fresh(t.width)
    ensures Mirrors(Exec(t, Enter(s, reply).out), Enter(s, reply).state.zip) <==> WordCount(s.zip) < COMMAND_TOKEN_NMB
  {
    var said, below := Said(s.zip, reply), Fresh(t.width);
    ExecNewline(t);
    assert NEWLINE + said + PROMPT == NEWLINE + (said + PROMPT);
    ExecConcat(t, NEWLINE, said + PROMPT);
    ExecConcat(below, said, PROMPT);
    FreshPromptMirrors(t.width);
    ErrorStaysOnRow(t.width);
  }

  // ---------------------------------------------------------------- any key, any run

  /** An executed command leaves the terminal on a fresh row, as the console's commands do. */
  predicate ReplyOnFreshRow(width: nat, s: State, e: Event)
    requires Inv(s)
  {
    Executes(s, e) && width > 0 ==> Exec(Fresh(width), e.reply) == Fresh(width)
  }

  /** The two keys that let something else write on the row. */
  predicate Disturbs(t: Screen, s: State, e: Event)
    requires Inv(s) && Valid(t)
  {
    TooManyTokens(s, e) || (Interrupts(s, e) && Exec(t, e.reply) != t)
  }

  lemma {:induction false} BracketKeyMirrors(t: Screen, s: State, key: char)
    requires Inv(s) && Mirrors(t, s.zip)
    ensures Mirrors(Exec(t, BracketKey(s, key).out), BracketKey(s, key).state.zip)
  {
    match key {
      case 'A' => SearchMirrors(t, s.(escape := false), Up);
      case 'B' => SearchMirrors(t, s.(escape := false), Down);
      case 'C' => ForwardMirrors(t, s.zip);
      case 'D' => BackMirrors(t, s.zip);
      case _ =>
    }
  }

  lemma {:induction false} EscapeKeyMirrors(t: Screen, s: State, key: char)
    requires Inv(s) && Mirrors(t, s.zip)
    ensures Mirrors(Exec(t, EscapeKey(s, key).out), EscapeKey(s, key).state.zip)
  {
    BracketKeyMirrors(t, s, key);
    GoHomeMirrors(t, s.zip);
    GoToMirrors(t, s.zip, |s.zip.Text()|);
  }

  lemma {:induction false} PlainKeyMirrors(t: Screen, s: State, e: Event)
    requires Inv(s) && !s.escape && Mirrors(t, s.zip) && ReplyOnFreshRow(t.width, s, e)
    ensures Mirrors(Exec(t, PlainKey(s, e.key, e.reply).out), PlainKey(s, e.key, e.reply).state.zip)
            <==> !Disturbs(t, s, e)
  {
    if e.key == KEY_CR {
      EnterMirrors(t, s, e.reply);
    } else if e.key == KEY_DLE {
      SearchMirrors(t, s, Up);
    } else if e.key == KEY_SO {
      SearchMirrors(t, s, Down);
    } else if e.key != KEY_ESC && e.key != KEY_ETX {
      EditKeyMirrors(t, s.zip, e.key);
    }
  }

  /**
   * One key on a mirrored row leaves a mirrored row exactly when it is neither an Enter on eight or more
   * words nor an interrupt whose callback disturbs the row.
   */
  lemma {:induction false} StepMirrors(t: Screen, s: State, e: Event)
    requires Inv(s) && Mirrors(t, s.zip) && ReplyOnFreshRow(t.width, s, e)
    ensures Mirrors(Exec(t, Step(s, e).out), Step(s, e).state.zip) <==> !Disturbs(t, s, e)
  {
    if s.escape {
      EscapeKeyMirrors(t, s, e.key);
    } else {
      PlainKeyMirrors(t, s, e);
    }
  }

  /** No key of the run disturbs the row, and every command ends on a fresh row. */
  ghost predicate Calm(t: Screen, s: State, events: seq<Event>)
    requires Inv(s) && Valid(t)
  {
    if events == [] then true
    else
      var n := |events| - 1;
      var before := Run(s, events[..n]);
      && Calm(t, s, events[..n])
      && ReplyOnFreshRow(t.width, before.state, events[n])
      && !Disturbs(Exec(t, before.out), before.state, events[n])
  }

  lemma {:induction false} RunMirrors(t: Screen, s: State, events: seq<Event>)
    requires Inv(s) && Mirrors(t, s.zip) && Calm(t, s, events)
    ensures Mirrors(Exec(t, Run(s, events).out), Run(s, events).state.zip)
  {
    if events != [] {
      var n := |events| - 1;
      RunMirrors(t, s, events[..n]);
      var before := Run(s, events[..n]);
      var shown := Exec(t, before.out);
      ExecConcat(t, before.out, Step(before.state, events[n]).out);
      StepMirrors(shown, before.state, events[n]);
    }
  }

  /** The console's own interrupt message loses the prompt, wherever the cursor was. */
  lemma {:induction false} InterruptMessageDisturbs(t: Screen, s: State)
    requires Inv(s) && !s.escape && Mirrors(t, s.zip)
    ensures Disturbs(t, s, Event(KEY_ETX, "Catch ^C!\r\n"))
  {
    var message := "Catch ^C!\r\n";
    ExecConcat(t, message[..|message| - 1], "\n");
    assert message == message[..|message| - 1] + "\n";
  }
}
