/** The line editor as it runs: a buffer edited in place, a history ring and two callbacks. */
module Microrl {
  import opened Config
  import opened HistoryQueue
  import opened History
  import opened Tokens
  import opened Terminal
  import opened LineEditor
  import CursorCodes
  import Memory

  // ---------------------------------------------------------------- a buffer cut at the cursor

  function Cut(buf: string, cursor: nat, len: nat): Zipper
    requires cursor <= len <= |buf|
  {
    Zipper(buf[..cursor], buf[cursor..len], buf[len..])
  }

  lemma {:induction false} CutText(buf: string, cursor: nat, len: nat)
    requires cursor <= len <= |buf|
    ensures Cut(buf, cursor, len).Text() == buf[..len] && Cut(buf, cursor, len).Buffer() == buf
  {
  }

  lemma {:induction false} CutMoved(buf: string, cursor: nat, len: nat, n: nat)
    requires cursor <= len <= |buf| && n <= len && GoodLine(Cut(buf, cursor, len))
    ensures Cut(buf, n, len) == MoveTo(Cut(buf, cursor, len), n)
  {
    CutText(buf, cursor, len);
  }

  lemma {:induction false} CutKilled(buf: string, cursor: nat, len: nat)
    requires cursor <= len <= |buf| && GoodLine(Cut(buf, cursor, len))
    ensures Cut(buf, cursor, cursor) == KillRight(Cut(buf, cursor, len))
  {
  }

  /** `after` is `before` with the bytes from the cursor on moved up to make room for `stored`. */
  ghost predicate Inserted(before: string, after: string, cursor: nat, len: nat, stored: string)
    requires |before| == |after| == COMMAND_LINE_LEN && cursor <= len && len + |stored| < COMMAND_LINE_LEN
  {
    forall i {:trigger after[i]} :: 0 <= i < COMMAND_LINE_LEN ==>
      after[i] == if cursor <= i < cursor + |stored| then stored[i - cursor]
                  else if cursor <= i < len + |stored| then before[i - |stored|]
                  else if i == len + |stored| then '\0'
                  else before[i]
  }

  /** Moved up, filled in, terminated. */
  lemma {:induction false} InsertedInSteps(before: string, moved: string, after: string, cursor: nat, len: nat, stored: string)
    requires |before| == |moved| == |after| == COMMAND_LINE_LEN && cursor <= len && len + |stored| < COMMAND_LINE_LEN
    requires forall i {:trigger moved[i]} :: 0 <= i < COMMAND_LINE_LEN ==>
               moved[i] == before[if cursor + |stored| <= i < len + |stored| then i - |stored| else i]
    requires forall i {:trigger after[i]} :: 0 <= i < COMMAND_LINE_LEN ==>
               after[i] == if i == len + |stored| then '\0'
                           else if cursor <= i < cursor + |stored| then stored[i - cursor]
                           else moved[i]
    ensures Inserted(before, after, cursor, len, stored)
  {
  }

  lemma {:induction false} InsertedParts(before: string, after: string, cursor: nat, len: nat, stored: string)
    requires |before| == |after| == COMMAND_LINE_LEN && cursor <= len && len + |stored| < COMMAND_LINE_LEN
    requires Inserted(before, after, cursor, len, stored)
    ensures var n := |stored|;
            && after[..cursor + n] == before[..cursor] + stored
            && after[cursor + n..len + n] == before[cursor..len]
            && after[len + n..] == "\0" + before[len + n + 1..]
  {
    var n := |stored|;
    assert after[..cursor + n] == after[..cursor] + after[cursor..cursor + n];
    assert after[..cursor] == before[..cursor] && after[cursor..cursor + n] == stored;
    assert after[cursor + n..len + n] == before[cursor..len] by {
      assert forall i :: cursor + n <= i < len + n ==> after[i] == before[i - n];
    }
    assert after[len + n..] == "\0" + before[len + n + 1..] by {
      assert after[len + n] == '\0' && after[len + n..] == [after[len + n]] + after[len + n + 1..];
      assert forall i :: len + n < i < COMMAND_LINE_LEN ==> after[i] == before[i];
      assert after[len + n + 1..] == before[len + n + 1..];
    }
  }

  lemma {:induction false} InsertedIsInsert(before: string, after: string, cursor: nat, len: nat, text: string)
    requires |before| == |after| == COMMAND_LINE_LEN && cursor <= len && len + |text| < COMMAND_LINE_LEN
    requires GoodLine(Cut(before, cursor, len))
    requires Inserted(before, after, cursor, len, Stored(text))
    ensures Cut(after, cursor + |text|, len + |text|) == InsertString(Cut(before, cursor, len), text)
  {
    InsertedParts(before, after, cursor, len, Stored(text));
    assert before[len..][|text| + 1..] == before[len + |text| + 1..];
  }

  /** `after` is `before` with the bytes from the cursor to the terminator moved down by one. */
  ghost predicate RubbedOut(before: string, after: string, cursor: nat, len: nat)
    requires |before| == |after| == COMMAND_LINE_LEN && 0 < cursor <= len < COMMAND_LINE_LEN
  {
    forall i {:trigger after[i]} :: 0 <= i < COMMAND_LINE_LEN ==>
      after[i] == if cursor - 1 <= i < len then before[i + 1]
                  else if i == len then '\0'
                  else before[i]
  }

  lemma {:induction false} RubbedOutIsBackspace(before: string, after: string, cursor: nat, len: nat)
    requires |before| == |after| == COMMAND_LINE_LEN && 0 < cursor <= len < COMMAND_LINE_LEN
    requires GoodLine(Cut(before, cursor, len))
    requires RubbedOut(before, after, cursor, len)
    ensures Cut(after, cursor - 1, len - 1) == LineEditor.Backspace(Cut(before, cursor, len))
  {
    var z := LineEditor.Backspace(Cut(before, cursor, len));
    assert before[len..][1..] == before[len + 1..];
    assert after[..cursor - 1] == z.left;
    assert after[cursor - 1..len - 1] == z.right by {
      assert forall i :: cursor - 1 <= i < len ==> after[i] == before[i + 1];
    }
    assert after[len - 1..] == z.tail by {
      assert after[len - 1] == before[len];
      assert forall i :: len < i < COMMAND_LINE_LEN ==> after[i] == before[i];
    }
  }

  lemma {:induction false} RestoredIsRecalled(before: string, after: string, cursor: nat, len: nat, line: Line, dir: Direction)
    requires |before| == |after| == COMMAND_LINE_LEN && cursor <= len < COMMAND_LINE_LEN
    requires GoodLine(Cut(before, cursor, len)) && |line| <= MAX_SAVED && AllStorable(line)
    requires after[..|line|] == line && after[|line|] == '\0'
    requires forall i :: |line| < i < COMMAND_LINE_LEN ==> after[i] == if dir == Up then '\0' else before[i]
    ensures Cut(after, |line|, |line|) == Recalled(Cut(before, cursor, len), line, dir)
  {
    assert Cut(before, cursor, len).Buffer() == before;
    assert after[|line|..] == Recalled(Cut(before, cursor, len), line, dir).tail;
  }

  // ---------------------------------------------------------------- output piece by piece

  lemma {:induction false} AppendNothing(out: string)
    ensures out + "" == out
  {
  }

  lemma {:induction false} AppendTwo(out: string, a: string, b: string)
    ensures out + a + b == out + (a + b)
  {
  }

  lemma {:induction false} AppendThree(out: string, a: string, b: string, c: string)
    ensures out + a + b + c == out + (a + b + c)
  {
  }

  lemma {:induction false} AppendFour(out: string, a: string, b: string, c: string, d: string)
    ensures out + a + b + c + d == out + (a + b + c + d)
  {
  }

  // ---------------------------------------------------------------- the two ends of a search

  lemma {:induction false} SearchShows(s: State, dir: Direction, line: Line)
    requires Inv(s) && Navigate(s.lines, s.cur, dir).shown == Some(line)
    ensures AllStorable(line) && |line| <= MAX_SAVED
    ensures var zip := Recalled(s.zip, line, dir);
            Search(s, dir) == Outcome(s.(zip := zip, cur := Navigate(s.lines, s.cur, dir).cur),
                                      RESET_CURSOR + PrintLine(zip, 0), [])
  {
  }

  lemma {:induction false} SearchEnds(s: State, dir: Direction)
    requires Inv(s) && Navigate(s.lines, s.cur, dir).shown == None
    ensures Search(s, dir) == Silent(s) && Navigate(s.lines, s.cur, dir).cur == s.cur
  {
  }

  lemma {:induction false} BracketSearches(s: State, key: char, dir: Direction)
    requires Inv(s) && key == if dir == Up then 'A' else 'B'
    ensures var o := Search(s, dir);
            BracketKey(s, key) == Outcome(o.state.(escape := false), o.out, [])
  {
  }

  lemma {:induction false} EscapeCallsNothing(s: State, key: char)
    requires Inv(s)
    ensures EscapeKey(s, key).calls == []
  {
  }

  // ---------------------------------------------------------------- the editor

  class Editor {
    const cmdline: array<char>
    var cmdlen: nat
    var cursor: nat
    var escape: bool
    var escapeSeq: int
    const hist: RingHistory
    /** Everything handed to the print callback. */
    var output: string
    /** The argument lists the execute callback was called with. */
    var calls: seq<seq<string>>

    /** The edited line the buffer stands for. */
    ghost function Zip(): Zipper
      requires cursor <= cmdlen <= cmdline.Length
      reads this`cursor, this`cmdlen, cmdline
    {
      Cut(cmdline[..], cursor, cmdlen)
    }

    ghost predicate LineOk()
      reads this`cursor, this`cmdlen, cmdline
    {
      && cmdline.Length == COMMAND_LINE_LEN && cursor <= cmdlen < COMMAND_LINE_LEN
      && GoodLine(Zip())
    }

    ghost function Abs(): State
      requires cursor <= cmdlen <= cmdline.Length
      reads this, cmdline, hist
    {
      State(Zip(), hist.lines, hist.cur, escape, escapeSeq)
    }

    ghost predicate Valid()
      reads this, cmdline, hist, hist.ring
    {
      LineOk() && hist.ring != cmdline && hist.Valid() && StorableLines(hist.lines)
    }

    /** `escapeSeq` is left as it happens to be. */
    constructor (leftover: int)
      ensures Valid() && fresh(cmdline) && fresh(hist) && fresh(hist.ring)
      ensures Abs() == State(EmptyLine, [], 0, false, leftover)
      ensures output == PROMPT && calls == []
    {
      cmdline := new char[COMMAND_LINE_LEN];
      hist := new RingHistory();
      cmdlen, cursor := 0, 0;
      escape, escapeSeq := false, leftover;
      output, calls := "", [];
      new;
      Memory.Clear(cmdline, COMMAND_LINE_LEN);
      assert cmdline[..] == Zeros(COMMAND_LINE_LEN);
      Print(PROMPT);
    }

    method Print(s: string)
      modifies this`output
      ensures output == old(output) + s
    {
      output := output + s;
    }

    // -------------------------------------------------------------- the terminal

    method TerminalMoveCursor(offset: int)
      requires -COMMAND_LINE_LEN <= offset <= COMMAND_LINE_LEN
      modifies this`output
      ensures output == old(output) + MoveCode(offset)
    {
      var code := CursorCodes.MoveCursorCode(offset);
      Print(code);
    }

    method TerminalResetCursor()
      modifies this`output
      ensures output == old(output) + RESET_CURSOR
    {
      var code := CursorCodes.ResetCursorCode();
      Print(code);
    }

    method TerminalPrintLine(pos: nat, cursor: nat)
      requires LineOk() && pos <= cmdlen && cursor == this.cursor
      modifies this`output
      ensures output == old(output) + PrintLine(Zip(), pos)
    {
      CutText(cmdline[..], cursor, cmdlen);
      Print(ERASE);
      PrintShown(pos);
      TerminalResetCursor();
      TerminalMoveCursor(cursor);
      AppendFour(old(output), ERASE, Shown(cmdline[..cmdlen][pos..]), RESET_CURSOR, MoveCode(cursor));
    }

    /** Draws the text from `pos` on, zero bytes as spaces. */
    method PrintShown(pos: nat)
      requires pos <= cmdlen <= cmdline.Length
      modifies this`output
      ensures output == old(output) + Shown(cmdline[..cmdlen][pos..])
    {
      ghost var text := cmdline[..cmdlen];
      for i := pos to cmdlen
        invariant output == old(output) + Shown(text[pos..i])
      {
        var nch := cmdline[i];
        if nch == '\0' {
          nch := ' ';
        }
        assert Shown(text[pos..i + 1]) == Shown(text[pos..i]) + [nch];
        Print([nch]);
      }
    }

    // -------------------------------------------------------------- editing the line

    /**
     * Makes room at the cursor and stores a text there, spaces as zeros; a text that does not fit is refused. What is
     * not printable is stored as well, and then the line is no longer a good one.
     */
    method InsertText(text: string) returns (inserted: bool)
      requires LineOk()
      modifies this`cmdlen, this`cursor, cmdline
      ensures cursor <= cmdlen < COMMAND_LINE_LEN && Zip() == InsertString(old(Zip()), text)
      ensures AllPrintable(text) ==> LineOk()
      ensures inserted == (|old(Zip()).tail| > |text|)
    {
      if cmdlen + |text| < COMMAND_LINE_LEN {
        InsertFitting(text);
        return true;
      }
      return false;
    }

    method InsertFitting(text: string)
      requires LineOk() && cmdlen + |text| < COMMAND_LINE_LEN
      modifies this`cmdlen, this`cursor, cmdline
      ensures cursor <= cmdlen < COMMAND_LINE_LEN && Zip() == InsertString(old(Zip()), text)
    {
      ShiftIn(text);
      InsertedIsInsert(old(cmdline[..]), cmdline[..], old(cursor), old(cmdlen), text);
    }

    method ShiftIn(text: string)
      requires cmdline.Length == COMMAND_LINE_LEN && cursor <= cmdlen && cmdlen + |text| < COMMAND_LINE_LEN
      modifies this`cmdlen, this`cursor, cmdline
      ensures cursor == old(cursor) + |text| && cmdlen == old(cmdlen) + |text|
      ensures Inserted(old(cmdline[..]), cmdline[..], old(cursor), old(cmdlen), Stored(text))
    {
      var len := |text|;
      Memory.Move(cmdline, cursor + len, cmdline, cursor, cmdlen - cursor);
      ghost var moved := cmdline[..];
      StoreText(text);
      cursor := cursor + len;
      cmdlen := cmdlen + len;
      cmdline[cmdlen] := '\0';
      InsertedInSteps(old(cmdline[..]), moved, cmdline[..], old(cursor), old(cmdlen), Stored(text));
    }

    /** Writes the text over the bytes at the cursor, spaces as zeros. */
    method StoreText(text: string)
      requires cursor + |text| <= cmdline.Length
      modifies cmdline
      ensures forall k {:trigger cmdline[k]} :: 0 <= k < cmdline.Length ==>
                cmdline[k] == if cursor <= k < cursor + |text| then Stored(text)[k - cursor] else old(cmdline[k])
    {
      for i := 0 to |text|
        invariant forall k {:trigger cmdline[k]} :: 0 <= k < cmdline.Length ==>
                    cmdline[k] == if cursor <= k < cursor + i then Stored(text)[k - cursor] else old(cmdline[k])
      {
        cmdline[cursor + i] := text[i];
        if cmdline[cursor + i] == ' ' {
          cmdline[cursor + i] := '\0';
        }
      }
    }

    /** Rubs out the character before the cursor, if there is one. */
    method Backspace()
      requires LineOk()
      modifies this`cmdlen, this`cursor, this`output, cmdline
      ensures LineOk() && Zip() == LineEditor.Backspace(old(Zip()))
      ensures cursor == if old(cursor) == 0 then 0 else old(cursor) - 1
      ensures output == old(output) + if old(cursor) == 0 then "" else RUB_OUT
    {
      if cursor > 0 {
        Print(RUB_OUT);
        ShiftOut();
        RubbedOutIsBackspace(old(cmdline[..]), cmdline[..], old(cursor), old(cmdlen));
      } else {
        AppendNothing(output);
      }
    }

    method ShiftOut()
      requires cmdline.Length == COMMAND_LINE_LEN && 0 < cursor <= cmdlen < COMMAND_LINE_LEN
      modifies this`cmdlen, this`cursor, cmdline
      ensures cursor == old(cursor) - 1 && cmdlen == old(cmdlen) - 1
      ensures RubbedOut(old(cmdline[..]), cmdline[..], old(cursor), old(cmdlen))
    {
      Memory.Move(cmdline, cursor - 1, cmdline, cursor, cmdlen - cursor + 1);
      cursor := cursor - 1;
      cmdline[cmdlen] := '\0';
      cmdlen := cmdlen - 1;
    }

    method CursorForward()
      requires LineOk()
      modifies this`cursor, this`output
      ensures LineOk() && Zip() == Forward(old(Zip())).zip && output == old(output) + Forward(old(Zip())).out
    {
      if cursor < cmdlen {
        CutMoved(cmdline[..], cursor, cmdlen, cursor + 1);
        TerminalMoveCursor(1);
        cursor := cursor + 1;
      } else {
        CutMoved(cmdline[..], cursor, cmdlen, cursor);
        AppendNothing(output);
      }
    }

    method CursorBack()
      requires LineOk()
      modifies this`cursor, this`output
      ensures LineOk() && Zip() == Back(old(Zip())).zip && output == old(output) + Back(old(Zip())).out
    {
      if cursor > 0 {
        CutMoved(cmdline[..], cursor, cmdlen, cursor - 1);
        TerminalMoveCursor(-1);
        cursor := cursor - 1;
      } else {
        CutMoved(cmdline[..], cursor, cmdlen, 0);
        AppendNothing(output);
      }
    }

    method CursorHome()
      requires LineOk()
      modifies this`cursor, this`output
      ensures LineOk() && Zip() == GoHome(old(Zip())).zip && output == old(output) + GoHome(old(Zip())).out
    {
      CutMoved(cmdline[..], cursor, cmdlen, 0);
      TerminalResetCursor();
      cursor := 0;
    }

    method CursorEnd()
      requires LineOk()
      modifies this`cursor, this`output
      ensures LineOk() && Zip() == GoEnd(old(Zip())).zip && output == old(output) + GoEnd(old(Zip())).out
    {
      CutText(cmdline[..], cursor, cmdlen);
      CutMoved(cmdline[..], cursor, cmdlen, cmdlen);
      TerminalMoveCursor(cmdlen - cursor);
      cursor := cmdlen;
    }

    /** ^U: one backspace after the other. */
    method KillLeft()
      requires LineOk()
      modifies this`cmdlen, this`cursor, this`output, cmdline
      ensures LineOk() && Zip() == EraseLeft(old(Zip())).zip && output == old(output) + EraseLeft(old(Zip())).out
    {
      RubOutLeft();
      TerminalPrintLine(0, cursor);
      AppendTwo(old(output), Repeat(RUB_OUT, old(cursor)), PrintLine(Zip(), 0));
    }

    method RubOutLeft()
      requires LineOk()
      modifies this`cmdlen, this`cursor, this`output, cmdline
      ensures LineOk() && Zip() == Backspaces(old(Zip()), old(cursor))
      ensures output == old(output) + Repeat(RUB_OUT, old(cursor))
    {
      ghost var n := 0;
      AppendNothing(output);
      while cursor > 0
        invariant LineOk() && n + cursor == old(cursor)
        invariant Zip() == Backspaces(old(Zip()), n)
        invariant output == old(output) + Repeat(RUB_OUT, n)
      {
        Backspace();
        AppendTwo(old(output), Repeat(RUB_OUT, n), RUB_OUT);
        n := n + 1;
      }
    }

    method RubOut()
      requires LineOk()
      modifies this`cmdlen, this`cursor, this`output, cmdline
      ensures LineOk() && Zip() == Erase(old(Zip())).zip && output == old(output) + Erase(old(Zip())).out
    {
      Backspace();
      TerminalPrintLine(cursor, cursor);
      AppendTwo(old(output), if old(cursor) == 0 then "" else RUB_OUT, PrintLine(Zip(), cursor));
    }

    method InsertTyped(ch: char) returns (inserted: bool)
      requires LineOk() && Printable(ch)
      modifies this`cmdlen, this`cursor, cmdline
      ensures LineOk() && Zip() == Insert(old(Zip()), ch) && inserted == (|old(Zip()).tail| > 1)
    {
      InsertOne(Zip(), ch);
      inserted := InsertText([ch]);
    }

    method TypeChar(ch: char)
      requires LineOk() && Printable(ch)
      modifies this`cmdlen, this`cursor, this`output, cmdline
      ensures LineOk() && Zip() == Type(old(Zip()), ch).zip && output == old(output) + Type(old(Zip()), ch).out
    {
      AppendNothing(output);
      var inserted := InsertTyped(ch);
      if inserted {
        TerminalPrintLine(cursor - 1, cursor);
      }
    }

    method RedrawRow()
      requires LineOk()
      modifies this`output
      ensures output == old(output) + Redraw(Zip()).out
    {
      Print(NEWLINE);
      Print(PROMPT);
      TerminalResetCursor();
      TerminalPrintLine(0, cursor);
      AppendFour(old(output), NEWLINE, PROMPT, RESET_CURSOR, PrintLine(Zip(), 0));
    }

    /** A key that concerns the edited line only. */
    method EditLine(ch: char)
      requires LineOk()
      modifies this`cmdlen, this`cursor, this`output, cmdline
      ensures LineOk() && Zip() == EditKey(old(Zip()), ch).zip && output == old(output) + EditKey(old(Zip()), ch).out
    {
      CutText(cmdline[..], cursor, cmdlen);
      if ch == KEY_NAK {
        KillLeft();
      } else if ch == KEY_VT {
        CutKilled(cmdline[..], cursor, cmdlen);
        Print(ERASE);
        cmdlen := cursor;
      } else if ch == KEY_ENQ {
        CursorEnd();
      } else if ch == KEY_SOH {
        CursorHome();
      } else if ch == KEY_ACK {
        CursorForward();
      } else if ch == KEY_STX {
        CursorBack();
      } else if ch == KEY_DEL || ch == KEY_BS {
        RubOut();
      } else if ch == KEY_DC2 {
        RedrawRow();
      } else if (ch == ' ' && cmdlen == 0) || IsControlChar(ch) {
        AppendNothing(output);
      } else {
        TypeChar(ch);
      }
    }

    // -------------------------------------------------------------- history

    method HistSearch(dir: Direction)
      requires Valid()
      modifies this`cmdlen, this`cursor, this`output, cmdline, hist`cur
      ensures Valid()
      ensures var o := Search(old(Abs()), dir);
              Abs() == o.state && output == old(output) + o.out
    {
      var len := RestoreFound(dir);
      if len >= 0 {
        ShowLine();
      } else {
        AppendNothing(output);
      }
    }

    method RestoreFound(dir: Direction) returns (len: int)
      requires Valid()
      modifies this`cmdlen, this`cursor, cmdline, hist`cur
      ensures Valid()
      ensures var o := Search(old(Abs()), dir);
              Abs() == o.state && o.out == if len >= 0 then RESET_CURSOR + PrintLine(Zip(), 0) else ""
    {
      ghost var s, recall := Abs(), Navigate(hist.lines, hist.cur, dir);
      len := Restore(dir);
      if len >= 0 {
        SearchShows(s, dir, recall.shown.value);
      } else {
        SearchEnds(s, dir);
      }
    }

    method ShowLine()
      requires LineOk()
      modifies this`output
      ensures output == old(output) + (RESET_CURSOR + PrintLine(Zip(), 0))
    {
      TerminalResetCursor();
      TerminalPrintLine(0, cursor);
      AppendTwo(old(output), RESET_CURSOR, PrintLine(Zip(), 0));
    }

    /** Replaces the edited line by the one Up or Down brings back; -1 if there is none. */
    method Restore(dir: Direction) returns (len: int)
      requires Valid()
      modifies this`cmdlen, this`cursor, cmdline, hist`cur
      ensures Valid()
      ensures var recall := Navigate(hist.lines, old(hist.cur), dir);
              && hist.cur == recall.cur
              && len == (if recall.shown.None? then -1 else |recall.shown.value|)
              && Zip() == if recall.shown.None? then old(Zip()) else Recalled(old(Zip()), recall.shown.value, dir)
    {
      ghost var recall := Navigate(hist.lines, hist.cur, dir);
      len := hist.RestoreLine(cmdline, dir);
      if len >= 0 {
        cmdline[len] := '\0';
        cmdlen, cursor := len, len;
        RestoredIsRecalled(old(cmdline[..]), cmdline[..], old(cursor), old(cmdlen), recall.shown.value, dir);
      }
    }

    // -------------------------------------------------------------- escape sequences

    /** A key behind the bracket; tells whether the sequence is over. */
    method BracketProcess(ch: char) returns (done: bool)
      requires Valid() && escape
      modifies this`cmdlen, this`cursor, this`escapeSeq, this`output, cmdline, hist`cur
      ensures Valid() && escape
      ensures var o := BracketKey(old(Abs()), ch);
              && Abs().(escape := !done) == o.state
              && output == old(output) + o.out
    {
      AppendNothing(output);
      if ch == 'A' {
        BracketSearches(Abs(), ch, Up);
        HistSearch(Up);
        return true;
      } else if ch == 'B' {
        BracketSearches(Abs(), ch, Down);
        HistSearch(Down);
        return true;
      } else if ch == 'C' {
        CursorForward();
        return true;
      } else if ch == 'D' {
        CursorBack();
        return true;
      } else if ch == '7' {
        escapeSeq := ESC_HOME;
        return false;
      } else if ch == '8' {
        escapeSeq := ESC_END;
        return false;
      }
      return true;
    }

    /** One key of an escape sequence; tells whether the sequence is over. */
    method EscapeProcess(ch: char) returns (done: bool)
      requires Valid() && escape
      modifies this`cmdlen, this`cursor, this`escapeSeq, this`output, cmdline, hist`cur
      ensures Valid() && escape
      ensures var o := EscapeKey(old(Abs()), ch);
              && Abs().(escape := !done) == o.state
              && output == old(output) + o.out
    {
      AppendNothing(output);
      if ch == '[' {
        escapeSeq := ESC_BRACKET;
        return false;
      } else if escapeSeq == ESC_BRACKET {
        done := BracketProcess(ch);
        return done;
      } else if ch == '~' {
        if escapeSeq == ESC_HOME {
          CursorHome();
          return true;
        } else if escapeSeq == ESC_END {
          CursorEnd();
          return true;
        }
      }
      // unknown escape sequence, stop
      return true;
    }

    // -------------------------------------------------------------- Enter

    /** The arguments are C strings inside the buffer. */
    method Execute(tknArr: array<nat>, count: nat, reply: string)
      requires count <= tknArr.Length && AllWithin(tknArr[..count], cmdline.Length)
      modifies this`calls, this`output
      ensures calls == old(calls) + [CStrings(cmdline[..], tknArr[..count])]
      ensures output == old(output) + reply
    {
      calls := calls + [CStrings(cmdline[..], tknArr[..count])];
      Print(reply);
    }

    /** Splits the line and runs it, or complains. */
    method RunLine(reply: string)
      requires LineOk()
      modifies this`output, this`calls
      ensures output == old(output) + Said(Zip(), reply)
      ensures calls == old(calls) + Calls(Zip())
    {
      CutText(cmdline[..], cursor, cmdlen);
      StartsInBuffer(Zip());
      var tknArr := new nat[COMMAND_TOKEN_NMB];
      var status := Split(cmdline, cmdlen, tknArr);
      if status == -1 {
        Print("ERROR:too many tokens");
        Print("\r");
        AppendTwo(old(output), "ERROR:too many tokens", "\r");
      }
      if status > 0 {
        Execute(tknArr, status, reply);
      }
    }

    /** Enter: keeps the line, runs it if it has one to seven words, and starts an empty one. */
    method NewLineHandler(reply: string)
      requires Valid()
      modifies this`cmdlen, this`cursor, this`output, this`calls, cmdline, hist, hist.ring
      ensures Valid()
      ensures var o := Enter(old(Abs()), reply);
              Abs() == o.state && output == old(output) + o.out && calls == old(calls) + o.calls
    {
      ghost var o := Enter(Abs(), reply);
      FinishLine(reply);
      StartLine();
      assert Abs() == o.state;
    }

    /** Keeps and runs the line; the buffer itself is not touched yet. */
    method FinishLine(reply: string)
      requires LineOk() && hist.ring != cmdline && hist.Valid()
      modifies this`output, this`calls, hist, hist.ring
      ensures hist.Valid()
      ensures var text := Zip().Text();
              hist.lines == if text == "" then old(hist.lines) else Save(old(hist.lines), text)
      ensures output == old(output) + (NEWLINE + Said(Zip(), reply) + PROMPT)
      ensures calls == old(calls) + Calls(Zip())
    {
      Print(NEWLINE);
      KeepLine();
      RunLine(reply);
      Print(PROMPT);
      AppendThree(old(output), NEWLINE, Said(Zip(), reply), PROMPT);
    }

    method StartLine()
      requires cmdline.Length == COMMAND_LINE_LEN && hist.ring != cmdline && hist.Valid()
      modifies this`cmdlen, this`cursor, cmdline, hist`cur
      ensures hist.Valid() && hist.cur == 0
      ensures LineOk() && Zip() == EmptyLine
    {
      cmdlen := 0;
      cursor := 0;
      Memory.Clear(cmdline, COMMAND_LINE_LEN);
      assert cmdline[..] == Zeros(COMMAND_LINE_LEN);
      hist.cur := 0;
    }

    method KeepLine()
      requires LineOk() && hist.ring != cmdline && hist.Valid()
      modifies hist, hist.ring
      ensures hist.Valid()
      ensures var text := Zip().Text();
              hist.lines == if text == "" then old(hist.lines) else Save(old(hist.lines), text)
    {
      CutText(cmdline[..], cursor, cmdlen);
      if cmdlen > 0 {
        hist.SaveLine(cmdline, cmdlen);
      }
    }

    // -------------------------------------------------------------- any key

    /** One received character. `reply` is what the callback prints if this key calls one. */
    method InsertChar(ch: char, reply: string)
      requires Valid()
      modifies this, cmdline, hist, hist.ring
      ensures Valid()
      ensures var o := Step(old(Abs()), Event(ch, reply));
              Abs() == o.state && output == old(output) + o.out && calls == old(calls) + o.calls
    {
      if escape {
        EscapeCallsNothing(Abs(), ch);
        EscapedProcess(ch);
      } else {
        PlainProcess(ch, reply);
      }
    }

    method EscapedProcess(ch: char)
      requires Valid() && escape
      modifies this`cmdlen, this`cursor, this`escape, this`escapeSeq, this`output, cmdline, hist`cur
      ensures Valid()
      ensures var o := EscapeKey(old(Abs()), ch);
              Abs() == o.state && output == old(output) + o.out
    {
      var done := EscapeProcess(ch);
      if done {
        escape := false;
      }
    }

    method PlainProcess(ch: char, reply: string)
      requires Valid() && !escape
      modifies this, cmdline, hist, hist.ring
      ensures Valid()
      ensures var o := PlainKey(old(Abs()), ch, reply);
              Abs() == o.state && output == old(output) + o.out && calls == old(calls) + o.calls
    {
      AppendNothing(output);
      if ch == KEY_CR {
        NewLineHandler(reply);
      } else if ch == KEY_ESC {
        escape := true;
      } else if ch == KEY_DLE {
        HistSearch(Up);
      } else if ch == KEY_SO {
        HistSearch(Down);
      } else if ch == KEY_ETX {
        Print(reply);
      } else {
        EditLine(ch);
      }
    }
  }
}
