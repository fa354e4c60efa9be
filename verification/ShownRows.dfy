/** What a user sees of a typed line: the prompt, and every character as it was typed. */
module ShownRows {
  import opened Terminal
  import opened LineEditor
  import opened EditorRuns
  import opened TypedLines
  import opened ScreenMirror

  /** The row reads prompt and `visible`, and the terminal's cursor stands `place` characters behind the prompt. */
  predicate Reads(t: Screen, visible: string, place: nat) {
    && |visible| + 4 <= t.width && t.col == 4 + place
    && t.row == "~ > " + visible + seq(t.width - 4 - |visible|, _ => ' ')
  }

  /** Separators are kept as zeros and drawn as the spaces they were typed as. */
  lemma {:induction false} StoredIsShown(s: string)
    requires AllPrintable(s)
    ensures Shown(Stored(s)) == s
  {
  }

  lemma {:induction false} BlankIsSpaces(n: nat)
    ensures Blank(n) == seq(n, _ => ' ')
  {
  }

  /** A mirrored row reads what was stored. */
  lemma {:induction false} MirrorReads(t: Screen, z: Zipper, visible: string)
    requires GoodLine(z) && Mirrors(t, z) && AllPrintable(visible) && z.Text() == Stored(visible)
    ensures Reads(t, visible, |z.left|)
  {
    StoredIsShown(visible);
    BlankIsSpaces(t.width - 4 - |visible|);
  }

  lemma {:induction false} TypingStaysPlain(st: State, s: string)
    requires Inv(st) && !st.escape && AllPrintable(s)
    ensures !Run(st, Typed(s, "")).state.escape
  {
    if s != "" {
      var n := |s| - 1;
      assert Typed(s, "")[..n] == Typed(s[..n], "");
      TypingStaysPlain(st, s[..n]);
    }
  }

  lemma {:induction false} PrintableIsCalm(t: Screen, st: State, c: char)
    requires Inv(st) && !st.escape && Printable(c) && Valid(t)
    ensures ReplyOnFreshRow(t.width, st, Event(c, "")) && !Disturbs(t, st, Event(c, ""))
  {
  }

  /** Printable keys disturb nothing. */
  lemma {:induction false} TypingIsCalm(t: Screen, st: State, s: string)
    requires Inv(st) && !st.escape && AllPrintable(s) && Valid(t)
    ensures Calm(t, st, Typed(s, ""))
  {
    if s != "" {
      var n := |s| - 1;
      assert Typed(s, "")[..n] == Typed(s[..n], "");
      TypingIsCalm(t, st, s[..n]);
      TypingStaysPlain(st, s[..n]);
      var before := Run(st, Typed(s[..n], ""));
      PrintableIsCalm(t, before.state, s[n]);
      PrintableIsCalm(Exec(t, before.out), before.state, s[n]);
    }
  }

  lemma {:induction false} KeptIsPrintable(s: string)
    requires AllPrintable(s)
    ensures AllPrintable(Kept(s)) && |Kept(s)| <= 100
  {
    DropSpacesPrintable(s);
  }

  lemma {:induction false} DropSpacesPrintable(s: string)
    requires AllPrintable(s)
    ensures AllPrintable(DropSpaces(s))
  {
    if s != "" && s[0] == ' ' {
      DropSpacesPrintable(s[1..]);
    }
  }

  /** Typing on an empty line shows the characters typed, without leading spaces, as many as the line holds. */
  lemma {:induction false} TypedIsShown(t: Screen, st: State, s: string)
    requires Inv(st) && !st.escape && st.zip.Text() == "" && AllPrintable(s) && Mirrors(t, st.zip)
    ensures Reads(Exec(t, Run(st, Typed(s, "")).out), Kept(s), |Kept(s)|)
  {
    var o := Run(st, Typed(s, ""));
    TypingFills(st, s);
    TypingIsCalm(t, st, s);
    RunMirrors(t, st, Typed(s, ""));
    KeptIsPrintable(s);
    MirrorReads(Exec(t, o.out), o.state.zip, Kept(s));
  }

  lemma {:induction false} StoredJoins(a: string, b: string, c: string)
    requires AllPrintable(a) && AllPrintable(b) && AllPrintable(c)
    ensures AllPrintable(a + b + c) && Stored(a + b + c) == Stored(a) + Stored(b) + Stored(c)
  {
  }

  lemma {:induction false} RoomForTyping(z: Zipper, before: string, s: string, behind: string)
    requires GoodLine(z) && z.left == Stored(before) && z.right == Stored(behind) && |before| + |s| + |behind| <= 100
    ensures |s| < |z.tail| && (z.Text() == "" ==> before == "" && behind == "")
  {
  }

  /** The same with the cursor anywhere: what is typed there stands between what was left and right of it. */
  lemma {:induction false} InsertedIsShown(t: Screen, st: State, before: string, s: string, behind: string)
    requires Inv(st) && !st.escape && Mirrors(t, st.zip) && AllPrintable(before) && AllPrintable(s) && AllPrintable(behind)
    requires st.zip.left == Stored(before) && st.zip.right == Stored(behind)
    requires |before| + |s| + |behind| <= 100 && (before != "" || behind != "" || s == "" || s[0] != ' ')
    ensures Reads(Exec(t, Run(st, Typed(s, "")).out), before + s + behind, |before| + |s|)
  {
    var o := Run(st, Typed(s, ""));
    RoomForTyping(st.zip, before, s, behind);
    TypingInserts(st, s);
    TypingIsCalm(t, st, s);
    RunMirrors(t, st, Typed(s, ""));
    StoredJoins(before, s, behind);
    MirrorReads(Exec(t, o.out), o.state.zip, before + s + behind);
  }
}
