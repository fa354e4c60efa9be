/** Cursor keys over whole runs: any place of the line can be reached, and text inserted or removed there. */
module CursorRuns {
  import opened Terminal
  import opened LineEditor
  import opened EditorRuns
  import opened TypedLines

  function Presses(key: char, n: nat): seq<Event> {
    seq(n, _ => Event(key, ""))
  }

  function At(st: State, n: nat): State
    requires GoodLine(st.zip) && n <= |st.zip.Text()|
  {
    st.(zip := MoveTo(st.zip, n))
  }

  /** Where a cursor key goes from place `at` in a text of `len` bytes. */
  function Place(key: char, at: nat, len: nat): (to: nat)
    requires at <= len
    ensures to <= len
  {
    if key == KEY_SOH then 0
    else if key == KEY_ENQ then len
    else if key == KEY_ACK then (if at < len then at + 1 else len)
    else if at > 0 then at - 1 else 0
  }

  function PlaceAfter(key: char, at: nat, len: nat, n: nat): (to: nat)
    requires at <= len
    ensures to <= len
  {
    if n == 0 then at else Place(key, PlaceAfter(key, at, len, n - 1), len)
  }

  /** Forward and back stop at the ends of the text. */
  lemma {:induction false} PlaceIs(at: nat, len: nat, n: nat)
    requires at <= len
    ensures PlaceAfter(KEY_ACK, at, len, n) == if at + n < len then at + n else len
    ensures PlaceAfter(KEY_STX, at, len, n) == if n < at then at - n else 0
  {
    if n > 0 {
      PlaceIs(at, len, n - 1);
    }
  }

  /** A key that only moves the cursor leaves text, stale bytes and everything else alone. */
  lemma {:induction false} CursorKey(st: State, at: nat, key: char)
    requires Inv(st) && !st.escape && at <= |st.zip.Text()|
    requires key == KEY_SOH || key == KEY_ENQ || key == KEY_ACK || key == KEY_STX
    ensures Step(At(st, at), Event(key, "")).state == At(st, Place(key, at, |st.zip.Text()|))
  {
    assert MoveTo(st.zip, at).Text() == st.zip.Text();
  }

  lemma {:induction false} AsItIs(st: State)
    requires Inv(st)
    ensures At(st, |st.zip.left|) == st
  {
  }

  lemma {:induction false} OneMorePress(st: State, key: char, n: nat)
    requires Inv(st) && n > 0
    ensures Run(st, Presses(key, n)).state == Step(Run(st, Presses(key, n - 1)).state, Event(key, "")).state
  {
    assert Presses(key, n)[..n - 1] == Presses(key, n - 1);
  }

  lemma {:induction false} PressesMove(st: State, at: nat, key: char, n: nat)
    requires Inv(st) && !st.escape && at <= |st.zip.Text()|
    requires key == KEY_ACK || key == KEY_STX
    ensures Run(At(st, at), Presses(key, n)).state == At(st, PlaceAfter(key, at, |st.zip.Text()|, n))
  {
    if n > 0 {
      PressesMove(st, at, key, n - 1);
      OneMorePress(At(st, at), key, n);
      CursorKey(st, PlaceAfter(key, at, |st.zip.Text()|, n - 1), key);
    }
  }

  /** ^A and `n` times ^F reach place `n`, from wherever the cursor was; nothing else changes. */
  lemma {:induction false} HomeThenForwards(st: State, n: nat)
    requires Inv(st) && !st.escape && n <= |st.zip.Text()|
    ensures Run(st, [Event(KEY_SOH, "")] + Presses(KEY_ACK, n)).state == At(st, n)
  {
    AsItIs(st);
    CursorKey(st, |st.zip.left|, KEY_SOH);
    RunOne(st, Event(KEY_SOH, ""));
    RunConcat(st, [Event(KEY_SOH, "")], Presses(KEY_ACK, n));
    PressesMove(st, 0, KEY_ACK, n);
    PlaceIs(0, |st.zip.Text()|, n);
  }

  /** ^E and `n` times ^B reach place `n` from the end. */
  lemma {:induction false} EndThenBacks(st: State, n: nat)
    requires Inv(st) && !st.escape && n <= |st.zip.Text()|
    ensures Run(st, [Event(KEY_ENQ, "")] + Presses(KEY_STX, n)).state == At(st, |st.zip.Text()| - n)
  {
    AsItIs(st);
    CursorKey(st, |st.zip.left|, KEY_ENQ);
    RunOne(st, Event(KEY_ENQ, ""));
    RunConcat(st, [Event(KEY_ENQ, "")], Presses(KEY_STX, n));
    PressesMove(st, |st.zip.Text()|, KEY_STX, n);
    PlaceIs(|st.zip.Text()|, |st.zip.Text()|, n);
  }

  /** Text typed at place `n` appears exactly there. */
  lemma {:induction false} InsertAnywhere(st: State, n: nat, s: string)
    requires Inv(st) && !st.escape && n <= |st.zip.Text()|
    requires AllPrintable(s) && |s| < |st.zip.tail|
    requires st.zip.Text() != "" || s == "" || s[0] != ' '
    ensures var text, o := st.zip.Text(), Run(st, [Event(KEY_SOH, "")] + Presses(KEY_ACK, n) + Typed(s, ""));
            && o.state.zip.Text() == text[..n] + Stored(s) + text[n..]
            && |o.state.zip.left| == n + |s| && o.state == st.(zip := o.state.zip)
  {
    HomeThenForwards(st, n);
    assert MoveTo(st.zip, n).Text() == st.zip.Text();
    TypingInserts(At(st, n), s);
    RunConcat(st, [Event(KEY_SOH, "")] + Presses(KEY_ACK, n), Typed(s, ""));
  }

  /** `k` rub-outs at place `n` remove exactly the `k` characters before it. */
  lemma {:induction false} DeleteAnywhere(st: State, n: nat, k: nat)
    requires Inv(st) && !st.escape && k <= n <= |st.zip.Text()|
    ensures var text, o := st.zip.Text(), Run(st, [Event(KEY_SOH, "")] + Presses(KEY_ACK, n) + RubOuts(k));
            && o.state.zip.Text() == text[..n - k] + text[n..]
            && |o.state.zip.left| == n - k && o.state == st.(zip := o.state.zip)
  {
    HomeThenForwards(st, n);
    RubOutsBackspace(At(st, n), k);
    BackspacesDropLeft(MoveTo(st.zip, n), k);
    RunConcat(st, [Event(KEY_SOH, "")] + Presses(KEY_ACK, n), RubOuts(k));
  }

  /** ^U keeps what is from the cursor on, ^K what is before it. */
  lemma {:induction false} KillsSplitText(st: State)
    requires Inv(st) && !st.escape
    ensures var left, right := Step(st, Event(KEY_VT, "")).state.zip.Text(), Step(st, Event(KEY_NAK, "")).state.zip.Text();
            left == st.zip.left && right == st.zip.right && left + right == st.zip.Text()
  {
    BackspacesDropLeft(st.zip, |st.zip.left|);
  }
}
