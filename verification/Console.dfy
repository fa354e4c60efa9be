/** The debug console: an editor that is handed one received character after the other. */
module Console {
  import opened Terminal
  import opened LineEditor
  import opened Microrl
  import opened ScreenMirror

  function StartUp(leftover: int): State {
    State(EmptyLine, [], 0, false, leftover)
  }

  lemma {:induction false} PromptFirst(width: nat, events: seq<Event>, leftover: int)
    requires width >= MIN_WIDTH && Inv(StartUp(leftover))
    requires Calm(Exec(Fresh(width), PROMPT), StartUp(leftover), events)
    ensures var o := Run(StartUp(leftover), events);
            Mirrors(Exec(Fresh(width), PROMPT + o.out), o.state.zip)
  {
    var o := Run(StartUp(leftover), events);
    FreshPromptMirrors(width);
    RunMirrors(Exec(Fresh(width), PROMPT), StartUp(leftover), events);
    ExecConcat(Fresh(width), PROMPT, o.out);
  }

  /**
   * Starts an editor and hands it the received characters. What it holds, printed and executed is what the run on
   * values says, and if no key disturbed the row, a terminal that began on a blank row mirrors the line.
   */
  method Process(events: seq<Event>, leftover: int, ghost width: nat) returns (ed: Editor)
    requires width >= MIN_WIDTH
    ensures fresh(ed) && ed.Valid()
    ensures Inv(StartUp(leftover))
    ensures var o := Run(StartUp(leftover), events);
            ed.Abs() == o.state && ed.output == PROMPT + o.out && ed.calls == o.calls
    ensures Calm(Exec(Fresh(width), PROMPT), StartUp(leftover), events) ==>
              Mirrors(Exec(Fresh(width), ed.output), ed.Zip())
  {
    ed := new Editor(leftover);
    ghost var start := StartUp(leftover);
    assert ed.output == PROMPT + Run(start, events[..0]).out;
    for i := 0 to |events|
      invariant fresh(ed) && fresh(ed.cmdline) && fresh(ed.hist) && fresh(ed.hist.ring) && ed.Valid()
      invariant ed.Abs() == Run(start, events[..i]).state
      invariant ed.output == PROMPT + Run(start, events[..i]).out && ed.calls == Run(start, events[..i]).calls
    {
      assert events[..i + 1][..i] == events[..i];
      ghost var before := Run(start, events[..i]);
      ed.InsertChar(events[i].key, events[i].reply);
      OneMore(before, Step(before.state, events[i]));
    }
    assert events[..|events|] == events;
    if Calm(Exec(Fresh(width), PROMPT), start, events) {
      PromptFirst(width, events, leftover);
    }
  }

  lemma {:induction false} OneMore(a: Outcome, b: Outcome)
    ensures PROMPT + a.out + b.out == PROMPT + (a.out + b.out)
  {
  }
}
