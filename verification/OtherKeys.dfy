/** Keys that do little: what they leave alone, and sequences that mean nothing. */
module OtherKeys {
  import Terminal
  import opened LineEditor
  import opened EditorRuns

  /** A control character no editing key uses: not ^A-^C, ^E, ^F, ^H, ^K, ^M, ^N, ^P, ^R, ^U or escape. */
  predicate Unbound(c: char) {
    && c < ' '
    && !('\U{1}' <= c <= '\U{3}') && c != '\U{5}' && c != '\U{6}' && c != '\U{8}' && c != '\U{B}' && c != '\r'
    && c != '\U{E}' && c != '\U{10}' && c != '\U{12}' && c != '\U{15}' && c != '\U{1B}'
  }

  /** Such a key, and a space on an empty line, do nothing. */
  lemma {:induction false} UnboundKeyIsSilent(st: State, e: Event)
    requires Inv(st) && !st.escape && (Unbound(e.key) || (e.key == ' ' && st.zip.Text() == ""))
    ensures Step(st, e) == Outcome(st, "", [])
  {
  }

  /** Interrupt and redraw change nothing; an interrupt prints only what its callback does. */
  lemma {:induction false} StateIsKept(st: State, e: Event)
    requires Inv(st) && !st.escape && (e.key == '\U{3}' || e.key == '\U{12}')
    ensures Step(st, e).state == st && Step(st, e).calls == []
    ensures e.key == '\U{3}' ==> Step(st, e).out == e.reply
  {
  }

  /** Both rub-out keys do the same. */
  lemma {:induction false} BackspaceIsDelete(st: State, reply: string)
    requires Inv(st)
    ensures !st.escape ==> Step(st, Event('\U{8}', reply)) == Step(st, Event('\U{7F}', reply))
  {
  }

  /** On a full line a printable key does nothing. */
  lemma {:induction false} FullLineRefuses(st: State, e: Event)
    requires Inv(st) && !st.escape && |st.zip.Text()| == 100 && ' ' <= e.key && e.key != '\U{7F}'
    ensures Step(st, e) == Outcome(st, "", [])
  {
  }

  // ---------------------------------------------------------------- sequences that mean nothing

  /** The escape character begins a sequence and does nothing else. */
  lemma {:induction false} EscapeBegins(st: State, reply: string)
    requires Inv(st) && !st.escape
    ensures Step(st, Event('\U{1B}', reply)) == Outcome(st.(escape := true), "", [])
  {
  }

  /** The key means something after the last sequence got as far as `trace`. */
  predicate Meaningful(trace: int, key: char) {
    if trace == ESC_BRACKET then key in "ABCD78"
    else (trace == ESC_HOME || trace == ESC_END) && key == '~'
  }

  /** A key without a meaning ends the sequence, and nothing else happens. */
  lemma {:induction false} UnknownKeyEndsSequence(st: State, e: Event)
    requires Inv(st) && st.escape && e.key != '[' && !Meaningful(st.escapeSeq, e.key)
    ensures Step(st, e) == Outcome(st.(escape := false), "", [])
  {
  }

  /** So an unknown sequence in brackets leaves all but its own trace as it was. */
  lemma {:induction false} UnknownSequence(st: State, key: char, reply: string)
    requires Inv(st) && !st.escape && key !in "[ABCD78"
    ensures Run(st, Typed("\U{1B}[" + [key], reply)) == Outcome(st.(escapeSeq := ESC_BRACKET), "", [])
  {
    var inside := st.(escape := true, escapeSeq := ESC_BRACKET);
    assert "\U{1B}[" + [key] == Terminal.CSI + [key];
    ShortSequence(st, key, reply);
    UnknownKeyEndsSequence(inside, Event(key, reply));
  }

  /**
   * The trace is not wiped by the next escape character: after a sequence in brackets, escape and a letter without a
   * bracket still act as the arrow.
   */
  lemma {:induction false} LeftoverActs(st: State, letter: char, reply: string)
    requires Inv(st) && !st.escape && st.escapeSeq == ESC_BRACKET && letter in "ABCD"
    ensures Run(st, [Event('\U{1B}', reply), Event(letter, reply)]) == Run(st, Typed("\U{1B}[" + [letter], reply))
  {
    var inside := st.(escape := true);
    assert "\U{1B}[" + [letter] == Terminal.CSI + [letter];
    ShortSequence(st, letter, reply);
    RunTwo(st, Event('\U{1B}', reply), Event(letter, reply));
    EscapeBegins(st, reply);
    ThenSilent(inside, Step(inside, Event(letter, reply)));
  }
}
