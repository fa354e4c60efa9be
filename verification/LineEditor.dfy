/** What the line editor does, on values: a text split at the cursor, a history queue and the codes it emits. */
module LineEditor {
  import opened Config
  import opened HistoryQueue
  import opened Tokens
  import opened Terminal

  // ---------------------------------------------------------------- keys

  const KEY_SOH := '\U{1}'
  const KEY_STX := '\U{2}'
  const KEY_ETX := '\U{3}'
  const KEY_ENQ := '\U{5}'
  const KEY_ACK := '\U{6}'
  const KEY_BS := '\U{8}'
  const KEY_VT := '\U{B}'
  const KEY_CR := '\r'
  const KEY_SO := '\U{E}'
  const KEY_DLE := '\U{10}'
  const KEY_DC2 := '\U{12}'
  const KEY_NAK := '\U{15}'
  const KEY_ESC := '\U{1B}'
  const KEY_DEL := '\U{7F}'

  predicate IsControlChar(c: char) {
    c <= '\U{1F}'
  }

  // ---------------------------------------------------------------- the edited line

  /**
   * The edit buffer: text before the cursor, text from the cursor on, and the bytes behind the text.
   * Spaces are kept as zero bytes. The tail is never shown, but it decides where the last word ends.
   */
  datatype Zipper = Zipper(left: string, right: string, tail: string) {
    function Text(): string {
      left + right
    }

    function Buffer(): string {
      left + right + tail
    }
  }

  predicate Storable(c: char) {
    c == '\0' || (c != ' ' && Printable(c))
  }

  predicate AllStorable(s: string) {
    forall i {:trigger Storable(s[i])} :: 0 <= i < |s| ==> Storable(s[i])
  }

  /** The buffer is full-sized, ends in a zero, and holds only zeros and printable non-spaces. */
  predicate GoodLine(z: Zipper) {
    && |z.left| + |z.right| + |z.tail| == COMMAND_LINE_LEN
    && |z.tail| > 0 && z.tail[|z.tail| - 1] == '\0'
    && AllStorable(z.left) && AllStorable(z.right) && AllStorable(z.tail)
  }

  function Zeros(n: nat): string {
    seq(n, _ => '\0')
  }

  const EmptyLine := Zipper("", "", Zeros(COMMAND_LINE_LEN))

  function Insert(z: Zipper, c: char): (z': Zipper)
    requires GoodLine(z) && Printable(c)
    ensures GoodLine(z')
  {
    if |z.tail| == 1 then z
    else Zipper(z.left + [if c == ' ' then '\0' else c], z.right, "\0" + z.tail[2..])
  }

  /** Text as the buffer keeps it. */
  function Stored(s: string): string {
    seq(|s|, i requires 0 <= i < |s| => if s[i] == ' ' then '\0' else s[i])
  }

  /** A whole text at the cursor, if there is room for all of it; what is behind it is terminated. */
  function InsertString(z: Zipper, s: string): (z': Zipper)
    requires GoodLine(z)
    ensures AllPrintable(s) ==> GoodLine(z')
  {
    if |s| >= |z.tail| then z else Zipper(z.left + Stored(s), z.right, "\0" + z.tail[|s| + 1..])
  }

  /** Character by character. */
  function InsertEach(z: Zipper, s: string): (z': Zipper)
    requires GoodLine(z) && AllPrintable(s)
    ensures GoodLine(z')
  {
    if s == "" then z else Insert(InsertEach(z, s[..|s| - 1]), s[|s| - 1])
  }

  lemma {:induction false} InsertOneMore(z: Zipper, s: string, c: char)
    requires GoodLine(z) && AllPrintable(s + [c]) && 0 < |s| && |s| + 1 < |z.tail|
    ensures AllPrintable(s) && Printable(c)
    ensures Insert(InsertString(z, s), c) == InsertString(z, s + [c])
  {
    assert forall i :: 0 <= i < |s| ==> (s + [c])[i] == s[i];
    assert (s + [c])[|s|] == c;
    var z1, stored := InsertString(z, s), if c == ' ' then '\0' else c;
    assert z1.tail[2..] == z.tail[|s| + 2..];
    assert Stored(s + [c]) == Stored(s) + [stored];
    assert z1.left + [stored] == z.left + (Stored(s) + [stored]);
  }

  lemma {:induction false} InsertOne(z: Zipper, c: char)
    requires GoodLine(z) && Printable(c)
    ensures InsertString(z, [c]) == Insert(z, c)
  {
    assert Stored([c]) == [if c == ' ' then '\0' else c];
  }

  /** Inserting a text that fits is inserting its characters one after the other. */
  lemma {:induction false} InsertedOneByOne(z: Zipper, s: string)
    requires GoodLine(z) && AllPrintable(s) && 0 < |s| < |z.tail|
    ensures InsertString(z, s) == InsertEach(z, s)
  {
    var n := |s| - 1;
    assert s == s[..n] + [s[n]];
    if n == 0 {
      InsertOne(z, s[0]);
      assert InsertEach(z, s[..0]) == z;
    } else {
      InsertedOneByOne(z, s[..n]);
      InsertOneMore(z, s[..n], s[n]);
    }
  }

  function Backspace(z: Zipper): (z': Zipper)
    requires GoodLine(z)
    ensures GoodLine(z')
  {
    if z.left == "" then z
    else Zipper(z.left[..|z.left| - 1], z.right, [z.tail[0], '\0'] + z.tail[1..])
  }

  /** `n` backspaces. */
  function Backspaces(z: Zipper, n: nat): (z': Zipper)
    requires GoodLine(z)
    ensures GoodLine(z')
  {
    if n == 0 then z else Backspace(Backspaces(z, n - 1))
  }

  function KillRight(z: Zipper): (z': Zipper)
    requires GoodLine(z)
    ensures GoodLine(z')
  {
    Zipper(z.left, "", z.right + z.tail)
  }

  /** Puts the cursor `n` bytes into the text. */
  function MoveTo(z: Zipper, n: nat): (z': Zipper)
    requires GoodLine(z) && n <= |z.Text()|
    ensures GoodLine(z')
  {
    Zipper(z.Text()[..n], z.Text()[n..], z.tail)
  }

  /** What a recalled line of `n` bytes leaves behind it: an Up wipes the buffer, a Down only sets a terminator. */
  function RecalledTail(z: Zipper, n: nat, dir: Direction): (tail: string)
    requires GoodLine(z) && n <= MAX_SAVED
    ensures |tail| == COMMAND_LINE_LEN - n && tail[|tail| - 1] == '\0' && AllStorable(tail)
  {
    if dir == Up then Zeros(COMMAND_LINE_LEN - n) else "\0" + z.Buffer()[n + 1..]
  }

  /** A recalled line replaces the text. */
  function Recalled(z: Zipper, line: Line, dir: Direction): (z': Zipper)
    requires GoodLine(z) && |line| <= MAX_SAVED && AllStorable(line)
    ensures GoodLine(z')
  {
    Zipper(line, "", RecalledTail(z, |line|, dir))
  }

  // ---------------------------------------------------------------- what is printed

  const PROMPT := CSI + "32m~ >" + CSI + "0m "
  const RUB_OUT := CSI + "D " + CSI + "D"
  const ERASE := CSI + "K"
  const NEWLINE := "\r\n"
  const TOO_MANY_TOKENS := "ERROR:too many tokens\r"

  function MoveCode(offset: int): string {
    if offset > 0 then CSI + Decimal(offset) + "C"
    else if offset < 0 then CSI + Decimal(-offset) + "D"
    else ""
  }

  /** Back past the left margin, then forward over the prompt. */
  const RESET_CURSOR := MoveCode(-(COMMAND_LINE_LEN + PROMPT_LEN + 2)) + MoveCode(PROMPT_LEN)

  /** Stored bytes as they are drawn. */
  function Shown(text: string): string {
    seq(|text|, i requires 0 <= i < |text| => if text[i] == '\0' then ' ' else text[i])
  }

  /** Erases from the terminal's cursor on and draws the text from `pos` on again. */
  function PrintLine(z: Zipper, pos: nat): string
    requires pos <= |z.Text()|
  {
    ERASE + Shown(z.Text()[pos..]) + RESET_CURSOR + MoveCode(|z.left|)
  }

  function Repeat(s: string, n: nat): string {
    if n == 0 then "" else Repeat(s, n - 1) + s
  }

  // ---------------------------------------------------------------- keys that only edit the line

  /** The line after a key and what the key printed. */
  datatype Edit = Edit(zip: Zipper, out: string)

  function GoTo(z: Zipper, n: nat): (e: Edit)
    requires GoodLine(z) && n <= |z.Text()|
    ensures GoodLine(e.zip)
  {
    Edit(MoveTo(z, n), MoveCode(n - |z.left|))
  }

  function GoHome(z: Zipper): (e: Edit)
    requires GoodLine(z)
    ensures GoodLine(e.zip)
  {
    Edit(MoveTo(z, 0), RESET_CURSOR)
  }

  function GoEnd(z: Zipper): (e: Edit)
    requires GoodLine(z)
    ensures GoodLine(e.zip)
  {
    GoTo(z, |z.Text()|)
  }

  function Forward(z: Zipper): (e: Edit)
    requires GoodLine(z)
    ensures GoodLine(e.zip)
  {
    GoTo(z, if z.right == "" then |z.left| else |z.left| + 1)
  }

  function Back(z: Zipper): (e: Edit)
    requires GoodLine(z)
    ensures GoodLine(e.zip)
  {
    GoTo(z, if z.left == "" then 0 else |z.left| - 1)
  }

  function Type(z: Zipper, c: char): (e: Edit)
    requires GoodLine(z) && Printable(c)
    ensures GoodLine(e.zip)
  {
    if |z.tail| == 1 then Edit(z, "") else Edit(Insert(z, c), PrintLine(Insert(z, c), |z.left|))
  }

  function Erase(z: Zipper): (e: Edit)
    requires GoodLine(z)
    ensures GoodLine(e.zip)
  {
    var shorter := Backspace(z);
    Edit(shorter, (if z.left == "" then "" else RUB_OUT) + PrintLine(shorter, |shorter.left|))
  }

  function EraseLeft(z: Zipper): (e: Edit)
    requires GoodLine(z)
    ensures GoodLine(e.zip)
  {
    var rest := Backspaces(z, |z.left|);
    Edit(rest, Repeat(RUB_OUT, |z.left|) + PrintLine(rest, 0))
  }

  function EraseRight(z: Zipper): (e: Edit)
    requires GoodLine(z)
    ensures GoodLine(e.zip)
  {
    Edit(KillRight(z), ERASE)
  }

  function Redraw(z: Zipper): (e: Edit)
    requires GoodLine(z)
    ensures GoodLine(e.zip)
  {
    Edit(z, NEWLINE + PROMPT + RESET_CURSOR + PrintLine(z, 0))
  }

  function EditKey(z: Zipper, key: char): (e: Edit)
    requires GoodLine(z)
    ensures GoodLine(e.zip)
  {
    if key == KEY_NAK then EraseLeft(z)
    else if key == KEY_VT then EraseRight(z)
    else if key == KEY_ENQ then GoEnd(z)
    else if key == KEY_SOH then GoHome(z)
    else if key == KEY_ACK then Forward(z)
    else if key == KEY_STX then Back(z)
    else if key == KEY_DEL || key == KEY_BS then Erase(z)
    else if key == KEY_DC2 then Redraw(z)
    else if IsControlChar(key) || (key == ' ' && z.Text() == "") then Edit(z, "")
    else Type(z, key)
  }

  // ---------------------------------------------------------------- any key

  /** `escape` says an escape sequence is being read, `escapeSeq` how far the last one got. */
  datatype State = State(zip: Zipper, lines: seq<Line>, cur: nat, escape: bool, escapeSeq: int)

  /** Result of keys: the state after, the bytes printed, and the argument lists `execute` was called with. */
  datatype Outcome = Outcome(state: State, out: string, calls: seq<seq<string>>)

  /** `reply` is what the callback prints if this key calls one (`execute` on Enter, `sigint` on ^C). */
  datatype Event = Event(key: char, reply: string)

  predicate StorableLines(lines: seq<Line>) {
    forall i {:trigger AllStorable(lines[i])} :: 0 <= i < |lines| ==> AllStorable(lines[i])
  }

  predicate Inv(s: State) {
    && GoodLine(s.zip)
    && Proper(s.lines) && StorableLines(s.lines)
    && s.cur <= |s.lines|
  }

  const ESC_BRACKET := 1
  const ESC_HOME := 2
  const ESC_END := 3

  function Edited(s: State, e: Edit): Outcome {
    Outcome(s.(zip := e.zip), e.out, [])
  }

  function Silent(s: State): Outcome {
    Outcome(s, "", [])
  }

  function Search(s: State, dir: Direction): (o: Outcome)
    requires Inv(s)
    ensures Inv(o.state)
  {
    var recall := Navigate(s.lines, s.cur, dir);
    match recall.shown
    case None => Silent(s)
    case Some(line) =>
      var zip := Recalled(s.zip, line, dir);
      Outcome(s.(zip := zip, cur := recall.cur), RESET_CURSOR + PrintLine(zip, 0), [])
  }

  predicate AllWithin(starts: seq<nat>, n: nat) {
    forall k :: 0 <= k < |starts| ==> starts[k] <= n
  }

  /** The C strings that begin at `starts`: up to the next zero byte, wherever that is. */
  function CStrings(buf: string, starts: seq<nat>): seq<string>
    requires AllWithin(starts, |buf|)
  {
    seq(|starts|, k requires 0 <= k < |starts| => WordAt(buf, '\0', starts[k]))
  }

  lemma {:induction false} StartsInBuffer(z: Zipper)
    ensures AllWithin(WordStarts(z.Text(), '\0'), |z.Buffer()|)
  {
    StartsAreExact(z.Text(), '\0');
    var starts := WordStarts(z.Text(), '\0');
    assert forall k :: 0 <= k < |starts| ==> IsWordStart(z.Text(), '\0', starts[k]);
  }

  /** The arguments point to the words of the text, but each is read from the whole buffer. */
  function Argv(z: Zipper): seq<string> {
    StartsInBuffer(z);
    CStrings(z.Buffer(), WordStarts(z.Text(), '\0'))
  }

  lemma {:induction false} SavedStorable(lines: seq<Line>, text: Line)
    requires Proper(lines) && StorableLines(lines) && AllStorable(text)
    ensures text != "" ==> Proper(Save(lines, text))
    ensures StorableLines(Save(lines, text))
  {
    if |text| <= MAX_SAVED {
      var k := EvictIsMinimal(lines, |text|);
    }
    if text != "" {
      SaveKeepsProper(lines, text);
    }
  }

  function Enter(s: State, reply: string): (o: Outcome)
    requires Inv(s)
    ensures Inv(o.state)
  {
    var text := s.zip.Text();
    SavedStorable(s.lines, text);
    Outcome(s.(zip := EmptyLine, lines := if text == "" then s.lines else Save(s.lines, text), cur := 0),
            NEWLINE + Said(s.zip, reply) + PROMPT,
            Calls(s.zip))
  }

  function WordCount(z: Zipper): nat {
    |WordStarts(z.Text(), '\0')|
  }

  /** What Enter lets appear between the edited row and the next prompt. */
  function Said(z: Zipper, reply: string): string {
    if WordCount(z) >= COMMAND_TOKEN_NMB then TOO_MANY_TOKENS else if WordCount(z) > 0 then reply else ""
  }

  function Calls(z: Zipper): seq<seq<string>> {
    if 0 < WordCount(z) < COMMAND_TOKEN_NMB then [Argv(z)] else []
  }

  /** A key behind the bracket. */
  function BracketKey(s: State, key: char): (o: Outcome)
    requires Inv(s)
    ensures Inv(o.state)
  {
    var done := s.(escape := false);
    match key
    case 'A' => Search(done, Up)
    case 'B' => Search(done, Down)
    case 'C' => Edited(done, Forward(s.zip))
    case 'D' => Edited(done, Back(s.zip))
    case '7' => Silent(s.(escapeSeq := ESC_HOME))
    case '8' => Silent(s.(escapeSeq := ESC_END))
    case _ => Silent(done)
  }

  /** A key while an escape sequence is being read. */
  function EscapeKey(s: State, key: char): (o: Outcome)
    requires Inv(s)
    ensures Inv(o.state)
  {
    var done := s.(escape := false);
    if key == '[' then Silent(s.(escapeSeq := ESC_BRACKET))
    else if s.escapeSeq == ESC_BRACKET then BracketKey(s, key)
    else if key == '~' && s.escapeSeq == ESC_HOME then Edited(done, GoHome(s.zip))
    else if key == '~' && s.escapeSeq == ESC_END then Edited(done, GoEnd(s.zip))
    else Silent(done)
  }

  function PlainKey(s: State, key: char, reply: string): (o: Outcome)
    requires Inv(s)
    ensures Inv(o.state)
  {
    if key == KEY_CR then Enter(s, reply)
    else if key == KEY_ESC then Silent(s.(escape := true))
    else if key == KEY_DLE then Search(s, Up)
    else if key == KEY_SO then Search(s, Down)
    else if key == KEY_ETX then Outcome(s, reply, [])
    else Edited(s, EditKey(s.zip, key))
  }

  function Step(s: State, e: Event): (o: Outcome)
    requires Inv(s)
    ensures Inv(o.state)
  {
    if s.escape then EscapeKey(s, e.key) else PlainKey(s, e.key, e.reply)
  }

  /** One outcome after another. */
  function Then(a: Outcome, b: Outcome): Outcome {
    Outcome(b.state, a.out + b.out, a.calls + b.calls)
  }

  lemma {:induction false} ThenAssociates(a: Outcome, b: Outcome, c: Outcome)
    ensures Then(Then(a, b), c) == Then(a, Then(b, c))
  {
    assert a.out + b.out + c.out == a.out + (b.out + c.out);
    assert a.calls + b.calls + c.calls == a.calls + (b.calls + c.calls);
  }

  function Run(s: State, events: seq<Event>): (o: Outcome)
    requires Inv(s)
    ensures Inv(o.state)
  {
    if events == [] then Outcome(s, "", [])
    else
      var before := Run(s, events[..|events| - 1]);
      Then(before, Step(before.state, events[|events| - 1]))
  }

  lemma {:induction false} RunConcat(s: State, a: seq<Event>, b: seq<Event>)
    requires Inv(s)
    ensures Run(s, a + b) == Then(Run(s, a), Run(Run(s, a).state, b))
  {
    var first := Run(s, a);
    if b == [] {
      assert a + b == a;
    } else {
      var n := |b| - 1;
      assert (a + b)[..|a + b| - 1] == a + b[..n];
      RunConcat(s, a, b[..n]);
      var middle := Run(first.state, b[..n]);
      ThenAssociates(first, middle, Step(middle.state, b[n]));
    }
  }

  lemma {:induction false} RunOne(s: State, e: Event)
    requires Inv(s)
    ensures Run(s, [e]) == Step(s, e)
  {
    assert [e][..0] == [];
  }
}
