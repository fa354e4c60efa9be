/**
 * One row of a character terminal: the current line of the console. The control functions are those of
 * ECMA-48: CUF (section 8.3.20), CUB (section 8.3.18), EL (section 8.3.41); SGR only changes colours.
 */
module Terminal {
  import opened Text

  const ESC := '\U{1B}'
  const DEL := '\U{7F}'
  /** The control sequence introducer. */
  const CSI := "\U{1B}["

  /** Where the terminal is within an escape sequence; `Param` carries the number read so far, 0 if none. */
  datatype Mode = Ground | Introducer | Param(n: nat)

  datatype Screen = Screen(width: nat, row: string, col: nat, mode: Mode)

  predicate Valid(t: Screen) {
    |t.row| == t.width && t.col < t.width
  }

  function Blank(n: nat): string {
    seq(n, _ => ' ')
  }

  predicate Printable(c: char) {
    c >= ' ' && c != DEL
  }

  predicate AllPrintable(s: string) {
    forall i :: 0 <= i < |s| ==> Printable(s[i])
  }

  /** Draws a character and advances; past the last column the row below becomes the current one. */
  function Draw(t: Screen, c: char): Screen
    requires Valid(t)
  {
    if t.col + 1 < t.width then t.(row := t.row[t.col := c], col := t.col + 1)
    else Screen(t.width, Blank(t.width), 0, t.mode)
  }

  /** A control function with numeric parameter `n` (0 when left out). */
  function Control(t: Screen, final: char, n: nat): Screen
    requires Valid(t)
  {
    var count := if n == 0 then 1 else n;
    match final
    case 'C' => t.(col := if t.col + count < t.width then t.col + count else t.width - 1)
    case 'D' => t.(col := if t.col >= count then t.col - count else 0)
    case 'K' => if n == 0 then t.(row := t.row[..t.col] + Blank(t.width - t.col)) else t
    case _ => t
  }

  function Feed(t: Screen, c: char): (t': Screen)
    requires Valid(t)
    ensures Valid(t') && t'.width == t.width
  {
    match t.mode
    case Ground =>
      if c == ESC then t.(mode := Introducer)
      else if c == '\r' then t.(col := 0)
      else if c == '\n' then t.(row := Blank(t.width))
      else if Printable(c) then Draw(t, c)
      else t
    case Introducer => t.(mode := if c == '[' then Param(0) else Ground)
    case Param(n) =>
      if IsDigit(c) then t.(mode := Param(10 * n + (c as int - '0' as int)))
      else Control(t.(mode := Ground), c, n)
  }

  /** What the terminal shows after receiving the first `n` of `bytes`. */
  function ExecFirst(t: Screen, bytes: string, n: nat): (t': Screen)
    requires Valid(t) && n <= |bytes|
    ensures Valid(t') && t'.width == t.width
    decreases n
  {
    if n == 0 then t else Feed(ExecFirst(t, bytes, n - 1), bytes[n - 1])
  }

  function Exec(t: Screen, bytes: string): (t': Screen)
    requires Valid(t)
    ensures Valid(t') && t'.width == t.width
  {
    ExecFirst(t, bytes, |bytes|)
  }

  lemma {:induction false} ExecFirstOfConcat(t: Screen, a: string, b: string, n: nat)
    requires Valid(t) && n <= |a|
    ensures ExecFirst(t, a + b, n) == ExecFirst(t, a, n)
  {
    if n > 0 {
      ExecFirstOfConcat(t, a, b, n - 1);
    }
  }

  lemma {:induction false} ExecSecondOfConcat(t: Screen, a: string, b: string, n: nat)
    requires Valid(t) && n <= |b|
    ensures ExecFirst(t, a + b, |a| + n) == ExecFirst(Exec(t, a), b, n)
  {
    if n == 0 {
      ExecFirstOfConcat(t, a, b, |a|);
    } else {
      ExecSecondOfConcat(t, a, b, n - 1);
    }
  }

  lemma {:induction false} ExecConcat(t: Screen, a: string, b: string)
    requires Valid(t)
    ensures Exec(t, a + b) == Exec(Exec(t, a), b)
  {
    ExecSecondOfConcat(t, a, b, |b|);
  }

  lemma {:induction false} ExecOne(t: Screen, c: char)
    requires Valid(t)
    ensures Exec(t, [c]) == Feed(t, c)
  {
    assert ExecFirst(t, [c], 0) == t;
  }

  lemma {:induction false} ExecTwo(t: Screen, c: char, d: char)
    requires Valid(t)
    ensures Exec(t, [c, d]) == Feed(Feed(t, c), d)
  {
    assert [c, d] == [c] + [d];
    ExecConcat(t, [c], [d]);
    ExecOne(t, c);
    ExecOne(Feed(t, c), d);
  }

  /** Decimal digits without leading zeros; zero has none at all. */
  function Decimal(n: nat): string {
    if n == 0 then "" else Decimal(n / 10) + [(n % 10) as char + '0']
  }

  lemma {:induction false} ExecDecimal(t: Screen, n: nat)
    requires Valid(t) && t.mode == Param(0)
    ensures Exec(t, Decimal(n)) == t.(mode := Param(n))
  {
    if n > 0 {
      ExecDecimal(t, n / 10);
      var digit := (n % 10) as char + '0';
      ExecConcat(t, Decimal(n / 10), [digit]);
      ExecOne(Exec(t, Decimal(n / 10)), digit);
    }
  }

  /** A complete control sequence performs its control function with exactly the number that was written. */
  lemma {:induction false} ExecControl(t: Screen, n: nat, final: char)
    requires Valid(t) && t.mode == Ground && !IsDigit(final)
    ensures Exec(t, CSI + Decimal(n) + [final]) == Control(t, final, n)
  {
    var entered := t.(mode := Param(0));
    ExecTwo(t, ESC, '[');
    ExecConcat(t, CSI, Decimal(n));
    ExecDecimal(entered, n);
    ExecConcat(t, CSI + Decimal(n), [final]);
    ExecOne(t.(mode := Param(n)), final);
  }

  /** Printing text that ends before the last column overwrites the cells under it. */
  lemma {:induction false} ExecText(t: Screen, s: string)
    requires Valid(t) && t.mode == Ground
    requires AllPrintable(s) && t.col + |s| < t.width
    ensures Exec(t, s) == t.(row := t.row[..t.col] + s + t.row[t.col + |s|..], col := t.col + |s|)
  {
    if s != "" {
      var n := |s| - 1;
      assert s == s[..n] + [s[n]];
      ExecText(t, s[..n]);
      ExecConcat(t, s[..n], [s[n]]);
      ExecOne(Exec(t, s[..n]), s[n]);
    }
  }

  function Fresh(width: nat): Screen {
    Screen(width, Blank(width), 0, Ground)
  }

  lemma {:induction false} ExecNewline(t: Screen)
    requires Valid(t) && t.mode == Ground
    ensures Exec(t, "\r\n") == Fresh(t.width)
  {
    ExecTwo(t, '\r', '\n');
  }

  /** Moving back, overwriting with a space and moving back again blanks the cell before the cursor. */
  lemma {:induction false} ExecRubOut(t: Screen)
    requires Valid(t) && t.mode == Ground && t.col > 0
    ensures Exec(t, CSI + "D " + CSI + "D") == t.(row := t.row[t.col - 1 := ' '], col := t.col - 1)
  {
    var back := CSI + Decimal(0) + "D";
    assert back == CSI + "D";
    assert CSI + "D " + CSI + "D" == back + " " + back;
    ExecControl(t, 0, 'D');
    ExecConcat(t, back, " ");
    ExecOne(Exec(t, back), ' ');
    ExecConcat(t, back + " ", back);
    ExecControl(Exec(t, back + " "), 0, 'D');
  }
}
