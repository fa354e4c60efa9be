/** Directives for strings, characters, addresses and percent signs, from what is written to what is printed. */
module TextDirectives {
  import opened Digits
  import opened Output
  import opened IntegerText
  import opened IntegerLayout
  import opened Formatter
  import opened Directives

  /** `shown` in a frame of at least `width` characters, at its left or right end, with spaces in the rest. */
  function Framed(shown: string, width: nat, left: bool): (s: string)
    ensures |s| == if width < |shown| then |shown| else width
  {
    var len := if width < |shown| then |shown| else width;
    var from := if left then 0 else len - |shown|;
    seq(len, i requires 0 <= i < len => if from <= i < from + |shown| then shown[i - from] else ' ')
  }

  /** The first `n` characters, or all if there are not so many. */
  function FirstOf(text: string, n: nat): string {
    var len := if n < |text| then n else |text|;
    seq(len, i requires 0 <= i < len => text[i])
  }

  predicate MeantLeft(p: Parts, args: seq<Arg>)
    requires StarsGiven(p, args)
  {
    '-' in p.flags || WidthValue(p, args) < 0
  }

  /** A width as the code reads it. */
  function WidthTaken(p: Parts, args: seq<Arg>): nat
    requires StarsGiven(p, args)
  {
    Magnitude(WidthValue(p, args)) % WORD32
  }

  lemma {:induction false} AlignedIsFramed(text: string, width: nat, left: bool)
    ensures Aligned(text, width, left) == Framed(text, width, left)
  {
  }

  lemma {:induction false} ReadFields(p: Parts, pos: nat, args: seq<Arg>)
    requires StarsGiven(p, args)
    ensures var d := AsWritten(p, pos, args);
            && d.width == WidthTaken(p, args) && d.f.left == MeantLeft(p, args) && d.f.precision == p.precision.Point?
            && d.prec == (if p.precision.Point? && PointValue(p, args) >= 0 then PointValue(p, args) % WORD32 else 0)
  {
  }

  // ---------------------------------------------------------------- strings

  predicate StringGiven(p: Parts, args: seq<Arg>) {
    && WellFormed(p) && p.conversion == 's' && StarsGiven(p, args)
    && |args| > AllStars(p) && args[AllStars(p)].TextArg? && '\0' !in args[AllStars(p)].text
  }

  function StringArg(p: Parts, args: seq<Arg>): string
    requires StringGiven(p, args)
  {
    args[AllStars(p)].text
  }

  /** What the code shows: a precision as it reads it, where a negative one counts as zero. */
  function StringTaken(p: Parts, args: seq<Arg>): string
    requires StringGiven(p, args)
  {
    var text := StringArg(p, args);
    if p.precision.NoPoint? then text
    else FirstOf(text, if PointValue(p, args) < 0 then 0 else PointValue(p, args) % WORD32)
  }

  lemma {:induction false} ShownIsFirst(text: string, d: Directive)
    ensures text[..ShownLength(text, d)] == if d.f.precision then FirstOf(text, d.prec) else text
  {
    assert text[..|text|] == text;
  }

  /** "%s" with any flags, width and precision prints the characters it takes, framed by spaces. */
  lemma {:induction false} StringIsFramed(p: Parts, pos: nat, args: seq<Arg>)
    requires StringGiven(p, args)
    ensures ArgSupplied('s', AsWritten(p, pos, args))
    ensures ConversionText('s', AsWritten(p, pos, args))
            == Framed(StringTaken(p, args), WidthTaken(p, args), MeantLeft(p, args))
  {
    var d, text := AsWritten(p, pos, args), StringArg(p, args);
    TakesItsOwn(p, pos, args);
    ReadFields(p, pos, args);
    ShownIsFirst(text, d);
    AlignedIsFramed(text[..ShownLength(text, d)], d.width, d.f.left);
  }

  /** What the standard shows: a negative precision counts as none (section 7.21.6.1, paragraph 5). */
  function StringMeant(p: Parts, args: seq<Arg>): string
    requires StringGiven(p, args)
  {
    var text := StringArg(p, args);
    if p.precision.Point? && PointValue(p, args) >= 0 then FirstOf(text, PointValue(p, args)) else text
  }

  function StandardString(p: Parts, args: seq<Arg>): string
    requires StringGiven(p, args)
  {
    Framed(StringMeant(p, args), Magnitude(WidthValue(p, args)), MeantLeft(p, args))
  }

  /** No negative precision cuts anything, and numbers in the format have 32 bits or do not matter. */
  predicate StringConforms(p: Parts, args: seq<Arg>)
    requires StringGiven(p, args)
  {
    && (p.precision.Point? ==>
          if PointValue(p, args) < 0 then StringArg(p, args) == ""
          else PointValue(p, args) < WORD32 || |StringArg(p, args)| <= PointValue(p, args) % WORD32)
    && (Magnitude(WidthValue(p, args)) < WORD32 || Magnitude(WidthValue(p, args)) <= |StringMeant(p, args)|)
  }

  lemma {:induction false} TakenIsMeantIff(p: Parts, args: seq<Arg>)
    requires StringGiven(p, args)
    ensures |StringTaken(p, args)| == |StringMeant(p, args)| <==>
              (p.precision.Point? ==>
                 if PointValue(p, args) < 0 then StringArg(p, args) == ""
                 else PointValue(p, args) < WORD32 || |StringArg(p, args)| <= PointValue(p, args) % WORD32)
    ensures |StringTaken(p, args)| <= |StringMeant(p, args)|
    ensures |StringTaken(p, args)| == |StringMeant(p, args)| ==> StringTaken(p, args) == StringMeant(p, args)
    ensures |StringMeant(p, args)| <= |StringArg(p, args)|
            && forall i :: 0 <= i < |StringMeant(p, args)| ==> StringMeant(p, args)[i] == StringArg(p, args)[i]
  {
    if p.precision.Point? && PointValue(p, args) >= 0 {
      RemainderBelow32(PointValue(p, args));
    }
  }

  lemma {:induction false} RemainderBelow32(n: nat)
    ensures n % WORD32 <= n && (n < WORD32 ==> n % WORD32 == n) && (n >= WORD32 ==> n % WORD32 < n)
  {
  }

  /** Frames of texts without spaces tell them apart. */
  lemma {:induction false} FramesDiffer(shorter: string, longer: string, width: nat, width': nat, left: bool)
    requires |shorter| < |longer| && ' ' !in longer
    ensures Framed(shorter, width, left) != Framed(longer, width', left)
  {
    var a, b := Framed(shorter, width, left), Framed(longer, width', left);
    if |a| == |b| {
      var i := if left then |shorter| else |a| - |shorter| - 1;
      assert a[i] == ' ' && b[i] != ' ';
    }
  }

  lemma {:induction false} WidthMattersIff(shown: string, width: nat, left: bool)
    ensures Framed(shown, width % WORD32, left) == Framed(shown, width, left) <==> width < WORD32 || width <= |shown|
  {
    RemainderBelow32(width);
  }

  /** A conforming "%s" is printed as the standard asks; a text without spaces only if it conforms. */
  lemma {:induction false} StringIsStandardIff(p: Parts, pos: nat, args: seq<Arg>)
    requires StringGiven(p, args)
    ensures ArgSupplied('s', AsWritten(p, pos, args))
    ensures StringConforms(p, args) ==> ConversionText('s', AsWritten(p, pos, args)) == StandardString(p, args)
    ensures ' ' !in StringArg(p, args) && ConversionText('s', AsWritten(p, pos, args)) == StandardString(p, args) ==>
              StringConforms(p, args)
  {
    StringIsFramed(p, pos, args);
    TakenIsMeantIff(p, args);
    var taken, meant, w := StringTaken(p, args), StringMeant(p, args), Magnitude(WidthValue(p, args));
    if |taken| < |meant| {
      if ' ' !in StringArg(p, args) {
        FramesDiffer(taken, meant, w % WORD32, w, MeantLeft(p, args));
      }
    } else {
      WidthMattersIff(meant, w, MeantLeft(p, args));
    }
  }

  /** "%.*s" with -1 and "abc" prints nothing where the standard asks for all of it. */
  lemma {:induction false} NegativePrecisionLosesString(p: Parts, args: seq<Arg>)
    requires p == Parts("", Absent, Point(Star), "", 's') && args == [NumberArg(-1), TextArg("abc")]
    ensures Spell(p) == ".*s" && StringGiven(p, args) && !StringConforms(p, args)
    ensures Framed(StringTaken(p, args), WidthTaken(p, args), MeantLeft(p, args)) == ""
    ensures StandardString(p, args) == "abc"
  {
  }

  // ---------------------------------------------------------------- characters and percent signs

  predicate CharGiven(p: Parts, args: seq<Arg>) {
    WellFormed(p) && p.conversion == 'c' && Given(p, args)
  }

  /** "%c" prints the argument as an unsigned char, framed by spaces; a precision plays no part. */
  lemma {:induction false} CharIsFramed(p: Parts, pos: nat, args: seq<Arg>)
    requires CharGiven(p, args)
    ensures ArgSupplied('c', AsWritten(p, pos, args))
    ensures ConversionText('c', AsWritten(p, pos, args))
            == Framed([(Value(p, args) % 256) as char], WidthTaken(p, args), MeantLeft(p, args))
  {
    TakesItsOwn(p, pos, args);
    ReadFields(p, pos, args);
    AlignedIsFramed([(Value(p, args) % 256) as char], WidthTaken(p, args), MeantLeft(p, args));
  }

  /** A percent sign, and any character that stands for no conversion, print themselves and take no argument. */
  predicate PrintsItself(c: char) {
    c !in "diuoxXbfFeEgGcsp"
  }

  lemma {:induction false} LiteralIsItself(c: char, d: Directive)
    requires PrintsItself(c)
    ensures ArgSupplied(c, d) && ConversionText(c, d) == [c] && ArgsAfter(c, d) == d.args
  {
  }

  /** All other conversions take one. */
  lemma {:induction false} OthersTakeOne(c: char, d: Directive)
    requires !PrintsItself(c) && ArgSupplied(c, d)
    ensures d.args != [] && ArgsAfter(c, d) == d.args[1..]
  {
  }

  // ---------------------------------------------------------------- addresses

  /** "%p" prints eight hexadecimal digits in upper case, whatever the width; with '-', the address without zeros. */
  lemma {:induction false} AddressIsEightDigits(p: Parts, pos: nat, args: seq<Arg>)
    requires WellFormed(p) && p.conversion == 'p' && Given(p, args) && p.precision.NoPoint?
    requires '+' !in p.flags && ' ' !in p.flags && '#' !in p.flags
    ensures ArgSupplied('p', AsWritten(p, pos, args))
    ensures var digits := Numeral(Value(p, args) % WORD32, 16, true);
            && |digits| <= 8
            && ConversionText('p', AsWritten(p, pos, args))
               == if MeantLeft(p, args) then Framed(digits, 8, true) else IntegerText.Zeros(8 - |digits|) + digits
  {
    var d, v := AsWritten(p, pos, args), Value(p, args) % WORD32;
    TakesItsOwn(p, pos, args);
    ReadFields(p, pos, args);
    FlagsOfAddress(p, pos, args);
    AddressText(v, d.f.(zeroPad := true, upper := true));
  }

  lemma {:induction false} FlagsOfAddress(p: Parts, pos: nat, args: seq<Arg>)
    requires StarsGiven(p, args) && p.precision.NoPoint? && '+' !in p.flags && ' ' !in p.flags && '#' !in p.flags
    ensures var f := AsWritten(p, pos, args).f.(zeroPad := true, upper := true);
            f == Flags(true, MeantLeft(p, args), false, false, false, true, false)
    ensures AsWritten(p, pos, args).prec == 0
  {
  }

  lemma {:induction false} AddressText(v: nat, f: Flags)
    requires v < WORD32 && f == Flags(true, f.left, false, false, false, true, false)
    ensures var digits := Numeral(v, 16, true);
            && |digits| <= 8
            && LongText(v, false, 16, 0, 8, f)
               == if f.left then Framed(digits, 8, true) else IntegerText.Zeros(8 - |digits|) + digits
  {
    var digits := Numeral(v, 16, true);
    assert Pow(16, 8) == WORD32;
    NumeralLength(v, 16, true, 8);
    ConversionIsStandardIff(v, false, 16, 0, 8, f);
    AddressLayout(digits, f);
  }

  lemma {:induction false} AddressLayout(digits: string, f: Flags)
    requires |digits| <= 8 && f == Flags(true, f.left, false, false, false, true, false)
    ensures StandardLayout(digits, false, 0, 8, f)
            == if f.left then Framed(digits, 8, true) else IntegerText.Zeros(8 - |digits|) + digits
    ensures Fits(digits, false, 0, 8, f)
  {
    assert IntegerText.Zeros(0 - |digits|) + digits == digits;
    assert "" + digits == digits && "" + IntegerText.Zeros(8 - |digits|) == IntegerText.Zeros(8 - |digits|);
    assert digits + SpaceText(8 - |digits|) == Framed(digits, 8, true);
  }
}
