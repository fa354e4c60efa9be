/** "%f" directives against ISO/IEC 9899:2011 section 7.21.6.1, paragraphs 4 to 8. */
module FixedDirectives {
  import opened Text
  import opened Arithmetic
  import opened Digits
  import opened Output
  import opened IntegerText
  import opened IntegerLayout
  import opened FloatText
  import opened ScientificText
  import opened Formatter
  import opened Directives
  import opened TextDirectives

  predicate FixedGiven(p: Parts, args: seq<Arg>) {
    && WellFormed(p) && (p.conversion == 'f' || p.conversion == 'F') && '#' !in p.flags && StarsGiven(p, args)
    && |args| > AllStars(p) && args[AllStars(p)].RealArg? && args[AllStars(p)].v.Finite? && Small(args[AllStars(p)].v.r)
  }

  function Number(p: Parts, args: seq<Arg>): real
    requires FixedGiven(p, args)
  {
    args[AllStars(p)].v.r
  }

  // ---------------------------------------------------------------- what the standard asks for

  /** Six decimals, unless a precision that is not negative says how many. */
  function MeantDecimals(p: Parts, args: seq<Arg>): nat
    requires StarsGiven(p, args)
  {
    if p.precision.Point? && PointValue(p, args) >= 0 then PointValue(p, args) else 6
  }

  /** No zero stands before another digit in front of the point. */
  predicate NoIdleZero(t: string) {
    t != "" && (t[0] == '0' ==> |t| == 1 || t[1] == '.')
  }

  /** Sign and number in a width: spaces to the left or right, or zeros behind the sign. */
  function FixedLayout(t: string, negative: bool, width: nat, left: bool, zero: bool, plus: bool, space: bool): string {
    var sign := if negative then "-" else if plus then "+" else if space then " " else "";
    var gap := width - |sign| - |t|;
    if left then sign + t + SpaceText(gap)
    else if zero then sign + IntegerText.Zeros(gap) + t
    else SpaceText(gap) + sign + t
  }

  /** Exactly `n` decimals, within half a unit of the last one, and nothing idle in front. */
  predicate ShowsNumber(t: string, a: real, n: nat) {
    IsNear(t, a, n) && NoIdleZero(t)
  }

  ghost predicate IsStandardFixed(out: string, p: Parts, args: seq<Arg>)
    requires FixedGiven(p, args)
  {
    exists t: string :: ShowsNumber(t, FloatText.Magnitude(Number(p, args)), MeantDecimals(p, args))
                        && out == LaidOut(t, p, args)
  }

  function LaidOut(t: string, p: Parts, args: seq<Arg>): string
    requires FixedGiven(p, args)
  {
    FixedLayout(t, Number(p, args) < 0.0, Directives.Magnitude(WidthValue(p, args)), MeantLeft(p, args), '0' in p.flags,
                '+' in p.flags, ' ' in p.flags)
  }

  // ---------------------------------------------------------------- what the code prints

  predicate FixedConforms(p: Parts, args: seq<Arg>)
    requires FixedGiven(p, args)
  {
    var width := Directives.Magnitude(WidthValue(p, args));
    && !(p.precision.Point? && PointValue(p, args) < 0)
    && !NinesTie(FloatText.Magnitude(Number(p, args)), MeantDecimals(p, args))
    && width < WORD32 && (MeantLeft(p, args) || '0' !in p.flags || width <= BUFFER_SIZE)
  }

  /** The decimals the code prints: a negative precision counts as zero. */
  function TakenDecimals(p: Parts, args: seq<Arg>): nat
    requires StarsGiven(p, args)
  {
    if p.precision.NoPoint? then 6 else if PointValue(p, args) < 0 then 0 else PointValue(p, args) % WORD32
  }

  function FixedFlags(p: Parts, args: seq<Arg>): Flags
    requires StarsGiven(p, args)
  {
    RealFlags(p.conversion, AsWritten(p, 0, args).f)
  }

  lemma {:induction false} FlagsAre(p: Parts, pos: nat, args: seq<Arg>)
    requires FixedGiven(p, args)
    ensures RealFlags(p.conversion, AsWritten(p, pos, args).f)
            == Flags('0' in p.flags, MeantLeft(p, args), '+' in p.flags, ' ' in p.flags, false, p.conversion == 'F',
                     p.precision.Point?)
  {
  }

  lemma {:induction false} DecimalsAre(p: Parts, pos: nat, args: seq<Arg>)
    requires FixedGiven(p, args)
    ensures Decimals(AsWritten(p, pos, args).prec, RealFlags(p.conversion, AsWritten(p, pos, args).f)) == TakenDecimals(p, args)
    ensures AsWritten(p, pos, args).width == WidthTaken(p, args)
  {
    ReadFields(p, pos, args);
  }

  /** The conversion of a number of moderate size and precision. */
  lemma {:induction false} FixedIs(p: Parts, pos: nat, args: seq<Arg>)
    requires FixedGiven(p, args) && TakenDecimals(p, args) <= MAX_PRECISION
    ensures var d := AsWritten(p, pos, args);
            && ArgSupplied(p.conversion, d)
            && ConversionText(p.conversion, d)
               == FixedText(Number(p, args), d.prec, d.width, RealFlags(p.conversion, d.f))
  {
    TakesItsOwn(p, pos, args);
    DecimalsAre(p, pos, args);
    RealConversion(p.conversion, AsWritten(p, pos, args), args[AllStars(p)].v);
  }

  lemma {:induction false} SmallIsFixed(v: Double, prec: nat, width: nat, f: Flags)
    requires v.Finite? && Small(v.r) && Decimals(prec, f) <= MAX_PRECISION
    ensures FtoaSupplied(v, prec, width, f) && FtoaText(v, prec, width, f) == FixedText(v.r, prec, width, f)
  {
  }

  lemma {:induction false} RealConversion(c: char, d: Directive, v: Double)
    requires (c == 'f' || c == 'F') && d.args != [] && d.args[0] == RealArg(v) && v.Finite? && Small(v.r)
    requires Decimals(d.prec, RealFlags(c, d.f)) <= MAX_PRECISION
    ensures ArgSupplied(c, d) && ConversionText(c, d) == FixedText(v.r, d.prec, d.width, RealFlags(c, d.f))
  {
    SmallIsFixed(v, d.prec, d.width, RealFlags(c, d.f));
  }

  // ---------------------------------------------------------------- when it is what the standard asks for

  lemma {:induction false} WholeFirst(fraction: string, whole: string, number: string)
    requires number == Reversed(whole) && number != "" && (number[0] == '0' ==> number == "0")
    ensures NoIdleZero(Reversed(fraction + "." + whole))
  {
    TurnedRound(fraction, whole);
    var t := Reversed(fraction + "." + whole);
    assert t[0] == t[..|whole|][0];
  }

  lemma {:induction false} WholeNumeral(whole: nat, room: nat)
    requires whole <= 1000000001 && room >= 10
    ensures var number := Reversed(LastFirst(whole, 10, false, room));
            number != "" && (number[0] == '0' ==> number == "0")
  {
    assert Pow(10, 3) == 1000 && Pow(10, 10) == 10000000000;
    PowGrows(10, 10, room);
    NumeralIsLastFirst(whole, 10, false, room);
    NumeralShows(whole, 10, false);
  }

  lemma {:induction false} PrintedHasNoIdleZero(a: real, n: nat)
    requires 0.0 <= a <= MAX_FLOAT && n <= MAX_DECIMALS && !NinesTie(a, n)
    ensures NoIdleZero(Printed(a, n))
  {
    RoundedIsNear(a, n);
    PrintedIs(a, n);
    PartsHaveNoIdleZero(Rounded(a, n), n);
  }

  lemma {:induction false} PartsHaveNoIdleZero(parts: Decimal, n: nat)
    requires n <= MAX_DECIMALS && 0 <= parts.whole <= 1000000001 && 0 <= parts.frac && (n > 0 ==> parts.frac < Pow(10, n))
    ensures NoIdleZero(Reversed(DecimalBuilt(parts, n, 0)))
  {
    if n == 0 {
      WholeNumeral(parts.whole, BUFFER_SIZE);
      WholeOnly(parts);
    } else {
      var room, left := BUFFER_SIZE, BUFFER_SIZE - n - 1;
      FractionIsExact(parts.frac, n, room);
      PartsBuilt(parts, n, 0, room, left);
      WholeNumeral(parts.whole, left);
      var whole := LastFirst(parts.whole, 10, false, left);
      WholeFirst(IntegerText.Zeros(0) + FractionDigits(parts.frac, n, room), whole, Reversed(whole));
    }
  }

  lemma {:induction false} WholeOnly(parts: Decimal)
    requires 0 <= parts.whole && 0 <= parts.frac
    ensures DecimalBuilt(parts, 0, 0) == LastFirst(parts.whole, 10, false, BUFFER_SIZE)
  {
    assert IntegerText.Zeros(0) == "";
  }

  lemma {:induction false} LayoutsAgree(t: string, negative: bool, width: nat, f: Flags)
    ensures StandardLayout(t, negative, 0, width, f)
            == FixedLayout(t, negative, width, f.left, f.zeroPad, f.plus, f.space)
  {
    assert IntegerText.Zeros(0 - |t|) + t == t;
  }

  lemma {:induction false} TextIsLayout(r: real, n: nat, prec: nat, width: nat, f: Flags)
    requires Small(r) && n == Decimals(prec, f) <= MAX_DECIMALS && !NinesTie(FloatText.Magnitude(r), n)
    requires f.left || !f.zeroPad || width <= BUFFER_SIZE
    ensures FixedText(r, prec, width, f)
            == FixedLayout(Printed(FloatText.Magnitude(r), n), r < 0.0, width, f.left, f.zeroPad, f.plus, f.space)
  {
    FixedTextIsStandardIff(r, prec, width, f);
    LayoutsAgree(Printed(FloatText.Magnitude(r), n), r < 0.0, width, f);
  }

  lemma {:induction false} PrintedShows(a: real, n: nat)
    requires 0.0 <= a <= MAX_FLOAT && n <= MAX_DECIMALS && !NinesTie(a, n)
    ensures ShowsNumber(Printed(a, n), a, n)
  {
    PrintedIsNearIff(a, n);
    PrintedHasNoIdleZero(a, n);
  }

  /** The code's text, by its own reading. */
  function CodeText(p: Parts, pos: nat, args: seq<Arg>): string
    requires FixedGiven(p, args)
  {
    var d := AsWritten(p, pos, args);
    FixedText(Number(p, args), d.prec, d.width, RealFlags(p.conversion, d.f))
  }

  lemma {:induction false} ConformingFields(p: Parts, args: seq<Arg>)
    requires FixedGiven(p, args) && MeantDecimals(p, args) <= MAX_DECIMALS && FixedConforms(p, args)
    ensures TakenDecimals(p, args) == MeantDecimals(p, args)
    ensures WidthTaken(p, args) == Directives.Magnitude(WidthValue(p, args))
  {
    RemainderBelow32(MeantDecimals(p, args));
    RemainderBelow32(Directives.Magnitude(WidthValue(p, args)));
  }

  lemma {:induction false} LaidOutIs(t: string, p: Parts, args: seq<Arg>, f: Flags, width: nat)
    requires FixedGiven(p, args) && width == Directives.Magnitude(WidthValue(p, args))
    requires f.left == MeantLeft(p, args) && f.zeroPad == ('0' in p.flags) && f.plus == ('+' in p.flags)
          && f.space == (' ' in p.flags)
    ensures FixedLayout(t, Number(p, args) < 0.0, width, f.left, f.zeroPad, f.plus, f.space) == LaidOut(t, p, args)
  {
  }

  /** A conforming number, printed. */
  lemma {:induction false} ConformingIsLaidOut(p: Parts, pos: nat, args: seq<Arg>)
    requires FixedGiven(p, args) && MeantDecimals(p, args) <= MAX_DECIMALS && FixedConforms(p, args)
    ensures CodeText(p, pos, args) == LaidOut(Printed(FloatText.Magnitude(Number(p, args)), MeantDecimals(p, args)), p, args)
  {
    var d := AsWritten(p, pos, args);
    var r, n, f, width := Number(p, args), MeantDecimals(p, args), RealFlags(p.conversion, d.f), d.width;
    DecimalsAre(p, pos, args);
    FlagsAre(p, pos, args);
    ConformingFields(p, args);
    TextIsLayout(r, n, d.prec, width, f);
    LaidOutIs(Printed(FloatText.Magnitude(r), n), p, args, f, width);
  }

  lemma {:induction false} ConformingIsStandard(p: Parts, pos: nat, args: seq<Arg>)
    requires FixedGiven(p, args) && MeantDecimals(p, args) <= MAX_DECIMALS && FixedConforms(p, args)
    ensures IsStandardFixed(CodeText(p, pos, args), p, args)
  {
    ConformingIsLaidOut(p, pos, args);
    PrintedShows(FloatText.Magnitude(Number(p, args)), MeantDecimals(p, args));
  }

  lemma {:induction false} LaidOutShows(t: string, p: Parts, args: seq<Arg>, i: nat)
    requires FixedGiven(p, args) && i < |t|
    ensures t[i] in LaidOut(t, p, args)
    ensures |LaidOut(t, p, args)| >= Directives.Magnitude(WidthValue(p, args))
  {
    var out, width, left := LaidOut(t, p, args), Directives.Magnitude(WidthValue(p, args)), MeantLeft(p, args);
    var sign := if Number(p, args) < 0.0 then "-" else if '+' in p.flags then "+" else if ' ' in p.flags then " " else "";
    if left {
      assert out[|sign| + i] == t[i];
    } else {
      assert out[|out| - |t| + i] == t[i];
    }
  }

  /** Whatever shows decimals shows a point. */
  lemma {:induction false} StandardShowsPoint(out: string, p: Parts, args: seq<Arg>)
    requires FixedGiven(p, args) && MeantDecimals(p, args) > 0 && IsStandardFixed(out, p, args)
    ensures '.' in out
  {
    var n := MeantDecimals(p, args);
    var t: string :| ShowsNumber(t, FloatText.Magnitude(Number(p, args)), n) && out == LaidOut(t, p, args);
    LaidOutShows(t, p, args, |t| - n - 1);
  }

  lemma {:induction false} StandardIsWide(out: string, p: Parts, args: seq<Arg>)
    requires FixedGiven(p, args) && IsStandardFixed(out, p, args)
    ensures |out| >= Directives.Magnitude(WidthValue(p, args))
  {
    var t: string :| ShowsNumber(t, FloatText.Magnitude(Number(p, args)), MeantDecimals(p, args)) && out == LaidOut(t, p, args);
    LaidOutShows(t, p, args, 0);
  }

  lemma {:induction false} NoPointIn(digits: string, negative: bool, width: nat, f: Flags)
    requires FloatText.AllDigits(digits) && !f.hash
    ensures '.' !in NumberText(Reversed(digits), negative, 10, 0, width, f)
  {
    TextForwards(digits, negative, 10, 0, width, f);
    var len := |PadZeros(Reversed(digits), negative, 0, width, f)|;
    var sign := SignKept(negative, f, len);
    var gap := width - len - |sign|;
    NoPointInside(if !f.left && !f.zeroPad then gap else 0, sign, len - |digits|, digits, if f.left then gap else 0);
  }

  lemma {:induction false} NoPointInside(before: int, sign: string, zeros: int, digits: string, behind: int)
    requires '.' !in sign && FloatText.AllDigits(digits)
    ensures '.' !in SpaceText(before) + (sign + IntegerText.Zeros(zeros) + digits) + SpaceText(behind)
  {
  }

  /** No decimals, or a tie that forgets its carry: no point is printed. */
  lemma {:induction false} PrintsNoPoint(r: real, prec: nat, width: nat, f: Flags)
    requires -MAX_FLOAT <= r <= MAX_FLOAT && Decimals(prec, f) <= MAX_DECIMALS
    requires Decimals(prec, f) == 0 || NinesTie(FloatText.Magnitude(r), Decimals(prec, f))
    ensures '.' !in FixedText(r, prec, width, f)
  {
    var a, n := FloatText.Magnitude(r), Decimals(prec, f);
    BuiltIsPrinted(r, prec, f);
    PrintedIsDigits(a, n);
    NoPointIn(Printed(a, n), r < 0.0, width, f.(hash := false));
  }

  lemma {:induction false} WholeIsDigits(a: real, n: nat)
    requires 0.0 <= a <= MAX_FLOAT && n == 0
    ensures FloatText.AllDigits(Printed(a, n))
  {
    RoundedIsNear(a, n);
    PrintedIs(a, n);
    PrintedWhole(Rounded(a, n));
  }

  lemma {:induction false} TieIsDigits(a: real, n: nat)
    requires 0.0 <= a <= MAX_FLOAT && 0 < n <= MAX_DECIMALS && NinesTie(a, n)
    ensures FloatText.AllDigits(Printed(a, n))
  {
    TiePrints(a, n);
  }

  lemma {:induction false} PrintedIsDigits(a: real, n: nat)
    requires 0.0 <= a <= MAX_FLOAT && n <= MAX_DECIMALS && (n == 0 || NinesTie(a, n))
    ensures FloatText.AllDigits(Printed(a, n))
  {
    if n == 0 {
      WholeIsDigits(a, n);
    } else {
      TieIsDigits(a, n);
    }
  }

  lemma {:induction false} FixedTextIsBounded(r: real, prec: nat, width: nat, f: Flags)
    ensures |FixedText(r, prec, width, f)| <= Max(width, BUFFER_SIZE)
    ensures f.zeroPad && !f.left ==> |FixedText(r, prec, width, f)| <= BUFFER_SIZE
  {
    var f', built := f.(hash := false), RealBuilt(r, prec, f);
    RoundedIsNear(FloatText.Magnitude(r), Limited(Decimals(prec, f)));
    BuiltIsBounded(Rounded(FloatText.Magnitude(r), Limited(Decimals(prec, f))), Limited(Decimals(prec, f)),
                   Decimals(prec, f) - Limited(Decimals(prec, f)));
    BuiltFits(built, r < 0.0, 10, 0, width, f');
  }

  lemma {:induction false} TooWideIsNotStandard(p: Parts, pos: nat, args: seq<Arg>)
    requires FixedGiven(p, args)
    requires var width := Directives.Magnitude(WidthValue(p, args));
             width >= WORD32 || (!MeantLeft(p, args) && '0' in p.flags && width > BUFFER_SIZE)
    ensures !IsStandardFixed(CodeText(p, pos, args), p, args)
  {
    var out, d := CodeText(p, pos, args), AsWritten(p, pos, args);
    DecimalsAre(p, pos, args);
    FlagsAre(p, pos, args);
    FixedTextIsBounded(Number(p, args), d.prec, d.width, RealFlags(p.conversion, d.f));
    if IsStandardFixed(out, p, args) {
      StandardIsWide(out, p, args);
    }
  }

  lemma {:induction false} PointlessDecimals(p: Parts, args: seq<Arg>)
    requires FixedGiven(p, args) && MeantDecimals(p, args) <= MAX_DECIMALS
    ensures p.precision.Point? && PointValue(p, args) < 0 ==> TakenDecimals(p, args) == 0
    ensures !(p.precision.Point? && PointValue(p, args) < 0) ==> TakenDecimals(p, args) == MeantDecimals(p, args)
  {
    RemainderBelow32(MeantDecimals(p, args));
  }

  lemma {:induction false} CodeShowsNoPoint(p: Parts, pos: nat, args: seq<Arg>, n: nat)
    requires FixedGiven(p, args) && n == TakenDecimals(p, args) <= MAX_DECIMALS
    requires n == 0 || NinesTie(FloatText.Magnitude(Number(p, args)), n)
    ensures '.' !in CodeText(p, pos, args)
  {
    var d := AsWritten(p, pos, args);
    DecimalsAre(p, pos, args);
    PrintsNoPoint(Number(p, args), d.prec, d.width, RealFlags(p.conversion, d.f));
  }

  lemma {:induction false} PointlessIsNotStandard(p: Parts, pos: nat, args: seq<Arg>)
    requires FixedGiven(p, args) && MeantDecimals(p, args) <= MAX_DECIMALS
    requires (p.precision.Point? && PointValue(p, args) < 0)
             || NinesTie(FloatText.Magnitude(Number(p, args)), MeantDecimals(p, args))
    ensures !IsStandardFixed(CodeText(p, pos, args), p, args)
  {
    PointlessDecimals(p, args);
    CodeShowsNoPoint(p, pos, args, TakenDecimals(p, args));
    if IsStandardFixed(CodeText(p, pos, args), p, args) {
      StandardShowsPoint(CodeText(p, pos, args), p, args);
    }
  }

  lemma {:induction false} CodeTextIff(p: Parts, pos: nat, args: seq<Arg>)
    requires FixedGiven(p, args) && MeantDecimals(p, args) <= MAX_DECIMALS
    ensures IsStandardFixed(CodeText(p, pos, args), p, args) <==> FixedConforms(p, args)
  {
    if FixedConforms(p, args) {
      ConformingIsStandard(p, pos, args);
    } else if (p.precision.Point? && PointValue(p, args) < 0)
              || NinesTie(FloatText.Magnitude(Number(p, args)), MeantDecimals(p, args)) {
      PointlessIsNotStandard(p, pos, args);
    } else {
      TooWideIsNotStandard(p, pos, args);
    }
  }

  /**
   * With at most nine decimals "%f" prints what the standard asks for if and only if its precision is not negative,
   * the number is no all-nines tie, and a width to be filled with zeros is at most the buffer.
   */
  lemma {:induction false} FixedIsStandardIff(p: Parts, pos: nat, args: seq<Arg>)
    requires FixedGiven(p, args) && MeantDecimals(p, args) <= MAX_DECIMALS
    ensures ArgSupplied(p.conversion, AsWritten(p, pos, args))
    ensures IsStandardFixed(ConversionText(p.conversion, AsWritten(p, pos, args)), p, args) <==> FixedConforms(p, args)
  {
    FixedIs(p, pos, args);
    CodeTextIff(p, pos, args);
  }

  // ---------------------------------------------------------------- an instance

  /** A digit followed by zeros. */
  lemma {:induction false} DigitAndZeros(d: nat, k: nat, room: nat)
    requires 0 < d < 10 && k < room
    ensures LastFirst(d * Pow(10, k), 10, false, room) == IntegerText.Zeros(k) + [DigitChar(d, false)]
    decreases k
  {
    if k == 0 {
      OneDigit(d, 10, false, room);
      assert d * Pow(10, 0) == d && IntegerText.Zeros(0) + [DigitChar(d, false)] == [DigitChar(d, false)];
    } else {
      var q := d * Pow(10, k - 1);
      PowPositive(10, k - 1);
      MulMonotone(d, 1, Pow(10, k - 1));
      assert d * Pow(10, k) == 10 * q;
      QuotientIs(10 * q, 10, q, 0);
      DigitAndZeros(d, k - 1, room - 1);
      FirstAndRest(10 * q, 10, false, room);
      assert IntegerText.Zeros(k) == ['0'] + IntegerText.Zeros(k - 1);
    }
  }

  lemma {:induction false} HalfRounded(whole: nat, r: real, n: nat)
    requires whole < 10 && n == 6 && r == whole as real + 0.5
    ensures Pow(10, n) == 1000000 && Rounded(r, n) == Decimal(whole, 500000)
  {
    assert Pow(10, 3) == 1000 && Pow(10, n) == 1000000;
    assert r.Floor == whole;
    assert Fraction(r, n) == 500000.0;
    assert (500000.0).Floor == 500000;
  }

  lemma {:induction false} HalfFraction(n: nat, room: nat)
    requires n == 6 && room == BUFFER_SIZE
    ensures FractionDigits(500000, n, room) == "000005"
  {
    assert Pow(10, 5) == 100000;
    DigitAndZeros(5, 5, room);
    assert IntegerText.Zeros(5) + [DigitChar(5, false)] == "000005";
    assert IntegerText.Zeros(0) == "";
  }

  lemma {:induction false} HalfBuilt(whole: nat, n: nat, parts: Decimal)
    requires whole < 10 && n == 6 && parts == Decimal(whole, 500000)
    ensures Reversed(DecimalBuilt(parts, n, 0)) == [DigitChar(whole, false)] + ".500000"
  {
    var room, left := BUFFER_SIZE, BUFFER_SIZE - n - 1;
    HalfFraction(n, room);
    PartsBuilt(parts, n, 0, room, left);
    OneDigit(whole, 10, false, left);
    HalfReversed(DigitChar(whole, false));
  }

  lemma {:induction false} HalfReversed(whole: char)
    ensures Reversed(IntegerText.Zeros(0) + "000005" + "." + [whole]) == [whole] + ".500000"
  {
    assert IntegerText.Zeros(0) + "000005" + "." + [whole] == "000005." + [whole];
  }

  /** A plain "%f" of a digit and a half prints six decimals. */
  lemma {:induction false} HalvesHaveSixDecimals(whole: nat, r: real, p: Parts, pos: nat, args: seq<Arg>)
    requires whole < 10 && r == whole as real + 0.5
    requires p == Parts("", Absent, NoPoint, "", 'f') && args != [] && args[0].RealArg? && args[0].v.Finite? && args[0].v.r == r
    ensures FixedGiven(p, args) && ArgSupplied('f', AsWritten(p, pos, args))
    ensures ConversionText('f', AsWritten(p, pos, args)) == [DigitChar(whole, false)] + ".500000"
  {
    var n := 6;
    HalfRounded(whole, r, n);
    HalfIsNoTie(r, n);
    FixedIs(p, pos, args);
    ConformingIsLaidOut(p, pos, args);
    PrintedIs(r, n);
    HalfBuilt(whole, n, Rounded(r, n));
    NothingAround(Printed(r, n));
  }

  lemma {:induction false} HalfIsNoTie(r: real, n: nat)
    requires r >= 0.0 && n == 6 && Rounded(r, n).frac == 500000
    ensures !NinesTie(r, n)
  {
    assert Pow(10, 3) == 1000 && Pow(10, n) == 1000000;
    RoundedIsNear(r, n);
  }

  lemma {:induction false} NothingAround(t: string)
    ensures FixedLayout(t, false, 0, false, false, false, false) == t
  {
  }
}
