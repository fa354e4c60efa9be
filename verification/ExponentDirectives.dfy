/** "%e" directives against ISO/IEC 9899:2011 section 7.21.6.1, paragraph 8, and how "%g", "%f" and special values use them. */
module ExponentDirectives {
  import opened Text
  import opened Digits
  import opened Output
  import opened IntegerText
  import opened IntegerLayout
  import opened FloatText
  import opened ScientificText
  import opened Formatter
  import opened Directives
  import opened TextDirectives
  import opened FixedDirectives

  // ---------------------------------------------------------------- numbers and their exponents

  function TenTo(e: int): (r: real)
    ensures r > 0.0
  {
    PowPositive(10, if e < 0 then -e else e);
    if e >= 0 then FloatText.Scale(e) else 1.0 / FloatText.Scale(-e)
  }

  /** The number came with its decimal exponent and that power of ten. */
  predicate Exact(v: Double) {
    && v.Finite? && -1000 < v.exponent < 1000
    && v.power == TenTo(v.exponent) && 0.0 < v.power <= FloatText.Magnitude(v.r) < 10.0 * v.power
  }

  /** The number as it stands before its power of ten. */
  function Mantissa(v: Double): real
    requires Exact(v)
  {
    FloatText.Magnitude(v.r) / v.power
  }

  lemma {:induction false} MantissaRange(v: Double)
    requires Exact(v)
    ensures 1.0 <= Mantissa(v) < 10.0
  {
    QuotientRange(FloatText.Magnitude(v.r), v.power);
  }

  lemma {:induction false} QuotientRange(a: real, b: real)
    requires 0.0 < b <= a < 10.0 * b
    ensures 1.0 <= a / b < 10.0
  {
    var q := a / b;
    assert q * b == a;
    if q < 1.0 {
      SmallerTimes(q, 1.0, b);
    }
    if q >= 10.0 {
      LargerTimes(10.0, q, b);
    }
  }

  lemma {:induction false} SmallerTimes(x: real, y: real, b: real)
    requires x < y && b > 0.0
    ensures x * b < y * b
  {
  }

  lemma {:induction false} LargerTimes(x: real, y: real, b: real)
    requires x <= y && b > 0.0
    ensures x * b <= y * b
  {
  }

  // ---------------------------------------------------------------- the layout

  /** Two digits, or three. */
  function ExponentDigits(d: nat): string
    requires d < 1000
  {
    if d < 100 then [DigitChar(d / 10, false), DigitChar(d % 10, false)]
    else [DigitChar(d / 100, false), DigitChar(d / 10 % 10, false), DigitChar(d % 10, false)]
  }

  /** 'e', a sign and at least two digits. */
  function ExponentShown(e: int, upper: bool): string
    requires -1000 < e < 1000
  {
    (if upper then "E" else "e") + (if e < 0 then "-" else "+") + ExponentDigits(Absolute(e))
  }

  lemma {:induction false} ShortNumeral(d: nat)
    requires d < 1000
    ensures d < 10 ==> Numeral(d, 10, false) == [DigitChar(d, false)]
    ensures 10 <= d < 100 ==> Numeral(d, 10, false) == [DigitChar(d / 10, false), DigitChar(d % 10, false)]
    ensures 100 <= d ==>
              Numeral(d, 10, false) == [DigitChar(d / 100, false), DigitChar(d / 10 % 10, false), DigitChar(d % 10, false)]
  {
    if d >= 10 {
      assert Numeral(d, 10, false) == Numeral(d / 10, 10, false) + [DigitChar(d % 10, false)];
      if d >= 100 {
        assert Numeral(d / 10, 10, false) == Numeral(d / 10 / 10, 10, false) + [DigitChar(d / 10 % 10, false)];
      }
    }
  }

  lemma {:induction false} NumberAndZeros(d: nat, negative: bool, width: nat, f: Flags)
    requires d < 1000 && f == EXPONENT_FLAGS && width == (if d < 100 then 3 else 4)
    ensures LongText(d, negative, 10, 0, width, f)
            == (if negative then "-" else "+") + IntegerText.Zeros(width - 1 - |Numeral(d, 10, false)|) + Numeral(d, 10, false)
  {
    var digits := Numeral(d, 10, false);
    ShortNumeral(d);
    ConversionIsStandardIff(d, negative, 10, 0, width, f);
    assert IntegerText.Zeros(0 - |digits|) + digits == digits;
  }

  lemma {:induction false} FilledDigits(d: nat, width: nat)
    requires d < 1000 && width == (if d < 100 then 3 else 4)
    ensures IntegerText.Zeros(width - 1 - |Numeral(d, 10, false)|) + Numeral(d, 10, false) == ExponentDigits(d)
  {
    ShortNumeral(d);
    if d < 10 {
      assert IntegerText.Zeros(1) == [DigitChar(d / 10, false)];
    } else {
      assert IntegerText.Zeros(0) == "";
    }
  }

  lemma {:induction false} FourJoined(a: string, b: string, c: string, d: string)
    ensures a + (b + c + d) == a + b + (c + d)
  {
  }

  lemma {:induction false} ExponentIs(plan: Plan, upper: bool)
    requires -1000 < plan.exponent < 1000 && plan.exponentWidth == (if -100 < plan.exponent < 100 then 4 else 5)
    ensures ExponentText(plan, upper) == ExponentShown(plan.exponent, upper)
    ensures |ExponentShown(plan.exponent, upper)| == plan.exponentWidth
  {
    var d, width := Absolute(plan.exponent), plan.exponentWidth - 1;
    NumberAndZeros(d, plan.exponent < 0, width, EXPONENT_FLAGS);
    FilledDigits(d, width);
    FourJoined(if upper then "E" else "e", if plan.exponent < 0 then "-" else "+",
               IntegerText.Zeros(width - 1 - |Numeral(d, 10, false)|), Numeral(d, 10, false));
  }

  /** A number laid out in what the exponent leaves of the width is, with the exponent, laid out in the width. */
  lemma {:induction false} LayoutWithExponent(
      t: string, x: string, negative: bool, width: nat, left: bool, zero: bool, plus: bool, space: bool)
    requires t != ""
    ensures var inner := if left || width <= |x| then 0 else width - |x|;
            var out := FixedLayout(t, negative, inner, left, zero, plus, space) + x;
            out + (if left then SpaceText(width - |out|) else "")
            == FixedLayout(t + x, negative, width, left, zero, plus, space)
  {
    var sign := if negative then "-" else if plus then "+" else if space then " " else "";
    if left {
      LeftJoined(sign, t, x, width);
    } else {
      RightJoined(sign, t, x, width, zero);
    }
  }

  lemma {:induction false} LeftJoined(sign: string, t: string, x: string, width: nat)
    ensures var out := sign + t + SpaceText(0 - |sign| - |t|) + x;
            out + SpaceText(width - |out|) == sign + (t + x) + SpaceText(width - |sign| - |t + x|)
  {
    NothingOfNothing(0 - |sign| - |t|, 0);
    assert sign + t + "" + x == sign + (t + x);
  }

  lemma {:induction false} RightJoined(sign: string, t: string, x: string, width: nat, zero: bool)
    requires t != ""
    ensures var inner := if width <= |x| then 0 else width - |x|;
            var small, gap := inner - |sign| - |t|, width - |sign| - |t + x|;
            (if zero then sign + IntegerText.Zeros(small) + t else SpaceText(small) + sign + t) + x + ""
            == if zero then sign + IntegerText.Zeros(gap) + (t + x) else SpaceText(gap) + sign + (t + x)
  {
    GapsAgree(sign, t, x, width, zero);
  }

  lemma {:induction false} NothingOfNothing(a: int, b: int)
    ensures a <= 0 ==> SpaceText(a) == "" == IntegerText.Zeros(a)
    ensures b <= 0 ==> SpaceText(b) == "" == IntegerText.Zeros(b)
  {
  }

  lemma {:induction false} GapsAgree(sign: string, t: string, x: string, width: nat, zero: bool)
    requires t != ""
    ensures var inner := if width <= |x| then 0 else width - |x|;
            var small, gap := inner - |sign| - |t|, width - |sign| - |t + x|;
            (if zero then sign + IntegerText.Zeros(small) + t else SpaceText(small) + sign + t) + x
            == if zero then sign + IntegerText.Zeros(gap) + (t + x) else SpaceText(gap) + sign + (t + x)
  {
  }

  // ---------------------------------------------------------------- what the code prints

  function ExponentWidth(e: int): nat {
    if -100 < e < 100 then 4 else 5
  }

  /** The width the exponent leaves for the number. */
  function InnerWidth(width: nat, e: int, left: bool): nat {
    if left || width <= ExponentWidth(e) then 0 else width - ExponentWidth(e)
  }

  /** The mantissa with the number's sign. */
  function SignedMantissa(v: Double): real
    requires Exact(v)
  {
    if v.r < 0.0 then 0.0 - Mantissa(v) else Mantissa(v)
  }

  lemma {:induction false} MantissaSign(v: Double)
    requires Exact(v)
    ensures FloatText.Magnitude(SignedMantissa(v)) == Mantissa(v) && (SignedMantissa(v) < 0.0 <==> v.r < 0.0)
    ensures -10.0 < SignedMantissa(v) < 10.0
  {
    MantissaRange(v);
  }

  lemma {:induction false} ScaledIs(v: Double, plan: Plan)
    requires Exact(v) && plan.exponent == v.exponent
    ensures v.power != 0.0 && Scaled(v, plan) == SignedMantissa(v)
  {
    if v.exponent == 0 {
      PowerOfNothing(v);
    }
  }

  lemma {:induction false} PowerOfNothing(v: Double)
    requires Exact(v) && v.exponent == 0
    ensures v.power == 1.0 && FloatText.Magnitude(v.r) / v.power == FloatText.Magnitude(v.r)
  {
    assert Pow(10, 0) == 1;
  }

  /** Mantissa, exponent, and under '-' the spaces behind. */
  function ExponentForm(v: Double, prec: nat, width: nat, f: Flags): string
    requires Exact(v)
  {
    var out := FixedText(SignedMantissa(v), prec, InnerWidth(width, v.exponent, f.left), f) + ExponentShown(v.exponent, f.upper);
    out + if f.left then SpaceText(width - |out|) else ""
  }

  lemma {:induction false} PlanIs(v: Double, prec: nat, width: nat, f: Flags)
    requires Exact(v)
    ensures var plan := PlanFor(FloatText.Magnitude(v.r), v.exponent, prec, width, f, false);
            && plan.exponent == v.exponent && plan.exponentWidth == ExponentWidth(v.exponent)
            && plan.width == InnerWidth(width, v.exponent, f.left) && plan.f == f && plan.prec == Decimals(prec, f)
  {
  }

  lemma {:induction false} SamePrecision(r: real, prec: nat, width: nat, f: Flags)
    ensures FixedText(r, Decimals(prec, f), width, f) == FixedText(r, prec, width, f)
    ensures Decimals(Decimals(prec, f), f) == Decimals(prec, f)
  {
  }

  /** Every number whose exponent came with it. */
  lemma {:induction false} EtoaForm(v: Double, prec: nat, width: nat, f: Flags)
    requires Exact(v) && Decimals(prec, f) <= MAX_PRECISION
    ensures EtoaSupplied(v, prec, width, f, false) && EtoaText(v, prec, width, f, false) == ExponentForm(v, prec, width, f)
  {
    var plan := PlanFor(FloatText.Magnitude(v.r), v.exponent, prec, width, f, false);
    PlanIs(v, prec, width, f);
    MantissaSign(v);
    ScaledIs(v, plan);
    SamePrecision(SignedMantissa(v), prec, plan.width, f);
    ExponentIs(plan, f.upper);
  }

  /** Sign, mantissa and exponent, laid out. */
  function ExponentLayout(t: string, e: int, upper: bool, negative: bool, width: nat, f: Flags): string
    requires -1000 < e < 1000
  {
    FixedLayout(t + ExponentShown(e, upper), negative, width, f.left, f.zeroPad, f.plus, f.space)
  }

  lemma {:induction false} ExponentLength(e: int, upper: bool)
    requires -1000 < e < 1000
    ensures |ExponentShown(e, upper)| == ExponentWidth(e)
  {
  }

  lemma {:induction false} NumberIsLayout(r: real, m: real, n: nat, prec: nat, width: nat, f: Flags, e: int)
    requires Small(r) && m == FloatText.Magnitude(r) && n == Decimals(prec, f) <= MAX_DECIMALS && !NinesTie(m, n)
    requires -1000 < e < 1000 && (f.left || !f.zeroPad || width <= BUFFER_SIZE + ExponentWidth(e))
    ensures var inner := InnerWidth(width, e, f.left);
            FixedText(r, prec, inner, f) == FixedLayout(Printed(m, n), r < 0.0, inner, f.left, f.zeroPad, f.plus, f.space)
    ensures Printed(m, n) != ""
  {
    PrintedShows(m, n);
    TextIsLayout(r, n, prec, InnerWidth(width, e, f.left), f);
  }

  lemma {:induction false} FormIsLayout(v: Double, prec: nat, width: nat, f: Flags, n: nat)
    requires Exact(v) && n == Decimals(prec, f) <= MAX_DECIMALS && !NinesTie(Mantissa(v), n) && Mantissa(v) >= 0.0
    requires f.left || !f.zeroPad || width <= BUFFER_SIZE + ExponentWidth(v.exponent)
    ensures ExponentForm(v, prec, width, f)
            == ExponentLayout(Printed(Mantissa(v), n), v.exponent, f.upper, v.r < 0.0, width, f)
  {
    var m, r, e := Mantissa(v), SignedMantissa(v), v.exponent;
    MantissaSign(v);
    NumberIsLayout(r, m, n, prec, width, f, e);
    ExponentLength(e, f.upper);
    var number, t, x := FixedText(r, prec, InnerWidth(width, e, f.left), f), Printed(m, n), ExponentShown(e, f.upper);
    FormJoined(t, x, v.r < 0.0, width, f, number);
  }

  lemma {:induction false} FormJoined(t: string, x: string, negative: bool, width: nat, f: Flags, number: string)
    requires t != ""
    requires var inner := if f.left || width <= |x| then 0 else width - |x|;
             number == FixedLayout(t, negative, inner, f.left, f.zeroPad, f.plus, f.space)
    ensures number + x + (if f.left then SpaceText(width - |number + x|) else "")
            == FixedLayout(t + x, negative, width, f.left, f.zeroPad, f.plus, f.space)
  {
    LayoutWithExponent(t, x, negative, width, f.left, f.zeroPad, f.plus, f.space);
  }

  // ---------------------------------------------------------------- one digit before the point

  /** One digit other than zero, and then the point or nothing. */
  predicate OneLeadingDigit(t: string) {
    t != "" && '1' <= t[0] <= '9' && (|t| == 1 || t[1] == '.')
  }

  /** The mantissa stays below ten when it is rounded to `n` decimals. */
  predicate StaysBelowTen(m: real, n: nat) {
    m * FloatText.Scale(n) < 10.0 * FloatText.Scale(n) - 0.5
  }

  /** Whole part and decimals of what is printed. */
  lemma {:induction false} PrintedSplits(parts: Decimal, n: nat)
    requires n <= MAX_DECIMALS && 0 <= parts.whole && 0 <= parts.frac && (n > 0 ==> parts.frac < Pow(10, n))
    ensures var room := if n == 0 then BUFFER_SIZE else BUFFER_SIZE - n - 1;
            var t, whole := Reversed(DecimalBuilt(parts, n, 0)), Reversed(LastFirst(parts.whole, 10, false, room));
            && room > 20 && |t| == |whole| + (if n == 0 then 0 else n + 1) && t[..|whole|] == whole
            && (n > 0 ==> t[|whole|] == '.')
  {
    if n == 0 {
      WholeOnly(parts);
      var t := Reversed(LastFirst(parts.whole, 10, false, BUFFER_SIZE));
      assert t[..|t|] == t;
    } else {
      var room, left := BUFFER_SIZE, BUFFER_SIZE - n - 1;
      FractionIsExact(parts.frac, n, room);
      PartsBuilt(parts, n, 0, room, left);
      assert IntegerText.Zeros(0) == "";
      TurnedRound(IntegerText.Zeros(0) + FractionDigits(parts.frac, n, room), LastFirst(parts.whole, 10, false, left));
    }
  }

  lemma {:induction false} WholeDigit(whole: nat, room: nat)
    requires 0 < whole <= 10 && room > 20
    ensures whole < 10 ==> Reversed(LastFirst(whole, 10, false, room)) == [DigitChar(whole, false)]
    ensures whole == 10 ==> Reversed(LastFirst(whole, 10, false, room)) == "10"
  {
    if whole < 10 {
      OneDigit(whole, 10, false, room);
    } else {
      OneDigit(1, 10, false, room - 1);
      FirstAndRest(10, 10, false, room);
    }
  }

  lemma {:induction false} RoundedMantissa(m: real, n: nat)
    requires 1.0 <= m < 10.0 && n <= MAX_DECIMALS && !NinesTie(m, n)
    ensures 0 < Rounded(m, n).whole <= 10 && Rounded(m, n).frac >= 0
    ensures Rounded(m, n).whole < 10 <==> StaysBelowTen(m, n)
  {
    RoundedIsNear(m, n);
    if n == 0 {
      RoundedToUnit(m);
    } else {
      RoundedToTen(m, n);
    }
  }

  lemma {:induction false} RoundedToUnit(m: real)
    requires 1.0 <= m < 10.0
    ensures 0 < Rounded(m, 0).whole <= 10
    ensures Rounded(m, 0).whole < 10 <==> StaysBelowTen(m, 0)
  {
    assert FloatText.Scale(0) == 1.0;
    assert Fraction(m, 0) == m - m.Floor as real;
  }

  lemma {:induction false} RoundedToTen(m: real, n: nat)
    requires 1.0 <= m < 10.0 && 0 < n <= MAX_DECIMALS && !NinesTie(m, n)
    ensures 0 < Rounded(m, n).whole <= 10
    ensures Rounded(m, n).whole < 10 <==> StaysBelowTen(m, n)
  {
    FractionInRange(m, n);
    PowIsOddBelow(n);
    MantissaRounds(m, n, m.Floor, Fraction(m, n), Pow(10, n), FloatText.Scale(n));
  }

  lemma {:induction false} MantissaRounds(m: real, n: nat, d: int, tmp: real, units: int, s: real)
    requires n > 0 && d == m.Floor && tmp == Fraction(m, n) && units == Pow(10, n) && s == FloatText.Scale(n)
    requires 1 <= d < 10 && units >= 10 && 0.0 <= tmp < s && tmp != s - 0.5 && m * s == d as real * s + tmp
    ensures 0 < Rounded(m, n).whole <= 10
    ensures Rounded(m, n).whole < 10 <==> m * s < 10.0 * s - 0.5
  {
    TenFromNine(d, tmp, units, s, m * s);
  }

  /** Only from nine can the carry reach ten, and only with more than the last half unit. */
  lemma {:induction false} TenFromNine(d: int, tmp: real, n: int, s: real, scaled: real)
    requires 1 <= d < 10 && n >= 10 && s == n as real && 0.0 <= tmp < s && tmp != s - 0.5 && scaled == d as real * s + tmp
    ensures var whole := RoundParts(d, tmp, n).whole;
            1 <= whole <= 10 && (whole < 10 <==> scaled < 10.0 * s - 0.5)
  {
    if d < 9 {
      BelowNine(d, tmp, s);
    } else {
      assert scaled == 9.0 * s + tmp;
    }
  }

  lemma {:induction false} BelowNine(d: int, tmp: real, s: real)
    requires d <= 8 && s >= 10.0 && tmp < s
    ensures d as real * s + tmp < 10.0 * s - 0.5
  {
    LargerTimes(d as real, 8.0, s);
  }

  lemma {:induction false} PrintedMantissa(m: real, n: nat)
    requires 1.0 <= m < 10.0 && n <= MAX_DECIMALS && !NinesTie(m, n)
    ensures ShowsNumber(Printed(m, n), m, n)
    ensures StaysBelowTen(m, n) ==> OneLeadingDigit(Printed(m, n))
    ensures !StaysBelowTen(m, n) ==> |Printed(m, n)| == (if n == 0 then 2 else n + 3) && Printed(m, n)[1] == '0'
  {
    var parts, room := Rounded(m, n), if n == 0 then BUFFER_SIZE else BUFFER_SIZE - n - 1;
    PrintedShows(m, n);
    RoundedIsNear(m, n);
    RoundedMantissa(m, n);
    PrintedIs(m, n);
    PrintedSplits(parts, n);
    WholeDigit(parts.whole, room);
    FrontOf(Printed(m, n), Reversed(LastFirst(parts.whole, 10, false, room)), n);
  }

  lemma {:induction false} FrontOf(t: string, whole: string, n: nat)
    requires |t| == |whole| + (if n == 0 then 0 else n + 1) && t[..|whole|] == whole && (n > 0 ==> t[|whole|] == '.')
    ensures |whole| == 1 && '1' <= whole[0] <= '9' ==> OneLeadingDigit(t)
    ensures whole == "10" ==> |t| == (if n == 0 then 2 else n + 3) && t[1] == '0'
  {
    if whole != "" {
      assert t[0] == t[..|whole|][0];
    }
    if |whole| > 1 {
      assert t[1] == t[..|whole|][1];
    }
  }

  // ---------------------------------------------------------------- where the exponent begins

  /** Digits and points. */
  predicate NumberChars(t: string) {
    forall i :: 0 <= i < |t| ==> IsDigit(t[i]) || t[i] == '.'
  }

  predicate MarkedAt(out: string, mark: char, k: nat) {
    k < |out| && out[k] == mark && forall i :: 0 <= i < |out| && i != k ==> out[i] != mark
  }

  /** The mark stands at `k`, and `t` in front of it. */
  predicate EndsAt(out: string, t: string, mark: char, k: nat) {
    MarkedAt(out, mark, k) && |t| <= k && forall j :: 0 <= j < |t| ==> out[k - |t| + j] == t[j]
  }

  lemma {:induction false} FixedPointChars(t: string, n: nat)
    requires IsFixedPoint(t, n)
    ensures NumberChars(t)
  {
    if n > 0 {
      var at := |t| - n - 1;
      forall i | 0 <= i < |t|
        ensures IsDigit(t[i]) || t[i] == '.'
      {
        assert i < at ==> t[i] == t[..at][i];
        assert i > at ==> t[i] == t[at + 1..][i - at - 1];
      }
    }
  }

  lemma {:induction false} MarkFrames(before: string, t: string, mark: char, rest: string, behind: string)
    requires NumberChars(t) && mark !in before && mark !in rest && mark !in behind && !IsDigit(mark) && mark != '.'
    ensures EndsAt(before + (t + ([mark] + rest)) + behind, t, mark, |before| + |t|)
  {
  }

  /** Signs, spaces and zeros. */
  predicate Filler(s: string) {
    forall i :: 0 <= i < |s| ==> s[i] == ' ' || s[i] == '0' || s[i] == '+' || s[i] == '-'
  }

  lemma {:induction false} NoMarkInFiller(s: string, mark: char)
    requires Filler(s) && (mark == 'e' || mark == 'E')
    ensures mark !in s
  {
  }

  lemma {:induction false} LayoutFrames(
      text: string, negative: bool, width: nat, left: bool, zero: bool, plus: bool, space: bool)
    returns (before: string, behind: string)
    ensures FixedLayout(text, negative, width, left, zero, plus, space) == before + text + behind
    ensures Filler(before) && Filler(behind)
  {
    var sign := if negative then "-" else if plus then "+" else if space then " " else "";
    var gap := width - |sign| - |text|;
    before := if left then sign else if zero then sign + IntegerText.Zeros(gap) else SpaceText(gap) + sign;
    behind := if left then SpaceText(gap) else "";
  }

  lemma {:induction false} ExponentMarks(e: int, upper: bool) returns (mark: char, rest: string)
    requires -1000 < e < 1000
    ensures mark == (if upper then 'E' else 'e') && ExponentShown(e, upper) == [mark] + rest && mark !in rest
  {
    mark := if upper then 'E' else 'e';
    rest := (if e < 0 then "-" else "+") + ExponentDigits(Absolute(e));
  }

  /** In a number laid out with its exponent there is one mark, and the number in front of it. */
  lemma {:induction false} LayoutEnds(
      t: string, e: int, upper: bool, negative: bool, width: nat, f: Flags)
    returns (k: nat)
    requires -1000 < e < 1000 && NumberChars(t)
    ensures EndsAt(ExponentLayout(t, e, upper, negative, width, f), t, if upper then 'E' else 'e', k)
  {
    var mark, rest := ExponentMarks(e, upper);
    var before, behind := LayoutFrames(t + ExponentShown(e, upper), negative, width, f.left, f.zeroPad, f.plus, f.space);
    NoMarkInFiller(before, mark);
    NoMarkInFiller(behind, mark);
    MarkFrames(before, t, mark, rest, behind);
    k := |before| + |t|;
  }

  lemma {:induction false} OneMark(out: string, mark: char, t: string, k: nat, t': string, k': nat)
    requires EndsAt(out, t, mark, k) && EndsAt(out, t', mark, k')
    ensures k == k'
  {
  }

  lemma {:induction false} CharacterBefore(out: string, t: string, mark: char, k: nat, i: nat)
    requires EndsAt(out, t, mark, k) && i < |t|
    ensures out[k - |t| + i] == t[i]
  {
  }

  lemma {:induction false} LeadingLength(t: string, n: nat)
    requires IsFixedPoint(t, n) && OneLeadingDigit(t)
    ensures |t| == if n == 0 then 1 else n + 2
  {
    if n == 0 {
      assert |t| > 1 ==> IsDigit(t[1]);
    } else {
      PointIsEarly(t, |t| - n - 1);
    }
  }

  lemma {:induction false} PointIsEarly(t: string, at: nat)
    requires 0 < at < |t| && t[at] == '.' && FloatText.AllDigits(t[..at]) && |t| > 1 && t[1] == '.'
    ensures at == 1
  {
    if at > 1 {
      DigitAt(t, at, 1);
    }
  }

  lemma {:induction false} DigitAt(t: string, at: nat, i: nat)
    requires i < at <= |t| && FloatText.AllDigits(t[..at])
    ensures IsDigit(t[i])
  {
    assert t[i] == t[..at][i];
  }

  /** In front of the mark, where the point leaves room for the whole part's last digit, stands no zero. */
  lemma {:induction false} OneDigitBefore(out: string, mark: char, t: string, k: nat, n: nat)
    requires EndsAt(out, t, mark, k) && IsFixedPoint(t, n) && OneLeadingDigit(t)
    ensures var back := if n == 0 then 1 else n + 2; back <= k && out[k - back] != '0'
  {
    LeadingLength(t, n);
    CharacterBefore(out, t, mark, k, 0);
  }

  /** A number that went up to ten has a zero there. */
  lemma {:induction false} TenBefore(out: string, mark: char, ten: string, k: nat, n: nat)
    requires EndsAt(out, ten, mark, k) && |ten| == (if n == 0 then 2 else n + 3) && ten[1] == '0'
    ensures var back := if n == 0 then 1 else n + 2; back <= k && out[k - back] == '0'
  {
    CharacterBefore(out, ten, mark, k, 1);
  }

  // ---------------------------------------------------------------- directives

  predicate ExponentGiven(p: Parts, args: seq<Arg>) {
    && WellFormed(p) && (p.conversion == 'e' || p.conversion == 'E') && '#' !in p.flags && StarsGiven(p, args)
    && |args| > AllStars(p) && args[AllStars(p)].RealArg? && Exact(args[AllStars(p)].v)
  }

  function Shown(p: Parts, args: seq<Arg>): Double
    requires ExponentGiven(p, args)
  {
    args[AllStars(p)].v
  }

  /** The flags as they are written. */
  function MeantFlags(p: Parts, args: seq<Arg>): Flags
    requires StarsGiven(p, args)
  {
    Flags('0' in p.flags, MeantLeft(p, args), '+' in p.flags, ' ' in p.flags, false, p.conversion == 'E', p.precision.Point?)
  }

  /** One digit, `n` decimals, and within half a unit of the last of them once the power of ten is taken off. */
  predicate ShowsScaled(t: string, a: real, e: int, n: nat) {
    -1000 < e < 1000 && ShowsNumber(t, a / TenTo(e), n) && OneLeadingDigit(t)
  }

  ghost predicate IsStandardExponent(out: string, p: Parts, args: seq<Arg>)
    requires ExponentGiven(p, args)
  {
    exists t: string, e: int :: ShowsScaled(t, FloatText.Magnitude(Shown(p, args).r), e, MeantDecimals(p, args))
                                && out == LaidOutWith(t, e, p, args)
  }

  function LaidOutWith(t: string, e: int, p: Parts, args: seq<Arg>): string
    requires ExponentGiven(p, args) && -1000 < e < 1000
  {
    ExponentLayout(t, e, p.conversion == 'E', Shown(p, args).r < 0.0, Directives.Magnitude(WidthValue(p, args)),
                   MeantFlags(p, args))
  }

  predicate ExponentConforms(p: Parts, args: seq<Arg>)
    requires ExponentGiven(p, args)
  {
    var width, m, n := Directives.Magnitude(WidthValue(p, args)), Mantissa(Shown(p, args)), MeantDecimals(p, args);
    && !(p.precision.Point? && PointValue(p, args) < 0)
    && !NinesTie(m, n) && StaysBelowTen(m, n)
    && width < WORD32
    && (MeantLeft(p, args) || '0' !in p.flags || width <= BUFFER_SIZE + ExponentWidth(Shown(p, args).exponent))
  }

  lemma {:induction false} FieldsAre(p: Parts, pos: nat, args: seq<Arg>)
    requires ExponentGiven(p, args)
    ensures var d := AsWritten(p, pos, args);
            && RealFlags(p.conversion, d.f) == MeantFlags(p, args) && d.width == WidthTaken(p, args)
            && Decimals(d.prec, RealFlags(p.conversion, d.f)) == TakenDecimals(p, args)
  {
    ReadFields(p, pos, args);
  }

  /** The code's text, by its own reading. */
  function ExponentCode(p: Parts, args: seq<Arg>): string
    requires ExponentGiven(p, args)
  {
    ExponentForm(Shown(p, args), AsWritten(p, 0, args).prec, WidthTaken(p, args), MeantFlags(p, args))
  }

  lemma {:induction false} ExponentChosen(c: char, d: Directive, v: Double, f: Flags)
    requires (c == 'e' || c == 'E') && d.args != [] && d.args[0] == RealArg(v) && f == RealFlags(c, d.f)
    requires EtoaSupplied(v, d.prec, d.width, f, false)
    ensures ArgSupplied(c, d) && ConversionText(c, d) == EtoaText(v, d.prec, d.width, f, false)
  {
  }

  lemma {:induction false} ExponentConversion(c: char, d: Directive, v: Double)
    requires (c == 'e' || c == 'E') && d.args != [] && d.args[0] == RealArg(v) && Exact(v)
    requires Decimals(d.prec, RealFlags(c, d.f)) <= MAX_PRECISION
    ensures ArgSupplied(c, d) && ConversionText(c, d) == ExponentForm(v, d.prec, d.width, RealFlags(c, d.f))
  {
    var f := RealFlags(c, d.f);
    EtoaForm(v, d.prec, d.width, f);
    ExponentChosen(c, d, v, f);
  }

  lemma {:induction false} ExponentCodeIs(p: Parts, pos: nat, args: seq<Arg>)
    requires ExponentGiven(p, args) && TakenDecimals(p, args) <= MAX_PRECISION
    ensures ArgSupplied(p.conversion, AsWritten(p, pos, args))
    ensures ConversionText(p.conversion, AsWritten(p, pos, args)) == ExponentCode(p, args)
  {
    TakesItsOwn(p, pos, args);
    FieldsAre(p, pos, args);
    ReadFields(p, pos, args);
    ReadFields(p, 0, args);
    ExponentConversion(p.conversion, AsWritten(p, pos, args), Shown(p, args));
  }

  lemma {:induction false} TakenIsMeant(p: Parts, args: seq<Arg>)
    requires ExponentGiven(p, args) && MeantDecimals(p, args) <= MAX_DECIMALS
    ensures p.precision.Point? && PointValue(p, args) < 0 ==> TakenDecimals(p, args) == 0
    ensures !(p.precision.Point? && PointValue(p, args) < 0) ==> TakenDecimals(p, args) == MeantDecimals(p, args)
    ensures Directives.Magnitude(WidthValue(p, args)) < WORD32 ==>
              WidthTaken(p, args) == Directives.Magnitude(WidthValue(p, args))
  {
    RemainderBelow32(MeantDecimals(p, args));
    if Directives.Magnitude(WidthValue(p, args)) < WORD32 {
      RemainderBelow32(Directives.Magnitude(WidthValue(p, args)));
    }
  }

  /** Without a tie and with a width that fits: the mantissa, laid out. */
  lemma {:induction false} CodeIsLaidOut(p: Parts, args: seq<Arg>, m: real, n: nat)
    requires ExponentGiven(p, args) && n == MeantDecimals(p, args) <= MAX_DECIMALS && m == Mantissa(Shown(p, args)) >= 0.0
    requires !(p.precision.Point? && PointValue(p, args) < 0) && !NinesTie(m, n)
    requires var width := Directives.Magnitude(WidthValue(p, args));
             && width < WORD32
             && (MeantLeft(p, args) || '0' !in p.flags || width <= BUFFER_SIZE + ExponentWidth(Shown(p, args).exponent))
    ensures ExponentCode(p, args) == LaidOutWith(Printed(m, n), Shown(p, args).exponent, p, args)
  {
    FieldsAre(p, 0, args);
    TakenIsMeant(p, args);
    FormIsLayout(Shown(p, args), AsWritten(p, 0, args).prec, WidthTaken(p, args), MeantFlags(p, args), n);
  }

  lemma {:induction false} ConformingExponent(p: Parts, args: seq<Arg>)
    requires ExponentGiven(p, args) && MeantDecimals(p, args) <= MAX_DECIMALS && ExponentConforms(p, args)
    ensures IsStandardExponent(ExponentCode(p, args), p, args)
  {
    var v, n := Shown(p, args), MeantDecimals(p, args);
    var m := Mantissa(v);
    MantissaRange(v);
    PrintedMantissa(m, n);
    CodeIsLaidOut(p, args, m, n);
    assert ShowsScaled(Printed(m, n), FloatText.Magnitude(v.r), v.exponent, n);
  }

  /** The mark in a text the standard asks for. */
  lemma {:induction false} StandardEnds(t: string, e: int, p: Parts, args: seq<Arg>, a: real, n: nat) returns (k: nat)
    requires ExponentGiven(p, args) && ShowsScaled(t, a, e, n)
    ensures EndsAt(LaidOutWith(t, e, p, args), t, if p.conversion == 'E' then 'E' else 'e', k)
    ensures IsFixedPoint(t, n) && OneLeadingDigit(t)
  {
    FixedPointChars(t, n);
    k := LayoutEnds(t, e, p.conversion == 'E', Shown(p, args).r < 0.0, Directives.Magnitude(WidthValue(p, args)),
                    MeantFlags(p, args));
  }

  lemma {:induction false} TenEnds(p: Parts, args: seq<Arg>, m: real, n: nat, out: string, mark: char) returns (k: nat)
    requires ExponentGiven(p, args) && n <= MAX_DECIMALS && 1.0 <= m < 10.0 && !NinesTie(m, n) && !StaysBelowTen(m, n)
    requires out == LaidOutWith(Printed(m, n), Shown(p, args).exponent, p, args)
    requires mark == if p.conversion == 'E' then 'E' else 'e'
    ensures EndsAt(out, Printed(m, n), mark, k)
    ensures var back := if n == 0 then 1 else n + 2; back <= k && out[k - back] == '0'
  {
    PrintedMantissa(m, n);
    FixedPointChars(Printed(m, n), n);
    k := LayoutEnds(Printed(m, n), Shown(p, args).exponent, p.conversion == 'E', Shown(p, args).r < 0.0,
                    Directives.Magnitude(WidthValue(p, args)), MeantFlags(p, args));
    TenBefore(out, mark, Printed(m, n), k, n);
  }

  lemma {:induction false} DigitBefore(
      t: string, e: int, p: Parts, args: seq<Arg>, a: real, n: nat, out: string, mark: char, ten: string, k: nat)
    requires ExponentGiven(p, args) && ShowsScaled(t, a, e, n) && out == LaidOutWith(t, e, p, args)
    requires mark == (if p.conversion == 'E' then 'E' else 'e') && EndsAt(out, ten, mark, k)
    ensures var back := if n == 0 then 1 else n + 2; back <= k && out[k - back] != '0'
  {
    var k' := StandardEnds(t, e, p, args, a, n);
    OneDigitBefore(out, mark, t, k', n);
    OneMark(out, mark, t, k', ten, k);
  }

  lemma {:induction false} NoZeroBefore(
      out: string, mark: char, ten: string, k: nat, p: Parts, args: seq<Arg>, a: real, n: nat)
    requires ExponentGiven(p, args) && mark == (if p.conversion == 'E' then 'E' else 'e') && EndsAt(out, ten, mark, k)
    requires var back := if n == 0 then 1 else n + 2; back <= k && out[k - back] == '0'
    requires n == MeantDecimals(p, args) && a == FloatText.Magnitude(Shown(p, args).r)
    ensures !IsStandardExponent(out, p, args)
  {
    if IsStandardExponent(out, p, args) {
      var t: string, e: int :| ShowsScaled(t, a, e, n) && out == LaidOutWith(t, e, p, args);
      DigitBefore(t, e, p, args, a, n, out, mark, ten, k);
    }
  }

  /** A mantissa that is rounded up to ten. */
  lemma {:induction false} TenIsNotStandard(p: Parts, args: seq<Arg>, m: real, n: nat)
    requires ExponentGiven(p, args) && n == MeantDecimals(p, args) <= MAX_DECIMALS && 1.0 <= m < 10.0
    requires !NinesTie(m, n) && !StaysBelowTen(m, n)
    ensures !IsStandardExponent(LaidOutWith(Printed(m, n), Shown(p, args).exponent, p, args), p, args)
  {
    var mark := if p.conversion == 'E' then 'E' else 'e';
    var out := LaidOutWith(Printed(m, n), Shown(p, args).exponent, p, args);
    var k := TenEnds(p, args, m, n, out, mark);
    NoZeroBefore(out, mark, Printed(m, n), k, p, args, FloatText.Magnitude(Shown(p, args).r), n);
  }

  lemma {:induction false} LayoutShows(text: string, negative: bool, width: nat, f: Flags, i: nat)
    requires i < |text|
    ensures var out := FixedLayout(text, negative, width, f.left, f.zeroPad, f.plus, f.space);
            text[i] in out && |out| >= width
  {
    var out := FixedLayout(text, negative, width, f.left, f.zeroPad, f.plus, f.space);
    var before, behind := LayoutFrames(text, negative, width, f.left, f.zeroPad, f.plus, f.space);
    assert out[|before| + i] == text[i];
  }

  /** What the standard asks for has a point if it has decimals, and is as long as its width. */
  lemma {:induction false} StandardHasPoint(out: string, p: Parts, args: seq<Arg>)
    requires ExponentGiven(p, args) && IsStandardExponent(out, p, args)
    ensures MeantDecimals(p, args) > 0 ==> '.' in out
    ensures |out| >= Directives.Magnitude(WidthValue(p, args))
  {
    var n := MeantDecimals(p, args);
    var t: string, e: int :| ShowsScaled(t, FloatText.Magnitude(Shown(p, args).r), e, n) && out == LaidOutWith(t, e, p, args);
    var text := t + ExponentShown(e, p.conversion == 'E');
    var i := if n > 0 then |t| - n - 1 else 0;
    assert text[i] == t[i];
    LayoutShows(text, Shown(p, args).r < 0.0, Directives.Magnitude(WidthValue(p, args)), MeantFlags(p, args), i);
  }

  lemma {:induction false} PointlessForm(v: Double, prec: nat, width: nat, f: Flags)
    requires Exact(v) && Decimals(prec, f) <= MAX_DECIMALS && (Decimals(prec, f) == 0 || NinesTie(Mantissa(v), Decimals(prec, f)))
    ensures '.' !in ExponentForm(v, prec, width, f)
  {
    var mark, rest := ExponentMarks(v.exponent, f.upper);
    MantissaSign(v);
    PrintsNoPoint(SignedMantissa(v), prec, InnerWidth(width, v.exponent, f.left), f);
    NoPointInExponent(v.exponent, f.upper);
    var number := FixedText(SignedMantissa(v), prec, InnerWidth(width, v.exponent, f.left), f);
    NoPointJoined(number, ExponentShown(v.exponent, f.upper), if f.left then width else 0);
  }

  lemma {:induction false} NoPointInExponent(e: int, upper: bool)
    requires -1000 < e < 1000
    ensures '.' !in ExponentShown(e, upper)
  {
  }

  lemma {:induction false} NoPointJoined(a: string, b: string, width: nat)
    requires '.' !in a && '.' !in b
    ensures '.' !in a + b + SpaceText(width - |a + b|) && '.' !in a + b + ""
  {
  }

  /** Ties of nines and negative precisions lose the point. */
  lemma {:induction false} PointlessExponent(p: Parts, args: seq<Arg>)
    requires ExponentGiven(p, args) && MeantDecimals(p, args) <= MAX_DECIMALS
    requires (p.precision.Point? && PointValue(p, args) < 0)
             || NinesTie(Mantissa(Shown(p, args)), MeantDecimals(p, args))
    ensures !IsStandardExponent(ExponentCode(p, args), p, args)
  {
    FieldsAre(p, 0, args);
    TakenIsMeant(p, args);
    PointlessForm(Shown(p, args), AsWritten(p, 0, args).prec, WidthTaken(p, args), MeantFlags(p, args));
    if IsStandardExponent(ExponentCode(p, args), p, args) {
      StandardHasPoint(ExponentCode(p, args), p, args);
    }
  }

  lemma {:induction false} FormIsBounded(v: Double, prec: nat, width: nat, f: Flags)
    requires Exact(v)
    ensures |ExponentForm(v, prec, width, f)| <= Max(width, BUFFER_SIZE + ExponentWidth(v.exponent))
    ensures f.zeroPad && !f.left ==> |ExponentForm(v, prec, width, f)| <= BUFFER_SIZE + ExponentWidth(v.exponent)
  {
    FixedTextIsBounded(SignedMantissa(v), prec, InnerWidth(width, v.exponent, f.left), f);
    ExponentLength(v.exponent, f.upper);
  }

  lemma {:induction false} TooWideExponent(p: Parts, args: seq<Arg>)
    requires ExponentGiven(p, args)
    requires var width := Directives.Magnitude(WidthValue(p, args));
             || width >= WORD32
             || (!MeantLeft(p, args) && '0' in p.flags && width > BUFFER_SIZE + ExponentWidth(Shown(p, args).exponent))
    ensures !IsStandardExponent(ExponentCode(p, args), p, args)
  {
    FormIsBounded(Shown(p, args), AsWritten(p, 0, args).prec, WidthTaken(p, args), MeantFlags(p, args));
    if IsStandardExponent(ExponentCode(p, args), p, args) {
      StandardHasPoint(ExponentCode(p, args), p, args);
    }
  }

  lemma {:induction false} ExponentCodeIff(p: Parts, args: seq<Arg>)
    requires ExponentGiven(p, args) && MeantDecimals(p, args) <= MAX_DECIMALS
    ensures IsStandardExponent(ExponentCode(p, args), p, args) <==> ExponentConforms(p, args)
  {
    var m, n, width := Mantissa(Shown(p, args)), MeantDecimals(p, args), Directives.Magnitude(WidthValue(p, args));
    MantissaRange(Shown(p, args));
    if ExponentConforms(p, args) {
      ConformingExponent(p, args);
    } else if (p.precision.Point? && PointValue(p, args) < 0) || NinesTie(m, n) {
      PointlessExponent(p, args);
    } else if width < WORD32
              && (MeantLeft(p, args) || '0' !in p.flags || width <= BUFFER_SIZE + ExponentWidth(Shown(p, args).exponent)) {
      CodeIsLaidOut(p, args, m, n);
      TenIsNotStandard(p, args, m, n);
    } else {
      TooWideExponent(p, args);
    }
  }

  /**
   * With at most nine decimals "%e" prints what the standard asks for if and only if its precision is not negative,
   * the mantissa is no all-nines tie and is not rounded up to ten, and a width to be filled with zeros leaves the
   * number no more than the buffer.
   */
  lemma {:induction false} ExponentIsStandardIff(p: Parts, pos: nat, args: seq<Arg>)
    requires ExponentGiven(p, args) && MeantDecimals(p, args) <= MAX_DECIMALS
    ensures ArgSupplied(p.conversion, AsWritten(p, pos, args))
    ensures IsStandardExponent(ConversionText(p.conversion, AsWritten(p, pos, args)), p, args) <==> ExponentConforms(p, args)
  {
    TakenIsMeant(p, args);
    ExponentCodeIs(p, pos, args);
    ExponentCodeIff(p, args);
  }

  /** "%.0e" of 9.75 prints a mantissa of ten. */
  lemma {:induction false} MantissaOfTen(p: Parts, pos: nat, args: seq<Arg>)
    requires p == Parts("", Absent, Point(Absent), "", 'e') && args == [RealArg(Finite(9.75, 0, 1.0))]
    ensures Spell(p) == ".e" && ExponentGiven(p, args) && !ExponentConforms(p, args)
    ensures ArgSupplied('e', AsWritten(p, pos, args)) && ConversionText('e', AsWritten(p, pos, args)) == "10e+00"
  {
    var v, m, n := args[0].v, 9.75, 0;
    IsExactAtZero(v, m);
    TenDoesNotConform(p, args, v, m, n);
    TenText(p, pos, args, m, n);
    TenPrinted(m, n);
    TenLaidOut(p, args, v, Printed(m, n));
  }

  lemma {:induction false} TenText(p: Parts, pos: nat, args: seq<Arg>, m: real, n: nat)
    requires p == Parts("", Absent, Point(Absent), "", 'e') && ExponentGiven(p, args) && m == Mantissa(Shown(p, args)) >= 0.0
    requires n == MeantDecimals(p, args) == TakenDecimals(p, args) && n == 0
    ensures ArgSupplied('e', AsWritten(p, pos, args))
    ensures ConversionText('e', AsWritten(p, pos, args)) == LaidOutWith(Printed(m, n), Shown(p, args).exponent, p, args)
  {
    ExponentCodeIs(p, pos, args);
    CodeIsLaidOut(p, args, m, n);
  }

  lemma {:induction false} IsExactAtZero(v: Double, m: real)
    requires v == Finite(m, 0, 1.0) && 1.0 <= m < 10.0
    ensures Exact(v) && Mantissa(v) == m
  {
    assert Pow(10, 0) == 1;
  }

  lemma {:induction false} TenDoesNotConform(p: Parts, args: seq<Arg>, v: Double, m: real, n: nat)
    requires p == Parts("", Absent, Point(Absent), "", 'e') && args == [RealArg(v)] && Exact(v) && m == Mantissa(v) == 9.75
    requires n == 0
    ensures ExponentGiven(p, args) && MeantDecimals(p, args) == n == TakenDecimals(p, args) && !StaysBelowTen(m, n)
    ensures !ExponentConforms(p, args)
  {
    assert Pow(10, 0) == 1;
  }

  lemma {:induction false} TenLaidOut(p: Parts, args: seq<Arg>, v: Double, t: string)
    requires p == Parts("", Absent, Point(Absent), "", 'e') && ExponentGiven(p, args) && Shown(p, args) == v
    requires v.r >= 0.0 && v.exponent == 0 && t == "10"
    ensures LaidOutWith(t, v.exponent, p, args) == "10e+00"
  {
    var text := t + ExponentShown(v.exponent, false);
    assert text == "10e+00";
    NothingAround(text);
  }

  lemma {:induction false} TenPrinted(m: real, n: nat)
    requires m == 9.75 && n == 0
    ensures Printed(m, n) == "10"
  {
    assert Pow(10, 0) == 1;
    RoundedMantissa(m, n);
    PrintedIs(m, n);
    PrintedSplits(Rounded(m, n), n);
    WholeDigit(Rounded(m, n).whole, BUFFER_SIZE);
    var t := Printed(m, n);
    assert t[..|t|] == t;
  }

  // ---------------------------------------------------------------- "%g", large numbers and special values

  lemma {:induction false} FixedChosen(c: char, d: Directive, v: Double, f: Flags)
    requires (c == 'f' || c == 'F') && d.args != [] && d.args[0] == RealArg(v) && f == RealFlags(c, d.f)
    requires FtoaSupplied(v, d.prec, d.width, f)
    ensures ArgSupplied(c, d) && ConversionText(c, d) == FtoaText(v, d.prec, d.width, f)
  {
  }

  lemma {:induction false} GeneralChosen(c: char, d: Directive, v: Double, f: Flags)
    requires (c == 'g' || c == 'G') && d.args != [] && d.args[0] == RealArg(v) && f == RealFlags(c, d.f)
    requires EtoaSupplied(v, d.prec, d.width, f, true)
    ensures ArgSupplied(c, d) && ConversionText(c, d) == EtoaText(v, d.prec, d.width, f, true)
  {
  }

  lemma {:induction false} FixedPlan(v: Double, prec: nat, width: nat, f: Flags, n: nat)
    requires v.Finite? && v.power != 0.0 && 0.0001 <= FloatText.Magnitude(v.r) < 1000000.0 && n <= MAX_PRECISION
    requires n == var p := if f.precision then prec else 6; if p > v.exponent then p - v.exponent - 1 else 0
    ensures EtoaSupplied(v, prec, width, f, true)
    ensures EtoaText(v, prec, width, f, true) == FixedText(v.r, n, width, f.(precision := true))
  {
    var plan := PlanFor(FloatText.Magnitude(v.r), v.exponent, prec, width, f, true);
    assert plan == Plan(n, f.(precision := true), width, 0, 0);
    assert Scaled(v, plan) == v.r;
    NothingJoined(FixedText(v.r, n, width, f.(precision := true)));
  }

  lemma {:induction false} NothingJoined(text: string)
    ensures text + "" == text && text + "" + "" == text
  {
  }

  /** Between a ten-thousandth and a million "%g" with a precision of P prints what "%f" does with P - 1 - X decimals. */
  lemma {:induction false} GeneralIsFixed(c: char, d: Directive, v: Double, n: nat, fixed: char, d': Directive)
    requires (c == 'g' || c == 'G') && d.args != [] && d.args[0] == RealArg(v)
    requires v.Finite? && v.power != 0.0 && 0.0001 <= FloatText.Magnitude(v.r) < 1000000.0 && n <= MAX_PRECISION
    requires n == var p := if d.f.precision then d.prec else 6; if p > v.exponent then p - v.exponent - 1 else 0
    requires fixed == (if c == 'G' then 'F' else 'f') && d' == d.(prec := n, f := d.f.(precision := true))
    ensures ArgSupplied(c, d) && ArgSupplied(fixed, d') && ConversionText(c, d) == ConversionText(fixed, d')
  {
    var f := RealFlags(c, d.f);
    GeneralIsFtoa(v, d.prec, d.width, f, n);
    GeneralChosen(c, d, v, f);
    FixedChosen(fixed, d', v, RealFlags(fixed, d'.f));
  }

  lemma {:induction false} GeneralIsFtoa(v: Double, prec: nat, width: nat, f: Flags, n: nat)
    requires v.Finite? && v.power != 0.0 && 0.0001 <= FloatText.Magnitude(v.r) < 1000000.0 && n <= MAX_PRECISION
    requires n == var p := if f.precision then prec else 6; if p > v.exponent then p - v.exponent - 1 else 0
    ensures EtoaSupplied(v, prec, width, f, true) && FtoaSupplied(v, n, width, f.(precision := true))
    ensures EtoaText(v, prec, width, f, true) == FtoaText(v, n, width, f.(precision := true))
  {
    FixedPlan(v, prec, width, f, n);
    SmallIsFixed(v, n, width, f.(precision := true));
  }

  /** Outside, it prints what "%e" does with one decimal less if a precision was written, and with as many if not. */
  lemma {:induction false} GeneralIsExponent(c: char, d: Directive, v: Double, exponent: char, d': Directive)
    requires (c == 'g' || c == 'G') && d.args != [] && d.args[0] == RealArg(v)
    requires Exact(v) && !(0.0001 <= FloatText.Magnitude(v.r) < 1000000.0)
    requires (if d.f.precision then d.prec else 6) <= MAX_PRECISION
    requires exponent == if c == 'G' then 'E' else 'e'
    requires d' == d.(prec := if d.f.precision && d.prec > 0 then d.prec - 1 else d.prec)
    ensures ArgSupplied(c, d) && ArgSupplied(exponent, d') && ConversionText(c, d) == ConversionText(exponent, d')
  {
    var f := RealFlags(c, d.f);
    ExponentPlan(v, d.prec, d'.prec, d.width, f);
    ChosenAlike(c, d, exponent, d', v, f);
  }

  lemma {:induction false} ChosenAlike(c: char, d: Directive, exponent: char, d': Directive, v: Double, f: Flags)
    requires (c == 'g' || c == 'G') && d.args != [] && d.args[0] == RealArg(v) && f == RealFlags(c, d.f)
    requires (exponent == 'e' || exponent == 'E') && d'.args == d.args && f == RealFlags(exponent, d'.f)
    requires EtoaSupplied(v, d.prec, d.width, f, true) && EtoaSupplied(v, d'.prec, d'.width, f, false)
    requires EtoaText(v, d.prec, d.width, f, true) == EtoaText(v, d'.prec, d'.width, f, false)
    ensures ArgSupplied(c, d) && ArgSupplied(exponent, d') && ConversionText(c, d) == ConversionText(exponent, d')
  {
    GeneralChosen(c, d, v, f);
    ExponentChosen(exponent, d', v, f);
  }

  lemma {:induction false} ExponentPlan(v: Double, prec: nat, prec': nat, width: nat, f: Flags)
    requires Exact(v) && !(0.0001 <= FloatText.Magnitude(v.r) < 1000000.0)
    requires Decimals(prec, f) <= MAX_PRECISION && prec' == if f.precision && prec > 0 then prec - 1 else prec
    ensures EtoaSupplied(v, prec, width, f, true) && EtoaSupplied(v, prec', width, f, false)
    ensures EtoaText(v, prec, width, f, true) == EtoaText(v, prec', width, f, false)
  {
    EtoaForm(v, prec', width, f);
    assert PlanFor(FloatText.Magnitude(v.r), v.exponent, prec, width, f, true)
        == PlanFor(FloatText.Magnitude(v.r), v.exponent, prec', width, f, false);
  }

  /** Above a billion "%f" prints what "%e" does. */
  lemma {:induction false} LargeIsExponent(c: char, d: Directive, v: Double)
    requires (c == 'f' || c == 'F') && d.args != [] && d.args[0] == RealArg(v)
    requires Exact(v) && FloatText.Magnitude(v.r) > 1000000000.0 && (if d.f.precision then d.prec else 6) <= MAX_PRECISION
    ensures var exponent := if c == 'F' then 'E' else 'e';
            && ArgSupplied(c, d) && ArgSupplied(exponent, d)
            && ConversionText(c, d) == ConversionText(exponent, d)
  {
    var f := RealFlags(c, d.f);
    EtoaForm(v, d.prec, d.width, f);
    LargeIsEtoa(v, d.prec, d.width, f);
    FixedChosen(c, d, v, f);
    ExponentChosen(if c == 'F' then 'E' else 'e', d, v, f);
  }

  lemma {:induction false} LargeIsEtoa(v: Double, prec: nat, width: nat, f: Flags)
    requires (v.Finite? ==> FloatText.Magnitude(v.r) > 1000000000.0) && EtoaSupplied(v, prec, width, f, false)
    ensures FtoaSupplied(v, prec, width, f) && FtoaText(v, prec, width, f) == EtoaText(v, prec, width, f, false)
  {
  }

  /** What is not a number, or not finite, is a word framed by spaces; '0' without '-' leaves the spaces out. */
  lemma {:induction false} SpecialIsWord(c: char, d: Directive, v: Double)
    requires IsReal(c) && d.args != [] && d.args[0] == RealArg(v) && !v.Finite?
    ensures ArgSupplied(c, d)
    ensures var word := if v.NotANumber? then "nan" else if v.negative then "-inf" else if d.f.plus then "+inf" else "inf";
            ConversionText(c, d) == if d.f.zeroPad && !d.f.left then word else Framed(word, d.width, d.f.left)
  {
    var f := RealFlags(c, d.f);
    SpecialText(c, d, v, f);
    SpecialSpelled(v, f);
    WordFramed(Reversed(Special(v, f)), Special(v, f), d.width, f);
  }

  lemma {:induction false} SpecialSpelled(v: Double, f: Flags)
    requires !v.Finite?
    ensures Reversed(Special(v, f))
            == if v.NotANumber? then "nan" else if v.negative then "-inf" else if f.plus then "+inf" else "inf"
  {
  }

  lemma {:induction false} SpecialEtoa(v: Double, prec: nat, width: nat, f: Flags, adapt: bool, text: string)
    requires !v.Finite? && text == Padded(Special(v, f), width, f)
    ensures EtoaSupplied(v, prec, width, f, adapt) && EtoaText(v, prec, width, f, adapt) == text
    ensures FtoaSupplied(v, prec, width, f) && FtoaText(v, prec, width, f) == text
  {
  }

  lemma {:induction false} SpecialText(c: char, d: Directive, v: Double, f: Flags)
    requires IsReal(c) && d.args != [] && d.args[0] == RealArg(v) && !v.Finite? && f == RealFlags(c, d.f)
    ensures ArgSupplied(c, d) && ConversionText(c, d) == Padded(Special(v, f), d.width, f)
  {
    var text := Padded(Special(v, f), d.width, f);
    SpecialEtoa(v, d.prec, d.width, f, c == 'g' || c == 'G', text);
    if c == 'f' || c == 'F' {
      FixedChosen(c, d, v, f);
    } else if c == 'e' || c == 'E' {
      ExponentChosen(c, d, v, f);
    } else {
      GeneralChosen(c, d, v, f);
    }
  }

  lemma {:induction false} WordFramed(word: string, lastFirst: string, width: nat, f: Flags)
    requires Reversed(lastFirst) == word
    ensures Padded(lastFirst, width, f) == if f.zeroPad && !f.left then word else Framed(word, width, f.left)
  {
    AlignedIsFramed(word, width, f.left);
    NothingOfNothing(0, 0);
    NothingBeside(word);
    NothingBeside(SpaceText(width - |word|) + word);
  }

  lemma {:induction false} NothingBeside(text: string)
    ensures "" + text == text == text + ""
  {
  }
}
