/** Fixed-point conversions of real numbers, rounded to at most nine decimal places. */
module FloatText {
  import opened Text
  import opened Arithmetic
  import opened Digits
  import opened Output
  import opened IntegerText
  import opened IntegerLayout

  const DEFAULT_PRECISION := 6
  /** More decimals than this are shown as zeros. */
  const MAX_DECIMALS := 9
  const MAX_FLOAT := 1000000000.0
  /** Past this precision the table of powers of ten is read out of its bounds. */
  const MAX_PRECISION := MAX_DECIMALS + BUFFER_SIZE

  // ---------------------------------------------------------------- rounding

  /** A non-negative number scaled to whole units of its last decimal. */
  function Scale(p: nat): real {
    Pow(10, p) as real
  }

  function Fraction(a: real, p: nat): real {
    (a - a.Floor as real) * Scale(p)
  }

  datatype Decimal = Decimal(whole: int, frac: int)

  /** Rounds `tmp` units of the fraction, of which `n` make a whole. Halfway cases go to even, but zero goes up. */
  function RoundParts(whole: int, tmp: real, n: int): Decimal {
    var frac := tmp.Floor;
    var diff := tmp - frac as real;
    if diff > 0.5 then (if frac + 1 >= n then Decimal(whole + 1, 0) else Decimal(whole, frac + 1))
    else if diff < 0.5 then Decimal(whole, frac)
    else if frac == 0 || frac % 2 == 1 then Decimal(whole, frac + 1)
    else Decimal(whole, frac)
  }

  /** The parts that are printed; without decimals the whole part is rounded half to even. */
  function Rounded(a: real, p: nat): Decimal {
    var parts := RoundParts(a.Floor, Fraction(a, p), Pow(10, p));
    if p == 0 then
      var rest := a - parts.whole as real;
      Decimal(if (!(rest < 0.5) || rest > 0.5) && parts.whole % 2 == 1 then parts.whole + 1 else parts.whole, parts.frac)
    else parts
  }

  /** Exactly halfway above an all-nines fraction: the one case the carry into the whole part is forgotten. */
  predicate NinesTie(a: real, p: nat) {
    p > 0 && Fraction(a, p) == Scale(p) - 0.5
  }

  lemma {:induction false} PowIsOddBelow(p: nat)
    requires p > 0
    ensures Pow(10, p) % 2 == 0 && Pow(10, p) >= 10
  {
    PowPositive(10, p - 1);
  }

  lemma {:induction false} FractionInRange(a: real, p: nat)
    requires a >= 0.0
    ensures Pow(10, p) > 0 && 0.0 <= Fraction(a, p) < Scale(p)
    ensures a.Floor as real * Scale(p) + Fraction(a, p) == a * Scale(p)
  {
    PowPositive(10, p);
    var r, s := a - a.Floor as real, Scale(p);
    assert 0.0 <= r < 1.0;
    ScaledBelow(r, s);
    assert Fraction(a, p) == r * s;
    assert (a - a.Floor as real) * s == a * s - a.Floor as real * s;
  }

  lemma {:induction false} ScaledBelow(r: real, s: real)
    requires 0.0 <= r < 1.0 && s > 0.0
    ensures 0.0 <= r * s < s
  {
  }

  function Apart(x: real, y: real): real {
    if x < y then y - x else x - y
  }

  /** `u` units, of which `s` make one, are within half a unit of `a`. */
  predicate Close(u: int, a: real, s: real) {
    Apart(u as real, a * s) <= 0.5
  }

  /** What is printed, as a number of last-decimal units. */
  function Units(parts: Decimal, p: nat): int {
    if p == 0 then parts.whole else parts.whole * Pow(10, p) + parts.frac
  }

  lemma {:induction false} UnitsAsReal(parts: Decimal, p: nat)
    ensures p > 0 ==> Units(parts, p) as real == parts.whole as real * Scale(p) + parts.frac as real
  {
  }

  lemma {:induction false} RoundedToWhole(a: real)
    requires a >= 0.0
    ensures var parts := Rounded(a, 0);
            && parts.whole >= 0 && 0 <= parts.frac <= 1
            && Apart(parts.whole as real, a) <= 0.5
            && a.Floor <= parts.whole <= a.Floor + 1
  {
    assert Scale(0) == 1.0;
    assert Fraction(a, 0) == a - a.Floor as real;
  }

  lemma {:induction false} RoundPartsNear(whole: int, tmp: real, n: int)
    requires n > 0 && n % 2 == 0 && 0.0 <= tmp < n as real
    ensures var parts := RoundParts(whole, tmp, n);
            && 0 <= parts.frac <= n
            && (parts.whole == whole || (parts.whole == whole + 1 && parts.frac == 0))
            && Apart((parts.whole - whole) as real * n as real + parts.frac as real, tmp) <= 0.5
            && (parts.frac == n <==> tmp == n as real - 0.5)
  {
  }

  lemma {:induction false} RoundedToDecimals(a: real, p: nat)
    requires a >= 0.0 && p > 0
    ensures var parts := Rounded(a, p);
            && parts.whole >= 0 && 0 <= parts.frac <= Pow(10, p)
            && Apart(parts.whole as real * Scale(p) + parts.frac as real, a * Scale(p)) <= 0.5
            && a.Floor <= parts.whole <= a.Floor + 1
            && (parts.frac == Pow(10, p) <==> NinesTie(a, p))
  {
    FractionInRange(a, p);
    PowIsOddBelow(p);
    var s, parts := Scale(p), Rounded(a, p);
    RoundPartsNear(a.Floor, Fraction(a, p), Pow(10, p));
    assert parts.whole as real * s == a.Floor as real * s + (parts.whole - a.Floor) as real * s;
  }

  /** The rounded parts are within half a unit, and the fraction overflows exactly in the all-nines tie. */
  lemma {:induction false} RoundedIsNear(a: real, p: nat)
    requires a >= 0.0
    ensures var parts := Rounded(a, p);
            && parts.whole >= 0 && 0 <= parts.frac <= Pow(10, p)
            && Close(Units(parts, p), a, Scale(p))
            && a.Floor <= parts.whole <= a.Floor + 1
            && (p > 0 ==> (parts.frac == Pow(10, p) <==> NinesTie(a, p)))
  {
    if p == 0 {
      assert Scale(0) == 1.0;
      RoundedToWhole(a);
    } else {
      RoundedToDecimals(a, p);
      UnitsAsReal(Rounded(a, p), p);
    }
  }

  // ---------------------------------------------------------------- the text

  /** The fraction's digits, last first; a 32-bit counter says how many zeros bring them up to `p`. */
  function FractionDigits(frac: nat, p: nat, room: nat): string {
    var digits := LastFirst(frac, 10, false, room);
    digits + Zeros(Min((p - |digits|) % WORD32, room - |digits|))
  }

  /** Zeros for decimals past the ninth, the fraction and the point; last character first. */
  function FractionPart(frac: nat, p: nat, extra: nat): (b: string)
    ensures |b| <= BUFFER_SIZE
  {
    var zeros := Zeros(Min(extra, BUFFER_SIZE));
    if p == 0 then zeros else Push(zeros + FractionDigits(frac, p, BUFFER_SIZE - |zeros|), '.')
  }

  /** The number without its sign, last character first. */
  function DecimalBuilt(parts: Decimal, p: nat, extra: nat): string
    requires parts.whole >= 0 && parts.frac >= 0
  {
    var b := FractionPart(parts.frac, p, extra);
    b + LastFirst(parts.whole, 10, false, BUFFER_SIZE - |b|)
  }

  function Magnitude(v: real): real {
    if v < 0.0 then 0.0 - v else v
  }

  function Decimals(prec: nat, f: Flags): nat {
    if f.precision then prec else DEFAULT_PRECISION
  }

  /** The precision left when zeros for the decimals past the ninth have used up decimals or buffer. */
  function Limited(p: nat): nat {
    if p <= MAX_DECIMALS then p else p - Min(p - MAX_DECIMALS, BUFFER_SIZE)
  }

  /** It indexes a table of ten powers of ten. */
  lemma {:induction false} TableIsInBoundsIff(p: nat)
    ensures Limited(p) < 10 <==> p <= MAX_PRECISION
    ensures p <= MAX_PRECISION ==> Limited(p) == Min(p, MAX_DECIMALS)
  {
  }

  function MagnitudeBuilt(a: real, p: nat): string
    requires a >= 0.0
  {
    RoundedIsNear(a, Limited(p));
    DecimalBuilt(Rounded(a, Limited(p)), Limited(p), p - Limited(p))
  }

  function RealBuilt(v: real, prec: nat, f: Flags): string {
    MagnitudeBuilt(Magnitude(v), Decimals(prec, f))
  }

  function FixedText(v: real, prec: nat, width: nat, f: Flags): string {
    NumberText(RealBuilt(v, prec, f), v < 0.0, 10, 0, width, f.(hash := false))
  }

  predicate AllDigits(t: string) {
    forall i :: 0 <= i < |t| ==> IsDigit(t[i])
  }

  /** Digits, and unless `p` is 0 a point and exactly `p` more digits. */
  predicate IsFixedPoint(t: string, p: nat) {
    if p == 0 then t != "" && AllDigits(t)
    else
      && |t| > p + 1 && t[|t| - p - 1] == '.'
      && AllDigits(t[..|t| - p - 1]) && AllDigits(t[|t| - p..])
  }

  /** The number shown, in units of its last decimal. */
  function Reading(t: string, p: nat): int
    requires IsFixedPoint(t, p)
  {
    if p == 0 then Number(t) else Number(t[..|t| - p - 1]) * Pow(10, p) + Number(t[|t| - p..])
  }

  /** `t` is a fixed-point number of `p` decimals and shows `n` units. */
  predicate Reads(t: string, p: nat, n: int) {
    IsFixedPoint(t, p) && Reading(t, p) == n
  }

  lemma {:induction false} ValueOfZeros(digits: string, n: int)
    ensures ValueOf(digits + Zeros(n), 10) == ValueOf(digits, 10)
    decreases |digits| + Max(n, 0)
  {
    if digits != "" {
      assert (digits + Zeros(n))[1..] == digits[1..] + Zeros(n);
      ValueOfZeros(digits[1..], n);
    } else if n > 0 {
      assert ("" + Zeros(n))[1..] == "" + Zeros(n - 1);
      ValueOfZeros("", n - 1);
    } else {
      assert "" + Zeros(n) == "";
    }
  }

  /** A fraction below one whole is shown with exactly `p` digits. */
  lemma {:induction false} FractionIsExact(frac: nat, p: nat, room: nat)
    requires 0 < p <= MAX_DECIMALS && frac < Pow(10, p) && p <= room
    ensures var digits := FractionDigits(frac, p, room);
            |digits| == p && AllDigits(digits) && ValueOf(digits, 10) == frac
  {
    var digits := LastFirst(frac, 10, false, room);
    FewDigits(frac, false, room, p);
    DecimalDigits(frac, room);
    PowGrows(10, p, room);
    DigitsReadBack(frac, 10, false, room);
    QuotientIs(frac, Pow(10, room), 0, frac);
    ValueOfZeros(digits, p - |digits|);
    SmallModulo(p - |digits|);
  }

  lemma {:induction false} SmallModulo(n: nat)
    requires n < WORD32
    ensures n % WORD32 == n
  {
  }

  lemma {:induction false} WholeIsExact(whole: nat, room: nat)
    requires whole <= 1000000001 && room >= 10
    ensures var digits := LastFirst(whole, 10, false, room);
            && 0 < |digits| <= 10 && AllDigits(digits) && ValueOf(digits, 10) == whole
  {
    assert Pow(10, 3) == 1000 && Pow(10, 10) == 10000000000;
    FewDigits(whole, false, room, 10);
    DecimalDigits(whole, room);
    PowGrows(10, 10, room);
    DigitsReadBack(whole, 10, false, room);
    QuotientIs(whole, Pow(10, room), 0, whole);
  }

  /** What is printed for a non-negative number, without sign and padding. */
  function Printed(a: real, p: nat): string
    requires a >= 0.0
  {
    Reversed(MagnitudeBuilt(a, p))
  }

  /** The printed number is a fixed-point number of `p` decimals within half a unit of the last one. */
  predicate IsNear(t: string, a: real, p: nat) {
    IsFixedPoint(t, p) && Apart(Reading(t, p) as real, a * Scale(p)) <= 0.5
  }

  lemma {:induction false} AllDigitsReversed(s: string)
    requires AllDigits(s)
    ensures AllDigits(Reversed(s))
  {
  }

  lemma {:induction false} WholeReads(whole: nat, room: nat)
    requires whole <= 1000000001 && room >= 10
    ensures var t := Reversed(LastFirst(whole, 10, false, room));
            0 < |t| <= 10 && AllDigits(t) && Number(t) == whole
  {
    WholeIsExact(whole, room);
    AllDigitsReversed(LastFirst(whole, 10, false, room));
    NumberReversed(LastFirst(whole, 10, false, room));
  }

  /** The fraction's digits forwards, with `extra` zeros behind. */
  lemma {:induction false} FractionReads(frac: nat, p: nat, extra: nat, room: nat)
    requires 0 < p <= MAX_DECIMALS && frac < Pow(10, p) && p <= room
    ensures var t := Reversed(Zeros(extra) + FractionDigits(frac, p, room));
            |t| == p + extra && AllDigits(t) && Number(t) == frac * Pow(10, extra)
  {
    var digits := FractionDigits(frac, p, room);
    FractionIsExact(frac, p, room);
    ZerosInFront(digits, extra);
    AllDigitsReversed(Zeros(extra) + digits);
    NumberReversed(Zeros(extra) + digits);
  }

  lemma {:induction false} ZerosInFront(digits: string, extra: nat)
    requires AllDigits(digits)
    ensures AllDigits(Zeros(extra) + digits)
    ensures ValueOf(Zeros(extra) + digits, 10) == ValueOf(digits, 10) * Pow(10, extra)
  {
    if extra == 0 {
      assert Zeros(0) + digits == digits;
    } else {
      ZerosInFront(digits, extra - 1);
      OneZeroMore(digits, extra);
      ZeroInFront(Zeros(extra - 1) + digits, ValueOf(digits, 10), Pow(10, extra - 1));
    }
  }

  lemma {:induction false} OneZeroMore(digits: string, extra: nat)
    requires extra > 0
    ensures Zeros(extra) + digits == ['0'] + (Zeros(extra - 1) + digits)
    ensures Pow(10, extra) == 10 * Pow(10, extra - 1)
  {
  }

  lemma {:induction false} ZeroInFront(rest: string, v: int, m: int)
    requires AllDigits(rest) && ValueOf(rest, 10) == v * m
    ensures AllDigits(['0'] + rest) && ValueOf(['0'] + rest, 10) == v * (10 * m)
  {
    ReadOneMore('0', rest, 10);
    assert 10 * (v * m) == v * (10 * m);
  }

  lemma {:induction false} PrintedWhole(parts: Decimal)
    requires 0 <= parts.whole <= 1000000001 && parts.frac >= 0
    ensures var t := Reversed(DecimalBuilt(parts, 0, 0));
            0 < |t| <= 10 && Reads(t, 0, parts.whole)
  {
    var room := BUFFER_SIZE;
    WholeReads(parts.whole, room);
    assert DecimalBuilt(parts, 0, 0) == LastFirst(parts.whole, 10, false, room);
  }

  /** The buffer when everything fits: zeros past the ninth decimal, fraction, point and whole part. */
  function FullBuffer(parts: Decimal, p: nat, extra: nat, room: nat, left: nat): string
    requires parts.whole >= 0 && parts.frac >= 0
  {
    Zeros(extra) + FractionDigits(parts.frac, p, room) + "." + LastFirst(parts.whole, 10, false, left)
  }

  lemma {:induction false} PartsBuilt(parts: Decimal, p: nat, extra: nat, room: nat, left: nat)
    requires 0 < p <= MAX_DECIMALS && extra + p < BUFFER_SIZE && parts.whole >= 0 && parts.frac >= 0
    requires room == BUFFER_SIZE - extra && left == room - p - 1
    requires |FractionDigits(parts.frac, p, room)| == p
    ensures DecimalBuilt(parts, p, extra) == FullBuffer(parts, p, extra, room, left)
  {
    assert FractionPart(parts.frac, p, extra) == Zeros(extra) + FractionDigits(parts.frac, p, room) + ".";
  }

  lemma {:induction false} TurnedRound(fraction: string, whole: string)
    ensures var t := Reversed(fraction + "." + whole);
            && |t| == |fraction| + 1 + |whole| && t[|whole|] == '.'
            && t[..|whole|] == Reversed(whole) && t[|whole| + 1..] == Reversed(fraction)
  {
  }

  lemma {:induction false} FixedPointReads(fraction: string, whole: string, p: nat, w: int, f: int)
    requires p > 0 && |fraction| == p && whole != "" && AllDigits(Reversed(whole)) && AllDigits(Reversed(fraction))
    requires Number(Reversed(whole)) == w && Number(Reversed(fraction)) == f
    ensures var t := Reversed(fraction + "." + whole);
            |t| == p + 1 + |whole| && Reads(t, p, w * Pow(10, p) + f)
  {
    TurnedRound(fraction, whole);
  }

  lemma {:induction false} FullBufferReads(parts: Decimal, p: nat, extra: nat, room: nat, left: nat)
    requires 0 < p <= MAX_DECIMALS && 0 <= parts.whole <= 1000000001 && 0 <= parts.frac < Pow(10, p)
    requires p <= room && left >= 10
    ensures var t := Reversed(FullBuffer(parts, p, extra, room, left));
            |t| <= p + extra + 11 && Reads(t, p + extra, parts.whole * Pow(10, p + extra) + parts.frac * Pow(10, extra))
  {
    FractionReads(parts.frac, p, extra, room);
    WholeReads(parts.whole, left);
    FixedPointReads(Zeros(extra) + FractionDigits(parts.frac, p, room), LastFirst(parts.whole, 10, false, left), p + extra,
                    parts.whole, parts.frac * Pow(10, extra));
  }

  /** Whole part, point and fraction with `extra` zeros, printed and read again. */
  lemma {:induction false} PrintedParts(parts: Decimal, p: nat, extra: nat)
    requires 0 < p <= MAX_DECIMALS && extra <= 12 && 0 <= parts.whole <= 1000000001 && 0 <= parts.frac < Pow(10, p)
    ensures var t := Reversed(DecimalBuilt(parts, p, extra));
            |t| <= p + extra + 11 && Reads(t, p + extra, Units(parts, p) * Pow(10, extra))
  {
    var room, left := BUFFER_SIZE - extra, BUFFER_SIZE - extra - p - 1;
    FractionIsExact(parts.frac, p, room);
    PartsBuilt(parts, p, extra, room, left);
    FullBufferReads(parts, p, extra, room, left);
    UnitsShifted(parts, p, extra);
  }

  lemma {:induction false} UnitsShifted(parts: Decimal, p: nat, extra: nat)
    requires p > 0 && parts.whole >= 0 && parts.frac >= 0
    ensures parts.whole * Pow(10, p + extra) + parts.frac * Pow(10, extra) == Units(parts, p) * Pow(10, extra)
  {
    PowAdd(p, extra);
    ShiftedUnits(parts.whole, parts.frac, Pow(10, p), Pow(10, extra));
  }

  lemma {:induction false} ValueBelow(digits: string)
    requires AllDigits(digits)
    ensures 0 <= ValueOf(digits, 10) < Pow(10, |digits|)
  {
    if digits != "" {
      assert AllDigits(digits[1..]);
      ValueBelow(digits[1..]);
    }
  }

  /** A one followed by zeros. */
  lemma {:induction false} PowerDigits(p: nat, room: nat)
    requires p < room
    ensures LastFirst(Pow(10, p), 10, false, room) == Zeros(p) + "1"
    decreases p
  {
    PowPositive(10, p);
    if p == 0 {
      OneDigit(1, 10, false, room);
      assert Zeros(0) + "1" == "1";
    } else {
      PowPositive(10, p - 1);
      QuotientIs(Pow(10, p), 10, Pow(10, p - 1), 0);
      PowerDigits(p - 1, room - 1);
      assert Zeros(p) + "1" == ['0'] + (Zeros(p - 1) + "1");
    }
  }

  lemma {:induction false} WrappedCounter(p: nat, n: nat)
    requires p < n <= BUFFER_SIZE
    ensures (p - n) % WORD32 >= BUFFER_SIZE
  {
    assert (p - n) % WORD32 == WORD32 + p - n;
  }

  /** The forgotten carry: the fraction has a digit too many, and its zero counter wraps and fills the buffer. */
  lemma {:induction false} OverflowFills(p: nat, room: nat)
    requires 0 < p < room <= BUFFER_SIZE
    ensures FractionDigits(Pow(10, p), p, room) == Zeros(p) + "1" + Zeros(room - p - 1)
  {
    PowerDigits(p, room);
    WrappedCounter(p, p + 1);
  }

  lemma {:induction false} OverflowPrints(parts: Decimal, p: nat, extra: nat)
    requires 0 < p <= MAX_DECIMALS && extra + p < BUFFER_SIZE && 0 <= parts.whole && parts.frac == Pow(10, p)
    ensures Reversed(DecimalBuilt(parts, p, extra)) == Zeros(BUFFER_SIZE - 1 - p - extra) + "1" + Zeros(p + extra)
  {
    var room := BUFFER_SIZE - extra;
    OverflowFills(p, room);
    var b := Zeros(extra) + FractionDigits(parts.frac, p, room);
    assert b == Zeros(p + extra) + "1" + Zeros(BUFFER_SIZE - 1 - p - extra);
    assert FractionPart(parts.frac, p, extra) == b;
    assert DecimalBuilt(parts, p, extra) == b + "" == b;
  }

  lemma {:induction false} OnlyDigitsIsNoFixedPoint(t: string, p: nat)
    requires p > 0 && AllDigits(t)
    ensures !IsFixedPoint(t, p)
  {
  }

  lemma {:induction false} OverflowIsNotFixedPoint(parts: Decimal, p: nat, extra: nat)
    requires 0 < p <= MAX_DECIMALS && extra + p < BUFFER_SIZE && 0 <= parts.whole && parts.frac == Pow(10, p)
    ensures !IsFixedPoint(Reversed(DecimalBuilt(parts, p, extra)), p + extra)
  {
    OverflowPrints(parts, p, extra);
    OnlyDigitsIsNoFixedPoint(Reversed(DecimalBuilt(parts, p, extra)), p + extra);
  }

  /** The number is shown, with zeros from the tenth decimal on, unless the fraction overflows. */
  lemma {:induction false} NearUnlessOverflow(parts: Decimal, p: nat, extra: nat)
    requires 0 < p <= MAX_DECIMALS && extra <= 12 && 0 <= parts.whole <= 1000000001 && 0 <= parts.frac <= Pow(10, p)
    ensures var t := Reversed(DecimalBuilt(parts, p, extra));
            && (IsFixedPoint(t, p + extra) <==> parts.frac < Pow(10, p))
            && (parts.frac < Pow(10, p) ==> Reads(t, p + extra, Units(parts, p) * Pow(10, extra)))
  {
    if parts.frac < Pow(10, p) {
      PrintedParts(parts, p, extra);
    } else {
      OverflowIsNotFixedPoint(parts, p, extra);
    }
  }

  lemma {:induction false} ShiftedUnits(whole: nat, frac: nat, m: nat, n: nat)
    ensures whole * (m * n) + frac * n == (whole * m + frac) * n
  {
    assert whole * (m * n) == (whole * m) * n;
  }

  lemma {:induction false} PowAdd(m: nat, n: nat)
    ensures Pow(10, m + n) == Pow(10, m) * Pow(10, n)
  {
    if m > 0 {
      PowAdd(m - 1, n);
      assert 10 * (Pow(10, m - 1) * Pow(10, n)) == (10 * Pow(10, m - 1)) * Pow(10, n);
    }
  }

  lemma {:induction false} PrintedIs(a: real, p: nat)
    requires a >= 0.0 && p <= MAX_PRECISION
    ensures var p9 := Min(p, MAX_DECIMALS);
            RoundedParts(a, p9) && Printed(a, p) == Reversed(DecimalBuilt(Rounded(a, p9), p9, p - p9))
  {
    TableIsInBoundsIff(p);
    RoundedIsNear(a, Min(p, MAX_DECIMALS));
  }

  predicate RoundedParts(a: real, p: nat)
    requires a >= 0.0
  {
    Rounded(a, p).whole >= 0 && Rounded(a, p).frac >= 0
  }

  /** The number read is the rounded one, and that is near. */
  lemma {:induction false} NearIff(t: string, units: int, a: real, p: nat, fixed: bool)
    requires IsFixedPoint(t, p) <==> fixed
    requires fixed ==> Reads(t, p, units)
    ensures IsNear(t, a, p) <==> fixed && Close(units, a, Scale(p))
  {
  }

  /** The printed number is right to half a unit of its last decimal if and only if it is no all-nines tie. */
  lemma {:induction false} PrintedIsNearIff(a: real, p: nat)
    requires 0.0 <= a <= MAX_FLOAT && p <= MAX_DECIMALS
    ensures IsNear(Printed(a, p), a, p) <==> !NinesTie(a, p)
  {
    RoundedIsNear(a, p);
    PrintedIs(a, p);
    NearFromParts(Rounded(a, p), a, p);
  }

  lemma {:induction false} NearFromParts(parts: Decimal, a: real, p: nat)
    requires p <= MAX_DECIMALS && 0 <= parts.whole <= 1000000001 && 0 <= parts.frac
    requires Close(Units(parts, p), a, Scale(p))
    requires p > 0 ==> parts.frac <= Pow(10, p)
    ensures IsNear(Reversed(DecimalBuilt(parts, p, 0)), a, p) <==> p == 0 || parts.frac < Pow(10, p)
  {
    if p == 0 {
      PrintedWhole(parts);
    } else {
      NearUnlessOverflow(parts, p, 0);
      assert Pow(10, 0) == 1;
    }
    NearIff(Reversed(DecimalBuilt(parts, p, 0)), Units(parts, p), a, p, p == 0 || parts.frac < Pow(10, p));
  }

  /** What is printed in such a tie: a one among zeros, without a point. */
  lemma {:induction false} TiePrints(a: real, p: nat)
    requires a >= 0.0 && 0 < p <= MAX_DECIMALS && NinesTie(a, p)
    ensures Printed(a, p) == Zeros(BUFFER_SIZE - 1 - p) + "1" + Zeros(p)
  {
    RoundedIsNear(a, p);
    PrintedIs(a, p);
    OverflowPrints(Rounded(a, p), p, 0);
  }

  /** With one decimal, 0.95. */
  lemma {:induction false} NinesTieExample()
    ensures NinesTie(0.95, 1) && Printed(0.95, 1) == Zeros(30) + "10"
  {
    var a, p := 0.95, 1;
    assert Pow(10, 1) == 10;
    assert (0.95).Floor == 0;
    TiePrints(a, p);
    assert Zeros(1) == "0";
  }

  // ---------------------------------------------------------------- more than nine decimals

  /** How far a number is from the nearest whole one. */
  function Gap(x: real): real {
    if x - x.Floor as real <= 0.5 then x - x.Floor as real else x.Floor as real + 1.0 - x
  }

  /** `a` is within half of the finer unit, `n` of which make one of the coarser, of a number of coarser units. */
  predicate OnGrid(a: real, s: real, n: real) {
    Gap(a * s) * n <= 0.5
  }

  lemma {:induction false} NearestIsGap(u: int, x: real)
    requires Apart(u as real, x) <= 0.5
    ensures Apart(u as real, x) == Gap(x)
  {
    FromBelow(u, x.Floor, x);
  }

  lemma {:induction false} FromBelow(u: int, below: int, x: real)
    requires below as real <= x < below as real + 1.0 && Apart(u as real, x) <= 0.5
    ensures Apart(u as real, x)
            == if x - below as real <= 0.5 then x - below as real else below as real + 1.0 - x
  {
    assert below - 1 < u < below + 2;
  }

  lemma {:induction false} ScaledApart(u: int, x: real, n: int)
    requires n > 0
    ensures (u * n) as real == u as real * n as real
    ensures Apart((u * n) as real, x * n as real) == Apart(u as real, x) * n as real
  {
    var s := n as real;
    assert (u as real - x) * s == u as real * s - x * s;
    assert (x - u as real) * s == x * s - u as real * s;
  }

  /** The whole part fits beside `p` decimals and the point. */
  predicate WholeFits(a: real, p: nat) {
    p + 2 <= BUFFER_SIZE && Rounded(a, MAX_DECIMALS).whole < Pow(10, BUFFER_SIZE - 1 - p)
  }

  /**
   * Only nine decimals are computed, the rest are zeros: the number shown is right to half a unit of its last
   * decimal if and only if it lies that close to a number of nine decimals, its whole part fits, and it is no
   * all-nines tie.
   */
  lemma {:induction false} WideIsNearIff(a: real, p: nat)
    requires 0.0 <= a <= MAX_FLOAT && MAX_DECIMALS < p <= MAX_PRECISION
    ensures IsNear(Printed(a, p), a, p)
            <==> !NinesTie(a, MAX_DECIMALS) && WholeFits(a, p) && OnGrid(a, Scale(MAX_DECIMALS), Scale(p - MAX_DECIMALS))
  {
    if p + 2 <= BUFFER_SIZE {
      WideIsNearFor(a, MAX_DECIMALS, p - MAX_DECIMALS);
    } else {
      PrintedIs(a, p);
      BuiltIsBounded(Rounded(a, MAX_DECIMALS), MAX_DECIMALS, p - MAX_DECIMALS);
      TooShortForFixedPoint(Printed(a, p), p);
    }
  }

  lemma {:induction false} BuiltIsBounded(parts: Decimal, p: nat, extra: nat)
    requires parts.whole >= 0 && parts.frac >= 0
    ensures |DecimalBuilt(parts, p, extra)| <= BUFFER_SIZE
  {
  }

  lemma {:induction false} TooShortForFixedPoint(t: string, p: nat)
    requires 0 < p && |t| <= p + 1
    ensures !IsFixedPoint(t, p)
  {
  }

  lemma {:induction false} WideIsNearFor(a: real, q: nat, extra: nat)
    requires 0.0 <= a <= MAX_FLOAT && q == MAX_DECIMALS && q + extra + 2 <= BUFFER_SIZE
    ensures IsNear(Printed(a, q + extra), a, q + extra)
            <==> !NinesTie(a, q) && WholeFits(a, q + extra) && OnGrid(a, Scale(q), Scale(extra))
  {
    RoundedIsNear(a, q);
    PrintedIs(a, q + extra);
    WideFromParts(Rounded(a, q), a, q, extra, BUFFER_SIZE - 1 - q - extra);
  }

  // What is printed of a whole part that does not fit.

  lemma {:induction false} WholeReadsCut(whole: nat, room: nat)
    requires room > 0
    ensures var t := Reversed(LastFirst(whole, 10, false, room));
            && t != "" && AllDigits(t) && Pow(10, room) > 0 && Number(t) == whole % Pow(10, room)
  {
    DigitsReadBack(whole, 10, false, room);
    DecimalDigits(whole, room);
    AllDigitsReversed(LastFirst(whole, 10, false, room));
    NumberReversed(LastFirst(whole, 10, false, room));
  }

  lemma {:induction false} CutBufferReads(parts: Decimal, p: nat, extra: nat, room: nat, left: nat)
    requires 0 < p <= MAX_DECIMALS && parts.whole >= 0 && 0 <= parts.frac < Pow(10, p) && p <= room && left > 0
    ensures Pow(10, left) > 0
    ensures Reads(Reversed(FullBuffer(parts, p, extra, room, left)), p + extra,
                  parts.whole % Pow(10, left) * Pow(10, p + extra) + parts.frac * Pow(10, extra))
  {
    FractionReads(parts.frac, p, extra, room);
    WholeReadsCut(parts.whole, left);
    FixedPointReads(Zeros(extra) + FractionDigits(parts.frac, p, room), LastFirst(parts.whole, 10, false, left), p + extra,
                    parts.whole % Pow(10, left), parts.frac * Pow(10, extra));
  }

  /** The number that is shown. */
  function CutParts(parts: Decimal, left: nat): Decimal {
    PowPositive(10, left);
    parts.(whole := parts.whole % Pow(10, left))
  }

  lemma {:induction false} CutPartsRead(parts: Decimal, p: nat, extra: nat, left: nat)
    requires 0 < p <= MAX_DECIMALS && p + extra + 1 + left == BUFFER_SIZE && left > 0
    requires parts.whole >= 0 && 0 <= parts.frac < Pow(10, p)
    ensures Reads(Reversed(DecimalBuilt(parts, p, extra)), p + extra, Units(CutParts(parts, left), p) * Pow(10, extra))
  {
    var room := BUFFER_SIZE - extra;
    FractionIsExact(parts.frac, p, room);
    PartsBuilt(parts, p, extra, room, left);
    CutBufferReads(parts, p, extra, room, left);
    UnitsShifted(CutParts(parts, left), p, extra);
  }

  lemma {:induction false} CutIsFarBelow(parts: Decimal, p: nat, left: nat)
    requires p > 0 && parts.frac >= 0
    ensures CutParts(parts, left).whole >= 0
    ensures 0 <= parts.whole < Pow(10, left) ==> CutParts(parts, left) == parts
    ensures parts.whole >= Pow(10, left) ==> Units(CutParts(parts, left), p) + 10 <= Units(parts, p)
  {
    var m := Pow(10, left);
    PowPositive(10, left);
    PowIsOddBelow(p);
    if 0 <= parts.whole < m {
      QuotientIs(parts.whole, m, 0, parts.whole);
    } else if parts.whole >= m {
      MulMonotone(Pow(10, p), parts.whole % m + 1, parts.whole);
      UnitsApart(parts.whole % m, parts.whole, Pow(10, p));
    }
  }

  lemma {:induction false} UnitsApart(a: nat, b: nat, m: nat)
    requires m * (a + 1) <= m * b && m >= 10
    ensures a * m + 10 <= b * m
  {
    assert m * (a + 1) == a * m + m && m * b == b * m;
  }

  lemma {:induction false} FarScaled(u: int, x: real, y: real, n: int, product: int)
    requires n > 0 && u as real + 0.5 < x && y == x * n as real && product == u * n
    ensures Apart(product as real, y) > 0.5
  {
    ScaledApart(u, x, n);
    AtLeastOnce(Apart(u as real, x), n as real);
  }

  lemma {:induction false} AtLeastOnce(d: real, n: real)
    requires d > 0.5 && n >= 1.0
    ensures d * n > 0.5
  {
  }

  lemma {:induction false} ApartIsNotClose(u: int, a: real, s: real, y: real)
    requires y == a * s && Apart(u as real, y) > 0.5
    ensures !Close(u, a, s)
  {
  }

  lemma {:induction false} FarBelow(cut: int, u: int, a: real, s: real, x: real)
    requires Close(u, a, s) && cut + 10 <= u && x == a * s
    ensures cut as real + 0.5 < x
  {
    assert cut as real + 10.0 <= u as real;
  }

  lemma {:induction false} FarTimes(cut: int, u: int, a: real, s: real, n: int, sn: real, product: int)
    requires n > 0 && Close(u, a, s) && cut + 10 <= u && sn == s * n as real && product == cut * n
    ensures !Close(product, a, sn)
  {
    var x, y := a * s, a * sn;
    Associate(a, s, n as real);
    FarBelow(cut, u, a, s, x);
    FarScaled(cut, x, y, n, product);
    ApartIsNotClose(product, a, sn, y);
  }

  lemma {:induction false} FarIsNotClose(cut: int, u: int, a: real, q: nat, extra: nat)
    requires Close(u, a, Scale(q)) && cut + 10 <= u
    ensures !Close(cut * Pow(10, extra), a, Scale(q + extra))
  {
    PowPositive(10, extra);
    ScaleAdd(q, extra);
    FarTimes(cut, u, a, Scale(q), Pow(10, extra), Scale(q + extra), cut * Pow(10, extra));
  }

  lemma {:induction false} WideFromParts(parts: Decimal, a: real, q: nat, extra: nat, left: nat)
    requires 0 < q <= MAX_DECIMALS && q + extra + 1 + left == BUFFER_SIZE && left > 0
    requires 0 <= parts.whole && 0 <= parts.frac <= Pow(10, q) && Close(Units(parts, q), a, Scale(q))
    ensures IsNear(Reversed(DecimalBuilt(parts, q, extra)), a, q + extra)
            <==> parts.frac < Pow(10, q) && parts.whole < Pow(10, left) && OnGrid(a, Scale(q), Scale(extra))
  {
    var t := Reversed(DecimalBuilt(parts, q, extra));
    if parts.frac == Pow(10, q) {
      OverflowIsNotFixedPoint(parts, q, extra);
    } else {
      CutPartsRead(parts, q, extra, left);
      CutIsFarBelow(parts, q, left);
      CutIff(t, Units(CutParts(parts, left), q), Units(parts, q), a, q, extra, parts.whole < Pow(10, left));
    }
  }

  lemma {:induction false} CutIff(t: string, cut: int, units: int, a: real, q: nat, extra: nat, fits: bool)
    requires Reads(t, q + extra, cut * Pow(10, extra)) && Close(units, a, Scale(q))
    requires if fits then cut == units else cut + 10 <= units
    ensures IsNear(t, a, q + extra) <==> fits && OnGrid(a, Scale(q), Scale(extra))
  {
    NearIff(t, cut * Pow(10, extra), a, q + extra, true);
    if fits {
      CloseScaled(units, a, q, extra);
    } else {
      FarIsNotClose(cut, units, a, q, extra);
    }
  }

  lemma {:induction false} ScaleAdd(q: nat, extra: nat)
    ensures Scale(q + extra) == Scale(q) * Scale(extra)
  {
    PowAdd(q, extra);
    assert (Pow(10, q) * Pow(10, extra)) as real == Scale(q) * Scale(extra);
  }

  lemma {:induction false} Associate(a: real, s: real, n: real)
    ensures a * (s * n) == (a * s) * n
  {
  }

  /** `x` and `y` are the number in units of the two decimals. */
  lemma {:induction false} ApartTimes(u: int, x: real, y: real, n: int)
    requires n > 0 && Apart(u as real, x) <= 0.5 && y == x * n as real
    ensures Apart((u * n) as real, y) == Gap(x) * n as real
  {
    NearestIsGap(u, x);
    ScaledApart(u, x, n);
  }

  lemma {:induction false} CloseTimes(u: int, a: real, s: real, n: int, sn: real)
    requires n > 0 && Close(u, a, s) && sn == s * n as real
    ensures Close(u * n, a, sn) <==> OnGrid(a, s, n as real)
  {
    Associate(a, s, n as real);
    ApartTimes(u, a * s, a * sn, n);
  }

  lemma {:induction false} CloseScaled(u: int, a: real, q: nat, extra: nat)
    requires Close(u, a, Scale(q))
    ensures Close(u * Pow(10, extra), a, Scale(q + extra)) <==> OnGrid(a, Scale(q), Scale(extra))
  {
    PowPositive(10, extra);
    ScaleAdd(q, extra);
    CloseTimes(u, a, Scale(q), Pow(10, extra), Scale(q + extra));
  }

  /** From ten decimals on the bound fails, for example for four tenths of a billionth. */
  lemma {:induction false} TenDecimalsMiss(p: nat)
    requires MAX_DECIMALS < p <= MAX_PRECISION
    ensures !IsNear(Printed(0.0000000004, p), 0.0000000004, p)
  {
    WideIsNearIff(0.0000000004, p);
    MissesGrid(0.0000000004, MAX_DECIMALS, p - MAX_DECIMALS);
  }

  lemma {:induction false} MissesGrid(a: real, q: nat, extra: nat)
    requires a == 0.0000000004 && q == MAX_DECIMALS && extra > 0
    ensures !OnGrid(a, Scale(q), Scale(extra))
  {
    PowGrows(10, 1, extra);
    assert Pow(10, 1) == 10;
    OffGrid(a, q, Scale(extra));
  }

  lemma {:induction false} OffGrid(a: real, q: nat, n: real)
    requires a == 0.0000000004 && q == 9 && n >= 10.0
    ensures !OnGrid(a, Scale(q), n)
  {
    assert Pow(10, 3) == 1000 && Pow(10, 9) == 1000000000;
    assert a * 1000000000.0 == 0.4;
    assert (0.4).Floor == 0;
    AtLeastFour(n);
  }

  lemma {:induction false} AtLeastFour(s: real)
    requires s >= 10.0
    ensures 0.4 * s >= 4.0
  {
  }

  // ---------------------------------------------------------------- sign, width and padding

  lemma {:induction false} PrintedIsShort(a: real, p: nat)
    requires 0.0 <= a <= MAX_FLOAT && p <= MAX_DECIMALS && !NinesTie(a, p)
    ensures |Printed(a, p)| <= 20
  {
    RoundedIsNear(a, p);
    if p == 0 {
      PrintedWhole(Rounded(a, 0));
    } else {
      PrintedParts(Rounded(a, p), p, 0);
    }
  }

  lemma {:induction false} BuiltIsPrinted(v: real, prec: nat, f: Flags)
    ensures RealBuilt(v, prec, f) == Reversed(Printed(Magnitude(v), Decimals(prec, f)))
  {
    ReversedTwice(RealBuilt(v, prec, f));
  }

  lemma {:induction false} ShortNumberIsStandardIff(lastFirst: string, digits: string, negative: bool, width: nat, f: Flags)
    requires lastFirst == Reversed(digits) && |digits| <= 20
    ensures NumberText(lastFirst, negative, 10, 0, width, f.(hash := false)) == StandardLayout(digits, negative, 0, width, f)
            <==> f.left || !f.zeroPad || width <= BUFFER_SIZE
  {
    LayoutIsStandardIff(digits, negative, 10, 0, width, f.(hash := false));
    HashIsNoLayout(digits, negative, width, f);
  }

  lemma {:induction false} HashIsNoLayout(digits: string, negative: bool, width: nat, f: Flags)
    ensures StandardLayout(digits, negative, 0, width, f.(hash := false)) == StandardLayout(digits, negative, 0, width, f)
  {
  }

  /**
   * Sign, width and padding around the printed number are the standard's exactly when zeros do not have to fill
   * a width beyond the buffer.
   */
  lemma {:induction false} FixedTextIsStandardIff(v: real, prec: nat, width: nat, f: Flags)
    requires -MAX_FLOAT <= v <= MAX_FLOAT && Decimals(prec, f) <= MAX_DECIMALS
    requires !NinesTie(Magnitude(v), Decimals(prec, f))
    ensures var digits := Printed(Magnitude(v), Decimals(prec, f));
            FixedText(v, prec, width, f) == StandardLayout(digits, v < 0.0, 0, width, f)
            <==> f.left || !f.zeroPad || width <= BUFFER_SIZE
  {
    PrintedIsShort(Magnitude(v), Decimals(prec, f));
    BuiltIsPrinted(v, prec, f);
    ShortNumberIsStandardIff(RealBuilt(v, prec, f), Printed(Magnitude(v), Decimals(prec, f)), v < 0.0, width, f);
  }

  // ---------------------------------------------------------------- the code

  /** A finite number of a size the code prints in full. */
  method FixedToText(sink: Sink, idx: nat, v: real, prec: nat, width: nat, f: Flags) returns (end: nat)
    requires sink.Valid() && -MAX_FLOAT <= v <= MAX_FLOAT && Decimals(prec, f) <= MAX_PRECISION
    modifies sink, sink.buffer
    ensures end == idx + |FixedText(v, prec, width, f)|
    ensures sink.State() == PutAll(old(sink.State()), idx, FixedText(v, prec, width, f))
  {
    var buf := new char[BUFFER_SIZE](_ => '\0');
    var len := BuildReal(buf, v, prec, f);
    end := NtoaFormat(sink, idx, buf, len, v < 0.0, 10, 0, width, f.(hash := false));
  }

  method BuildReal(buf: array<char>, v: real, prec: nat, f: Flags) returns (len: nat)
    requires buf.Length == BUFFER_SIZE && Decimals(prec, f) <= MAX_PRECISION
    modifies buf
    ensures len <= BUFFER_SIZE && buf[..len] == RealBuilt(v, prec, f)
  {
    var value, p := Magnitude(v), Decimals(prec, f);
    var p9;
    len, p9 := LimitPrecision(buf, p);
    TableIsInBoundsIff(p);
    var parts := Round(value, p9);
    RoundedIsNear(value, p9);
    len := BuildParts(buf, len, parts, p9);
  }

  /** Zeros for the decimals past the ninth, which come first in the buffer. */
  method LimitPrecision(buf: array<char>, prec: nat) returns (len: nat, p: nat)
    requires buf.Length == BUFFER_SIZE
    modifies buf
    ensures p == Limited(prec) && len == prec - p <= BUFFER_SIZE && buf[..len] == Zeros(len)
  {
    len, p := 0, prec;
    while len < BUFFER_SIZE && p > MAX_DECIMALS
      invariant len <= BUFFER_SIZE && p + len == prec && (len > 0 ==> p >= MAX_DECIMALS)
      invariant buf[..len] == Zeros(len)
    {
      buf[len] := '0';
      len := len + 1;
      p := p - 1;
      assert buf[..len] == Zeros(len - 1) + ['0'] == Zeros(len);
    }
  }

  method BuildParts(buf: array<char>, from: nat, parts: Decimal, p: nat) returns (len: nat)
    requires buf.Length == BUFFER_SIZE && parts.whole >= 0 && parts.frac >= 0
    requires from <= BUFFER_SIZE && buf[..from] == Zeros(from)
    modifies buf
    ensures len <= BUFFER_SIZE && buf[..len] == DecimalBuilt(parts, p, from)
  {
    len := from;
    if p != 0 {
      len := WriteFraction(buf, len, parts.frac, p);
    }
    assert buf[..len] == FractionPart(parts.frac, p, from);
    len := WriteDigits(buf, len, parts.whole, 10, false);
  }

  /** The fraction's digits, zeros up to `p` of them, and the point. */
  method WriteFraction(buf: array<char>, from: nat, frac: nat, p: nat) returns (len: nat)
    requires buf.Length == BUFFER_SIZE && from <= BUFFER_SIZE
    modifies buf
    ensures len <= BUFFER_SIZE
    ensures buf[..len] == Push(old(buf[..from]) + FractionDigits(frac, p, BUFFER_SIZE - from), '.')
  {
    ghost var kept := buf[..from];
    len := WriteDigits(buf, from, frac, 10, false);
    var count := (p - (len - from)) % WORD32;
    ghost var digits := LastFirst(frac, 10, false, BUFFER_SIZE - from);
    len := FillZeros(buf, len, len + count);
    assert buf[..len] == kept + FractionDigits(frac, p, BUFFER_SIZE - from);
    len := PushChar(buf, len, '.');
  }

  /** Splits and rounds; a fraction rounded up to a whole carries, an exact tie does not. */
  method Round(value: real, p: nat) returns (parts: Decimal)
    requires value >= 0.0
    ensures parts == Rounded(value, p)
  {
    var whole := value.Floor;
    var tmp := (value - whole as real) * Pow(10, p) as real;
    var frac := tmp.Floor;
    var diff := tmp - frac as real;
    if diff > 0.5 {
      frac := frac + 1;
      if frac >= Pow(10, p) {
        frac := 0;
        whole := whole + 1;
      }
    } else if diff < 0.5 {
    } else if frac == 0 || frac % 2 == 1 {
      frac := frac + 1;
    }
    assert tmp == Fraction(value, p);
    assert Decimal(whole, frac) == RoundParts(value.Floor, tmp, Pow(10, p));
    if p == 0 {
      diff := value - whole as real;
      if (!(diff < 0.5) || diff > 0.5) && whole % 2 == 1 {
        whole := whole + 1;
      }
    }
    parts := Decimal(whole, frac);
  }
}
