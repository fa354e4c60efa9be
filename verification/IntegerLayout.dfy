/** Integer conversions against the layout of ISO/IEC 9899:2011 section 7.21.6.1. */
module IntegerLayout {
  import opened Text
  import opened Digits
  import opened Output
  import opened IntegerText

  /** Sign, precision zeros, digits; then padded to the width on the side and with the character the flags ask for. */
  function StandardLayout(digits: string, negative: bool, prec: nat, width: nat, f: Flags): string {
    var sign, number := SignText(negative, f), Zeros(prec - |digits|) + digits;
    var gap := width - |sign| - |number|;
    if f.left then sign + number + SpaceText(gap)
    else if f.zeroPad then sign + Zeros(gap) + number
    else SpaceText(gap) + sign + number
  }

  lemma {:induction false} LayoutLength(digits: string, negative: bool, prec: nat, width: nat, f: Flags)
    ensures |StandardLayout(digits, negative, prec, width, f)|
            == Max(width, |SignText(negative, f)| + Max(prec, |digits|))
  {
  }

  /** What a conversion gets: no '#', '0' not together with a precision, room for the sign, no redundant zero. */
  predicate Plain(digits: string, negative: bool, prec: nat, f: Flags) {
    && !f.hash
    && (f.zeroPad ==> prec == 0)
    && |SignText(negative, f)| + |digits| <= BUFFER_SIZE
    && (prec > 0 && digits != "" ==> digits[0] != '0')
  }

  /** The result fits the buffer, and '-' leaves no zeros to add. */
  predicate Fits(digits: string, negative: bool, prec: nat, width: nat, f: Flags) {
    && |SignText(negative, f)| + Max(prec, |digits|) <= BUFFER_SIZE
    && (f.left ==> prec <= |digits|)
    && (!f.left && f.zeroPad ==> width <= BUFFER_SIZE)
  }

  /** A blank sign that the full buffer drops is made up for by a padding space. */
  predicate BlankMadeUp(negative: bool, prec: nat, width: nat, f: Flags) {
    SignText(negative, f) == " " && prec == BUFFER_SIZE && width > BUFFER_SIZE && !f.left
  }

  // ---------------------------------------------------------------- the buffer read forwards

  lemma {:induction false} ReversedConcat(a: string, b: string)
    ensures Reversed(a + b) == Reversed(b) + Reversed(a)
  {
  }

  lemma {:induction false} ReversedZeros(n: int)
    ensures Reversed(Zeros(n)) == Zeros(n)
  {
  }

  lemma {:induction false} ReversedTwice(s: string)
    ensures Reversed(Reversed(s)) == s
  {
  }

  /** The sign the buffer had room for. */
  function SignKept(negative: bool, f: Flags, len: nat): string {
    if len < BUFFER_SIZE then SignText(negative, f) else ""
  }

  lemma {:induction false} SignedIs(b: string, negative: bool, f: Flags)
    ensures Signed(b, negative, f) == b + SignKept(negative, f, |b|)
    ensures Reversed(SignKept(negative, f, |b|)) == SignKept(negative, f, |b|)
  {
  }

  lemma {:induction false} BuiltForwards(digits: string, negative: bool, base: nat, prec: nat, width: nat, f: Flags)
    requires !f.hash
    ensures var padded := PadZeros(Reversed(digits), negative, prec, width, f);
            && |padded| >= |digits|
            && Reversed(Built(Reversed(digits), negative, base, prec, width, f))
               == SignKept(negative, f, |padded|) + Zeros(|padded| - |digits|) + digits
  {
    var padded := PadZeros(Reversed(digits), negative, prec, width, f);
    var sign := SignKept(negative, f, |padded|);
    var zeros := Zeros(|padded| - |digits|);
    assert padded == Reversed(digits) + zeros;
    SignedIs(padded, negative, f);
    ReversedConcat(padded, sign);
    ReversedConcat(Reversed(digits), zeros);
    ReversedZeros(|padded| - |digits|);
    ReversedTwice(digits);
  }

  /** How far zeros fill the buffer. */
  lemma {:induction false} PaddedLength(digits: string, negative: bool, prec: nat, width: nat, f: Flags)
    requires Plain(digits, negative, prec, f)
    ensures |PadZeros(Reversed(digits), negative, prec, width, f)|
            == if f.left then |digits|
               else Max(|digits|, Min(if f.zeroPad then ZeroWidth(negative, width, f) else prec, BUFFER_SIZE))
  {
  }

  /** The text in closed form. */
  lemma {:induction false} TextForwards(digits: string, negative: bool, base: nat, prec: nat, width: nat, f: Flags)
    requires !f.hash
    ensures var len := |PadZeros(Reversed(digits), negative, prec, width, f)|;
            var sign := SignKept(negative, f, len);
            var gap := width - len - |sign|;
            && len >= |digits|
            && NumberText(Reversed(digits), negative, base, prec, width, f)
               == SpaceText(if !f.left && !f.zeroPad then gap else 0)
                  + (sign + Zeros(len - |digits|) + digits)
                  + SpaceText(if f.left then gap else 0)
  {
    BuiltForwards(digits, negative, base, prec, width, f);
  }

  // ---------------------------------------------------------------- when they agree

  /** The closed form for a sign that fits and a buffer filled up to `len` digits and zeros. */
  lemma {:induction false} ThreeShapes(digits: string, sign: string, len: nat, width: nat, f: Flags)
    requires len >= |digits|
    ensures var gap := width - len - |sign|;
            var text := SpaceText(if !f.left && !f.zeroPad then gap else 0)
                        + (sign + Zeros(len - |digits|) + digits)
                        + SpaceText(if f.left then gap else 0);
            && (f.left && len == |digits| ==> text == sign + (Zeros(0) + digits) + SpaceText(gap))
            && (!f.left && f.zeroPad ==> text == sign + Zeros(len - |digits|) + (Zeros(0) + digits))
            && (!f.left && !f.zeroPad ==> text == SpaceText(gap) + sign + (Zeros(len - |digits|) + digits))
  {
  }

  lemma {:induction false} NoZeros(n: int)
    ensures n <= 0 ==> Zeros(n) == Zeros(0) == ""
  {
  }

  lemma {:induction false} FittingTextIsStandard(digits: string, negative: bool, base: nat, prec: nat, width: nat, f: Flags)
    requires Plain(digits, negative, prec, f) && Fits(digits, negative, prec, width, f)
    ensures NumberText(Reversed(digits), negative, base, prec, width, f)
            == StandardLayout(digits, negative, prec, width, f)
  {
    TextForwards(digits, negative, base, prec, width, f);
    FillStopsAtSign(digits, negative, prec, width, f);
    ShapeIsStandard(digits, negative, |PadZeros(Reversed(digits), negative, prec, width, f)|, prec, width, f);
  }

  lemma {:induction false} ShapeIsStandard(digits: string, negative: bool, len: nat, prec: nat, width: nat, f: Flags)
    requires len >= |digits| && (f.zeroPad ==> prec == 0) && (f.left ==> prec <= |digits|)
    requires len == if f.left then |digits|
                    else if f.zeroPad then Max(|digits|, width - |SignText(negative, f)|)
                    else Max(|digits|, prec)
    ensures var sign := SignText(negative, f);
            var gap := width - len - |sign|;
            SpaceText(if !f.left && !f.zeroPad then gap else 0)
            + (sign + Zeros(len - |digits|) + digits)
            + SpaceText(if f.left then gap else 0)
            == StandardLayout(digits, negative, prec, width, f)
  {
    var sign := SignText(negative, f);
    ThreeShapes(digits, sign, len, width, f);
    NoZeros(prec - |digits|);
    NoZeros(len - |digits|);
    NoZeros(width - |sign| - |digits|);
  }

  /** A fitting result leaves room for the sign, and zeros fill exactly what sign and digits leave. */
  lemma {:induction false} FillStopsAtSign(digits: string, negative: bool, prec: nat, width: nat, f: Flags)
    requires Plain(digits, negative, prec, f) && Fits(digits, negative, prec, width, f)
    ensures var sign, len := SignText(negative, f), |PadZeros(Reversed(digits), negative, prec, width, f)|;
            && SignKept(negative, f, len) == sign
            && (f.left ==> len == |digits|)
            && (!f.left && f.zeroPad ==> len == Max(|digits|, width - |sign|))
            && (!f.left && !f.zeroPad ==> len == Max(|digits|, prec))
  {
    PaddedLength(digits, negative, prec, width, f);
  }

  lemma {:induction false} BlankText(digits: string, negative: bool, base: nat, prec: nat, width: nat, f: Flags)
    requires Plain(digits, negative, prec, f) && BlankMadeUp(negative, prec, width, f)
    ensures NumberText(Reversed(digits), negative, base, prec, width, f)
            == StandardLayout(digits, negative, prec, width, f)
  {
    TextForwards(digits, negative, base, prec, width, f);
    PaddedLength(digits, negative, prec, width, f);
    assert SpaceText(width - BUFFER_SIZE) == SpaceText(width - BUFFER_SIZE - 1) + " ";
  }

  // ---------------------------------------------------------------- when they differ

  /** '-' with a precision beyond the digits: the zeros are missing. */
  lemma {:induction false} LeftLosesZeros(digits: string, negative: bool, base: nat, prec: nat, width: nat, f: Flags)
    requires Plain(digits, negative, prec, f) && f.left && prec > |digits|
    ensures NumberText(Reversed(digits), negative, base, prec, width, f)
            != StandardLayout(digits, negative, prec, width, f)
  {
    TextForwards(digits, negative, base, prec, width, f);
    PaddedLength(digits, negative, prec, width, f);
    var text, i := NumberText(Reversed(digits), negative, base, prec, width, f), |SignText(negative, f)|;
    assert StandardLayout(digits, negative, prec, width, f)[i] == '0';
    if i < |text| {
      assert text[i] == if digits != "" then digits[0] else ' ';
    }
  }

  /** A precision past the buffer: characters are missing at the front. */
  lemma {:induction false} LongPrecisionIsCut(digits: string, negative: bool, base: nat, prec: nat, width: nat, f: Flags)
    requires Plain(digits, negative, prec, f) && !f.left && !BlankMadeUp(negative, prec, width, f)
    requires |SignText(negative, f)| + Max(prec, |digits|) > BUFFER_SIZE
    ensures NumberText(Reversed(digits), negative, base, prec, width, f)
            != StandardLayout(digits, negative, prec, width, f)
  {
    TextForwards(digits, negative, base, prec, width, f);
    PaddedLength(digits, negative, prec, width, f);
    LayoutLength(digits, negative, prec, width, f);
    var text, standard := NumberText(Reversed(digits), negative, base, prec, width, f),
                          StandardLayout(digits, negative, prec, width, f);
    var sign := SignText(negative, f);
    if width >= |sign| + prec {
      var i := width - prec - if sign == "-" || sign == "+" then 1 else 0;
      assert i < width - BUFFER_SIZE && text[i] == ' ';
      assert standard[i] != ' ';
    }
  }

  /** Zeros cannot fill a width past the buffer, and no spaces take their place. */
  lemma {:induction false} WideZerosAreCut(digits: string, negative: bool, base: nat, prec: nat, width: nat, f: Flags)
    requires Plain(digits, negative, prec, f) && !f.left && f.zeroPad && width > BUFFER_SIZE
    ensures NumberText(Reversed(digits), negative, base, prec, width, f)
            != StandardLayout(digits, negative, prec, width, f)
  {
    TextForwards(digits, negative, base, prec, width, f);
    PaddedLength(digits, negative, prec, width, f);
    LayoutLength(digits, negative, prec, width, f);
  }

  /** The layout is the standard's exactly when it fits the buffer and '-' comes without precision zeros. */
  lemma {:induction false} LayoutIsStandardIff(digits: string, negative: bool, base: nat, prec: nat, width: nat, f: Flags)
    requires Plain(digits, negative, prec, f)
    ensures NumberText(Reversed(digits), negative, base, prec, width, f)
            == StandardLayout(digits, negative, prec, width, f)
            <==> Fits(digits, negative, prec, width, f) || BlankMadeUp(negative, prec, width, f)
  {
    if Fits(digits, negative, prec, width, f) {
      FittingTextIsStandard(digits, negative, base, prec, width, f);
    } else if BlankMadeUp(negative, prec, width, f) {
      BlankText(digits, negative, base, prec, width, f);
    } else if f.left {
      LeftLosesZeros(digits, negative, base, prec, width, f);
    } else if f.zeroPad && width > BUFFER_SIZE {
      WideZerosAreCut(digits, negative, base, prec, width, f);
    } else {
      LongPrecisionIsCut(digits, negative, base, prec, width, f);
    }
  }

  /** The digits a value is shown by: none for zero with a precision. */
  function ShownDigits(value: nat, base: nat, f: Flags): string
    requires 2 <= base <= 16
  {
    if f.precision && value == 0 then "" else Numeral(value, base, f.upper)
  }

  /** What a conversion hands on: no '#', '0' not together with a precision, signs in base 10 only. */
  predicate Regular(value: nat, negative: bool, base: nat, prec: nat, f: Flags) {
    && value < WORD64 && (base == 2 || base == 8 || base == 10 || base == 16)
    && (f.zeroPad ==> !f.precision) && (prec > 0 ==> f.precision)
    && (SignText(negative, f) != "" ==> base == 10)
  }

  lemma {:induction false} BufferHoldsShown(value: nat, base: nat, f: Flags)
    requires 2 <= base <= 16 && |Numeral(value, base, f.upper)| <= BUFFER_SIZE
    ensures DigitsFor(value, base, f) == Reversed(ShownDigits(value, base, f))
  {
    var room := BUFFER_SIZE;
    NumeralLength(value, base, f.upper, room);
    NumeralIsLastFirst(value, base, f.upper, room);
    ReversedTwice(LastFirst(value, base, f.upper, room));
  }

  lemma {:induction false} ShownIsPlain(value: nat, negative: bool, base: nat, prec: nat, f: Flags)
    requires Regular(value, negative, base, prec, f) && !f.hash && |Numeral(value, base, f.upper)| <= BUFFER_SIZE
    ensures Plain(ShownDigits(value, base, f), negative, prec, f)
  {
    NumeralFits(value, base, f.upper);
    NumeralShows(value, base, f.upper);
  }

  /** Digits that were cut: whatever the padding, the front of the number is missing. */
  lemma {:induction false} CutIsNeverStandard(
      cut: string, full: string, base: nat, prec: nat, prec': nat, width: nat, f: Flags, g: Flags)
    requires |cut| == BUFFER_SIZE < |full| && DigitsOf(cut, base) && DigitsOf(full, base)
    requires !f.hash && SignText(false, f) == SignText(false, g) == "" && f.left == g.left
    ensures NumberText(cut, false, base, prec, width, f) != StandardLayout(full, false, prec', width, g)
  {
    var digits := Reversed(cut);
    ReversedTwice(cut);
    TextForwards(digits, false, base, prec, width, f);
    assert PadZeros(cut, false, prec, width, f) == cut;
    var gap := width - BUFFER_SIZE;
    var text := NumberText(cut, false, base, prec, width, f);
    assert text == SpaceText(if !f.left && !f.zeroPad then gap else 0) + digits + SpaceText(if f.left then gap else 0);
    var number, standard := Zeros(prec' - |full|) + full, StandardLayout(full, false, prec', width, g);
    assert forall i :: 0 <= i < |number| ==> number[i] != ' ';
    if f.left {
      assert standard[BUFFER_SIZE] == number[BUFFER_SIZE];
    } else {
      assert standard[|standard| - BUFFER_SIZE - 1] == number[|number| - BUFFER_SIZE - 1];
    }
  }

  /** The text a 64-bit value is converted to is the standard's exactly when its layout fits the buffer. */
  lemma {:induction false} ConversionIsStandardIff(value: nat, negative: bool, base: nat, prec: nat, width: nat, f: Flags)
    requires Regular(value, negative, base, prec, f) && !f.hash
    ensures var digits := ShownDigits(value, base, f);
            LongText(value, negative, base, prec, width, f) == StandardLayout(digits, negative, prec, width, f)
            <==> Fits(digits, negative, prec, width, f) || BlankMadeUp(negative, prec, width, f)
  {
    var digits := ShownDigits(value, base, f);
    if |Numeral(value, base, f.upper)| <= BUFFER_SIZE {
      BufferHoldsShown(value, base, f);
      ShownIsPlain(value, negative, base, prec, f);
      LayoutIsStandardIff(digits, negative, base, prec, width, f);
    } else {
      NumeralFits(value, base, f.upper);
      LongBinaryIsCut(value, prec, prec, width, f, f);
    }
  }

  lemma {:induction false} LongBinaryIsCut(value: nat, prec: nat, prec': nat, width: nat, f: Flags, g: Flags)
    requires |Numeral(value, 2, f.upper)| > BUFFER_SIZE && !f.hash
    requires SignText(false, f) == SignText(false, g) == "" && f.left == g.left && f.upper == g.upper
    ensures value > 0
    ensures LongText(value, false, 2, prec, width, f)
            != StandardLayout(Numeral(value, 2, g.upper), false, prec', width, g)
  {
    var room := BUFFER_SIZE;
    NumeralLength(value, 2, f.upper, room);
    NumeralShows(value, 2, f.upper);
    CutDigitsFill(value, 2, f.upper, room);
    DigitsShow(value, 2, f.upper, room);
    PowPositive(2, room);
    CutIsNeverStandard(LastFirst(value, 2, f.upper, room), Numeral(value, 2, f.upper), 2, prec, prec', width, f, g);
  }

  /** No conversion is longer than its width and the buffer. */
  lemma {:induction false} TextIsBounded(value: nat, negative: bool, base: nat, prec: nat, width: nat, f: Flags)
    requires 2 <= base <= 16
    ensures |LongText(value, negative, base, prec, width, f)| <= Max(width, BUFFER_SIZE)
  {
    var f' := if value == 0 then f.(hash := false) else f;
    BuiltFits(DigitsFor(value, base, f), negative, base, prec, width, f');
  }

  lemma {:induction false} BuiltFits(digits: string, negative: bool, base: nat, prec: nat, width: nat, f: Flags)
    requires |digits| <= BUFFER_SIZE
    ensures |Built(digits, negative, base, prec, width, f)| <= BUFFER_SIZE
  {
    assert |PadZeros(digits, negative, prec, width, f)| <= BUFFER_SIZE;
  }

  // ---------------------------------------------------------------- the base prefix

  /** What '#' cannot show whole: digits that fill the width, or in hexadecimal would with one padding zero. */
  predicate PrefixTakesDigits(n: nat, base: nat, width: nat, f: Flags) {
    && !f.precision
    && (n == width || (base == 16 && n + 1 == width && n < BUFFER_SIZE && f.zeroPad && !f.left))
  }

  /** With '#' the number's digits are all still in the buffer unless the prefix takes their place. */
  lemma {:induction false} PrefixKeepsDigitsIff(lastFirst: string, base: nat, prec: nat, width: nat, f: Flags)
    requires f.hash && SignText(false, f) == "" && (prec > 0 ==> f.precision)
    requires base == 2 || base == 8 || base == 16
    requires 0 < |lastFirst| <= BUFFER_SIZE && DigitsOf(lastFirst, base) && lastFirst[|lastFirst| - 1] != '0'
    ensures var b := Built(lastFirst, false, base, prec, width, f);
            && |b| >= |lastFirst| && b[0] != ' '
            && (lastFirst <= b <==> !PrefixTakesDigits(|lastFirst|, base, width, f))
  {
    var n := |lastFirst|;
    var padded := PadZeros(lastFirst, false, prec, width, f);
    var b := Built(lastFirst, false, base, prec, width, f);
    PaddedForPrefix(lastFirst, prec, width, f);
    assert b == Prefix(padded, base, prec, width, f);
    PrefixIs(padded, base, prec, width, f);
    if PrefixTakesDigits(n, base, width, f) {
      assert b[n - 1] != lastFirst[n - 1];
    } else {
      assert b[..n] == lastFirst;
    }
  }

  lemma {:induction false} PaddedForPrefix(lastFirst: string, prec: nat, width: nat, f: Flags)
    requires SignText(false, f) == "" && 0 < |lastFirst| <= BUFFER_SIZE && (prec > 0 ==> f.precision)
    ensures var padded := PadZeros(lastFirst, false, prec, width, f);
            && |padded| <= BUFFER_SIZE && lastFirst <= padded
            && (forall i :: |lastFirst| <= i < |padded| ==> padded[i] == '0')
            && (!f.precision ==> |padded| == if f.left || !f.zeroPad then |lastFirst|
                                             else Max(|lastFirst|, Min(width, BUFFER_SIZE)))
  {
  }

  /** What stays of the buffer under the prefix, and the prefix as far as there is room. */
  lemma {:induction false} PrefixIs(padded: string, base: nat, prec: nat, width: nat, f: Flags)
    requires f.hash && 0 < |padded| <= BUFFER_SIZE && (prec > 0 ==> f.precision)
    requires base == 2 || base == 8 || base == 16
    ensures var b, len := Prefix(padded, base, prec, width, f), |padded|;
            var gone := if f.precision || len != width then 0 else if base == 16 && len > 1 then 2 else 1;
            var mark := if base == 16 then (if f.upper then "X0" else "x0") else if base == 2 then "b0" else "0";
            && |b| == Min(len - gone + |mark|, BUFFER_SIZE)
            && b == padded[..len - gone] + mark[..|b| - (len - gone)]
  {
  }

  /** The text without the spaces behind it. */
  function Stripped(s: string): string {
    if s != "" && s[|s| - 1] == ' ' then Stripped(s[..|s| - 1]) else s
  }

  predicate EndsWith(s: string, t: string) {
    |t| <= |s| && s[|s| - |t|..] == t
  }

  lemma {:induction false} StrippedIs(s: string, n: int)
    requires s != "" && s[|s| - 1] != ' '
    ensures Stripped(s + SpaceText(n)) == s
    decreases n
  {
    if n > 0 {
      assert (s + SpaceText(n))[..|s| + n - 1] == s + SpaceText(n - 1);
      StrippedIs(s, n - 1);
    } else {
      assert s + SpaceText(n) == s;
    }
  }

  lemma {:induction false} StrippedText(b: string, width: nat, f: Flags)
    requires b != "" && b[0] != ' '
    ensures Stripped(Padded(b, width, f)) == SpaceText(if !f.left && !f.zeroPad then width - |b| else 0) + Reversed(b)
  {
    var front := SpaceText(if !f.left && !f.zeroPad then width - |b| else 0) + Reversed(b);
    assert front[|front| - 1] == b[0];
    StrippedIs(front, if f.left then width - |b| else 0);
  }

  lemma {:induction false} EndOfReversed(front: string, b: string, n: nat)
    requires n <= |b|
    ensures (front + Reversed(b))[|front| + |b| - n..] == Reversed(b[..n])
  {
  }

  lemma {:induction false} SameReversed(s: string, t: string)
    ensures Reversed(s) == Reversed(t) <==> s == t
  {
    ReversedTwice(s);
    ReversedTwice(t);
  }

  lemma {:induction false} TextEndsIff(b: string, lastFirst: string, width: nat, f: Flags)
    requires 0 < |lastFirst| <= |b| && b[0] != ' '
    ensures EndsWith(Stripped(Padded(b, width, f)), Reversed(lastFirst)) <==> lastFirst <= b
  {
    var n := |lastFirst|;
    StrippedText(b, width, f);
    EndOfReversed(SpaceText(if !f.left && !f.zeroPad then width - |b| else 0), b, n);
    SameReversed(b[..n], lastFirst);
  }

  lemma {:induction false} TextEndsNever(b: string, digits: string, base: nat, width: nat, f: Flags)
    requires b != "" && b[0] != ' ' && |b| < |digits| && DigitsOf(digits, base)
    ensures !EndsWith(Stripped(Padded(b, width, f)), digits)
  {
    StrippedText(b, width, f);
    var text := Stripped(Padded(b, width, f));
    if |digits| <= |text| {
      assert text[|text| - |b| - 1] == ' ';
      assert text[|text| - |digits|..][|digits| - |b| - 1] == text[|text| - |b| - 1];
    }
  }

  /**
   * With '#' a number is printed with all its digits if and only if they fit the buffer and the prefix does not
   * take their place.
   */
  lemma {:induction false} HashShowsDigitsIff(value: nat, base: nat, prec: nat, width: nat, f: Flags)
    requires Regular(value, false, base, prec, f) && f.hash && SignText(false, f) == "" && base != 10
    ensures var digits := ShownDigits(value, base, f);
            EndsWith(Stripped(LongText(value, false, base, prec, width, f)), digits)
            <==> value == 0 || (|digits| <= BUFFER_SIZE && !PrefixTakesDigits(|digits|, base, width, f))
  {
    var digits := ShownDigits(value, base, f);
    NumeralFits(value, base, f.upper);
    NumeralShows(value, base, f.upper);
    if value == 0 {
      ZeroShows(base, prec, width, f);
    } else if |digits| > BUFFER_SIZE {
      LongBinaryEndsNever(value, prec, width, f);
    } else {
      BufferHoldsShown(value, base, f);
      var lastFirst := DigitsFor(value, base, f);
      assert lastFirst[|lastFirst| - 1] == digits[0];
      ReversedTwice(digits);
      PrefixKeepsDigitsIff(lastFirst, base, prec, width, f);
      TextEndsIff(Built(lastFirst, false, base, prec, width, f), lastFirst, width, f);
    }
  }

  lemma {:induction false} LongBinaryEndsNever(value: nat, prec: nat, width: nat, f: Flags)
    requires |Numeral(value, 2, f.upper)| > BUFFER_SIZE && value > 0
    requires f.hash && SignText(false, f) == "" && (prec > 0 ==> f.precision)
    ensures !EndsWith(Stripped(LongText(value, false, 2, prec, width, f)), Numeral(value, 2, f.upper))
  {
    var room := BUFFER_SIZE;
    NumeralLength(value, 2, f.upper, room);
    CutDigitsFill(value, 2, f.upper, room);
    DigitsShow(value, 2, f.upper, room);
    NumeralShows(value, 2, f.upper);
    var cut := LastFirst(value, 2, f.upper, room);
    var b := Built(cut, false, 2, prec, width, f);
    assert PadZeros(cut, false, prec, width, f) == cut;
    assert b == Prefix(cut, 2, prec, width, f);
    PrefixIs(cut, 2, prec, width, f);
    TextEndsNever(b, Numeral(value, 2, f.upper), 2, width, f);
  }

  lemma {:induction false} ZeroShows(base: nat, prec: nat, width: nat, f: Flags)
    requires 2 <= base <= 16 && SignText(false, f) == ""
    ensures EndsWith(Stripped(LongText(0, false, base, prec, width, f)), ShownDigits(0, base, f))
  {
    var text := LongText(0, false, base, prec, width, f);
    if f.precision {
      assert Stripped(text)[|Stripped(text)|..] == "";
    } else {
      var room, f' := BUFFER_SIZE, f.(hash := false);
      NumeralShows(0, base, f.upper);
      OneDigit(0, base, f.upper, room);
      assert Reversed("0") == "0";
      TextEndsIff(Built("0", false, base, prec, width, f'), "0", width, f');
    }
  }

  /** '#' can drop real digits: a hexadecimal number that fills its width exactly loses its two leading ones. */
  lemma {:induction false} HashDropsDigits(f: Flags)
    requires f == Flags(false, false, false, false, true, false, false)
    ensures NumberText(Reversed("1234"), false, 16, 0, 4, f) == "0x34" && PrefixTakesDigits(|"1234"|, 16, 4, f)
  {
    assert PadZeros("4321", false, 0, 4, f) == "4321";
    assert Reversed("1234") == "4321";
    assert Built("4321", false, 16, 0, 4, f) == "43x0";
    assert Reversed("43x0") == "0x34";
  }
}
