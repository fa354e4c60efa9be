/** Integer directives, from what is written to what is printed, against ISO/IEC 9899:2011 section 7.21.6.1. */
module StandardText {
  import opened Text
  import opened Digits
  import opened Output
  import opened IntegerText
  import opened IntegerLayout
  import opened Formatter
  import opened Directives

  // ---------------------------------------------------------------- what the standard asks for

  datatype Prec = Omitted | Exactly(n: nat)

  /** A directive's meaning: the value in its type, and how it is to be shown. */
  datatype Meaning = Meaning(
    v: int, base: nat, upper: bool, prec: Prec, width: nat, left: bool, zero: bool, plus: bool, space: bool)

  predicate SignedConversion(p: Parts) {
    p.conversion == 'd' || p.conversion == 'i'
  }

  /** The argument converted to the type the length modifier names; `int` and `long` have 32 bits. */
  function TypedValue(p: Parts, v: int): int {
    if SignedConversion(p) then
      if p.length == "hh" then (v + 0x80) % 0x100 - 0x80 else if p.length == "h" then (v + 0x8000) % 0x1_0000 - 0x8000 else v
    else if p.length == "hh" then v % 0x100
    else if p.length == "h" then v % 0x1_0000
    else if p.length == "ll" || p.length == "j" then v % WORD64
    else v % WORD32
  }

  function Radix(c: char): nat {
    if c == 'o' then 8 else if c == 'x' || c == 'X' then 16 else if c == 'b' then 2 else 10
  }

  /** A negative precision argument counts as none. */
  function MeantPrecision(p: Parts, args: seq<Arg>): Prec
    requires Given(p, args)
  {
    if p.precision.Point? && PointValue(p, args) >= 0 then Exactly(PointValue(p, args)) else Omitted
  }

  /** A negative width is a '-' flag and a width; signs belong to signed conversions. */
  function Meant(p: Parts, args: seq<Arg>): Meaning
    requires Given(p, args)
  {
    Meaning(TypedValue(p, Value(p, args)), Radix(p.conversion), p.conversion == 'X', MeantPrecision(p, args),
            Magnitude(WidthValue(p, args)), '-' in p.flags || WidthValue(p, args) < 0, '0' in p.flags,
            SignedConversion(p) && '+' in p.flags, SignedConversion(p) && ' ' in p.flags)
  }

  /** Zero with a precision of zero has no digits. */
  function MeantDigits(m: Meaning): string
    requires 2 <= m.base <= 16
  {
    if m.prec == Exactly(0) && m.v == 0 then "" else Numeral(Magnitude(m.v), m.base, m.upper)
  }

  /** At least as many digits as the precision says; '0' fills the width unless '-' or a precision is there. */
  function Layout(m: Meaning): string
    requires 2 <= m.base <= 16
  {
    var sign := if m.v < 0 then "-" else if m.plus then "+" else if m.space then " " else "";
    var digits := MeantDigits(m);
    var number := if m.prec.Exactly? then Zeros(m.prec.n - |digits|) + digits else digits;
    var gap := m.width - |sign| - |number|;
    if m.left then sign + number + SpaceText(gap)
    else if m.zero && m.prec.Omitted? then sign + Zeros(gap) + number
    else SpaceText(gap) + sign + number
  }

  function StandardText(p: Parts, args: seq<Arg>): string
    requires Given(p, args)
  {
    Layout(Meant(p, args))
  }

  /** Signed arguments are values of their type. */
  predicate InRange(p: Parts, v: int) {
    SignedConversion(p) ==>
      if p.length == "ll" || p.length == "j" then -0x8000_0000_0000_0000 <= v < 0x8000_0000_0000_0000
      else -0x8000_0000 <= v < 0x8000_0000
  }

  // ---------------------------------------------------------------- when the code does it

  /** The same flags in the code's form. */
  function FlagsMeant(m: Meaning): Flags {
    Flags(m.zero && m.prec.Omitted?, m.left, m.plus, m.space, false, m.upper, m.prec.Exactly?)
  }

  function PrecNumber(m: Meaning): nat {
    if m.prec.Exactly? then m.prec.n else 0
  }

  function Sign(m: Meaning): string {
    SignText(m.v < 0, FlagsMeant(m))
  }

  /** Sign, zeros and digits fit the buffer, and so does a width to be filled with zeros; '-' adds no zeros. */
  predicate FitsBuffer(m: Meaning)
    requires 2 <= m.base <= 16
  {
    var digits := ShownDigits(Magnitude(m.v), m.base, FlagsMeant(m));
    || Fits(digits, m.v < 0, PrecNumber(m), m.width, FlagsMeant(m))
    || BlankMadeUp(m.v < 0, PrecNumber(m), m.width, FlagsMeant(m))
  }

  /** A negative precision argument is taken for zero: that shows on the value zero and where '0' should fill. */
  predicate HidesNegative(m: Meaning)
    requires 2 <= m.base <= 16
  {
    var len := |Sign(m)| + |Numeral(Magnitude(m.v), m.base, m.upper)|;
    m.v != 0 && len <= BUFFER_SIZE && !(m.zero && !m.left && m.width > len)
  }

  /** Numbers in the format have 32 bits, `char` has no sign, and the buffer has 32 places. */
  predicate Conforms(p: Parts, args: seq<Arg>)
    requires Given(p, args)
  {
    var m := Meant(p, args);
    && m.width < WORD32
    && (SignedConversion(p) && p.length == "hh" ==> Value(p, args) % 0x100 < 0x80)
    && if p.precision.Point? && PointValue(p, args) < 0 then HidesNegative(m) else FitsBuffer(m)
  }

  // ---------------------------------------------------------------- the reference as a layout

  predicate Sensible(m: Meaning) {
    && -WORD64 < m.v < WORD64 && (m.base == 2 || m.base == 8 || m.base == 10 || m.base == 16)
    && (m.v < 0 || m.plus || m.space ==> m.base == 10)
  }

  lemma {:induction false} LayoutIs(m: Meaning)
    requires 2 <= m.base <= 16
    ensures Layout(m) == StandardLayout(MeantDigits(m), m.v < 0, PrecNumber(m), m.width, FlagsMeant(m))
  {
    var digits := MeantDigits(m);
    assert Zeros(0 - |digits|) + digits == digits;
  }

  /** For zero with a precision it makes no difference whether its digit counts. */
  lemma {:induction false} ZeroWithPrecision(n: nat, width: nat, f: Flags)
    requires n > 0
    ensures StandardLayout("0", false, n, width, f) == StandardLayout("", false, n, width, f)
  {
    assert Zeros(n - 1) + "0" == Zeros(n) + "";
  }

  lemma {:induction false} LayoutIsShown(m: Meaning)
    requires Sensible(m)
    ensures Layout(m) == StandardLayout(ShownDigits(Magnitude(m.v), m.base, FlagsMeant(m)), m.v < 0, PrecNumber(m),
                                        m.width, FlagsMeant(m))
  {
    LayoutIs(m);
    if m.v == 0 && m.prec.Exactly? && m.prec.n > 0 {
      NumeralShows(0, m.base, m.upper);
      ZeroWithPrecision(m.prec.n, m.width, FlagsMeant(m));
    }
  }

  lemma {:induction false} LayoutIsLong(m: Meaning)
    requires 2 <= m.base <= 16
    ensures |Layout(m)| >= m.width && |Layout(m)| >= PrecNumber(m)
  {
    LayoutIs(m);
    LayoutLength(MeantDigits(m), m.v < 0, PrecNumber(m), m.width, FlagsMeant(m));
  }

  lemma {:induction false} TooLongForText(m: Meaning, prec: nat, width: nat, f: Flags)
    requires Sensible(m) && width < WORD32 && (m.width >= WORD32 || PrecNumber(m) >= WORD32)
    ensures LongText(Magnitude(m.v), m.v < 0, m.base, prec, width, f) != Layout(m)
  {
    TextIsBounded(Magnitude(m.v), m.v < 0, m.base, prec, width, f);
    LayoutIsLong(m);
  }

  lemma {:induction false} TooPreciseToFit(m: Meaning)
    requires Sensible(m) && PrecNumber(m) >= WORD32
    ensures !FitsBuffer(m)
  {
  }

  lemma {:induction false} InBoundsIff(m: Meaning)
    requires Sensible(m) && m.width < WORD32 && PrecNumber(m) < WORD32
    ensures LongText(Magnitude(m.v), m.v < 0, m.base, PrecNumber(m), m.width, FlagsMeant(m)) == Layout(m) <==> FitsBuffer(m)
  {
    ConversionIsStandardIff(Magnitude(m.v), m.v < 0, m.base, PrecNumber(m), m.width, FlagsMeant(m));
    LayoutIsShown(m);
  }

  /** A number read into 32 bits. */
  predicate Taken(read: nat, written: nat) {
    read < WORD32 && (written < WORD32 ==> read == written)
  }

  /** Without a negative precision. */
  lemma {:induction false} RegularIff(m: Meaning, prec: nat, width: nat)
    requires Sensible(m) && Taken(prec, PrecNumber(m)) && Taken(width, m.width)
    ensures LongText(Magnitude(m.v), m.v < 0, m.base, prec, width, FlagsMeant(m)) == Layout(m)
            <==> m.width < WORD32 && FitsBuffer(m)
  {
    if m.width < WORD32 && PrecNumber(m) < WORD32 {
      InBoundsIff(m);
    } else {
      TooLongForText(m, prec, width, FlagsMeant(m));
      if PrecNumber(m) >= WORD32 {
        TooPreciseToFit(m);
      }
    }
  }

  // ---------------------------------------------------------------- a negative precision

  /** What the code makes of it: a precision of zero. */
  function FlagsTaken(m: Meaning): Flags {
    FlagsMeant(m).(zeroPad := false, precision := true)
  }

  lemma {:induction false} NoZeroShown(sign: string, gap: int, left: bool)
    requires '0' !in sign
    ensures '0' !in (if left then sign + SpaceText(gap) else SpaceText(gap) + sign)
  {
  }

  lemma {:induction false} ZeroIsLost(m: Meaning)
    requires Sensible(m) && m.prec == Omitted && m.v == 0
    ensures LongText(0, false, m.base, 0, m.width, FlagsTaken(m)) != Layout(m)
  {
    var f, sign := FlagsTaken(m), Sign(m);
    ConversionIsStandardIff(0, false, m.base, 0, m.width, f);
    assert Zeros(0) + "" == "";
    var text := LongText(0, false, m.base, 0, m.width, f);
    assert text == StandardLayout("", false, 0, m.width, f);
    assert sign + "" == sign;
    NoZeroShown(sign, m.width - |sign|, m.left);
    assert SpaceText(m.width - |sign|) + sign + "" == SpaceText(m.width - |sign|) + sign;
    ShowsZero(m);
  }

  lemma {:induction false} ShowsZero(m: Meaning)
    requires Sensible(m) && m.prec == Omitted && m.v == 0
    ensures '0' in Layout(m)
  {
    NumeralShows(0, m.base, m.upper);
    var sign, text := Sign(m), Layout(m);
    assert text[if m.left then |sign| else |text| - 1] == '0';
  }

  /** Filling with zeros or with spaces shows a difference exactly where there is something to fill. */
  lemma {:induction false} FillShowsIff(digits: string, negative: bool, width: nat, f: Flags)
    requires digits != "" && f.zeroPad
    ensures StandardLayout(digits, negative, 0, width, f)
            == StandardLayout(digits, negative, 0, width, f.(zeroPad := false, precision := true))
            <==> f.left || width <= |SignText(negative, f)| + |digits|
  {
    var sign := SignText(negative, f);
    assert Zeros(0 - |digits|) + digits == digits;
    var gap := width - |sign| - |digits|;
    if !f.left && gap > 0 {
      assert (sign + Zeros(gap) + digits)[|sign|] == '0';
      assert (SpaceText(gap) + sign + digits)[|sign|] != '0';
    }
    if gap <= 0 {
      assert sign + Zeros(gap) + digits == SpaceText(gap) + sign + digits;
    }
  }

  lemma {:induction false} NegativeIff(m: Meaning, width: nat)
    requires Sensible(m) && m.prec == Omitted && Taken(width, m.width)
    ensures LongText(Magnitude(m.v), m.v < 0, m.base, 0, width, FlagsTaken(m)) == Layout(m)
            <==> m.width < WORD32 && HidesNegative(m)
  {
    if m.width >= WORD32 {
      TooLongForText(m, 0, width, FlagsTaken(m));
    } else if m.v == 0 {
      ZeroIsLost(m);
    } else {
      NonzeroIff(m);
    }
  }

  lemma {:induction false} NonzeroIff(m: Meaning)
    requires Sensible(m) && m.prec == Omitted && m.v != 0
    ensures LongText(Magnitude(m.v), m.v < 0, m.base, 0, m.width, FlagsTaken(m)) == Layout(m) <==> HidesNegative(m)
  {
    var f, digits := FlagsTaken(m), Numeral(Magnitude(m.v), m.base, m.upper);
    NumeralFits(Magnitude(m.v), m.base, m.upper);
    LayoutIs(m);
    if |digits| > BUFFER_SIZE {
      LongBinaryIsCut(Magnitude(m.v), 0, 0, m.width, f, FlagsMeant(m));
    } else {
      ConversionIsStandardIff(Magnitude(m.v), m.v < 0, m.base, 0, m.width, f);
      SpacesForZeros(digits, m.v < 0, m.width, FlagsMeant(m));
    }
  }

  lemma {:induction false} SpacesForZeros(digits: string, negative: bool, width: nat, f: Flags)
    requires digits != "" && !f.precision
    ensures StandardLayout(digits, negative, 0, width, f)
            == StandardLayout(digits, negative, 0, width, f.(zeroPad := false, precision := true))
            <==> f.left || !f.zeroPad || width <= |SignText(negative, f)| + |digits|
  {
    if f.zeroPad {
      FillShowsIff(digits, negative, width, f);
    }
  }

  // ---------------------------------------------------------------- a char without a sign

  lemma {:induction false} NoMinusIn(before: int, sign: string, zeros: int, digits: string, behind: int)
    requires '-' !in sign && DigitsOf(digits, 10)
    ensures '-' !in SpaceText(before) + (sign + Zeros(zeros) + digits) + SpaceText(behind)
  {
  }

  lemma {:induction false} NoMinus(value: nat, prec: nat, width: nat, f: Flags)
    requires value < 0x100 && !f.hash
    ensures '-' !in LongText(value, false, 10, prec, width, f)
  {
    var digits := ShownDigits(value, 10, f);
    NumeralFits(value, 10, f.upper);
    BufferHoldsShown(value, 10, f);
    NumeralShows(value, 10, f.upper);
    NoMinusInText(digits, prec, width, f);
  }

  lemma {:induction false} NoMinusInText(digits: string, prec: nat, width: nat, f: Flags)
    requires !f.hash && DigitsOf(digits, 10)
    ensures '-' !in NumberText(Reversed(digits), false, 10, prec, width, f)
  {
    TextForwards(digits, false, 10, prec, width, f);
    var len := |PadZeros(Reversed(digits), false, prec, width, f)|;
    var sign := SignKept(false, f, len);
    var gap := width - len - |sign|;
    NoMinusIn(if !f.left && !f.zeroPad then gap else 0, sign, len - |digits|, digits, if f.left then gap else 0);
  }

  lemma {:induction false} ShowsMinus(m: Meaning)
    requires 2 <= m.base <= 16 && m.v < 0
    ensures '-' in Layout(m)
  {
    var text, digits := Layout(m), MeantDigits(m);
    var number := if m.prec.Exactly? then Zeros(m.prec.n - |digits|) + digits else digits;
    var gap := m.width - 1 - |number|;
    var at := if m.left || (m.zero && m.prec.Omitted?) || gap < 0 then 0 else gap;
    assert text[at] == '-';
  }

  // ---------------------------------------------------------------- directives

  /** The flags as written. */
  lemma {:induction false} FlagsAsWritten(p: Parts, pos: nat, args: seq<Arg>)
    requires Given(p, args)
    ensures AsWritten(p, pos, args).f
            == FlagsOf(p.flags).(left := '-' in p.flags || WidthValue(p, args) < 0, precision := p.precision.Point?)
  {
  }

  lemma {:induction false} FlagsAdjusted(c: char, f: Flags)
    requires (IsSigned(c) || IsUnsigned(c)) && !f.hash && !f.upper
    ensures IntegerFlags(c, f)
            == Flags(f.zeroPad && !f.precision, f.left, IsSigned(c) && f.plus, IsSigned(c) && f.space, false, c == 'X',
                     f.precision)
  {
  }

  /** The flags the conversion hands on. */
  lemma {:induction false} FlagsHandedOn(p: Parts, pos: nat, args: seq<Arg>)
    requires IntegerDirective(p) && Given(p, args) && '#' !in p.flags
    ensures var m, f := Meant(p, args), IntegerFlags(p.conversion, AsWritten(p, pos, args).f);
            f == if p.precision.Point? && PointValue(p, args) < 0 then FlagsTaken(m) else FlagsMeant(m)
  {
    FlagsAsWritten(p, pos, args);
    FlagsAdjusted(p.conversion, AsWritten(p, pos, args).f);
  }

  lemma {:induction false} MeantIsSensible(p: Parts, args: seq<Arg>)
    requires IntegerDirective(p) && Given(p, args) && InRange(p, Value(p, args))
    ensures Sensible(Meant(p, args))
  {
  }

  /** The value the code shows. */
  function CodeValue(p: Parts, v: int): int {
    if IsSigned(p.conversion) then SignedValue(v, SizeOf(p.length)) else UnsignedValue(v, SizeOf(p.length))
  }

  predicate CharConversion(p: Parts) {
    SignedConversion(p) && p.length == "hh"
  }

  /** It is the standard's, but for a `signed char`. */
  lemma {:induction false} ShownIsMeant(p: Parts, v: int)
    requires IntegerDirective(p) && !CharConversion(p)
    ensures CodeValue(p, v) == TypedValue(p, v)
  {
    assert |p.length| == 2 && p.length[0] == 'h' ==> p.length == "hh";
    assert |p.length| == 2 && p.length[0] == 'l' ==> p.length == "ll";
    assert |p.length| == 1 ==> p.length == [p.length[0]];
  }

  lemma {:induction false} CharIsMeantIff(p: Parts, v: int)
    requires CharConversion(p)
    ensures CodeValue(p, v) == v % 0x100
    ensures if v % 0x100 < 0x80 then TypedValue(p, v) == v % 0x100 else TypedValue(p, v) < 0
  {
    var q, r := v / 0x100, v % 0x100;
    assert v + 0x80 == 0x100 * q + (r + 0x80);
  }

  lemma {:induction false} IntegerIsLongText(v: int, shown: int, c: char, d: Directive)
    requires IsSigned(c) || IsUnsigned(c)
    requires shown == if IsSigned(c) then SignedValue(v, d.size) else UnsignedValue(v, d.size)
    ensures IntegerConversion(v, c, d)
            == LongText(Magnitude(shown), shown < 0, Base(c), d.prec, d.width, IntegerFlags(c, d.f))
  {
  }

  lemma {:induction false} ConversionIsInteger(c: char, d: Directive, v: int)
    requires (IsSigned(c) || IsUnsigned(c)) && d.args != [] && d.args[0] == NumberArg(v)
    ensures ArgSupplied(c, d) && ConversionText(c, d) == IntegerConversion(v, c, d)
  {
  }

  /** What the code prints for a directive read as written. */
  lemma {:induction false} PrintedIs(p: Parts, pos: nat, args: seq<Arg>)
    requires IntegerDirective(p) && Given(p, args)
    ensures var d, c := AsWritten(p, pos, args), p.conversion;
            ArgSupplied(c, d) && ConversionText(c, d) == CodeText(p, d, CodeValue(p, Value(p, args)))
  {
    var d, c := AsWritten(p, pos, args), p.conversion;
    TakesItsOwn(p, pos, args);
    ConversionIsInteger(c, d, Value(p, args));
    IntegerIsLongText(Value(p, args), CodeValue(p, Value(p, args)), c, d);
  }

  lemma {:induction false} NumbersTaken(p: Parts, pos: nat, args: seq<Arg>)
    requires IntegerDirective(p) && Given(p, args)
    ensures var d, m := AsWritten(p, pos, args), Meant(p, args);
            && Taken(d.width, m.width) && Taken(d.prec, PrecNumber(m))
            && (p.precision.Point? && PointValue(p, args) < 0 ==> d.prec == 0 && m.prec == Omitted)
  {
    var d, m := AsWritten(p, pos, args), Meant(p, args);
    assert d.width == m.width % WORD32;
    assert d.prec == PrecNumber(m) % WORD32;
    ReadIsTaken(m.width);
    ReadIsTaken(PrecNumber(m));
  }

  lemma {:induction false} ReadIsTaken(n: nat)
    ensures Taken(n % WORD32, n)
  {
  }

  /** The three ways a conversion can go: a `char` cut to no sign, a negative precision, or neither. */
  lemma {:induction false} TextIsLayoutIff(m: Meaning, shown: int, prec: nat, width: nat, f: Flags, cut: bool, negative: bool)
    requires Sensible(m) && Taken(width, m.width)
    requires if cut then m.v < 0 && 0 <= shown < 0x100 && !f.hash else shown == m.v
    requires if negative then m.prec == Omitted && prec == 0 && f == FlagsTaken(m)
             else f == FlagsMeant(m) && Taken(prec, PrecNumber(m))
    ensures LongText(Magnitude(shown), shown < 0, m.base, prec, width, f) == Layout(m)
            <==> m.width < WORD32 && !cut && if negative then HidesNegative(m) else FitsBuffer(m)
  {
    if cut {
      NoMinus(shown, prec, width, f);
      ShowsMinus(m);
    } else if negative {
      NegativeIff(m, width);
    } else {
      RegularIff(m, prec, width);
    }
  }

  /**
   * An integer directive without '#' is printed as the standard asks if and only if it conforms: its numbers have 32
   * bits, its layout fits the buffer, '-' adds no zeros, no `signed char` is negative, and a negative precision
   * argument meets neither the value zero nor room that '0' should fill.
   */
  lemma {:induction false} DirectiveIsStandardIff(p: Parts, pos: nat, args: seq<Arg>)
    requires IntegerDirective(p) && Given(p, args) && '#' !in p.flags && InRange(p, Value(p, args))
    ensures ArgSupplied(p.conversion, AsWritten(p, pos, args))
    ensures ConversionText(p.conversion, AsWritten(p, pos, args)) == StandardText(p, args) <==> Conforms(p, args)
  {
    PrintedIs(p, pos, args);
    CodeTextIff(p, pos, args);
  }

  /** What the code prints, by its own reading. */
  function CodeText(p: Parts, d: Directive, v: int): string
    requires IntegerDirective(p)
  {
    LongText(Magnitude(v), v < 0, Radix(p.conversion), d.prec, d.width, IntegerFlags(p.conversion, d.f))
  }

  lemma {:induction false} CodeTextIff(p: Parts, pos: nat, args: seq<Arg>)
    requires IntegerDirective(p) && Given(p, args) && '#' !in p.flags && InRange(p, Value(p, args))
    ensures CodeText(p, AsWritten(p, pos, args), CodeValue(p, Value(p, args))) == StandardText(p, args)
            <==> Conforms(p, args)
  {
    var m, d, v := Meant(p, args), AsWritten(p, pos, args), Value(p, args);
    MeantIsSensible(p, args);
    NumbersTaken(p, pos, args);
    FlagsHandedOn(p, pos, args);
    ValueTaken(p, v);
    TextIsLayoutIff(m, CodeValue(p, v), d.prec, d.width, IntegerFlags(p.conversion, d.f),
                    CharConversion(p) && v % 0x100 >= 0x80, p.precision.Point? && PointValue(p, args) < 0);
  }

  lemma {:induction false} ValueTaken(p: Parts, v: int)
    requires IntegerDirective(p)
    ensures if CharConversion(p) && v % 0x100 >= 0x80 then TypedValue(p, v) < 0 && 0 <= CodeValue(p, v) < 0x100
            else CodeValue(p, v) == TypedValue(p, v)
  {
    if CharConversion(p) {
      CharIsMeantIff(p, v);
    } else {
      ShownIsMeant(p, v);
    }
  }

  /** The same for a whole format and what `snprintf` makes of it. */
  lemma {:induction false} FormatIsStandardIff(p: Parts, args: seq<Arg>)
    requires IntegerDirective(p) && Given(p, args) && '#' !in p.flags && InRange(p, Value(p, args))
    requires |args| == AllStars(p) + 1
    ensures Supplied("%" + Spell(p), 0, args)
    ensures Render("%" + Spell(p), args) == StandardText(p, args) <==> Conforms(p, args)
  {
    var s, d := "%" + Spell(p), AsWritten(p, 1, args);
    assert s[1..1 + |Spell(p)|] == Spell(p);
    ReadAsWritten(s, 1, p, args);
    TakesItsOwn(p, 1, args);
    DirectiveIsStandardIff(p, 1, args);
    OneDirective(s, args, d);
  }

  lemma {:induction false} OneDirective(s: string, args: seq<Arg>, d: Directive)
    requires s != "" && s[0] == '%' && d == Parse(s, 1, args) && d.supplied && d.at == |s| - 1
    requires ArgSupplied(s[d.at], d)
    ensures Supplied(s, 0, args) && Render(s, args) == ConversionText(s[d.at], d)
  {
    OnlyPiece(s, args, d);
    OnePiece(Conversion(s[d.at], d));
  }

  lemma {:induction false} OnlyPiece(s: string, args: seq<Arg>, d: Directive)
    requires s != "" && s[0] == '%' && d == Parse(s, 1, args) && d.supplied && d.at == |s| - 1
    requires ArgSupplied(s[d.at], d)
    ensures Supplied(s, 0, args) && Pieces(s, 0, args) == [Conversion(s[d.at], d)]
  {
    NothingLeft(s, d.at + 1, ArgsAfter(s[d.at], d));
  }

  lemma {:induction false} NothingLeft(s: string, pos: nat, args: seq<Arg>)
    requires pos >= |s|
    ensures Supplied(s, pos, args) && Pieces(s, pos, args) == []
  {
  }

  lemma {:induction false} OnePiece(p: Piece)
    requires Printable(p)
    ensures AllPrintable([p]) && TextOf([p]) == PieceText(p)
  {
    TextOfOneMore([], p);
    assert [] + [p] == [p];
    assert "" + PieceText(p) == PieceText(p);
  }

  /** "%.*d" with -1 and 0 prints nothing where the standard asks for "0". */
  lemma {:induction false} NegativePrecisionLosesZero(p: Parts, args: seq<Arg>)
    requires p == Parts("", Absent, Point(Star), "", 'd') && args == [NumberArg(-1), NumberArg(0)]
    ensures Spell(p) == ".*d" && IntegerDirective(p) && Given(p, args) && !Conforms(p, args) && StandardText(p, args) == "0"
    ensures CodeText(p, AsWritten(p, 1, args), CodeValue(p, Value(p, args))) == ""
  {
    NothingForZero(FlagsTaken(Meant(p, args)));
    FlagsHandedOn(p, 1, args);
    NumeralShows(0, 10, false);
  }

  lemma {:induction false} NothingForZero(f: Flags)
    requires f == Flags(false, false, false, false, false, false, true)
    ensures LongText(0, false, 10, 0, 0, f) == ""
  {
    assert Built("", false, 10, 0, 0, f) == "";
  }

  /** "%05.*d" with -1 and 42 prints "   42" where the standard asks for "00042". */
  lemma {:induction false} NegativePrecisionLosesFill(p: Parts, args: seq<Arg>)
    requires p == Parts("0", Written("5"), Point(Star), "", 'd') && args == [NumberArg(-1), NumberArg(42)]
    ensures Spell(p) == "05.*d" && IntegerDirective(p) && Given(p, args) && !Conforms(p, args) && StandardText(p, args) == "00042"
    ensures CodeText(p, AsWritten(p, 1, args), CodeValue(p, Value(p, args))) == "   42"
  {
    MeantFor42(p, args);
    ZerosFor42(Meant(p, args));
    SpacesFor42(FlagsTaken(Meant(p, args)));
    FlagsHandedOn(p, 1, args);
  }

  lemma {:induction false} MeantFor42(p: Parts, args: seq<Arg>)
    requires p == Parts("0", Written("5"), Point(Star), "", 'd') && args == [NumberArg(-1), NumberArg(42)]
    ensures Given(p, args) && Meant(p, args) == Meaning(42, 10, false, Omitted, 5, false, true, false, false)
  {
    assert Number("5") == 5;
  }

  lemma {:induction false} ZerosFor42(m: Meaning)
    requires m == Meaning(42, 10, false, Omitted, 5, false, true, false, false)
    ensures Layout(m) == "00042" && !HidesNegative(m)
  {
    NumeralOf42();
  }

  lemma {:induction false} SpacesFor42(f: Flags)
    requires f == Flags(false, false, false, false, false, false, true)
    ensures LongText(42, false, 10, 0, 5, f) == "   42"
  {
    ConversionIsStandardIff(42, false, 10, 0, 5, f);
    NumeralOf42();
    assert Zeros(0 - 2) + "42" == "42" && SpaceText(3) == "   ";
  }

  lemma {:induction false} NumeralOf42()
    ensures Numeral(42, 10, false) == "42"
  {
    assert Numeral(4, 10, false) == "4";
  }
}
