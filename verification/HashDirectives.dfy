/** Integer directives with '#', from what is written to what is printed. */
module HashDirectives {
  import opened Digits
  import opened IntegerText
  import opened IntegerLayout
  import opened Formatter
  import opened Directives
  import opened StandardText
  import HashLayout

  /** '#' belongs to a base other than ten, and changes numbers other than zero. */
  predicate HashGiven(p: Parts, args: seq<Arg>) {
    IntegerDirective(p) && Given(p, args) && '#' in p.flags && Radix(p.conversion) != 10 && TypedValue(p, Value(p, args)) > 0
  }

  function HashFlags(m: Meaning): Flags {
    FlagsMeant(m).(hash := true)
  }

  function MeantNumeral(m: Meaning): string
    requires 2 <= m.base <= 16 && m.v > 0
  {
    Numeral(m.v, m.base, m.upper)
  }

  function HashText(m: Meaning): string
    requires 2 <= m.base <= 16 && m.v > 0
  {
    HashLayout.Layout(MeantNumeral(m), m.base, PrecNumber(m), m.width, HashFlags(m))
  }

  /** What the standard asks for. */
  function HashStandard(p: Parts, args: seq<Arg>): string
    requires HashGiven(p, args)
  {
    HashText(Meant(p, args))
  }

  /** A negative precision argument is taken for zero: that shows where '0' should fill. */
  predicate HidesNegativeHash(m: Meaning)
    requires 2 <= m.base <= 16 && m.v > 0
  {
    var n := |MeantNumeral(m)|;
    && n <= BUFFER_SIZE && (m.base != 8 ==> n + 2 <= BUFFER_SIZE)
    && !(m.zero && !m.left && m.width > n + (if m.base == 8 then 1 else 2))
  }

  predicate HashDirectiveConforms(p: Parts, args: seq<Arg>)
    requires HashGiven(p, args)
  {
    var m := Meant(p, args);
    && m.width < WORD32
    && if p.precision.Point? && PointValue(p, args) < 0 then HidesNegativeHash(m)
       else HashLayout.HashConforms(|MeantNumeral(m)|, m.base, PrecNumber(m), m.width, HashFlags(m))
  }

  // ---------------------------------------------------------------- the three ways it can go

  /** An unsigned number other than zero in a base other than ten. */
  predicate HashMeaning(m: Meaning) {
    0 < m.v < WORD64 && (m.base == 2 || m.base == 8 || m.base == 16) && !m.plus && !m.space
  }

  lemma {:induction false} LayoutIsLong(digits: string, base: nat, prec: nat, width: nat, f: Flags)
    ensures |HashLayout.Layout(digits, base, prec, width, f)| >= width
    ensures |HashLayout.Layout(digits, base, prec, width, f)| >= prec
  {
  }

  lemma {:induction false} TooLong(m: Meaning, prec: nat, width: nat, f: Flags)
    requires HashMeaning(m) && width < WORD32 && (m.width >= WORD32 || PrecNumber(m) >= WORD32)
    ensures LongText(m.v, false, m.base, prec, width, f) != HashText(m)
  {
    TextIsBounded(m.v, false, m.base, prec, width, f);
    LayoutIsLong(MeantNumeral(m), m.base, PrecNumber(m), m.width, HashFlags(m));
  }

  lemma {:induction false} RegularHashIff(m: Meaning, prec: nat, width: nat)
    requires HashMeaning(m) && Taken(prec, PrecNumber(m)) && Taken(width, m.width)
    ensures LongText(m.v, false, m.base, prec, width, HashFlags(m)) == HashText(m)
            <==> m.width < WORD32 && HashLayout.HashConforms(|MeantNumeral(m)|, m.base, PrecNumber(m), m.width, HashFlags(m))
  {
    if m.width < WORD32 && PrecNumber(m) < WORD32 {
      HashLayout.HashIsStandardIff(m.v, m.base, prec, width, HashFlags(m));
    } else {
      TooLong(m, prec, width, HashFlags(m));
      NumeralFits(m.v, m.base, m.upper);
    }
  }

  function HashTaken(m: Meaning): Flags {
    FlagsTaken(m).(hash := true)
  }

  /** Zeros and room for digits printed under a precision of zero. */
  lemma {:induction false} NegativeNumbers(n: nat, base: nat, width: nat, f: Flags, f': Flags)
    requires 0 < n <= BUFFER_SIZE && (base == 2 || (base == 8 && n <= 22) || base == 16)
    requires f.precision && !f.zeroPad && !f'.precision && f.left == f'.left && f.upper == f'.upper
    ensures !PrefixTakesDigits(n, base, width, f)
    ensures var len, room, meant := HashLayout.Kept(n, base, 0, width, f), HashLayout.Room(n, base, 0, width, f),
                                    HashLayout.ZerosMeant(n, base, 0, width, f');
            (if base == 8 then meant == len - n + room else room == 2 && meant == len - n)
            <==> && (base != 8 ==> n + 2 <= BUFFER_SIZE)
                 && !(f'.zeroPad && !f'.left && width > n + (if base == 8 then 1 else 2))
  {
  }

  lemma {:induction false} NegativeHashIff(m: Meaning, width: nat)
    requires HashMeaning(m) && m.prec == Omitted && Taken(width, m.width)
    ensures LongText(m.v, false, m.base, 0, width, HashTaken(m)) == HashText(m) <==> m.width < WORD32 && HidesNegativeHash(m)
  {
    var digits, f, f' := MeantNumeral(m), HashTaken(m), HashFlags(m);
    NumeralFits(m.v, m.base, m.upper);
    NumeralShows(m.v, m.base, m.upper);
    if m.width >= WORD32 {
      TooLong(m, 0, width, f);
    } else if |digits| > BUFFER_SIZE {
      HashLayout.LostIsNotStandard(m.v, m.base, 0, width, f, 0, f');
    } else {
      NegativeNumbers(|digits|, m.base, width, f, f');
      HashLayout.NumberIs(m.v, m.base, 0, width, f);
      HashLayout.ShownIff(digits, m.base, 0, width, f, 0, f');
    }
  }

  // ---------------------------------------------------------------- directives

  lemma {:induction false} HashAdjusted(c: char, f: Flags)
    requires IsUnsigned(c) && c != 'u' && f.hash && !f.upper
    ensures IntegerFlags(c, f) == Flags(f.zeroPad && !f.precision, f.left, false, false, true, c == 'X', f.precision)
  {
  }

  lemma {:induction false} HashHandedOn(p: Parts, pos: nat, args: seq<Arg>)
    requires HashGiven(p, args)
    ensures var m, f := Meant(p, args), IntegerFlags(p.conversion, AsWritten(p, pos, args).f);
            f == if p.precision.Point? && PointValue(p, args) < 0 then HashTaken(m) else HashFlags(m)
  {
    FlagsAsWritten(p, pos, args);
    HashAdjusted(p.conversion, AsWritten(p, pos, args).f);
  }

  lemma {:induction false} MeantIsHash(p: Parts, args: seq<Arg>)
    requires HashGiven(p, args)
    ensures HashMeaning(Meant(p, args)) && CodeValue(p, Value(p, args)) == Meant(p, args).v
  {
    ShownIsMeant(p, Value(p, args));
  }

  /** The code's text, by its own reading. */
  lemma {:induction false} HashTextIff(m: Meaning, prec: nat, width: nat, f: Flags, negative: bool)
    requires HashMeaning(m) && Taken(width, m.width)
    requires if negative then m.prec == Omitted && prec == 0 && f == HashTaken(m)
             else f == HashFlags(m) && Taken(prec, PrecNumber(m))
    ensures LongText(m.v, false, m.base, prec, width, f) == HashText(m)
            <==> && m.width < WORD32
                 && if negative then HidesNegativeHash(m)
                    else HashLayout.HashConforms(|MeantNumeral(m)|, m.base, PrecNumber(m), m.width, HashFlags(m))
  {
    if negative {
      NegativeHashIff(m, width);
    } else {
      RegularHashIff(m, prec, width);
    }
  }

  /**
   * With '#' a number other than zero is printed as the standard asks if and only if it conforms: a width of 32 bits,
   * digits and prefix that have room and leave each other alone, no zero too many or too few.
   */
  lemma {:induction false} HashDirectiveIsStandardIff(p: Parts, pos: nat, args: seq<Arg>)
    requires HashGiven(p, args)
    ensures ArgSupplied(p.conversion, AsWritten(p, pos, args))
    ensures ConversionText(p.conversion, AsWritten(p, pos, args)) == HashStandard(p, args) <==> HashDirectiveConforms(p, args)
  {
    var d, m := AsWritten(p, pos, args), Meant(p, args);
    StandardText.PrintedIs(p, pos, args);
    MeantIsHash(p, args);
    HashHandedOn(p, pos, args);
    NumbersTaken(p, pos, args);
    HashTextIff(m, d.prec, d.width, IntegerFlags(p.conversion, d.f), p.precision.Point? && PointValue(p, args) < 0);
  }

  /** "%#.4o" of 8 has one zero too many. */
  lemma {:induction false} OctalZeroTooMany(f: Flags)
    requires f == Flags(false, false, false, false, true, false, true)
    ensures LongText(8, false, 8, 4, 0, f) == "00010" && HashLayout.Layout("10", 8, 4, 0, f) == "0010"
  {
    assert Numeral(8, 8, false) == [DigitChar(1, false)] + [DigitChar(0, false)];
    assert Numeral(8, 8, false) == "10" && Text.Reversed("10") == "01";
    HashLayout.NumberIs(8, 8, 4, 0, f);
    HashLayout.BuiltIs("10", 8, 4, 0, f, 4, 1);
    assert Text.Reversed("0") == "0" && IntegerText.Zeros(2) == "00";
    HashLayout.TextAround("01", 8, 4, 0, f);
    HashLayout.NoSpaces("00010");
  }

  lemma {:induction false} FlagDropped(v: int, c: char, d: Directive, d': Directive)
    requires (c == 'd' || c == 'i' || c == 'u') && d' == d.(f := d.f.(hash := false))
    ensures IntegerConversion(v, c, d) == IntegerConversion(v, c, d')
  {
    assert IntegerFlags(c, d.f) == IntegerFlags(c, d'.f);
  }

  /** In base ten '#' plays no part. */
  lemma {:induction false} DecimalDropsHash(c: char, d: Directive, v: int, d': Directive)
    requires (c == 'd' || c == 'i' || c == 'u') && d.args != [] && d.args[0] == NumberArg(v)
    requires d' == d.(f := d.f.(hash := false))
    ensures ArgSupplied(c, d) && ArgSupplied(c, d') && ConversionText(c, d) == ConversionText(c, d')
  {
    ConversionIsInteger(c, d, v);
    ConversionIsInteger(c, d', v);
    FlagDropped(v, c, d, d');
  }
}
