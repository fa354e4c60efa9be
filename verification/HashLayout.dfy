/** Integer conversions with '#' against ISO/IEC 9899:2011 section 7.21.6.1, paragraph 6. */
module HashLayout {
  import opened Text
  import opened Digits
  import opened Output
  import opened IntegerText
  import opened IntegerLayout

  // ---------------------------------------------------------------- what the standard asks for

  function BasePrefix(base: nat, upper: bool): string {
    if base == 16 then (if upper then "0X" else "0x") else if base == 2 then "0b" else ""
  }

  /** In base 8 the precision grows until the first digit is a zero. */
  function Widened(n: nat, base: nat, prec: nat): nat {
    if base == 8 && prec <= n then n + 1 else prec
  }

  /** Base prefix and digits of a number that is not zero, padded on the side and with the character the flags ask for. */
  function Layout(digits: string, base: nat, prec: nat, width: nat, f: Flags): string {
    var prefix, number := BasePrefix(base, f.upper), Zeros(Widened(|digits|, base, prec) - |digits|) + digits;
    var gap := width - |prefix| - |number|;
    if f.left then prefix + number + SpaceText(gap)
    else if f.zeroPad then prefix + Zeros(gap) + number
    else SpaceText(gap) + prefix + number
  }

  /** Zeros between prefix and digits. */
  function ZerosMeant(n: nat, base: nat, prec: nat, width: nat, f: Flags): nat {
    var zeros := Max(Widened(n, base, prec) - n, 0);
    if f.zeroPad && !f.left then Max(zeros, width - |BasePrefix(base, f.upper)| - n) else zeros
  }

  function Content(digits: string, base: nat, zeros: nat, upper: bool): string {
    BasePrefix(base, upper) + Zeros(zeros) + digits
  }

  function SpacesAround(content: string, width: nat, f: Flags): string {
    SpaceText(if !f.left && !f.zeroPad then width - |content| else 0) + content
    + SpaceText(if f.left then width - |content| else 0)
  }

  lemma {:induction false} NoSpaces(content: string)
    ensures SpaceText(0) + content == content == content + SpaceText(0)
  {
  }

  lemma {:induction false} PrefixJoins(prefix: string, a: int, b: int, digits: string)
    ensures prefix + Zeros(a) + (Zeros(b) + digits) == prefix + Zeros(Max(a, 0) + Max(b, 0)) + digits
  {
    assert Zeros(a) + Zeros(b) == Zeros(Max(a, 0) + Max(b, 0));
    assert prefix + Zeros(a) + (Zeros(b) + digits) == prefix + (Zeros(a) + Zeros(b)) + digits;
  }

  lemma {:induction false} PrefixThenNumber(prefix: string, b: int, digits: string)
    ensures prefix + (Zeros(b) + digits) == prefix + Zeros(Max(b, 0)) + digits
  {
    assert Zeros(b) == Zeros(Max(b, 0));
  }

  lemma {:induction false} SpacesFirst(spaces: string, prefix: string, number: string)
    ensures spaces + prefix + number == spaces + (prefix + number)
  {
  }

  /** The layout as spaces around a content. */
  lemma {:induction false} LayoutIs(digits: string, base: nat, prec: nat, width: nat, f: Flags)
    ensures Layout(digits, base, prec, width, f)
            == SpacesAround(Content(digits, base, ZerosMeant(|digits|, base, prec, width, f), f.upper), width, f)
  {
    var n, prefix, zeros := |digits|, BasePrefix(base, f.upper), Widened(|digits|, base, prec) - |digits|;
    var number := Zeros(zeros) + digits;
    var content := Content(digits, base, ZerosMeant(n, base, prec, width, f), f.upper);
    NoSpaces(content);
    PrefixThenNumber(prefix, zeros, digits);
    if f.left {
      NoSpaces(content + SpaceText(width - |content|));
    } else if f.zeroPad {
      PrefixJoins(prefix, width - |prefix| - |number|, zeros, digits);
    } else {
      SpacesFirst(SpaceText(width - |content|), prefix, number);
      NoSpaces(SpaceText(width - |content|) + content);
    }
  }

  // ---------------------------------------------------------------- what the code prints

  /** What of the prefix has room, the zeros and the digits; `gone` characters have made way. */
  function Mark(base: nat, upper: bool): string {
    if base == 16 then (if upper then "X0" else "x0") else if base == 2 then "b0" else "0"
  }

  function Filled(n: nat, prec: nat, width: nat, f: Flags): nat {
    Max(n, if f.left then 0 else Min(Max(prec, if f.zeroPad then width else 0), BUFFER_SIZE))
  }

  function Gone(len: nat, base: nat, width: nat, f: Flags): nat {
    if f.precision || len != width then 0 else if base == 16 && len > 1 then 2 else 1
  }

  lemma {:induction false} FilledIs(lastFirst: string, prec: nat, width: nat, f: Flags)
    requires SignText(false, f) == "" && 0 < |lastFirst| <= BUFFER_SIZE
    ensures PadZeros(lastFirst, false, prec, width, f)
            == lastFirst + Zeros(Filled(|lastFirst|, prec, width, f) - |lastFirst|)
    ensures |lastFirst| <= Filled(|lastFirst|, prec, width, f) <= BUFFER_SIZE
  {
  }

  lemma {:induction false} KeptReversed(digits: string, zeros: nat)
    ensures Reversed(Reversed(digits) + Zeros(zeros)) == Zeros(zeros) + digits
  {
    ReversedConcat(Reversed(digits), Zeros(zeros));
    ReversedZeros(zeros);
    ReversedTwice(digits);
  }

  lemma {:induction false} KeptOf(lastFirst: string, zeros: nat, len: nat)
    requires |lastFirst| <= len <= |lastFirst| + zeros
    ensures (lastFirst + Zeros(zeros))[..len] == lastFirst + Zeros(len - |lastFirst|)
  {
  }

  /** How many characters stay under the prefix, and how many of the prefix have room. */
  function Kept(n: nat, base: nat, prec: nat, width: nat, f: Flags): int {
    Filled(n, prec, width, f) - Gone(Filled(n, prec, width, f), base, width, f)
  }

  function Room(n: nat, base: nat, prec: nat, width: nat, f: Flags): int {
    Min(|Mark(base, f.upper)|, BUFFER_SIZE - Kept(n, base, prec, width, f))
  }

  lemma {:induction false} MarkedIs(padded: string, base: nat, prec: nat, width: nat, f: Flags, len: nat, room: nat)
    requires f.hash && 0 < |padded| <= BUFFER_SIZE && (prec > 0 ==> f.precision) && (base == 2 || base == 8 || base == 16)
    requires len == |padded| - Gone(|padded|, base, width, f) && room == Min(|Mark(base, f.upper)|, BUFFER_SIZE - len)
    ensures Prefix(padded, base, prec, width, f) == padded[..len] + Mark(base, f.upper)[..room]
  {
    PrefixIs(padded, base, prec, width, f);
  }

  /** With all digits still there: the prefix as far as there is room, zeros, digits. */
  lemma {:induction false} BuiltIs(digits: string, base: nat, prec: nat, width: nat, f: Flags, len: nat, room: nat)
    requires f.hash && SignText(false, f) == "" && (prec > 0 ==> f.precision)
    requires base == 2 || base == 8 || base == 16
    requires 0 < |digits| <= BUFFER_SIZE && |digits| <= len == Kept(|digits|, base, prec, width, f)
    requires room == Room(|digits|, base, prec, width, f)
    ensures Reversed(Built(Reversed(digits), false, base, prec, width, f))
            == Reversed(Mark(base, f.upper)[..room]) + (Zeros(len - |digits|) + digits)
  {
    var lastFirst, n := Reversed(digits), |digits|;
    var filled := Filled(n, prec, width, f);
    var padded := lastFirst + Zeros(filled - n);
    FilledIs(lastFirst, prec, width, f);
    UnsignedBuilt(lastFirst, base, prec, width, f);
    MarkedIs(padded, base, prec, width, f, len, room);
    KeptOf(lastFirst, filled - n, len);
    KeptReversed(digits, len - n);
    ReversedConcat(padded[..len], Mark(base, f.upper)[..room]);
  }

  lemma {:induction false} UnsignedBuilt(lastFirst: string, base: nat, prec: nat, width: nat, f: Flags)
    requires SignText(false, f) == ""
    ensures Built(lastFirst, false, base, prec, width, f)
            == Prefix(PadZeros(lastFirst, false, prec, width, f), base, prec, width, f)
  {
  }

  // ---------------------------------------------------------------- when they agree

  predicate Solid(s: string) {
    s != "" && s[0] != ' ' && s[|s| - 1] != ' '
  }

  lemma {:induction false} FrontSpaces(a: nat, c: string, b: nat, c': string)
    requires Solid(c) && Solid(c') && SpaceText(a) + c == SpaceText(b) + c'
    ensures c == c'
  {
    assert (SpaceText(a) + c)[a] == c[0] && (SpaceText(b) + c')[b] == c'[0];
    assert (SpaceText(a) + c)[a..] == c && (SpaceText(b) + c')[b..] == c';
  }

  lemma {:induction false} BehindSpaces(a: nat, c: string, b: nat, c': string)
    requires Solid(c) && Solid(c') && c + SpaceText(a) == c' + SpaceText(b)
    ensures c == c'
  {
    var s := c + SpaceText(a);
    assert s[|c| - 1] == c[|c| - 1] && (c' + SpaceText(b))[|c'| - 1] == c'[|c'| - 1];
    assert s[..|c|] == c && (c' + SpaceText(b))[..|c'|] == c';
  }

  /** The spaces do not hide a difference, even where one of the texts is filled with zeros. */
  lemma {:induction false} SpacesAgree(c: string, c': string, width: nat, f: Flags, f': Flags)
    requires Solid(c) && Solid(c') && f.left == f'.left && (f.zeroPad ==> f'.zeroPad)
    requires f'.zeroPad && !f'.left ==> |c'| >= width
    ensures SpacesAround(c, width, f) == SpacesAround(c', width, f') <==> c == c'
  {
    SpacedIs(c, width, f);
    SpacedIs(c', width, f');
    if SpacesAround(c, width, f) == SpacesAround(c', width, f') {
      if f.left {
        BehindSpaces(Max(width - |c|, 0), c, Max(width - |c'|, 0), c');
      } else {
        FrontSpaces(if f.zeroPad then 0 else Max(width - |c|, 0), c, if f'.zeroPad then 0 else Max(width - |c'|, 0), c');
      }
    }
  }

  lemma {:induction false} SpacedIs(c: string, width: nat, f: Flags)
    ensures SpacesAround(c, width, f) == if f.left then c + SpaceText(Max(width - |c|, 0))
                                         else SpaceText(if f.zeroPad then 0 else Max(width - |c|, 0)) + c
  {
    NoSpaces(c);
    NoSpaces(c + SpaceText(width - |c|));
    NoSpaces(SpaceText(width - |c|) + c);
  }

  lemma {:induction false} ZerosDiffer(a: nat, b: nat, digits: string)
    ensures Zeros(a) + digits == Zeros(b) + digits <==> a == b
  {
    assert |Zeros(a) + digits| == a + |digits| && |Zeros(b) + digits| == b + |digits|;
  }

  /** Printed and asked for: same prefix, same zeros. */
  lemma {:induction false} ContentIff(digits: string, base: nat, upper: bool, room: nat, zeros: nat, meant: nat)
    requires base == 2 || base == 8 || base == 16
    requires digits != "" && DigitsOf(digits, base) && room <= |Mark(base, upper)|
    ensures Reversed(Mark(base, upper)[..room]) + (Zeros(zeros) + digits) == Content(digits, base, meant, upper)
            <==> if base == 8 then meant == zeros + room else room == 2 && meant == zeros
  {
    if base == 8 {
      OctalIff(digits, upper, room, zeros, meant);
    } else if room == 2 {
      PrefixTurned(base, upper);
      SamePrefixIff(BasePrefix(base, upper), digits, zeros, meant);
    } else {
      CutPrefix(digits, base, upper, room, zeros, meant);
    }
  }

  lemma {:induction false} OctalIff(digits: string, upper: bool, room: nat, zeros: nat, meant: nat)
    requires room <= 1
    ensures Reversed(Mark(8, upper)[..room]) + (Zeros(zeros) + digits) == Content(digits, 8, meant, upper)
            <==> meant == zeros + room
  {
    ZerosDiffer(zeros + room, meant, digits);
    assert Reversed("0"[..room]) + (Zeros(zeros) + digits) == Zeros(zeros + room) + digits;
    assert Content(digits, 8, meant, upper) == Zeros(meant) + digits;
  }

  lemma {:induction false} PrefixTurned(base: nat, upper: bool)
    requires base == 2 || base == 16
    ensures Reversed(Mark(base, upper)[..2]) == BasePrefix(base, upper)
  {
  }

  lemma {:induction false} SamePrefixIff(prefix: string, digits: string, zeros: nat, meant: nat)
    ensures prefix + (Zeros(zeros) + digits) == prefix + Zeros(meant) + digits <==> zeros == meant
  {
    assert prefix + (Zeros(zeros) + digits) == prefix + Zeros(zeros) + digits;
    assert |prefix + (Zeros(zeros) + digits)| == |prefix| + zeros + |digits|;
  }

  /** Without room for the whole prefix its letter is missing, or stands first. */
  lemma {:induction false} CutPrefix(digits: string, base: nat, upper: bool, room: nat, zeros: nat, meant: nat)
    requires (base == 2 || base == 16) && room < 2 && digits != "" && DigitsOf(digits, base)
    ensures Reversed(Mark(base, upper)[..room]) + (Zeros(zeros) + digits) != Content(digits, base, meant, upper)
  {
    var printed, asked := Reversed(Mark(base, upper)[..room]) + (Zeros(zeros) + digits), Content(digits, base, meant, upper);
    assert asked[0] == '0' && asked[1] == BasePrefix(base, upper)[1];
    if room == 1 {
      assert printed[0] == Mark(base, upper)[0];
    } else if |printed| > 1 {
      assert printed == Zeros(zeros) + digits;
      DigitOrZero(zeros, digits, base, 1);
    }
  }

  lemma {:induction false} DigitOrZero(zeros: nat, digits: string, base: nat, i: nat)
    requires DigitsOf(digits, base) && (base == 2 || base == 16) && i < zeros + |digits|
    ensures (Zeros(zeros) + digits)[i] != 'x' && (Zeros(zeros) + digits)[i] != 'X'
    ensures base == 2 ==> (Zeros(zeros) + digits)[i] != 'b'
  {
    if i >= zeros {
      assert (Zeros(zeros) + digits)[i] == digits[i - zeros];
    }
  }

  // ---------------------------------------------------------------- the condition

  /** `n` digits, with precision and width: the text is the standard's. */
  predicate HashConforms(n: nat, base: nat, prec: nat, width: nat, f: Flags) {
    && n <= BUFFER_SIZE && (base != 8 ==> n + 2 <= BUFFER_SIZE)
    && if f.precision then
         if base != 8 then prec + 2 <= BUFFER_SIZE && (f.left ==> prec <= n)
         else if f.left then prec <= n + 1
         else prec <= n || prec == BUFFER_SIZE
       else
         && n != width
         && (f.zeroPad && !f.left && width > n ==>
               width <= BUFFER_SIZE && (base == 16 ==> width != n + 1) && (base == 2 ==> width == n + 1))
  }

  lemma {:induction false} KeptIff(n: nat, base: nat, prec: nat, width: nat, f: Flags)
    requires 0 < n <= BUFFER_SIZE && (prec > 0 ==> f.precision) && (base == 2 || base == 8 || base == 16)
    ensures n <= Kept(n, base, prec, width, f) <==> !PrefixTakesDigits(n, base, width, f)
    ensures Kept(n, base, prec, width, f) <= BUFFER_SIZE
  {
  }

  /** Same prefix and same zeros, in numbers. */
  lemma {:induction false} ConformsIff(n: nat, base: nat, prec: nat, width: nat, f: Flags)
    requires 0 < n <= BUFFER_SIZE && (base == 8 ==> n <= 22) && (prec > 0 ==> f.precision) && (f.zeroPad ==> !f.precision)
    requires base == 2 || base == 8 || base == 16
    requires !PrefixTakesDigits(n, base, width, f)
    ensures var len, room, meant := Kept(n, base, prec, width, f), Room(n, base, prec, width, f),
                                    ZerosMeant(n, base, prec, width, f);
            HashConforms(n, base, prec, width, f)
            <==> if base == 8 then meant == len - n + room else room == 2 && meant == len - n
  {
    KeptIff(n, base, prec, width, f);
  }

  lemma {:induction false} TakenDoesNotConform(n: nat, base: nat, prec: nat, width: nat, f: Flags)
    requires n > BUFFER_SIZE || PrefixTakesDigits(n, base, width, f)
    ensures !HashConforms(n, base, prec, width, f)
  {
  }

  // ---------------------------------------------------------------- the text

  lemma {:induction false} SolidContent(head: string, zeros: nat, digits: string, base: nat)
    requires digits != "" && DigitsOf(digits, base) && (head == "" || head[0] != ' ')
    ensures Solid(head + (Zeros(zeros) + digits)) && Solid(head + Zeros(zeros) + digits)
  {
    var s := head + (Zeros(zeros) + digits);
    assert s[|s| - 1] == digits[|digits| - 1];
    assert s == head + Zeros(zeros) + digits;
    assert digits[0] != ' ' && digits[|digits| - 1] != ' ';
    assert s[0] == if head != "" then head[0] else if zeros > 0 then '0' else digits[0];
  }

  lemma {:induction false} MarkSolid(base: nat, upper: bool, room: nat)
    requires room <= |Mark(base, upper)|
    ensures var head := Reversed(Mark(base, upper)[..room]); head == "" || head[0] != ' '
  {
  }

  lemma {:induction false} SameContentIff(
      digits: string, base: nat, prec: nat, width: nat, f: Flags, len: nat, room: nat, meant: nat, f': Flags)
    requires base == 2 || base == 8 || base == 16
    requires digits != "" && DigitsOf(digits, base) && room <= |Mark(base, f.upper)| && |digits| <= len
    requires f.left == f'.left && f.upper == f'.upper && (f.zeroPad ==> f'.zeroPad)
    requires f'.zeroPad && !f'.left ==> meant >= width - |BasePrefix(base, f.upper)| - |digits|
    ensures SpacesAround(Reversed(Mark(base, f.upper)[..room]) + (Zeros(len - |digits|) + digits), width, f)
            == SpacesAround(Content(digits, base, meant, f'.upper), width, f')
            <==> if base == 8 then meant == len - |digits| + room else room == 2 && meant == len - |digits|
  {
    MarkSolid(base, f.upper, room);
    SolidContent(Reversed(Mark(base, f.upper)[..room]), len - |digits|, digits, base);
    SolidContent(BasePrefix(base, f.upper), meant, digits, base);
    SpacesAgree(Reversed(Mark(base, f.upper)[..room]) + (Zeros(len - |digits|) + digits),
                Content(digits, base, meant, f.upper), width, f, f');
    ContentIff(digits, base, f.upper, room, len - |digits|, meant);
  }

  lemma {:induction false} TextAround(lastFirst: string, base: nat, prec: nat, width: nat, f: Flags)
    ensures NumberText(lastFirst, false, base, prec, width, f)
            == SpacesAround(Reversed(Built(lastFirst, false, base, prec, width, f)), width, f)
  {
  }

  /** A number with all its digits shown, read under `f` and `prec` and meant under `f'` and `prec'`. */
  lemma {:induction false} ShownIff(digits: string, base: nat, prec: nat, width: nat, f: Flags, prec': nat, f': Flags)
    requires base == 2 || base == 8 || base == 16
    requires 0 < |digits| <= BUFFER_SIZE && DigitsOf(digits, base)
    requires f.hash && SignText(false, f) == "" && (prec > 0 ==> f.precision)
    requires f.left == f'.left && f.upper == f'.upper && (f.zeroPad ==> f'.zeroPad)
    requires !PrefixTakesDigits(|digits|, base, width, f)
    ensures var n := |digits|;
            var len, room, meant := Kept(n, base, prec, width, f), Room(n, base, prec, width, f),
                                    ZerosMeant(n, base, prec', width, f');
            NumberText(Reversed(digits), false, base, prec, width, f) == Layout(digits, base, prec', width, f')
            <==> if base == 8 then meant == len - n + room else room == 2 && meant == len - n
  {
    var n := |digits|;
    var len, room, meant := Kept(n, base, prec, width, f), Room(n, base, prec, width, f), ZerosMeant(n, base, prec', width, f');
    KeptIff(n, base, prec, width, f);
    LayoutIs(digits, base, prec', width, f');
    BuiltIs(digits, base, prec, width, f, len, room);
    TextAround(Reversed(digits), base, prec, width, f);
    SameContentIff(digits, base, prec, width, f, len, room, meant, f');
  }

  /** What the standard asks for ends in all digits. */
  lemma {:induction false} LayoutEnds(digits: string, base: nat, prec: nat, width: nat, f: Flags)
    requires digits != "" && DigitsOf(digits, base) && (base == 2 || base == 8 || base == 16)
    ensures EndsWith(Stripped(Layout(digits, base, prec, width, f)), digits)
  {
    var zeros := ZerosMeant(|digits|, base, prec, width, f);
    LayoutIs(digits, base, prec, width, f);
    SolidContent(BasePrefix(base, f.upper), zeros, digits, base);
    ContentEnds(BasePrefix(base, f.upper) + Zeros(zeros), digits);
    AroundEnds(Content(digits, base, zeros, f.upper), digits, width, f);
  }

  lemma {:induction false} ContentEnds(front: string, digits: string)
    ensures EndsWith(front + digits, digits)
  {
  }

  lemma {:induction false} AroundEnds(content: string, digits: string, width: nat, f: Flags)
    requires Solid(content) && EndsWith(content, digits)
    ensures EndsWith(Stripped(SpacesAround(content, width, f)), digits)
  {
    var spaces := SpaceText(if !f.left && !f.zeroPad then width - |content| else 0);
    assert (spaces + content)[|spaces| + |content| - 1] == content[|content| - 1];
    StrippedIs(spaces + content, if f.left then width - |content| else 0);
    EndsFurther(spaces, content, digits);
  }

  lemma {:induction false} EndsFurther(front: string, content: string, digits: string)
    requires EndsWith(content, digits)
    ensures EndsWith(front + content, digits)
  {
  }

  lemma {:induction false} NumberIs(value: nat, base: nat, prec: nat, width: nat, f: Flags)
    requires 2 <= base <= 16 && value > 0 && |Numeral(value, base, f.upper)| <= BUFFER_SIZE
    ensures LongText(value, false, base, prec, width, f)
            == NumberText(Reversed(Numeral(value, base, f.upper)), false, base, prec, width, f)
  {
    BufferHoldsShown(value, base, f);
  }

  /** Lost digits are not what the standard asks for, with whatever precision and fill. */
  lemma {:induction false} LostIsNotStandard(value: nat, base: nat, prec: nat, width: nat, f: Flags, prec': nat, f': Flags)
    requires Regular(value, false, base, prec, f) && f.hash && SignText(false, f) == "" && base != 10 && value > 0
    requires var n := |Numeral(value, base, f.upper)|; n > BUFFER_SIZE || PrefixTakesDigits(n, base, width, f)
    ensures LongText(value, false, base, prec, width, f) != Layout(Numeral(value, base, f.upper), base, prec', width, f')
  {
    NumeralShows(value, base, f.upper);
    HashShowsDigitsIff(value, base, prec, width, f);
    LayoutEnds(Numeral(value, base, f.upper), base, prec', width, f');
  }

  /**
   * With '#' a number other than zero is printed as the standard asks if and only if its digits and prefix have room,
   * no digit makes way for the prefix, and zeros are added neither under '-' nor one too many: a precision in base 8,
   * a width in base 2.
   */
  lemma {:induction false} HashIsStandardIff(value: nat, base: nat, prec: nat, width: nat, f: Flags)
    requires Regular(value, false, base, prec, f) && f.hash && SignText(false, f) == "" && base != 10 && value > 0
    ensures var digits := Numeral(value, base, f.upper);
            LongText(value, false, base, prec, width, f) == Layout(digits, base, prec, width, f)
            <==> HashConforms(|digits|, base, prec, width, f)
  {
    var digits := Numeral(value, base, f.upper);
    NumeralFits(value, base, f.upper);
    NumeralShows(value, base, f.upper);
    if |digits| > BUFFER_SIZE || PrefixTakesDigits(|digits|, base, width, f) {
      LostIsNotStandard(value, base, prec, width, f, prec, f);
      TakenDoesNotConform(|digits|, base, prec, width, f);
    } else {
      NumberIs(value, base, prec, width, f);
      ShownIff(digits, base, prec, width, f, prec, f);
      ConformsIff(|digits|, base, prec, width, f);
    }
  }

  /** Zero is printed as if there were no '#'. */
  lemma {:induction false} ZeroDropsHash(base: nat, prec: nat, width: nat, f: Flags)
    requires 2 <= base <= 16
    ensures LongText(0, false, base, prec, width, f) == LongText(0, false, base, prec, width, f.(hash := false))
  {
  }
}
