/** How the standard writes a directive, and that the code's parser reads it as written. */
module Directives {
  import opened Text
  import opened Digits
  import opened IntegerText
  import opened Formatter

  /** A width or the number behind the point: left out, digits, or taken from the arguments. */
  datatype Field = Absent | Written(digits: string) | Star

  datatype Precision = NoPoint | Point(n: Field)

  /** A directive without its percent sign (ISO/IEC 9899:2011 section 7.21.6.1, paragraph 4). */
  datatype Parts = Parts(flags: string, width: Field, precision: Precision, length: string, conversion: char)

  predicate AllDigits(s: string) {
    forall i :: 0 <= i < |s| ==> IsDigit(s[i])
  }

  predicate IsLength(l: string) {
    || l == "" || (|l| == 1 && l[0] in "hljzt")
    || (|l| == 2 && l[0] == l[1] && l[0] in "hl")
  }

  /** Any character can stand for a conversion that could not be part of what comes before it. */
  predicate IsConversion(c: char) {
    c !in "-+ #0" && !IsDigit(c) && c !in ".*" && c !in "hljzt"
  }

  /** Digits of a width do not begin with the '0' flag. */
  predicate WellFormed(p: Parts) {
    && (forall i :: 0 <= i < |p.flags| ==> p.flags[i] in "-+ #0")
    && (p.width.Written? ==> p.width.digits != "" && AllDigits(p.width.digits) && p.width.digits[0] != '0')
    && (p.precision.Point? && p.precision.n.Written? ==>
          p.precision.n.digits != "" && AllDigits(p.precision.n.digits))
    && IsLength(p.length)
    && IsConversion(p.conversion)
  }

  predicate IntegerDirective(p: Parts) {
    WellFormed(p) && p.conversion in "diuoxXb"
  }

  function SpellField(f: Field): string {
    match f
    case Absent => ""
    case Written(digits) => digits
    case Star => "*"
  }

  function SpellPrecision(p: Precision): string {
    if p.Point? then "." + SpellField(p.n) else ""
  }

  function Spell(p: Parts): string {
    p.flags + (SpellField(p.width) + (SpellPrecision(p.precision) + (p.length + [p.conversion])))
  }

  /** `text` stands in `s` from `pos` on. */
  predicate Here(s: string, pos: nat, text: string) {
    pos + |text| <= |s| && s[pos..pos + |text|] == text
  }

  lemma {:induction false} HereSplits(s: string, pos: nat, a: string, b: string)
    requires Here(s, pos, a + b)
    ensures Here(s, pos, a) && Here(s, pos + |a|, b)
  {
    assert s[pos..pos + |a|] == s[pos..pos + |a + b|][..|a|];
    assert s[pos + |a|..pos + |a| + |b|] == s[pos..pos + |a + b|][|a|..];
  }

  lemma {:induction false} HereAt(s: string, pos: nat, text: string, i: nat)
    requires Here(s, pos, text) && i < |text|
    ensures s[pos + i] == text[i]
  {
    assert s[pos..pos + |text|][i] == s[pos + i];
  }

  // ---------------------------------------------------------------- arguments

  function Stars(f: Field): nat {
    if f.Star? then 1 else 0
  }

  function PointStars(p: Precision): nat {
    if p.Point? then Stars(p.n) else 0
  }

  function AllStars(p: Parts): nat {
    Stars(p.width) + PointStars(p.precision)
  }

  /** The arguments of the stars are there, in the range of `int`. */
  predicate StarsGiven(p: Parts, args: seq<Arg>) {
    && |args| >= AllStars(p)
    && (forall i :: 0 <= i < AllStars(p) ==> args[i].NumberArg? && -0x8000_0000 <= args[i].value < 0x8000_0000)
  }

  /** And so is a number for the conversion. */
  predicate Given(p: Parts, args: seq<Arg>) {
    StarsGiven(p, args) && |args| > AllStars(p) && args[AllStars(p)].NumberArg?
  }

  /** The number a field stands for; `i` is the place of its star's argument. */
  function FieldValue(f: Field, args: seq<Arg>, i: nat): int
    requires f.Star? ==> i < |args| && args[i].NumberArg?
  {
    match f
    case Absent => 0
    case Written(digits) => Number(digits)
    case Star => args[i].value
  }

  function WidthValue(p: Parts, args: seq<Arg>): int
    requires StarsGiven(p, args)
  {
    FieldValue(p.width, args, 0)
  }

  /** What stands behind the point; 0 for nothing at all. */
  function PointValue(p: Parts, args: seq<Arg>): int
    requires StarsGiven(p, args) && p.precision.Point?
  {
    FieldValue(p.precision.n, args, Stars(p.width))
  }

  function Value(p: Parts, args: seq<Arg>): int
    requires Given(p, args)
  {
    args[AllStars(p)].value
  }

  // ---------------------------------------------------------------- the parser reads what is written

  lemma {:induction false} NumberOfDigits(digits: string)
    requires AllDigits(digits)
    ensures Number(digits) >= 0
  {
    if digits != "" {
      NumberOfDigits(digits[..|digits| - 1]);
    }
  }

  /** Which flags were written, in whatever order and however often. */
  function FlagsOf(flags: string): Flags {
    Flags('0' in flags, '-' in flags, '+' in flags, ' ' in flags, '#' in flags, false, false)
  }

  lemma {:induction false} FlagsCollected(flags: string)
    ensures CollectFlags(flags) == FlagsOf(flags)
  {
    if flags != "" {
      var n := |flags| - 1;
      FlagsCollected(flags[..n]);
      assert flags == flags[..n] + [flags[n]];
    }
  }

  lemma {:induction false} FlagsEndAt(s: string, pos: nat, flags: string)
    requires Here(s, pos, flags) && pos + |flags| < |s| && !IsFlag(s[pos + |flags|])
    requires forall i :: 0 <= i < |flags| ==> IsFlag(flags[i])
    ensures FlagsEnd(s, pos) == pos + |flags|
    decreases |flags|
  {
    if flags != "" {
      HereAt(s, pos, flags, 0);
      assert flags == [flags[0]] + flags[1..];
      HereSplits(s, pos, [flags[0]], flags[1..]);
      FlagsEndAt(s, pos + 1, flags[1..]);
    }
  }

  lemma {:induction false} FlagsRead(s: string, pos: nat, flags: string)
    requires Here(s, pos, flags) && pos + |flags| < |s| && !IsFlag(s[pos + |flags|])
    requires forall i :: 0 <= i < |flags| ==> IsFlag(flags[i])
    ensures ParseFlags(s, pos) == Directive(true, FlagsOf(flags), 0, 0, IntSize, pos + |flags|, [])
  {
    FlagsEndAt(s, pos, flags);
    FlagsCollected(flags);
  }

  lemma {:induction false} DigitsEndAt(s: string, pos: nat, digits: string)
    requires Here(s, pos, digits) && AllDigits(digits) && pos + |digits| < |s| && !IsDigit(s[pos + |digits|])
    ensures DigitsEnd(s, pos) == pos + |digits|
  {
    forall i | pos <= i < pos + |digits|
      ensures IsDigit(s[i])
    {
      HereAt(s, pos, digits, i - pos);
    }
    EndIs(s, pos, pos + |digits|);
  }

  lemma {:induction false} AbsentRead(s: string, pos: nat)
    requires pos < |s| && !IsDigit(s[pos])
    ensures DigitsEnd(s, pos) == pos
  {
  }

  function Magnitude(w: int): nat {
    if w < 0 then -w else w
  }

  lemma {:induction false} WidthRead(s: string, d: Directive, width: Field)
    requires Here(s, d.at, SpellField(width)) && d.at + |SpellField(width)| < |s|
    requires width.Written? ==> width.digits != "" && AllDigits(width.digits)
    requires d.width == 0 && (width.Star? ==> StarSupplied(d.args) && -0x8000_0000 <= d.args[0].value < 0x8000_0000)
    requires var next := s[d.at + |SpellField(width)|]; !IsDigit(next) && next != '*'
    ensures var w := FieldValue(width, d.args, 0);
            ParseWidth(s, d) == d.(f := if w < 0 then d.f.(left := true) else d.f, width := Magnitude(w) % WORD32,
                                   at := d.at + |SpellField(width)|, args := d.args[Stars(width)..])
  {
    match width {
      case Absent =>
        AbsentRead(s, d.at);
      case Written(digits) =>
        DigitsEndAt(s, d.at, digits);
        NumberOfDigits(digits);
      case Star =>
        HereAt(s, d.at, "*", 0);
        AbsentRead(s, d.at);
    }
  }

  lemma {:induction false} PointRead(s: string, d: Directive, n: Field)
    requires Here(s, d.at, "." + SpellField(n)) && d.at + 1 + |SpellField(n)| < |s|
    requires n.Written? ==> n.digits != "" && AllDigits(n.digits)
    requires d.prec == 0 && (n.Star? ==> StarSupplied(d.args) && -0x8000_0000 <= d.args[0].value < 0x8000_0000)
    requires var next := s[d.at + 1 + |SpellField(n)|]; !IsDigit(next) && next != '*'
    ensures var v := FieldValue(n, d.args, 0);
            ParsePrecision(s, d) == d.(f := d.f.(precision := true), prec := (if v < 0 then 0 else v) % WORD32,
                                       at := d.at + 1 + |SpellField(n)|, args := d.args[Stars(n)..])
  {
    HereAt(s, d.at, "." + SpellField(n), 0);
    HereSplits(s, d.at, ".", SpellField(n));
    match n {
      case Absent =>
        AbsentRead(s, d.at + 1);
      case Written(digits) =>
        DigitsEndAt(s, d.at + 1, digits);
        NumberOfDigits(digits);
      case Star =>
        HereAt(s, d.at + 1, "*", 0);
        AbsentRead(s, d.at + 1);
    }
  }

  function SizeOf(length: string): Size {
    if length == "" then IntSize
    else if length[0] == 'h' then (if |length| == 2 then CharSize else ShortSize)
    else if |length| == 2 || length[0] == 'j' then LongLongSize
    else LongSize
  }

  lemma {:induction false} SizeRead(s: string, d: Directive, length: string, conversion: char)
    requires Here(s, d.at, length + [conversion]) && d.size == IntSize
    requires IsLength(length) && IsConversion(conversion)
    ensures ParseSize(s, d) == d.(size := SizeOf(length), at := d.at + |length|)
  {
    var text := length + [conversion];
    HereAt(s, d.at, text, 0);
    if |length| > 0 {
      HereAt(s, d.at, text, 1);
    }
  }

  /** The directive as it is written: up to its flags, its width, its precision, and complete. */
  function FlagsWritten(p: Parts, pos: nat, args: seq<Arg>): Directive {
    Directive(true, FlagsOf(p.flags), 0, 0, IntSize, pos + |p.flags|, args)
  }

  function WidthWritten(p: Parts, pos: nat, args: seq<Arg>): Directive
    requires StarsGiven(p, args)
  {
    var w, f := WidthValue(p, args), FlagsOf(p.flags);
    Directive(true, if w < 0 then f.(left := true) else f, Magnitude(w) % WORD32, 0, IntSize,
              pos + |p.flags| + |SpellField(p.width)|, args[Stars(p.width)..])
  }

  function PointWritten(p: Parts, pos: nat, args: seq<Arg>): Directive
    requires StarsGiven(p, args)
  {
    var d, v := WidthWritten(p, pos, args), if p.precision.Point? then PointValue(p, args) else 0;
    d.(f := d.f.(precision := p.precision.Point?), prec := (if v < 0 then 0 else v) % WORD32,
       at := d.at + |SpellPrecision(p.precision)|, args := d.args[PointStars(p.precision)..])
  }

  function AsWritten(p: Parts, pos: nat, args: seq<Arg>): Directive
    requires StarsGiven(p, args)
  {
    var d := PointWritten(p, pos, args);
    d.(size := SizeOf(p.length), at := d.at + |p.length|)
  }

  /** Characters that can follow a width: none of them is a flag, a digit or a star. */
  lemma {:induction false} NextCharacter(s: string, pos: nat, p: Parts)
    requires WellFormed(p) && Here(s, pos, SpellPrecision(p.precision) + (p.length + [p.conversion]))
    ensures pos < |s| && !IsDigit(s[pos]) && s[pos] != '*' && !IsFlag(s[pos])
    ensures p.precision.NoPoint? ==> s[pos] != '.'
  {
    var text := SpellPrecision(p.precision) + (p.length + [p.conversion]);
    HereAt(s, pos, text, 0);
    if p.precision.NoPoint? {
      assert text == p.length + [p.conversion];
    }
  }

  lemma {:induction false} AfterFlags(s: string, pos: nat, p: Parts)
    requires WellFormed(p)
    requires Here(s, pos, SpellField(p.width) + (SpellPrecision(p.precision) + (p.length + [p.conversion])))
    ensures pos < |s| && !IsFlag(s[pos])
  {
    var rest := SpellPrecision(p.precision) + (p.length + [p.conversion]);
    HereSplits(s, pos, SpellField(p.width), rest);
    if p.width.Absent? {
      NextCharacter(s, pos, p);
    } else {
      HereAt(s, pos, SpellField(p.width), 0);
    }
  }

  lemma {:induction false} NoPointRead(s: string, d: Directive)
    requires d.at < |s| && s[d.at] != '.'
    ensures ParsePrecision(s, d) == d
  {
  }

  lemma {:induction false} PrecisionRead(s: string, d: Directive, p: Parts)
    requires WellFormed(p) && Here(s, d.at, SpellPrecision(p.precision) + (p.length + [p.conversion]))
    requires d.prec == 0 && !d.f.precision
    requires PointStars(p.precision) == 1 ==> StarSupplied(d.args) && -0x8000_0000 <= d.args[0].value < 0x8000_0000
    ensures var v := if p.precision.Point? then FieldValue(p.precision.n, d.args, 0) else 0;
            ParsePrecision(s, d) == d.(f := d.f.(precision := p.precision.Point?), prec := (if v < 0 then 0 else v) % WORD32,
                                       at := d.at + |SpellPrecision(p.precision)|, args := d.args[PointStars(p.precision)..])
  {
    var rest := p.length + [p.conversion];
    HereSplits(s, d.at, SpellPrecision(p.precision), rest);
    if p.precision.Point? {
      HereAt(s, d.at + |SpellPrecision(p.precision)|, rest, 0);
      PointRead(s, d, p.precision.n);
    } else {
      NextCharacter(s, d.at, p);
      NoPointRead(s, d);
    }
  }

  lemma {:induction false} FlagsStage(s: string, pos: nat, p: Parts, args: seq<Arg>)
    requires WellFormed(p) && Here(s, pos, Spell(p))
    ensures ParseFlags(s, pos).(args := args) == FlagsWritten(p, pos, args)
    ensures Here(s, pos + |p.flags|, SpellField(p.width) + (SpellPrecision(p.precision) + (p.length + [p.conversion])))
  {
    HereSplits(s, pos, p.flags, SpellField(p.width) + (SpellPrecision(p.precision) + (p.length + [p.conversion])));
    AfterFlags(s, pos + |p.flags|, p);
    FlagsRead(s, pos, p.flags);
  }

  lemma {:induction false} WidthStage(s: string, pos: nat, p: Parts, args: seq<Arg>)
    requires WellFormed(p) && StarsGiven(p, args)
    requires Here(s, pos + |p.flags|, SpellField(p.width) + (SpellPrecision(p.precision) + (p.length + [p.conversion])))
    ensures FlagsWritten(p, pos, args).at <= |s|
    ensures ParseWidth(s, FlagsWritten(p, pos, args)) == WidthWritten(p, pos, args)
    ensures Here(s, WidthWritten(p, pos, args).at, SpellPrecision(p.precision) + (p.length + [p.conversion]))
  {
    var d := FlagsWritten(p, pos, args);
    HereSplits(s, d.at, SpellField(p.width), SpellPrecision(p.precision) + (p.length + [p.conversion]));
    NextCharacter(s, d.at + |SpellField(p.width)|, p);
    if p.width.Star? {
      FirstStar(p, args);
    }
    WidthRead(s, d, p.width);
  }

  lemma {:induction false} FirstStar(p: Parts, args: seq<Arg>)
    requires StarsGiven(p, args) && p.width.Star?
    ensures StarSupplied(args) && -0x8000_0000 <= args[0].value < 0x8000_0000
  {
  }

  lemma {:induction false} PointStage(s: string, pos: nat, p: Parts, args: seq<Arg>)
    requires WellFormed(p) && StarsGiven(p, args)
    requires Here(s, WidthWritten(p, pos, args).at, SpellPrecision(p.precision) + (p.length + [p.conversion]))
    ensures ParsePrecision(s, WidthWritten(p, pos, args)) == PointWritten(p, pos, args)
    ensures Here(s, PointWritten(p, pos, args).at, p.length + [p.conversion])
  {
    var d := WidthWritten(p, pos, args);
    assert PointStars(p.precision) == 1 ==> d.args[0] == args[Stars(p.width)];
    HereSplits(s, d.at, SpellPrecision(p.precision), p.length + [p.conversion]);
    PrecisionRead(s, d, p);
  }

  lemma {:induction false} SizeStage(s: string, pos: nat, p: Parts, args: seq<Arg>)
    requires WellFormed(p) && StarsGiven(p, args) && Here(s, PointWritten(p, pos, args).at, p.length + [p.conversion])
    ensures ParseSize(s, PointWritten(p, pos, args)) == AsWritten(p, pos, args)
  {
    SizeRead(s, PointWritten(p, pos, args), p.length, p.conversion);
  }

  lemma {:induction false} LastStage(s: string, pos: nat, p: Parts, args: seq<Arg>)
    requires WellFormed(p) && StarsGiven(p, args) && Here(s, PointWritten(p, pos, args).at, p.length + [p.conversion])
    ensures AsWritten(p, pos, args).at < |s| && s[AsWritten(p, pos, args).at] == p.conversion
  {
    HereAt(s, PointWritten(p, pos, args).at, p.length + [p.conversion], |p.length|);
  }

  /** Every well-formed directive, wherever it stands and whatever follows, is read as it is written. */
  lemma {:induction false} ReadAsWritten(s: string, pos: nat, p: Parts, args: seq<Arg>)
    requires WellFormed(p) && StarsGiven(p, args) && Here(s, pos, Spell(p))
    ensures Parse(s, pos, args) == AsWritten(p, pos, args)
    ensures AsWritten(p, pos, args).at < |s| && s[AsWritten(p, pos, args).at] == p.conversion
  {
    FlagsStage(s, pos, p, args);
    WidthStage(s, pos, p, args);
    PointStage(s, pos, p, args);
    SizeStage(s, pos, p, args);
    LastStage(s, pos, p, args);
  }

  /** It takes exactly its own characters and arguments. */
  lemma {:induction false} TakesItsOwn(p: Parts, pos: nat, args: seq<Arg>)
    requires StarsGiven(p, args)
    ensures AsWritten(p, pos, args).at + 1 == pos + |Spell(p)| && AsWritten(p, pos, args).args == args[AllStars(p)..]
    ensures |args| > AllStars(p) ==>
              AsWritten(p, pos, args).args != [] && AsWritten(p, pos, args).args[0] == args[AllStars(p)]
              && AsWritten(p, pos, args).args[1..] == args[AllStars(p) + 1..]
  {
  }
}
