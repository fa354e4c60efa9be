/** Whole formats: plain text and directives in any order, and what a format of standard directives prints. */
module Formats {
  import opened Digits
  import opened FloatText
  import opened Formatter
  import opened Directives
  import opened TextDirectives
  import opened StandardText
  import opened FixedDirectives
  import opened ExponentDirectives
  import opened HashDirectives

  datatype Item = Chars(chars: string) | Dir(p: Parts)

  predicate GoodItem(item: Item) {
    match item
    case Chars(chars) => '%' !in chars
    case Dir(p) => WellFormed(p)
  }

  predicate AllGood(items: seq<Item>) {
    forall i :: 0 <= i < |items| ==> GoodItem(items[i])
  }

  function SpellItem(item: Item): string {
    match item
    case Chars(chars) => chars
    case Dir(p) => "%" + Spell(p)
  }

  function SpellAll(items: seq<Item>): string {
    if items == [] then "" else SpellItem(items[0]) + SpellAll(items[1..])
  }

  /** How many arguments an item takes: its stars, and one for a conversion that does not print itself. */
  function Takes(item: Item): nat {
    match item
    case Chars(_) => 0
    case Dir(p) => AllStars(p) + if PrintsItself(p.conversion) then 0 else 1
  }

  /** The item's arguments are there, of the types its conversion wants. */
  predicate ItemGiven(item: Item, args: seq<Arg>) {
    match item
    case Chars(_) => true
    case Dir(p) => StarsGiven(p, args) && ArgSupplied(p.conversion, AsWritten(p, 0, args))
  }

  predicate AllGiven(items: seq<Item>, args: seq<Arg>) {
    items != [] ==> ItemGiven(items[0], args) && Takes(items[0]) <= |args| && AllGiven(items[1..], args[Takes(items[0])..])
  }

  /** What an item prints. */
  function ItemText(item: Item, args: seq<Arg>): string
    requires ItemGiven(item, args)
  {
    match item
    case Chars(chars) => chars
    case Dir(p) => ConversionText(p.conversion, AsWritten(p, 0, args))
  }

  function AllText(items: seq<Item>, args: seq<Arg>): string
    requires AllGiven(items, args)
  {
    if items == [] then "" else ItemText(items[0], args) + AllText(items[1..], args[Takes(items[0])..])
  }

  // ---------------------------------------------------------------- pieces of a format

  lemma {:induction false} JoinThree(a: string, b: string, c: string)
    ensures a + b + c == a + (b + c)
  {
  }

  lemma {:induction false} HeadMore(p: Piece, front: seq<Piece>, last: Piece)
    requires Printable(p) && Printable(last) && AllPrintable(front) && AllPrintable([p] + front)
    requires TextOf([p] + front) == PieceText(p) + TextOf(front)
    ensures AllPrintable([p] + (front + [last])) && AllPrintable(front + [last])
    ensures TextOf([p] + (front + [last])) == PieceText(p) + TextOf(front + [last])
  {
    TextOfOneMore([p] + front, last);
    TextOfOneMore(front, last);
    assert [p] + front + [last] == [p] + (front + [last]);
    JoinThree(PieceText(p), TextOf(front), PieceText(last));
  }

  lemma {:induction false} FrontAndLast(pieces: seq<Piece>, front: seq<Piece>, last: Piece)
    requires AllPrintable(pieces) && pieces != [] && front == pieces[..|pieces| - 1] && last == pieces[|pieces| - 1]
    ensures pieces == front + [last] && AllPrintable(front) && Printable(last)
  {
  }

  /** The text of a format begins with that of its first piece. */
  lemma {:induction false} TextOfHead(p: Piece, rest: seq<Piece>)
    requires Printable(p) && AllPrintable(rest)
    ensures AllPrintable([p] + rest) && TextOf([p] + rest) == PieceText(p) + TextOf(rest)
  {
    if rest == [] {
      OnePiece(p);
      assert [p] + rest == [p] && PieceText(p) + "" == PieceText(p);
    } else {
      var front, last := rest[..|rest| - 1], rest[|rest| - 1];
      FrontAndLast(rest, front, last);
      TextOfHead(p, front);
      HeadMore(p, front, last);
    }
  }

  lemma {:induction false} OnePlainRead(s: string, pos: nat, args: seq<Arg>)
    requires pos < |s| && s[pos] != '%' && Supplied(s, pos + 1, args)
    ensures Supplied(s, pos, args) && TextOf(Pieces(s, pos, args)) == [s[pos]] + TextOf(Pieces(s, pos + 1, args))
  {
    TextOfHead(Plain(s[pos]), Pieces(s, pos + 1, args));
  }

  lemma {:induction false} FirstOfPlain(s: string, pos: nat, chars: string)
    requires chars != "" && Here(s, pos, chars) && '%' !in chars
    ensures pos < |s| && s[pos] == chars[0] != '%' && Here(s, pos + 1, chars[1..]) && '%' !in chars[1..]
  {
    HereAt(s, pos, chars, 0);
    assert chars == [chars[0]] + chars[1..];
    HereSplits(s, pos, [chars[0]], chars[1..]);
  }

  lemma {:induction false} CharsJoin(chars: string, rest: string)
    requires chars != ""
    ensures [chars[0]] + (chars[1..] + rest) == chars + rest
  {
  }

  lemma {:induction false} PlainMore(s: string, pos: nat, chars: string, args: seq<Arg>, text: string)
    requires chars != "" && Here(s, pos, chars) && '%' !in chars
    requires Supplied(s, pos + 1, args) && TextOf(Pieces(s, pos + 1, args)) == chars[1..] + text
    ensures Supplied(s, pos, args) && TextOf(Pieces(s, pos, args)) == chars + text
  {
    FirstOfPlain(s, pos, chars);
    OnePlainRead(s, pos, args);
    CharsJoin(chars, text);
  }

  lemma {:induction false} NoneMore(s: string, pos: nat, args: seq<Arg>, text: string)
    requires Supplied(s, pos, args) && TextOf(Pieces(s, pos, args)) == text
    ensures TextOf(Pieces(s, pos, args)) == "" + text
  {
  }

  /** Plain characters are printed as they are. */
  lemma {:induction false} PlainIsRead(s: string, pos: nat, chars: string, args: seq<Arg>, end: nat, text: string)
    requires Here(s, pos, chars) && '%' !in chars && end == pos + |chars|
    requires Supplied(s, end, args) && text == TextOf(Pieces(s, end, args))
    ensures Supplied(s, pos, args)
    ensures TextOf(Pieces(s, pos, args)) == chars + text
    decreases |chars|
  {
    if chars == "" {
      NoneMore(s, pos, args, text);
    } else {
      FirstOfPlain(s, pos, chars);
      PlainIsRead(s, pos + 1, chars[1..], args, end, text);
      PlainMore(s, pos, chars, args, text);
    }
  }

  lemma {:induction false} PlaceIsIrrelevant(c: char, d: Directive, at: nat)
    ensures ArgSupplied(c, d) <==> ArgSupplied(c, d.(at := at))
    ensures ArgSupplied(c, d) ==> ConversionText(c, d) == ConversionText(c, d.(at := at))
  {
  }

  lemma {:induction false} WrittenElsewhere(p: Parts, pos: nat, args: seq<Arg>)
    requires StarsGiven(p, args)
    ensures AsWritten(p, pos, args) == AsWritten(p, 0, args).(at := pos + |Spell(p)| - 1)
  {
  }

  lemma {:induction false} ArgumentsLeft(p: Parts, pos: nat, args: seq<Arg>)
    requires WellFormed(p) && ItemGiven(Dir(p), args)
    ensures Takes(Dir(p)) <= |args|
    ensures ArgsAfter(p.conversion, AsWritten(p, pos, args)) == args[Takes(Dir(p))..]
  {
    TakesItsOwn(p, pos, args);
    TakesItsOwn(p, 0, args);
    if PrintsItself(p.conversion) {
      LiteralIsItself(p.conversion, AsWritten(p, pos, args));
    } else {
      OthersTakeOne(p.conversion, AsWritten(p, 0, args));
      WrittenElsewhere(p, pos, args);
      PlaceIsIrrelevant(p.conversion, AsWritten(p, 0, args), AsWritten(p, pos, args).at);
      OthersTakeOne(p.conversion, AsWritten(p, pos, args));
    }
  }

  /** The directive's piece, wherever it stands, prints the item's text. */
  lemma {:induction false} PieceIsItem(p: Parts, pos: nat, args: seq<Arg>, d: Directive)
    requires ItemGiven(Dir(p), args) && d == AsWritten(p, pos, args)
    ensures ArgSupplied(p.conversion, d) && ConversionText(p.conversion, d) == ItemText(Dir(p), args)
  {
    WrittenElsewhere(p, pos, args);
    PlaceIsIrrelevant(p.conversion, AsWritten(p, 0, args), d.at);
  }

  lemma {:induction false} OnePieceRead(s: string, pos: nat, args: seq<Arg>, d: Directive, c: char, next: nat, rest: seq<Arg>)
    requires pos < |s| && s[pos] == '%' && d == Parse(s, pos + 1, args) && d.supplied && d.at < |s| && s[d.at] == c
    requires ArgSupplied(c, d) && next == d.at + 1 && rest == ArgsAfter(c, d) && Supplied(s, next, rest)
    ensures Supplied(s, pos, args) && Pieces(s, pos, args) == [Conversion(c, d)] + Pieces(s, next, rest)
  {
  }

  lemma {:induction false} OnePieceText(s: string, pos: nat, args: seq<Arg>, d: Directive, c: char, next: nat, rest: seq<Arg>)
    requires pos < |s| && s[pos] == '%' && d == Parse(s, pos + 1, args) && d.supplied && d.at < |s| && s[d.at] == c
    requires ArgSupplied(c, d) && next == d.at + 1 && rest == ArgsAfter(c, d) && Supplied(s, next, rest)
    ensures Supplied(s, pos, args)
    ensures TextOf(Pieces(s, pos, args)) == ConversionText(c, d) + TextOf(Pieces(s, next, rest))
  {
    OnePieceRead(s, pos, args, d, c, next, rest);
    TextOfHead(Conversion(c, d), Pieces(s, next, rest));
  }

  /** A directive prints its text and takes its arguments. */
  lemma {:induction false} DirectiveIsRead(s: string, pos: nat, p: Parts, args: seq<Arg>, next: nat, rest: seq<Arg>)
    requires WellFormed(p) && ItemGiven(Dir(p), args) && Here(s, pos, "%" + Spell(p))
    requires next == pos + 1 + |Spell(p)| && Takes(Dir(p)) <= |args| && rest == args[Takes(Dir(p))..]
    requires Supplied(s, next, rest)
    ensures Supplied(s, pos, args)
    ensures TextOf(Pieces(s, pos, args)) == ItemText(Dir(p), args) + TextOf(Pieces(s, next, rest))
  {
    HereAt(s, pos, "%" + Spell(p), 0);
    HereSplits(s, pos, "%", Spell(p));
    var d := AsWritten(p, pos + 1, args);
    ReadAsWritten(s, pos + 1, p, args);
    TakesItsOwn(p, pos + 1, args);
    ArgumentsLeft(p, pos + 1, args);
    PieceIsItem(p, pos + 1, args, d);
    OnePieceText(s, pos, args, d, p.conversion, next, rest);
  }

  // ---------------------------------------------------------------- the whole format

  lemma {:induction false} ItemIsRead(s: string, pos: nat, item: Item, args: seq<Arg>, next: nat, rest: seq<Arg>)
    requires GoodItem(item) && ItemGiven(item, args) && Here(s, pos, SpellItem(item))
    requires next == pos + |SpellItem(item)| && Takes(item) <= |args| && rest == args[Takes(item)..]
    requires Supplied(s, next, rest)
    ensures Supplied(s, pos, args)
    ensures TextOf(Pieces(s, pos, args)) == ItemText(item, args) + TextOf(Pieces(s, next, rest))
  {
    match item {
      case Chars(chars) =>
        assert args[0..] == args;
        PlainIsRead(s, pos, chars, args, next, TextOf(Pieces(s, next, rest)));
      case Dir(p) =>
        DirectiveIsRead(s, pos, p, args, next, rest);
    }
  }

  lemma {:induction false} FirstItem(items: seq<Item>, args: seq<Arg>, rest: seq<Arg>)
    requires items != [] && AllGood(items) && AllGiven(items, args)
    requires Takes(items[0]) <= |args| ==> rest == args[Takes(items[0])..]
    ensures GoodItem(items[0]) && ItemGiven(items[0], args) && Takes(items[0]) <= |args|
    ensures AllGood(items[1..]) && AllGiven(items[1..], rest)
    ensures SpellAll(items) == SpellItem(items[0]) + SpellAll(items[1..])
    ensures AllText(items, args) == ItemText(items[0], args) + AllText(items[1..], rest)
  {
  }

  lemma {:induction false} NoItems(s: string, pos: nat, args: seq<Arg>)
    requires pos >= |s|
    ensures Supplied(s, pos, args) && TextOf(Pieces(s, pos, args)) == ""
  {
    NothingLeft(s, pos, args);
  }

  /** Where the items behind the first one stand. */
  lemma {:induction false} ItemsSplit(s: string, pos: nat, items: seq<Item>, next: nat)
    requires items != [] && Here(s, pos, SpellAll(items)) && next == pos + |SpellItem(items[0])|
    ensures Here(s, pos, SpellItem(items[0])) && Here(s, next, SpellAll(items[1..]))
    ensures next + |SpellAll(items[1..])| == pos + |SpellAll(items)|
  {
    var first, more := SpellItem(items[0]), SpellAll(items[1..]);
    SpelledFirst(items, first, more);
    SplitHere(s, pos, SpellAll(items), first, more, next);
  }

  lemma {:induction false} SplitHere(s: string, pos: nat, all: string, first: string, more: string, next: nat)
    requires Here(s, pos, all) && all == first + more && next == pos + |first|
    ensures Here(s, pos, first) && Here(s, next, more) && next + |more| == pos + |all|
  {
    HereSplits(s, pos, first, more);
  }

  lemma {:induction false} SpelledFirst(items: seq<Item>, first: string, more: string)
    requires items != [] && first == SpellItem(items[0]) && more == SpellAll(items[1..])
    ensures SpellAll(items) == first + more
  {
  }

  lemma {:induction false} OneItemMore(s: string, pos: nat, items: seq<Item>, args: seq<Arg>, next: nat, rest: seq<Arg>)
    requires items != [] && AllGood(items) && AllGiven(items, args) && Here(s, pos, SpellItem(items[0]))
    requires Takes(items[0]) <= |args| && rest == args[Takes(items[0])..] && next == pos + |SpellItem(items[0])|
    requires AllGiven(items[1..], rest) && Supplied(s, next, rest) && TextOf(Pieces(s, next, rest)) == AllText(items[1..], rest)
    ensures Supplied(s, pos, args) && TextOf(Pieces(s, pos, args)) == AllText(items, args)
  {
    FirstItem(items, args, rest);
    ItemIsRead(s, pos, items[0], args, next, rest);
  }

  lemma {:induction false} ItemsAreRead(s: string, pos: nat, items: seq<Item>, args: seq<Arg>)
    requires AllGood(items) && AllGiven(items, args) && Here(s, pos, SpellAll(items)) && pos + |SpellAll(items)| == |s|
    ensures Supplied(s, pos, args) && TextOf(Pieces(s, pos, args)) == AllText(items, args)
    decreases |items|
  {
    if items == [] {
      NoItems(s, pos, args);
    } else {
      var next, rest := pos + |SpellItem(items[0])|, if Takes(items[0]) <= |args| then args[Takes(items[0])..] else [];
      FirstItem(items, args, rest);
      ItemsSplit(s, pos, items, next);
      ItemsAreRead(s, next, items[1..], rest);
      OneItemMore(s, pos, items, args, next, rest);
    }
  }

  /**
   * A format prints its plain text as it is, percent signs for "%%", and each directive's text, one behind the other,
   * and each directive takes its own arguments.
   */
  lemma {:induction false} FormatPrintsItems(items: seq<Item>, args: seq<Arg>)
    requires AllGood(items) && AllGiven(items, args)
    ensures Supplied(SpellAll(items), 0, args) && Render(SpellAll(items), args) == AllText(items, args)
  {
    var s := SpellAll(items);
    assert s[0..0 + |s|] == s;
    ItemsAreRead(s, 0, items, args);
  }

  // ---------------------------------------------------------------- formats the standard defines

  /** A kind of directive whose text the standard defines, its argument given and its condition met. */
  predicate Conforming(p: Parts, args: seq<Arg>) {
    if p.conversion == '%' then StarsGiven(p, args)
    else if p.conversion == 's' then StringGiven(p, args) && StringConforms(p, args)
    else if p.conversion == 'c' then CharGiven(p, args) && WidthTaken(p, args) == Directives.Magnitude(WidthValue(p, args))
    else if p.conversion == 'f' || p.conversion == 'F' then
      FixedGiven(p, args) && MeantDecimals(p, args) <= MAX_DECIMALS && FixedConforms(p, args)
    else if p.conversion == 'e' || p.conversion == 'E' then
      ExponentGiven(p, args) && MeantDecimals(p, args) <= MAX_DECIMALS && ExponentConforms(p, args)
    else if '#' in p.flags then HashGiven(p, args) && HashDirectiveConforms(p, args)
    else IntegerDirective(p) && Given(p, args) && InRange(p, Value(p, args)) && Conforms(p, args)
  }

  /** `out` is what the standard asks of the directive. */
  ghost predicate Meets(out: string, p: Parts, args: seq<Arg>)
    requires Conforming(p, args)
  {
    if p.conversion == '%' then out == "%"
    else if p.conversion == 's' then out == StandardString(p, args)
    else if p.conversion == 'c' then
      out == Framed([(Value(p, args) % 256) as char], Directives.Magnitude(WidthValue(p, args)), MeantLeft(p, args))
    else if p.conversion == 'f' || p.conversion == 'F' then IsStandardFixed(out, p, args)
    else if p.conversion == 'e' || p.conversion == 'E' then IsStandardExponent(out, p, args)
    else if '#' in p.flags then out == HashStandard(p, args)
    else out == StandardText.StandardText(p, args)
  }

  /** A conforming directive is given what it needs, and its text meets the standard. */
  lemma {:induction false} ConformingMeets(p: Parts, args: seq<Arg>)
    requires WellFormed(p) && Conforming(p, args)
    ensures ItemGiven(Dir(p), args) && Meets(ItemText(Dir(p), args), p, args)
  {
    if p.conversion == '%' {
      LiteralIsItself('%', AsWritten(p, 0, args));
    } else if p.conversion == 's' {
      StringIsStandardIff(p, 0, args);
    } else if p.conversion == 'c' {
      CharIsFramed(p, 0, args);
    } else if p.conversion == 'f' || p.conversion == 'F' {
      FixedIsStandardIff(p, 0, args);
    } else if p.conversion == 'e' || p.conversion == 'E' {
      ExponentIsStandardIff(p, 0, args);
    } else if '#' in p.flags {
      HashDirectiveIsStandardIff(p, 0, args);
    } else {
      DirectiveIsStandardIff(p, 0, args);
    }
  }

  /** A plain "%f" as an item. */
  lemma {:induction false} HalfItem(whole: nat, p: Parts, args: seq<Arg>)
    requires whole < 10 && p == Parts("", Absent, NoPoint, "", 'f') && args != []
    requires args[0].RealArg? && args[0].v.Finite? && args[0].v.r == whole as real + 0.5
    ensures WellFormed(p) && ItemGiven(Dir(p), args) && ItemText(Dir(p), args) == [DigitChar(whole, false)] + ".500000"
  {
    HalvesHaveSixDecimals(whole, args[0].v.r, p, 0, args);
  }

  /** Two halves in one format, as the tilt payload is printed: six decimals each. */
  lemma {:induction false} TwoHalves(a: nat, b: nat, args: seq<Arg>)
    requires a < 10 && b < 10 && |args| == 2
    requires args[0].RealArg? && args[0].v.Finite? && args[0].v.r == a as real + 0.5
    requires args[1].RealArg? && args[1].v.Finite? && args[1].v.r == b as real + 0.5
    ensures Supplied("%f;%f", 0, args)
    ensures Render("%f;%f", args) == [DigitChar(a, false)] + ".500000;" + ([DigitChar(b, false)] + ".500000")
  {
    var p := Parts("", Absent, NoPoint, "", 'f');
    HalfItem(a, p, args);
    HalfItem(b, p, args[1..]);
    var first, second := ItemText(Dir(p), args), ItemText(Dir(p), args[1..]);
    TwoItems(p, args, first, second);
    SixesJoin(DigitChar(a, false), first, second);
  }

  lemma {:induction false} SixesJoin(digit: char, first: string, second: string)
    requires first == [digit] + ".500000"
    ensures first + ";" + second == [digit] + ".500000;" + second
  {
    assert ".500000" + ";" == ".500000;";
  }

  lemma {:induction false} TwoItems(p: Parts, args: seq<Arg>, first: string, second: string)
    requires p == Parts("", Absent, NoPoint, "", 'f') && |args| == 2 && ItemGiven(Dir(p), args) && ItemGiven(Dir(p), args[1..])
    requires first == ItemText(Dir(p), args) && second == ItemText(Dir(p), args[1..])
    ensures Supplied("%f;%f", 0, args) && Render("%f;%f", args) == first + ";" + second
  {
    TwoNumbersGiven(p, args);
    FormatPrintsItems([Dir(p), Chars(";"), Dir(p)], args);
    SpelledTwo(p);
    TextOfTwo(p, args);
  }

  lemma {:induction false} SpelledTwo(p: Parts)
    requires p == Parts("", Absent, NoPoint, "", 'f')
    ensures SpellAll([Dir(p), Chars(";"), Dir(p)]) == "%f;%f"
  {
    assert SpellAll([Dir(p)]) == "%f";
    assert [Chars(";"), Dir(p)][1..] == [Dir(p)];
    assert [Dir(p), Chars(";"), Dir(p)][1..] == [Chars(";"), Dir(p)];
  }

  lemma {:induction false} TwoNumbersGiven(p: Parts, args: seq<Arg>)
    requires p == Parts("", Absent, NoPoint, "", 'f') && |args| == 2 && ItemGiven(Dir(p), args) && ItemGiven(Dir(p), args[1..])
    ensures var items := [Dir(p), Chars(";"), Dir(p)]; AllGood(items) && AllGiven(items, args)
  {
    var last, middle := [Dir(p)], [Chars(";"), Dir(p)];
    assert AllGiven(last[1..], args[1..][1..]);
    assert AllGiven(last, args[1..]);
    assert middle[1..] == last && args[1..][0..] == args[1..];
    assert AllGiven(middle, args[1..]);
    assert [Dir(p), Chars(";"), Dir(p)][1..] == middle;
  }

  lemma {:induction false} TextOfTwo(p: Parts, args: seq<Arg>)
    requires p == Parts("", Absent, NoPoint, "", 'f') && |args| == 2 && ItemGiven(Dir(p), args) && ItemGiven(Dir(p), args[1..])
    requires AllGiven([Dir(p), Chars(";"), Dir(p)], args)
    ensures AllText([Dir(p), Chars(";"), Dir(p)], args) == ItemText(Dir(p), args) + ";" + ItemText(Dir(p), args[1..])
  {
    var last, middle := [Dir(p)], [Chars(";"), Dir(p)];
    assert [Dir(p), Chars(";"), Dir(p)][1..] == middle && middle[1..] == last && args[1..][0..] == args[1..];
    assert AllText(last, args[1..]) == ItemText(Dir(p), args[1..]) + "" == ItemText(Dir(p), args[1..]);
  }
}
