/** The format engine: directives, their arguments, and the sinks their text goes to. */
module Formatter {
  import opened Text
  import opened Digits
  import opened Output
  import opened IntegerText
  import opened ScientificText

  // ---------------------------------------------------------------- directives

  /** A variable argument. Strings are C strings: their characters up to the terminator. */
  datatype Arg = NumberArg(value: int) | TextArg(text: string) | RealArg(v: Double)

  datatype Size = IntSize | CharSize | ShortSize | LongSize | LongLongSize

  /** A parsed directive: where its conversion character is, and the arguments left after '*' took its own. */
  datatype Directive = Directive(supplied: bool, f: Flags, width: nat, prec: nat, size: Size, at: nat, args: seq<Arg>)

  const NO_FLAGS := Flags(false, false, false, false, false, false, false)

  predicate IsFlag(c: char) {
    c == '0' || c == '-' || c == '+' || c == ' ' || c == '#'
  }

  function WithFlag(f: Flags, c: char): Flags {
    match c
    case '0' => f.(zeroPad := true)
    case '-' => f.(left := true)
    case '+' => f.(plus := true)
    case ' ' => f.(space := true)
    case '#' => f.(hash := true)
    case _ => f
  }

  function FlagsEnd(s: string, pos: nat): (end: nat)
    requires pos <= |s|
    ensures pos <= end <= |s|
    decreases |s| - pos
  {
    if pos < |s| && IsFlag(s[pos]) then FlagsEnd(s, pos + 1) else pos
  }

  function CollectFlags(chars: string): Flags {
    if chars == "" then NO_FLAGS else WithFlag(CollectFlags(chars[..|chars| - 1]), chars[|chars| - 1])
  }

  function ParseFlags(s: string, pos: nat): (d: Directive)
    requires pos <= |s|
    ensures pos <= d.at <= |s|
  {
    var end := FlagsEnd(s, pos);
    Directive(true, CollectFlags(s[pos..end]), 0, 0, IntSize, end, [])
  }

  predicate StarSupplied(args: seq<Arg>) {
    args != [] && args[0].NumberArg?
  }

  function ParseWidth(s: string, d: Directive): (d': Directive)
    requires d.at <= |s|
    ensures d.at <= d'.at <= |s|
  {
    var end := DigitsEnd(s, d.at);
    if end > d.at then d.(width := Number(s[d.at..end]) % WORD32, at := end)
    else if AtOrNul(s, d.at) != '*' then d
    else if !StarSupplied(d.args) then d.(supplied := false, at := d.at + 1)
    else
      var w := d.args[0].value;
      d.(f := if w < 0 then d.f.(left := true) else d.f, width := if w < 0 then -w else w,
         at := d.at + 1, args := d.args[1..])
  }

  function ParsePrecision(s: string, d: Directive): (d': Directive)
    requires d.at <= |s|
    ensures d.at <= d'.at <= |s|
  {
    if AtOrNul(s, d.at) != '.' then d
    else
      var after, end := d.at + 1, DigitsEnd(s, d.at + 1);
      var d1 := d.(f := d.f.(precision := true), at := end);
      if end > after then d1.(prec := Number(s[after..end]) % WORD32)
      else if AtOrNul(s, after) != '*' then d1
      else if !StarSupplied(d.args) then d1.(supplied := false, at := after + 1)
      else d1.(prec := if d.args[0].value > 0 then d.args[0].value else 0, at := after + 1, args := d.args[1..])
  }

  function ParseSize(s: string, d: Directive): (d': Directive)
    requires d.at <= |s|
    ensures d.at <= d'.at <= |s|
  {
    var c, next := AtOrNul(s, d.at), AtOrNul(s, d.at + 1);
    if c == 'l' && next == 'l' then d.(size := LongLongSize, at := d.at + 2)
    else if c == 'h' && next == 'h' then d.(size := CharSize, at := d.at + 2)
    else if c == 'h' then d.(size := ShortSize, at := d.at + 1)
    else if c == 'j' then d.(size := LongLongSize, at := d.at + 1)
    else if c == 'l' || c == 't' || c == 'z' then d.(size := LongSize, at := d.at + 1)
    else d
  }

  /** The directive whose '%' stands just before `pos`. */
  function Parse(s: string, pos: nat, args: seq<Arg>): (d: Directive)
    requires pos <= |s|
    ensures pos <= d.at <= |s|
  {
    ParseSize(s, ParsePrecision(s, ParseWidth(s, ParseFlags(s, pos).(args := args))))
  }

  // ---------------------------------------------------------------- conversions

  predicate IsSigned(c: char) {
    c == 'd' || c == 'i'
  }

  predicate IsUnsigned(c: char) {
    c == 'u' || c == 'x' || c == 'X' || c == 'o' || c == 'b'
  }

  predicate IsReal(c: char) {
    c == 'f' || c == 'F' || c == 'e' || c == 'E' || c == 'g' || c == 'G'
  }

  /** Conversions that take no argument: a percent sign and every character that means nothing. */
  predicate IsLiteral(c: char) {
    !IsSigned(c) && !IsUnsigned(c) && !IsReal(c) && c != 'c' && c != 's' && c != 'p'
  }

  function Base(c: char): nat {
    if c == 'x' || c == 'X' then 16 else if c == 'o' then 8 else if c == 'b' then 2 else 10
  }

  function IntegerFlags(c: char, f: Flags): Flags {
    var f1 := if Base(c) == 10 then f.(hash := false) else f;
    var f2 := if c == 'X' then f1.(upper := true) else f1;
    var f3 := if IsSigned(c) then f2 else f2.(plus := false, space := false);
    if f3.precision then f3.(zeroPad := false) else f3
  }

  /** The value as the narrower signed type shows it; `char` has no sign. */
  function SignedValue(v: int, size: Size): int {
    match size
    case CharSize => v % 0x100
    case ShortSize => (v + 0x8000) % 0x1_0000 - 0x8000
    case _ => v
  }

  function UnsignedValue(v: int, size: Size): nat {
    match size
    case CharSize => v % 0x100
    case ShortSize => v % 0x1_0000
    case LongLongSize => v % 0x1_0000_0000_0000_0000
    case _ => v % WORD32
  }

  function ShownLength(text: string, d: Directive): nat {
    if d.f.precision && d.prec < |text| then d.prec else |text|
  }

  /** Text between the spaces that bring it to the width. */
  function Aligned(text: string, width: nat, left: bool): string {
    if left then text + SpaceText(width - |text|) else SpaceText(width - |text|) + text
  }

  function RealFlags(c: char, f: Flags): Flags {
    if c == 'F' || c == 'E' || c == 'G' then f.(upper := true) else f
  }

  predicate RealSupplied(v: Double, c: char, d: Directive) {
    if c == 'f' || c == 'F' then FtoaSupplied(v, d.prec, d.width, RealFlags(c, d.f))
    else EtoaSupplied(v, d.prec, d.width, RealFlags(c, d.f), c == 'g' || c == 'G')
  }

  function RealText(v: Double, c: char, d: Directive): string
    requires RealSupplied(v, c, d)
  {
    if c == 'f' || c == 'F' then FtoaText(v, d.prec, d.width, RealFlags(c, d.f))
    else EtoaText(v, d.prec, d.width, RealFlags(c, d.f), c == 'g' || c == 'G')
  }

  /** Two hexadecimal digits for each byte of an address. */
  const POINTER_WIDTH := 8

  function PointerText(address: int, d: Directive): string {
    LongText(address % WORD32, false, 16, d.prec, POINTER_WIDTH, d.f.(zeroPad := true, upper := true))
  }

  /** The next argument has the type the conversion wants, within what the conversion supports. */
  predicate ArgSupplied(c: char, d: Directive) {
    if IsLiteral(c) then true
    else if d.args == [] then false
    else if c == 's' then d.args[0].TextArg? && '\0' !in d.args[0].text
    else if IsReal(c) then d.args[0].RealArg? && RealSupplied(d.args[0].v, c, d)
    else d.args[0].NumberArg?
  }

  function SignedText(v: int, c: char, d: Directive): string {
    LongText(if v > 0 then v else 0 - v, v < 0, Base(c), d.prec, d.width, IntegerFlags(c, d.f))
  }

  function UnsignedText(v: nat, c: char, d: Directive): string {
    LongText(v, false, Base(c), d.prec, d.width, IntegerFlags(c, d.f))
  }

  function IntegerConversion(value: int, c: char, d: Directive): string {
    if IsSigned(c) then SignedText(SignedValue(value, d.size), c, d)
    else UnsignedText(UnsignedValue(value, d.size), c, d)
  }

  function ConversionText(c: char, d: Directive): string
    requires ArgSupplied(c, d)
  {
    if IsLiteral(c) then [c]
    else
      var arg := d.args[0];
      if IsSigned(c) || IsUnsigned(c) then IntegerConversion(arg.value, c, d)
      else if c == 'c' then Aligned([(arg.value % 0x100) as char], d.width, d.f.left)
      else if c == 's' then Aligned(arg.text[..ShownLength(arg.text, d)], d.width, d.f.left)
      else if c == 'p' then PointerText(arg.value, d)
      else RealText(arg.v, c, d)
  }

  function ArgsAfter(c: char, d: Directive): seq<Arg> {
    if IsLiteral(c) || d.args == [] then d.args else d.args[1..]
  }

  // ---------------------------------------------------------------- whole formats

  /** From `pos` on the format is complete and every argument it asks for is there, of the right type. */
  predicate Supplied(s: string, pos: nat, args: seq<Arg>)
    decreases |s| - pos
  {
    if pos >= |s| then true
    else if s[pos] != '%' then Supplied(s, pos + 1, args)
    else
      var d := Parse(s, pos + 1, args);
      d.supplied && d.at < |s| && ArgSupplied(s[d.at], d) && Supplied(s, d.at + 1, ArgsAfter(s[d.at], d))
  }

  /** A character of the format that stands for itself, or a directive with its conversion character. */
  datatype Piece = Plain(c: char) | Conversion(c: char, d: Directive)

  predicate Printable(p: Piece) {
    p.Conversion? ==> ArgSupplied(p.c, p.d)
  }

  predicate AllPrintable(pieces: seq<Piece>) {
    forall i :: 0 <= i < |pieces| ==> Printable(pieces[i])
  }

  /** The format from `pos` on. */
  function Pieces(s: string, pos: nat, args: seq<Arg>): (pieces: seq<Piece>)
    requires Supplied(s, pos, args)
    ensures AllPrintable(pieces)
    decreases |s| - pos
  {
    if pos >= |s| then []
    else if s[pos] != '%' then [Plain(s[pos])] + Pieces(s, pos + 1, args)
    else
      var d := Parse(s, pos + 1, args);
      [Conversion(s[d.at], d)] + Pieces(s, d.at + 1, ArgsAfter(s[d.at], d))
  }

  function PieceText(p: Piece): string
    requires Printable(p)
  {
    match p
    case Plain(c) => [c]
    case Conversion(c, d) => ConversionText(c, d)
  }

  function TextOf(pieces: seq<Piece>): string
    requires AllPrintable(pieces)
  {
    if pieces == [] then ""
    else
      var n := |pieces| - 1;
      TextOf(pieces[..n]) + PieceText(pieces[n])
  }

  /** The text of the whole format, without any limit. */
  function Render(s: string, args: seq<Arg>): string
    requires Supplied(s, 0, args)
  {
    TextOf(Pieces(s, 0, args))
  }

  // ---------------------------------------------------------------- the code

  method ReadFlags(s: string, pos: nat) returns (d: Directive)
    requires pos <= |s|
    ensures d == ParseFlags(s, pos)
  {
    var f, at := NO_FLAGS, pos;
    while at < |s| && IsFlag(s[at])
      invariant pos <= at <= |s| && FlagsEnd(s, pos) == FlagsEnd(s, at)
      invariant f == CollectFlags(s[pos..at])
    {
      FlagsOneMore(s, pos, at);
      f := WithFlag(f, s[at]);
      at := at + 1;
    }
    d := Directive(true, f, 0, 0, IntSize, at, []);
  }

  lemma {:induction false} FlagsOneMore(s: string, pos: nat, at: nat)
    requires pos <= at < |s|
    ensures CollectFlags(s[pos..at + 1]) == WithFlag(CollectFlags(s[pos..at]), s[at])
  {
    assert s[pos..at + 1][..at - pos] == s[pos..at];
  }

  method ReadWidth(s: string, d: Directive) returns (d': Directive)
    requires d.at <= |s|
    ensures d' == ParseWidth(s, d)
  {
    d' := d;
    if IsDigit(AtOrNul(s, d.at)) {
      var width, at := Atoi(s, d.at);
      d' := d.(width := width, at := at);
    } else if AtOrNul(s, d.at) == '*' {
      if !StarSupplied(d.args) {
        return d.(supplied := false, at := d.at + 1);
      }
      var w := d.args[0].value;
      d' := d.(at := d.at + 1, args := d.args[1..]);
      if w < 0 {
        // reverse padding
        d' := d'.(f := d'.f.(left := true));
        d' := d'.(width := -w);
      } else {
        d' := d'.(width := w);
      }
    }
  }

  method ReadPrecision(s: string, d: Directive) returns (d': Directive)
    requires d.at <= |s|
    ensures d' == ParsePrecision(s, d)
  {
    d' := d;
    if AtOrNul(s, d.at) == '.' {
      d' := d.(f := d.f.(precision := true), at := d.at + 1);
      if IsDigit(AtOrNul(s, d'.at)) {
        var prec, at := Atoi(s, d'.at);
        d' := d'.(prec := prec, at := at);
      } else if AtOrNul(s, d'.at) == '*' {
        if !StarSupplied(d.args) {
          return d'.(supplied := false, at := d'.at + 1);
        }
        var prec := d.args[0].value;
        d' := d'.(prec := if prec > 0 then prec else 0, at := d'.at + 1, args := d.args[1..]);
      }
    }
  }

  method OutString(sink: Sink, idx: nat, text: string, shown: nat) returns (end: nat)
    requires sink.Valid() && shown <= |text|
    modifies sink, sink.buffer
    ensures end == idx + shown && sink.State() == PutAll(old(sink.State()), idx, text[..shown])
  {
    end := idx;
    ghost var start := sink.State();
    var i := 0;
    while i < shown
      invariant 0 <= i <= shown && end == idx + i
      invariant sink.State() == PutAll(start, idx, text[..i])
    {
      sink.OutNext(text[i], end, start, idx, text[..i]);
      assert text[..i + 1] == text[..i] + [text[i]];
      end := end + 1;
      i := i + 1;
    }
  }

  /** Spaces before or behind, and the text. */
  method OutAligned(sink: Sink, idx: nat, text: string, width: nat, left: bool) returns (end: nat)
    requires sink.Valid()
    modifies sink, sink.buffer
    ensures end == idx + |Aligned(text, width, left)|
    ensures sink.State() == PutAll(old(sink.State()), idx, Aligned(text, width, left))
  {
    ghost var start := sink.State();
    var gap := width - |text|;
    end := idx;
    assert text[..|text|] == text;
    if !left {
      end := sink.Spaces(gap, end);
      PutAllConcat(start, idx, SpaceText(gap), text);
    }
    end := OutString(sink, end, text, |text|);
    if left {
      end := sink.Spaces(gap, end);
      PutAllConcat(start, idx, text, SpaceText(gap));
    }
  }

  method Convert(sink: Sink, idx: nat, c: char, d: Directive) returns (end: nat)
    requires sink.Valid() && ArgSupplied(c, d)
    modifies sink, sink.buffer
    ensures end == idx + |ConversionText(c, d)|
    ensures sink.State() == PutAll(old(sink.State()), idx, ConversionText(c, d))
  {
    if IsLiteral(c) {
      PutAllOne(sink.State(), idx, c);
      sink.Out(c, idx);
      return idx + 1;
    }
    var arg := d.args[0];
    if IsSigned(c) || IsUnsigned(c) {
      end := ConvertInteger(sink, idx, arg.value, c, d);
    } else if c == 'c' {
      end := OutAligned(sink, idx, [(arg.value % 0x100) as char], d.width, d.f.left);
    } else if c == 's' {
      end := OutAligned(sink, idx, arg.text[..ShownLength(arg.text, d)], d.width, d.f.left);
    } else if c == 'p' {
      end := ConvertPointer(sink, idx, arg.value, d);
    } else {
      end := ConvertReal(sink, idx, arg.v, c, d);
    }
  }

  method ConvertPointer(sink: Sink, idx: nat, address: int, d: Directive) returns (end: nat)
    requires sink.Valid()
    modifies sink, sink.buffer
    ensures end == idx + |PointerText(address, d)|
    ensures sink.State() == PutAll(old(sink.State()), idx, PointerText(address, d))
  {
    var flags := d.f.(zeroPad := true, upper := true);
    end := NtoaLong(sink, idx, address % WORD32, false, 16, d.prec, POINTER_WIDTH, flags);
  }

  method ConvertReal(sink: Sink, idx: nat, v: Double, c: char, d: Directive) returns (end: nat)
    requires sink.Valid() && IsReal(c) && RealSupplied(v, c, d)
    modifies sink, sink.buffer
    ensures end == idx + |RealText(v, c, d)|
    ensures sink.State() == PutAll(old(sink.State()), idx, RealText(v, c, d))
  {
    var flags := RealFlags(c, d.f);
    if c == 'f' || c == 'F' {
      end := Ftoa(sink, idx, v, d.prec, d.width, flags);
    } else {
      end := Etoa(sink, idx, v, d.prec, d.width, flags, c == 'g' || c == 'G');
    }
  }

  method ConvertInteger(sink: Sink, idx: nat, value: int, c: char, d: Directive) returns (end: nat)
    requires sink.Valid() && (IsSigned(c) || IsUnsigned(c))
    modifies sink, sink.buffer
    ensures end == idx + |IntegerConversion(value, c, d)|
    ensures sink.State() == PutAll(old(sink.State()), idx, IntegerConversion(value, c, d))
  {
    if IsSigned(c) {
      end := ConvertSigned(sink, idx, SignedValue(value, d.size), c, d);
    } else {
      end := ConvertUnsigned(sink, idx, UnsignedValue(value, d.size), c, d);
    }
  }

  method ConvertSigned(sink: Sink, idx: nat, v: int, c: char, d: Directive) returns (end: nat)
    requires sink.Valid()
    modifies sink, sink.buffer
    ensures end == idx + |SignedText(v, c, d)|
    ensures sink.State() == PutAll(old(sink.State()), idx, SignedText(v, c, d))
  {
    var base, flags := Base(c), IntegerFlags(c, d.f);
    end := NtoaLong(sink, idx, if v > 0 then v else 0 - v, v < 0, base, d.prec, d.width, flags);
  }

  method ConvertUnsigned(sink: Sink, idx: nat, v: nat, c: char, d: Directive) returns (end: nat)
    requires sink.Valid()
    modifies sink, sink.buffer
    ensures end == idx + |UnsignedText(v, c, d)|
    ensures sink.State() == PutAll(old(sink.State()), idx, UnsignedText(v, c, d))
  {
    var base, flags := Base(c), IntegerFlags(c, d.f);
    end := NtoaLong(sink, idx, v, false, base, d.prec, d.width, flags);
  }

  method ReadDirective(s: string, pos: nat, args: seq<Arg>) returns (d: Directive)
    requires pos <= |s|
    ensures d == Parse(s, pos, args)
  {
    d := ReadFlags(s, pos);
    d := d.(args := args);
    d := ReadWidth(s, d);
    d := ReadPrecision(s, d);
    d := ParseSize(s, d);
  }

  /** Reads one character of the format, or one directive. */
  method ReadPiece(s: string, pos: nat, args: seq<Arg>) returns (piece: Piece, next: nat, rest: seq<Arg>)
    requires pos < |s| && Supplied(s, pos, args)
    ensures pos < next <= |s| && Supplied(s, next, rest)
    ensures Printable(piece) && Pieces(s, pos, args) == [piece] + Pieces(s, next, rest)
  {
    if s[pos] != '%' {
      return Plain(s[pos]), pos + 1, args;
    }
    var d := ReadDirective(s, pos + 1, args);
    return Conversion(s[d.at], d), d.at + 1, ArgsAfter(s[d.at], d);
  }

  method EmitPiece(sink: Sink, idx: nat, p: Piece) returns (end: nat)
    requires sink.Valid() && Printable(p)
    modifies sink, sink.buffer
    ensures end == idx + |PieceText(p)| && sink.State() == PutAll(old(sink.State()), idx, PieceText(p))
  {
    match p
    case Plain(c) =>
      PutAllOne(sink.State(), idx, c);
      sink.Out(c, idx);
      end := idx + 1;
    case Conversion(c, d) =>
      end := Convert(sink, idx, c, d);
  }

  /** Emits the whole text, then a terminator at its end or in the last place there is. */
  method Vsnprintf(sink: Sink, maxlen: nat, s: string, args: seq<Arg>) returns (ret: nat)
    requires sink.Valid() && (sink.kind == BufferKind ==> sink.maxlen == maxlen)
    requires '\0' !in s && Supplied(s, 0, args)
    modifies sink, sink.buffer
    ensures ret == |Render(s, args)|
    ensures sink.State() == Put(PutAll(old(sink.State()), 0, Render(s, args)), EndIndex(ret, maxlen), '\0')
  {
    ret := EmitAll(sink, s, args);
    sink.Out('\0', EndIndex(ret, maxlen));
  }

  method EmitAll(sink: Sink, s: string, args: seq<Arg>) returns (idx: nat)
    requires sink.Valid() && Supplied(s, 0, args)
    modifies sink, sink.buffer
    ensures idx == |Render(s, args)| && sink.State() == PutAll(old(sink.State()), 0, Render(s, args))
  {
    ghost var start, pieces, done: seq<Piece> := sink.State(), Pieces(s, 0, args), [];
    var pos: nat, rest := 0, args;
    idx := 0;
    assert pieces == done + pieces;
    while pos < |s|
      invariant Supplied(s, pos, rest) && AllPrintable(done) && pieces == done + Pieces(s, pos, rest)
      invariant idx == |TextOf(done)| && sink.State() == PutAll(start, 0, TextOf(done))
      decreases |s| - pos
    {
      var piece;
      piece, pos, rest := ReadPiece(s, pos, rest);
      OnePieceMore(start, done, piece, Pieces(s, pos, rest));
      idx := EmitPiece(sink, idx, piece);
      done := done + [piece];
    }
    assert done + [] == done;
  }

  lemma {:induction false} TextOfOneMore(done: seq<Piece>, piece: Piece)
    requires AllPrintable(done) && Printable(piece)
    ensures AllPrintable(done + [piece]) && TextOf(done + [piece]) == TextOf(done) + PieceText(piece)
  {
    var pieces := done + [piece];
    assert pieces[..|done|] == done && pieces[|done|] == piece;
  }

  lemma {:induction false} PiecesLeft(done: seq<Piece>, piece: Piece, left: seq<Piece>)
    ensures done + ([piece] + left) == done + [piece] + left
  {
  }

  lemma {:induction false} TextEmitted(start: Output, a: string, b: string, ab: string)
    requires Good(start) && ab == a + b
    ensures PutAll(start, 0, ab) == PutAll(PutAll(start, 0, a), |a|, b)
  {
    PutAllConcat(start, 0, a, b);
  }

  lemma {:induction false} OnePieceMore(start: Output, done: seq<Piece>, piece: Piece, left: seq<Piece>)
    requires Good(start) && AllPrintable(done) && Printable(piece)
    ensures AllPrintable(done + [piece]) && TextOf(done + [piece]) == TextOf(done) + PieceText(piece)
    ensures PutAll(start, 0, TextOf(done + [piece])) == PutAll(PutAll(start, 0, TextOf(done)), |TextOf(done)|, PieceText(piece))
    ensures done + ([piece] + left) == done + [piece] + left
  {
    PiecesLeft(done, piece, left);
    TextOfOneMore(done, piece);
    TextEmitted(start, TextOf(done), PieceText(piece), TextOf(done + [piece]));
  }

  /** `idx` if it is below the limit, else the last place; a limit of zero wraps. */
  function EndIndex(idx: nat, maxlen: nat): nat {
    if idx < maxlen then idx else if maxlen == 0 then WORD32 - 1 else maxlen - 1
  }

  // ---------------------------------------------------------------- what callers get

  /** The buffer after a bounded print: as much of the text as leaves room for the terminator, then that. */
  lemma {:induction false} BoundedText(buf: string, count: nat, text: string)
    requires 0 < count <= |buf|
    ensures var o := Put(PutAll(ToBuffer(buf, count), 0, text), EndIndex(|text|, count), '\0');
            var kept := Min(|text|, count - 1);
            && o.ToBuffer? && |o.buf| == |buf|
            && o.buf[..kept] == text[..kept] && o.buf[kept] == '\0' && o.buf[kept + 1..] == buf[kept + 1..]
  {
    BufferAfter(buf, count, 0, text);
  }

  /**
   * `snprintf`: stores the first `count - 1` characters of the text at most and a terminator, touches nothing
   * behind it, and returns the length of the whole text whatever `count` is.
   */
  method Snprintf(buffer: array<char>, count: nat, s: string, args: seq<Arg>) returns (ret: nat)
    requires count <= buffer.Length && '\0' !in s && Supplied(s, 0, args)
    modifies buffer
    ensures ret == |Render(s, args)|
    ensures count == 0 ==> buffer[..] == old(buffer[..])
    ensures count > 0 ==>
              var kept := Min(ret, count - 1);
              && buffer[..kept] == Render(s, args)[..kept] && buffer[kept] == '\0'
              && buffer[kept + 1..] == old(buffer[kept + 1..])
  {
    var sink := new Sink(BufferKind, buffer, count);
    ghost var text := Render(s, args);
    ret := Vsnprintf(sink, count, s, args);
    BufferAfter(old(buffer[..]), count, 0, text);
    if count > 0 {
      BoundedText(old(buffer[..]), count, text);
    }
  }

  /** `printf` to a device: every character of the text but NUL, and the same return value. */
  method Printf(s: string, args: seq<Arg>) returns (ret: nat, sent: string)
    requires '\0' !in s && Supplied(s, 0, args)
    ensures ret == |Render(s, args)| && sent == WithoutNul(Render(s, args))
  {
    var unused := new char[1];
    var sink := new Sink(DeviceKind, unused, 0);
    ret := Vsnprintf(sink, WORD32 - 1, s, args);
    DeviceAfter("", 0, Render(s, args));
    sent := sink.sent;
  }

  /** Without a buffer only the length is computed, whatever the count. */
  method MeasureText(count: nat, s: string, args: seq<Arg>) returns (ret: nat)
    requires '\0' !in s && Supplied(s, 0, args)
    ensures ret == |Render(s, args)|
  {
    var unused := new char[1];
    var sink := new Sink(NullKind, unused, 0);
    ret := Vsnprintf(sink, count, s, args);
  }
}
