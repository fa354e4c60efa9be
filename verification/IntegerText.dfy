/** Integer conversions: digits, precision, sign and padding, as they are built in a 32-character buffer. */
module IntegerText {
  import opened Text
  import opened Digits
  import opened Output

  datatype Flags = Flags(zeroPad: bool, left: bool, plus: bool, space: bool, hash: bool, upper: bool, precision: bool)

  function Max(a: int, b: int): int {
    if a < b then b else a
  }

  function Min(a: int, b: int): int {
    if a < b then a else b
  }

  function Zeros(count: int): string {
    seq(Max(count, 0), _ => '0')
  }

  function SignText(negative: bool, f: Flags): string {
    if negative then "-" else if f.plus then "+" else if f.space then " " else ""
  }

  // ---------------------------------------------------------------- the buffer, last character first

  /** The width that zeros may fill: one less when a sign is to come. */
  function ZeroWidth(negative: bool, width: nat, f: Flags): nat {
    if !f.left && width > 0 && f.zeroPad && SignText(negative, f) != "" then width - 1 else width
  }

  function PadZeros(digits: string, negative: bool, prec: nat, width: nat, f: Flags): string {
    var target := if f.left then 0
                  else Max(prec, if f.zeroPad then ZeroWidth(negative, width, f) else 0);
    digits + Zeros(Min(target, BUFFER_SIZE) - |digits|)
  }

  function Push(b: string, c: char): string {
    if |b| < BUFFER_SIZE then b + [c] else b
  }

  /** With '#' and no precision, digits that fill precision or width exactly make way for the base prefix. */
  function MakeWay(b: string, base: nat, prec: nat, width: nat, f: Flags): string {
    if !f.precision && b != "" && (|b| == prec || |b| == width) then
      b[..if base == 16 && |b| > 1 then |b| - 2 else |b| - 1]
    else b
  }

  function Prefix(b: string, base: nat, prec: nat, width: nat, f: Flags): string {
    if !f.hash then b
    else
      var b1 := MakeWay(b, base, prec, width, f);
      var b2 := if base == 16 then Push(b1, if f.upper then 'X' else 'x') else if base == 2 then Push(b1, 'b') else b1;
      Push(b2, '0')
  }

  function Signed(b: string, negative: bool, f: Flags): string {
    if SignText(negative, f) == "" then b else Push(b, SignText(negative, f)[0])
  }

  /** Everything in the buffer, last character first. */
  function Built(digits: string, negative: bool, base: nat, prec: nat, width: nat, f: Flags): string {
    var padded := PadZeros(digits, negative, prec, width, f);
    Signed(Prefix(padded, base, prec, ZeroWidth(negative, width, f), f), negative, f)
  }

  /** The buffer turned round, between the spaces the width asks for. */
  function Padded(lastFirst: string, width: nat, f: Flags): string {
    SpaceText(if !f.left && !f.zeroPad then width - |lastFirst| else 0)
    + Reversed(lastFirst)
    + SpaceText(if f.left then width - |lastFirst| else 0)
  }

  function NumberText(digits: string, negative: bool, base: nat, prec: nat, width: nat, f: Flags): string {
    Padded(Built(digits, negative, base, prec, width, f), width, f)
  }

  /** No digits at all for zero with an explicit precision. */
  function DigitsFor(value: nat, base: nat, f: Flags): string
    requires 2 <= base <= 16
  {
    if f.precision && value == 0 then "" else LastFirst(value, base, f.upper, BUFFER_SIZE)
  }

  function LongText(value: nat, negative: bool, base: nat, prec: nat, width: nat, f: Flags): string
    requires 2 <= base <= 16
  {
    var f' := if value == 0 then f.(hash := false) else f;
    NumberText(DigitsFor(value, base, f), negative, base, prec, width, f')
  }

  // ---------------------------------------------------------------- the code

  /** Prints the buffer backwards, with spaces in front or behind. */
  method OutRev(sink: Sink, idx: nat, buf: array<char>, len: nat, width: nat, f: Flags) returns (end: nat)
    requires sink.Valid() && len <= buf.Length && buf != sink.buffer
    modifies sink, sink.buffer
    ensures end == idx + |Padded(buf[..len], width, f)|
    ensures sink.State() == PutAll(old(sink.State()), idx, Padded(buf[..len], width, f))
  {
    ghost var start, text := sink.State(), buf[..len];
    var before := if !f.left && !f.zeroPad then width - len else 0;
    end := sink.Spaces(before, idx);
    end := OutBackwards(sink, end, buf, len);
    PutAllConcat(start, idx, SpaceText(before), Reversed(text));
    var behind := if f.left then width - (end - idx) else 0;
    end := sink.Spaces(behind, end);
    PutAllConcat(start, idx, SpaceText(before) + Reversed(text), SpaceText(behind));
  }

  method OutBackwards(sink: Sink, idx: nat, buf: array<char>, len: nat) returns (end: nat)
    requires sink.Valid() && len <= buf.Length && buf != sink.buffer
    modifies sink, sink.buffer
    ensures end == idx + len
    ensures sink.State() == PutAll(old(sink.State()), idx, Reversed(buf[..len]))
  {
    ghost var start, text := sink.State(), Reversed(buf[..len]);
    end := idx;
    var i := len;
    while i > 0
      invariant 0 <= i <= len && end == idx + (len - i)
      invariant Reversed(buf[..len]) == text
      invariant sink.State() == PutAll(start, idx, text[..len - i])
    {
      i := i - 1;
      assert text[..len - i] == text[..len - i - 1] + [text[len - i - 1]];
      sink.OutNext(buf[i], end, start, idx, text[..len - i - 1]);
      end := end + 1;
    }
    assert text[..len] == text;
  }

  method FillZeros(buf: array<char>, len: nat, target: nat) returns (len': nat)
    requires buf.Length == BUFFER_SIZE && len <= BUFFER_SIZE
    modifies buf
    ensures len <= len' <= BUFFER_SIZE
    ensures buf[..len'] == old(buf[..len]) + Zeros(Min(target, BUFFER_SIZE) - len)
  {
    len' := len;
    while len' < target && len' < BUFFER_SIZE
      invariant len <= len' <= Max(len, Min(target, BUFFER_SIZE))
      invariant buf[..len'] == old(buf[..len]) + Zeros(len' - len)
    {
      ghost var before := buf[..len'];
      buf[len'] := '0';
      len' := len' + 1;
      assert buf[..len'] == before + ['0'];
      assert Zeros(len' - len) == Zeros(len' - len - 1) + ['0'];
    }
  }

  method PushChar(buf: array<char>, len: nat, c: char) returns (len': nat)
    requires buf.Length == BUFFER_SIZE && len <= BUFFER_SIZE
    modifies buf
    ensures len' <= BUFFER_SIZE && buf[..len'] == Push(old(buf[..len]), c)
  {
    len' := len;
    if len < BUFFER_SIZE {
      ghost var before := buf[..len];
      buf[len] := c;
      len' := len + 1;
      assert buf[..len'] == before + [c];
    }
  }

  method NtoaFormat(sink: Sink, idx: nat, buf: array<char>, len: nat, negative: bool, base: nat,
                    prec: nat, width: nat, f: Flags)
    returns (end: nat)
    requires sink.Valid() && buf.Length == BUFFER_SIZE && len <= BUFFER_SIZE && buf != sink.buffer
    modifies sink, sink.buffer, buf
    ensures var text := NumberText(old(buf[..len]), negative, base, prec, width, f);
            end == idx + |text| && sink.State() == PutAll(old(sink.State()), idx, text)
  {
    ghost var digits := buf[..len];
    var width1 := width;
    if !f.left && width > 0 && f.zeroPad && (negative || f.plus || f.space) {
      width1 := width - 1;
    }
    var len1 := AddZeros(buf, len, negative, prec, width, width1, f);
    len1 := AddPrefix(buf, len1, base, prec, width1, f);
    len1 := AddSign(buf, len1, negative, f);
    ghost var built := buf[..len1];
    assert built == Built(digits, negative, base, prec, width, f);
    end := OutRev(sink, idx, buf, len1, width1, f);
    assert Padded(built, width1, f) == Padded(built, width, f);
  }

  /** Leading zeros for the precision, then for the width. */
  method AddZeros(buf: array<char>, len: nat, negative: bool, prec: nat, width: nat, width1: nat, f: Flags)
    returns (len': nat)
    requires buf.Length == BUFFER_SIZE && len <= BUFFER_SIZE && width1 == ZeroWidth(negative, width, f)
    modifies buf
    ensures len' <= BUFFER_SIZE && buf[..len'] == PadZeros(old(buf[..len]), negative, prec, width, f)
  {
    len' := len;
    if !f.left {
      len' := FillZeros(buf, len', prec);
      if f.zeroPad {
        len' := FillZeros(buf, len', width1);
      }
    }
  }

  method AddSign(buf: array<char>, len: nat, negative: bool, f: Flags) returns (len': nat)
    requires buf.Length == BUFFER_SIZE && len <= BUFFER_SIZE
    modifies buf
    ensures len' <= BUFFER_SIZE && buf[..len'] == Signed(old(buf[..len]), negative, f)
  {
    len' := len;
    if negative {
      len' := PushChar(buf, len', '-');
    } else if f.plus {
      len' := PushChar(buf, len', '+');
    } else if f.space {
      len' := PushChar(buf, len', ' ');
    }
  }

  method AddPrefix(buf: array<char>, len: nat, base: nat, prec: nat, width: nat, f: Flags) returns (len': nat)
    requires buf.Length == BUFFER_SIZE && len <= BUFFER_SIZE
    modifies buf
    ensures len' <= BUFFER_SIZE && buf[..len'] == Prefix(old(buf[..len]), base, prec, width, f)
  {
    len' := len;
    if f.hash {
      if !f.precision && len' > 0 && (len' == prec || len' == width) {
        len' := len' - 1;
        if len' > 0 && base == 16 {
          len' := len' - 1;
        }
      }
      assert buf[..len'] == MakeWay(buf[..len], base, prec, width, f);
      if base == 16 && !f.upper {
        len' := PushChar(buf, len', 'x');
      } else if base == 16 {
        len' := PushChar(buf, len', 'X');
      } else if base == 2 {
        len' := PushChar(buf, len', 'b');
      }
      len' := PushChar(buf, len', '0');
    }
  }

  method NtoaLong(sink: Sink, idx: nat, value: nat, negative: bool, base: nat, prec: nat, width: nat, f: Flags)
    returns (end: nat)
    requires sink.Valid() && 2 <= base <= 16
    modifies sink, sink.buffer
    ensures var text := LongText(value, negative, base, prec, width, f);
            end == idx + |text| && sink.State() == PutAll(old(sink.State()), idx, text)
  {
    var buf := new char[BUFFER_SIZE](_ => '\0');
    var len := 0;
    var flags := if value == 0 then f.(hash := false) else f;
    if !f.precision || value != 0 {
      len := WriteDigits(buf, 0, value, base, f.upper);
    }
    assert buf[..len] == DigitsFor(value, base, f);
    end := NtoaFormat(sink, idx, buf, len, negative, base, prec, width, flags);
  }
}
