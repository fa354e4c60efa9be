/** Numbers as digit strings: generation, last digit first, into a small buffer, and reading back. */
module Digits {
  import opened Text
  import opened Arithmetic

  /** Size of the conversion buffers. */
  const BUFFER_SIZE := 32
  const WORD32 := 0x1_0000_0000

  function DigitChar(d: nat, upper: bool): char
    requires d < 16
  {
    if d < 10 then '0' + d as char else (if upper then 'A' else 'a') + (d - 10) as char
  }

  function DigitValue(c: char): int {
    if '0' <= c <= '9' then c as int - '0' as int
    else if 'a' <= c <= 'f' then c as int - 'a' as int + 10
    else if 'A' <= c <= 'F' then c as int - 'A' as int + 10
    else -1
  }

  function Pow(base: nat, n: nat): nat {
    if n == 0 then 1 else base * Pow(base, n - 1)
  }

  /** The digits of `value`, last first, as many as there is room for; at least one if there is any room. */
  function LastFirst(value: nat, base: nat, upper: bool, room: nat): (s: string)
    requires 2 <= base <= 16
    ensures |s| <= room
    decreases room, value
  {
    if room == 0 then ""
    else
      [DigitChar(value % base, upper)]
      + if value / base == 0 then "" else LastFirst(value / base, base, upper, room - 1)
  }

  /** What a digit string, last digit first, stands for. */
  function ValueOf(lastFirst: string, base: nat): int {
    if lastFirst == "" then 0 else DigitValue(lastFirst[0]) + base * ValueOf(lastFirst[1..], base)
  }

  lemma {:induction false} PowPositive(base: nat, n: nat)
    requires base > 0
    ensures Pow(base, n) > 0
  {
    if n > 0 {
      PowPositive(base, n - 1);
      MulMonotone(base, 1, Pow(base, n - 1));
    }
  }

  lemma {:induction false} PowMonotone(a: nat, b: nat, n: nat)
    requires 0 < a <= b
    ensures Pow(a, n) <= Pow(b, n)
  {
    if n > 0 {
      PowMonotone(a, b, n - 1);
      MulMonotone(Pow(a, n - 1), a, b);
      MulMonotone(b, Pow(a, n - 1), Pow(b, n - 1));
      assert a * Pow(a, n - 1) == Pow(a, n - 1) * a;
      assert b * Pow(a, n - 1) == Pow(a, n - 1) * b;
    }
  }

  /** The low digits of a number: remainder first, then the remainder of the quotient. */
  lemma {:induction false} ModSplits(value: nat, base: nat, p: nat)
    requires base > 0 && p > 0
    ensures base * p > 0 && value % (base * p) == value % base + base * (value / base % p)
  {
    var q := value / base;
    assert q == p * (q / p) + q % p;
    assert value == base * q + value % base;
    ModOfSplit(value, base, p, q / p, q % p, value % base);
  }

  lemma {:induction false} ModOfSplit(value: nat, a: nat, b: nat, c: nat, d: nat, e: nat)
    requires a > 0 && b > 0 && d < b && e < a && value == a * (b * c + d) + e
    ensures a * b > 0 && value % (a * b) == e + a * d
  {
    ThreeFactors(a, b, c, d, e);
    RemainderBelow(a, b, d, e);
    QuotientIs(value, a * b, c, a * d + e);
  }

  lemma {:induction false} RemainderBelow(a: nat, b: nat, c: nat, d: nat)
    requires c < b && d < a
    ensures a * c + d < a * b
  {
    MulMonotone(a, c + 1, b);
    assert a * (c + 1) == a * c + a;
  }

  lemma {:induction false} ThreeFactors(a: nat, b: nat, c: nat, d: nat, e: nat)
    ensures a * (b * c + d) + e == (a * b) * c + (a * d + e)
    ensures a > 0 && b > 0 ==> a * b > 0
  {
    assert a * (b * c + d) == a * (b * c) + a * d;
    assert a * (b * c) == (a * b) * c;
  }

  lemma {:induction false} DigitCharValue(d: nat, upper: bool)
    requires d < 16
    ensures DigitValue(DigitChar(d, upper)) == d
  {
  }

  /** Reading the digits back gives the value, cut to what the room can show. */
  lemma {:induction false} DigitsReadBack(value: nat, base: nat, upper: bool, room: nat)
    requires 2 <= base <= 16
    ensures Pow(base, room) > 0 && ValueOf(LastFirst(value, base, upper, room), base) == value % Pow(base, room)
    decreases room
  {
    PowPositive(base, room);
    if room > 0 {
      PowPositive(base, room - 1);
      DigitsReadBack(value / base, base, upper, room - 1);
      var rest := if value / base == 0 then "" else LastFirst(value / base, base, upper, room - 1);
      if value / base == 0 {
        QuotientIs(0, Pow(base, room - 1), 0, 0);
      }
      ReadStep(value, base, upper, rest, Pow(base, room - 1));
    }
  }

  lemma {:induction false} ReadStep(value: nat, base: nat, upper: bool, rest: string, p: nat)
    requires 2 <= base <= 16 && p > 0 && ValueOf(rest, base) == value / base % p
    ensures base * p > 0 && ValueOf([DigitChar(value % base, upper)] + rest, base) == value % (base * p)
  {
    ReadOneMore(DigitChar(value % base, upper), rest, base);
    DigitCharValue(value % base, upper);
    ModSplits(value, base, p);
  }

  lemma {:induction false} ReadOneMore(digit: char, rest: string, base: nat)
    ensures ValueOf([digit] + rest, base) == DigitValue(digit) + base * ValueOf(rest, base)
  {
    assert ([digit] + rest)[1..] == rest;
  }

  /** No leading zero: the first digit is not '0' unless the number is zero itself, shown as one '0'. */
  predicate Canonical(lastFirst: string, value: nat) {
    lastFirst != "" && if value == 0 then lastFirst == "0" else lastFirst[|lastFirst| - 1] != '0'
  }

  lemma {:induction false} OneDigit(value: nat, base: nat, upper: bool, room: nat)
    requires 2 <= base <= 16 && room > 0 && value < base
    ensures LastFirst(value, base, upper, room) == [DigitChar(value, upper)]
    ensures Canonical([DigitChar(value, upper)], value)
  {
    QuotientIs(value, base, 0, value);
  }

  lemma {:induction false} NoLeadingZero(value: nat, base: nat, upper: bool, room: nat)
    requires 2 <= base <= 16 && room > 0 && value < Pow(base, room)
    ensures |LastFirst(value, base, upper, room)| <= room
    ensures Canonical(LastFirst(value, base, upper, room), value)
    decreases room
  {
    if value < base {
      OneDigit(value, base, upper, room);
    } else {
      var rest, p := value / base, Pow(base, room - 1);
      assert value == base * rest + value % base;
      QuotientAtLeast(value, base, 1);
      MulCancel(base, rest, p);
      assert room > 1;
      NoLeadingZero(rest, base, upper, room - 1);
    }
  }

  lemma {:induction false} PowGrows(base: nat, m: nat, n: nat)
    requires base > 0 && m <= n
    ensures Pow(base, m) <= Pow(base, n)
  {
    if m < n {
      PowGrows(base, m, n - 1);
      PowPositive(base, n - 1);
      MulMonotone(Pow(base, n - 1), 1, base);
      assert base * Pow(base, n - 1) == Pow(base, n - 1) * base;
    }
  }

  lemma {:induction false} PowerOfTwo32()
    ensures Pow(2, 32) == WORD32
  {
    assert Pow(2, 8) == 256;
    assert Pow(2, 16) == 65536;
    assert Pow(2, 24) == 16777216;
  }

  /** A buffer of at least 32 digits holds any 32-bit value in any base. */
  lemma {:induction false} RoomSuffices(value: nat, base: nat, room: nat)
    requires value < WORD32 && base >= 2 && room >= 32
    ensures value < Pow(base, room)
  {
    PowerOfTwo32();
    PowGrows(2, 32, room);
    PowMonotone(2, base, room);
  }

  /** Every 32-bit value in every base survives the buffer: the digits read back, with no leading zero. */
  lemma {:induction false} DigitRoundTrip(value: nat, base: nat, upper: bool, room: nat)
    requires value < WORD32 && 2 <= base <= 16 && room >= 32
    ensures ValueOf(LastFirst(value, base, upper, room), base) == value
    ensures Canonical(LastFirst(value, base, upper, room), value) && |LastFirst(value, base, upper, room)| <= room
  {
    RoomSuffices(value, base, room);
    DigitsReadBack(value, base, upper, room);
    NoLeadingZero(value, base, upper, room);
    QuotientIs(value, Pow(base, room), 0, value);
  }

  lemma {:induction false} FewDigits(value: nat, upper: bool, room: nat, n: nat)
    requires 0 < n && value < Pow(10, n)
    ensures |LastFirst(value, 10, upper, room)| <= n
    decreases room
  {
    if room > 0 && value / 10 != 0 {
      FewDigits(value / 10, upper, room - 1, n - 1);
    }
  }

  // ---------------------------------------------------------------- the numeral, whatever the room

  lemma {:induction false} QuotientSmaller(value: nat, base: nat)
    requires 2 <= base <= value
    ensures 0 < value / base < value
  {
    QuotientAtLeast(value, base, 1);
    var q := value / base;
    assert value == base * q + value % base;
    MulMonotone(q, 2, base);
    assert base * q == q * base;
  }

  /** A number as it is written: first digit first, no leading zero, as long as it takes. */
  function Numeral(value: nat, base: nat, upper: bool): (s: string)
    requires 2 <= base <= 16
    ensures s != ""
    decreases value
  {
    if value < base then [DigitChar(value, upper)]
    else
      QuotientSmaller(value, base);
      Numeral(value / base, base, upper) + [DigitChar(value % base, upper)]
  }

  lemma {:induction false} QuotientBelow(value: nat, base: nat, p: nat)
    requires base > 0
    ensures value < base * p <==> value / base < p
  {
    var q := value / base;
    assert value == base * q + value % base;
    assert base * (q + 1) == base * q + base;
    if value < base * p {
      MulCancel(base, q, p);
    }
    if q < p {
      MulMonotone(base, q + 1, p);
    }
  }

  /** Digits for which there is room are the numeral backwards. */
  lemma {:induction false} NumeralIsLastFirst(value: nat, base: nat, upper: bool, room: nat)
    requires 2 <= base <= 16 && room > 0 && value < Pow(base, room)
    ensures Reversed(LastFirst(value, base, upper, room)) == Numeral(value, base, upper)
    decreases room
  {
    if value < base {
      OneDigit(value, base, upper, room);
    } else {
      QuotientSmaller(value, base);
      QuotientBelow(value, base, Pow(base, room - 1));
      assert room > 1;
      NumeralIsLastFirst(value / base, base, upper, room - 1);
      var rest := LastFirst(value / base, base, upper, room - 1);
      assert Reversed([DigitChar(value % base, upper)] + rest) == Reversed(rest) + [DigitChar(value % base, upper)];
    }
  }

  /** A numeral has at most `n` digits exactly when its number is below base^n. */
  lemma {:induction false} NumeralLength(value: nat, base: nat, upper: bool, n: nat)
    requires 2 <= base <= 16 && n > 0
    ensures |Numeral(value, base, upper)| <= n <==> value < Pow(base, n)
    decreases n
  {
    if n == 1 {
      assert Pow(base, 1) == base * Pow(base, 0) == base;
    } else if value < base {
      PowGrows(base, 1, n);
      assert Pow(base, 1) == base * Pow(base, 0) == base;
    } else {
      QuotientBelow(value, base, Pow(base, n - 1));
      NumeralLength(value / base, base, upper, n - 1);
    }
  }

  /** Without room for all digits the room is filled. */
  lemma {:induction false} CutDigitsFill(value: nat, base: nat, upper: bool, room: nat)
    requires 2 <= base <= 16 && value >= Pow(base, room)
    ensures |LastFirst(value, base, upper, room)| == room
    decreases room
  {
    if room > 0 {
      PowPositive(base, room - 1);
      QuotientBelow(value, base, Pow(base, room - 1));
      CutDigitsFill(value / base, base, upper, room - 1);
    }
  }

  /** Characters that show digits of a base: in particular no blanks and no signs. */
  predicate DigitsOf(s: string, base: nat) {
    forall i :: 0 <= i < |s| ==> 0 <= DigitValue(s[i]) < base
  }

  lemma {:induction false} DigitsShow(value: nat, base: nat, upper: bool, room: nat)
    requires 2 <= base <= 16
    ensures DigitsOf(LastFirst(value, base, upper, room), base)
    decreases room
  {
    if room > 0 {
      FirstAndRest(value, base, upper, room);
      DigitCharValue(value % base, upper);
      QuotientIsNat(value, base);
      if value / base != 0 {
        DigitsShow(value / base, base, upper, room - 1);
      }
      ShowOneMore(DigitChar(value % base, upper), Rest(value, base, upper, room), base);
    }
  }

  lemma {:induction false} ShowOneMore(c: char, s: string, base: nat)
    requires 0 <= DigitValue(c) < base && DigitsOf(s, base)
    ensures DigitsOf([c] + s, base)
  {
  }

  lemma {:induction false} NumeralShows(value: nat, base: nat, upper: bool)
    requires 2 <= base <= 16
    ensures DigitsOf(Numeral(value, base, upper), base)
    ensures Numeral(value, base, upper)[0] == '0' <==> value == 0
    ensures value == 0 ==> Numeral(value, base, upper) == "0"
    decreases value
  {
    if value >= base {
      QuotientSmaller(value, base);
      DigitCharValue(value % base, upper);
      NumeralShows(value / base, base, upper);
    } else {
      DigitCharValue(value, upper);
    }
  }

  const WORD64 := 0x1_0000_0000_0000_0000

  lemma {:induction false} PowersOfTwo64()
    ensures Pow(8, 22) >= WORD64 && Pow(10, 20) >= WORD64 && Pow(16, 22) >= Pow(16, 16) == WORD64
  {
    assert Pow(8, 8) == 0x100_0000 && Pow(8, 16) == 0x1_0000_0000_0000;
    assert Pow(16, 8) == WORD32 && Pow(16, 16) == WORD64;
    assert Pow(10, 7) == 10000000 && Pow(10, 14) == 100000000000000;
    PowGrows(16, 16, 22);
  }

  /** The numeral of a 64-bit number fits 32 digits unless it is binary and wider than 32 bits. */
  lemma {:induction false} NumeralFits(value: nat, base: nat, upper: bool)
    requires value < WORD64 && (base == 2 || base == 8 || base == 10 || base == 16)
    ensures |Numeral(value, base, upper)| <= 32 <==> base != 2 || value < WORD32
    ensures base != 2 ==> |Numeral(value, base, upper)| <= 22
  {
    if base == 2 {
      PowerOfTwo32();
      NumeralLength(value, 2, upper, 32);
    } else {
      PowersOfTwo64();
      PowGrows(10, 20, 22);
      NumeralLength(value, base, upper, 22);
    }
  }

  // ---------------------------------------------------------------- generating

  /** Writes digits from `from` on, last first, until the value or the room is used up. */
  method WriteDigits(buf: array<char>, from: nat, value: nat, base: nat, upper: bool) returns (len: nat)
    requires from <= buf.Length && 2 <= base <= 16
    modifies buf
    ensures from <= len <= buf.Length
    ensures buf[..len] == old(buf[..from]) + LastFirst(value, base, upper, buf.Length - from)
  {
    len := from;
    ghost var kept, digits := buf[..from], LastFirst(value, base, upper, buf.Length - from);
    ghost var written := "";
    var left: nat := value;
    var more := from < buf.Length;
    while more
      invariant from <= len <= buf.Length && (more ==> len < buf.Length)
      invariant buf[..len] == kept + written
      invariant more ==> digits == written + LastFirst(left, base, upper, buf.Length - len)
      invariant !more ==> digits == written
      decreases buf.Length - len
    {
      OneDigitMore(written, left, base, upper, buf.Length - len);
      var digit := DigitChar(left % base, upper);
      buf[len] := digit;
      len := len + 1;
      assert buf[..len] == kept + written + [digit] == kept + (written + [digit]);
      written := written + [digit];
      left := left / base;
      more := left != 0 && len < buf.Length;
    }
  }

  lemma {:induction false} QuotientIsNat(x: nat, d: nat)
    requires d > 0
    ensures x / d >= 0
  {
  }

  /** The digits still to come after the first of `left`. */
  function Rest(left: nat, base: nat, upper: bool, room: nat): string
    requires 2 <= base <= 16 && room > 0
  {
    if left / base != 0 && room > 1 then LastFirst(left / base, base, upper, room - 1) else ""
  }

  lemma {:induction false} FirstAndRest(left: nat, base: nat, upper: bool, room: nat)
    requires 2 <= base <= 16 && room > 0
    ensures LastFirst(left, base, upper, room) == [DigitChar(left % base, upper)] + Rest(left, base, upper, room)
  {
  }

  lemma {:induction false} OneDigitMore(before: string, left: nat, base: nat, upper: bool, room: nat)
    requires 2 <= base <= 16 && room > 0
    ensures left / base >= 0
    ensures before + LastFirst(left, base, upper, room)
            == before + [DigitChar(left % base, upper)] + Rest(left, base, upper, room)
    ensures before + [DigitChar(left % base, upper)] + "" == before + [DigitChar(left % base, upper)]
  {
    QuotientIsNat(left, base);
    FirstAndRest(left, base, upper, room);
    var digit, rest := [DigitChar(left % base, upper)], Rest(left, base, upper, room);
    assert before + (digit + rest) == before + digit + rest;
  }

  // ---------------------------------------------------------------- reading

  function AtOrNul(s: string, pos: nat): char {
    if pos < |s| then s[pos] else '\0'
  }

  /** Where the digits that begin at `pos` end. */
  function DigitsEnd(s: string, pos: nat): (end: nat)
    requires pos <= |s|
    ensures pos <= end <= |s| && forall i :: pos <= i < end ==> IsDigit(s[i])
    ensures end < |s| ==> !IsDigit(s[end])
    decreases |s| - pos
  {
    if pos < |s| && IsDigit(s[pos]) then DigitsEnd(s, pos + 1) else pos
  }

  /** The number written by a digit string, first digit first. */
  function Number(s: string): int {
    if s == "" then 0 else 10 * Number(s[..|s| - 1]) + DigitValue(s[|s| - 1])
  }

  /** Reads an unsigned decimal number, 32 bits wide. */
  method Atoi(s: string, from: nat) returns (i: nat, pos: nat)
    requires from <= |s|
    ensures pos == DigitsEnd(s, from)
    ensures i == Number(s[from..pos]) % WORD32
  {
    i, pos := 0, from;
    while IsDigit(AtOrNul(s, pos))
      invariant from <= pos <= |s| && DigitsEnd(s, from) == DigitsEnd(s, pos)
      invariant i == Number(s[from..pos]) % WORD32
      decreases |s| - pos
    {
      NumberOneMore(s, from, pos);
      AppendDigit(Number(s[from..pos]), DigitValue(s[pos]));
      i := (i * 10 + DigitValue(s[pos])) % WORD32;
      pos := pos + 1;
    }
  }

  lemma {:induction false} NumberOneMore(s: string, from: nat, pos: nat)
    requires from <= pos < |s|
    ensures Number(s[from..pos + 1]) == 10 * Number(s[from..pos]) + DigitValue(s[pos])
  {
    assert s[from..pos + 1][..pos - from] == s[from..pos];
  }

  lemma {:induction false} AppendDigit(before: int, digit: int)
    ensures (before % WORD32 * 10 + digit) % WORD32 == (10 * before + digit) % WORD32
  {
    var q := before / WORD32;
    assert before == WORD32 * q + before % WORD32;
  }

  lemma {:induction false} NumberReversed(lastFirst: string)
    ensures Number(Reversed(lastFirst)) == ValueOf(lastFirst, 10)
  {
    if lastFirst != "" {
      var n := |lastFirst| - 1;
      assert Reversed(lastFirst)[..n] == Reversed(lastFirst[1..]);
      NumberReversed(lastFirst[1..]);
    }
  }

  lemma {:induction false} DecimalDigits(value: nat, room: nat)
    ensures forall i :: 0 <= i < |LastFirst(value, 10, false, room)| ==> IsDigit(LastFirst(value, 10, false, room)[i])
    decreases room
  {
    if room > 0 && value / 10 != 0 {
      DecimalDigits(value / 10, room - 1);
    }
  }

  /** Where the digits of a number are followed by anything but a digit, reading takes exactly them and yields the number. */
  lemma {:induction false} AtoiReadsDigits(value: nat, room: nat, rest: string)
    requires value < WORD32 && room >= 32 && (rest == "" || !IsDigit(rest[0]))
    ensures var digits := Reversed(LastFirst(value, 10, false, room));
            && DigitsEnd(digits + rest, 0) == |digits|
            && Number((digits + rest)[0..|digits|]) % WORD32 == value
  {
    var lastFirst := LastFirst(value, 10, false, room);
    var digits := Reversed(lastFirst);
    assert (digits + rest)[0..|digits|] == digits;
    DecimalDigits(value, room);
    EndIs(digits + rest, 0, |digits|);
    NumberReversed(lastFirst);
    DigitRoundTrip(value, 10, false, room);
  }

  lemma {:induction false} EndIs(s: string, from: nat, end: nat)
    requires from <= end <= |s|
    requires forall i :: from <= i < end ==> IsDigit(s[i])
    requires end < |s| ==> !IsDigit(s[end])
    ensures DigitsEnd(s, from) == end
    decreases end - from
  {
    if from < end {
      EndIs(s, from + 1, end);
    }
  }
}
