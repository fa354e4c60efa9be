/** Building the cursor codes in small character buffers, as the editor does without a C library `printf`. */
module CursorCodes {
  import opened Text
  import opened Config
  import opened Terminal
  import opened Tokens
  import opened LineEditor
  import Memory

  const CODE_LEN := 16

  lemma {:induction false} DecimalIsDigits(n: nat)
    ensures forall i :: 0 <= i < |Decimal(n)| ==> IsDigit(Decimal(n)[i])
  {
    if n > 0 {
      DecimalIsDigits(n / 10);
    }
  }

  /** What a 16-bit conversion writes: larger numbers, and zero, come out as no digits at all. */
  function U16(n: nat): string {
    if n <= 0xFFFF then Decimal(n) else ""
  }

  /** The numbers below which at most `5 - i` digits are left. */
  function Limit(i: nat): nat {
    if i == 0 then 100000 else if i == 1 then 10000 else if i == 2 then 1000
    else if i == 3 then 100 else if i == 4 then 10 else 1
  }

  /** Produces the decimal digits, last one first, in a buffer of six. */
  method ReverseDigits(nmb: nat) returns (tmpStr: array<char>, count: nat)
    requires nmb <= 0xFFFF
    ensures fresh(tmpStr) && count <= 5 < tmpStr.Length
    ensures Reversed(tmpStr[..count]) == Decimal(nmb)
  {
    tmpStr := new char[6](_ => '\0');
    var n: nat := nmb;
    count := 0;
    while n > 0
      invariant 0 <= count <= 5 && n < Limit(count)
      invariant Decimal(nmb) == Decimal(n) + Reversed(tmpStr[..count])
    {
      var digit := (n % 10) as char + '0';
      assert Reversed(tmpStr[..count] + [digit]) == [digit] + Reversed(tmpStr[..count]);
      assert Decimal(n) + Reversed(tmpStr[..count]) == Decimal(n / 10) + ([digit] + Reversed(tmpStr[..count]));
      tmpStr[count] := digit;
      count := count + 1;
      n := n / 10;
      assert tmpStr[..count] == tmpStr[..count - 1] + [digit];
    }
  }

  /** Writes the decimal digits at `at` and returns where they end. */
  method U16BitToStr(nmb: nat, buf: array<char>, at: nat) returns (tail: nat)
    requires at + 6 <= buf.Length
    modifies buf
    ensures tail == at + |U16(nmb)| <= at + 5
    ensures buf[at..tail] == U16(nmb) && buf[tail] == '\0'
    ensures forall i :: 0 <= i < buf.Length && (i < at || tail < i) ==> buf[i] == old(buf[i])
  {
    tail := at;
    if nmb <= 0xFFFF {
      var tmpStr, i := ReverseDigits(nmb);
      for j := 0 to i
        invariant tail == at + j
        invariant buf[at..tail] == Decimal(nmb)[..j]
        invariant Reversed(tmpStr[..i]) == Decimal(nmb)
        invariant forall k :: 0 <= k < buf.Length && (k < at || tail <= k) ==> buf[k] == old(buf[k])
      {
        buf[tail] := tmpStr[i - j - 1];
        tail := tail + 1;
      }
    }
    buf[tail] := '\0';
  }

  /** Writes a number and what follows it at `at`; returns where the terminator is. */
  method NumberAnd(str: array<char>, at: nat, n: nat, rest: string) returns (end: nat)
    requires at + 6 + |rest| <= str.Length
    modifies str
    ensures end == at + |U16(n)| + |rest| && end < str.Length
    ensures str[..end] == old(str[..at]) + U16(n) + rest && str[end] == '\0'
  {
    var endStr := U16BitToStr(n, str, at);
    Memory.StrCpy(str, endStr, rest);
    end := endStr + |rest|;
  }

  lemma {:induction false} CodeIsText(offset: int)
    ensures '\0' !in MoveCode(offset)
  {
    DecimalIsDigits(if offset < 0 then -offset else offset);
  }

  /** A control sequence with a positive number, built in the buffer. */
  method NumberedCode(n: nat, final: char) returns (code: string)
    requires 0 < n <= 0xFFFF && final != '\0'
    ensures code == CSI + Decimal(n) + [final] && |code| < 16
  {
    var str := new char[CODE_LEN](_ => '\0');
    Memory.StrCpy(str, 0, CSI);
    var end := NumberAnd(str, 2, n, [final]);
    assert str[..end] == CSI + Decimal(n) + [final];
    DecimalIsDigits(n);
    RunIs(str[..], '\0', 0, str[..end]);
    code := WordAt(str[..], '\0', 0);
  }

  /** The code that moves the cursor by `offset` columns; nothing for zero. */
  method MoveCursorCode(offset: int) returns (code: string)
    requires -0xFFFF <= offset <= 0xFFFF
    ensures code == MoveCode(offset) && |code| < 16
  {
    if offset > 0 {
      code := NumberedCode(offset, 'C');
    } else if offset < 0 {
      code := NumberedCode(-offset, 'D');
    } else {
      code := "";
    }
  }

  /** The code that puts the cursor behind the prompt. */
  method ResetCursorCode() returns (code: string)
    ensures code == RESET_CURSOR && |code| < 16
  {
    var str := new char[CODE_LEN](_ => '\0');
    Memory.StrCpy(str, 0, CSI);
    var back := COMMAND_LINE_LEN + PROMPT_LEN + 2;
    ThreeDigits();
    var end := NumberAnd(str, 2, back, "D" + CSI);
    assert str[..end] == MoveCode(-back) + CSI;
    end := NumberAnd(str, end, PROMPT_LEN, "C");
    assert str[..end] == RESET_CURSOR;
    CodeIsText(-back);
    CodeIsText(PROMPT_LEN);
    RunIs(str[..], '\0', 0, RESET_CURSOR);
    code := WordAt(str[..], '\0', 0);
  }

  lemma {:induction false} ThreeDigits()
    ensures |Decimal(COMMAND_LINE_LEN + PROMPT_LEN + 2)| == 3
  {
    assert |Decimal(1)| == 1 && |Decimal(10)| == 2;
  }
}
