/** Floating-point conversions of any double: fixed-point, with an exponent, and the special values. */
module ScientificText {
  import opened Output
  import opened IntegerText
  import opened FloatText

  /**
   * A double. What the code's bit arithmetic makes of a finite number, its decimal exponent and that power of ten,
   * comes with the number.
   */
  datatype Double = Finite(r: real, exponent: int, power: real) | NotANumber | Infinite(negative: bool)

  predicate Small(r: real) {
    -MAX_FLOAT <= r <= MAX_FLOAT
  }

  /** The special values, last character first. */
  function Special(v: Double, f: Flags): string
    requires !v.Finite?
  {
    match v
    case NotANumber => "nan"
    case Infinite(negative) => if negative then "fni-" else if f.plus then "fni+" else "fni"
  }

  /** How a number with an exponent is laid out; no exponent when its width is 0. */
  datatype Plan = Plan(prec: nat, f: Flags, width: nat, exponent: int, exponentWidth: nat)

  /** '%g' shows numbers of middling size without an exponent. */
  predicate FallsBack(a: real, adapt: bool) {
    adapt && 0.0001 <= a < 1000000.0
  }

  function PlannedPrecision(a: real, exponent: int, prec: nat, f: Flags, adapt: bool): nat {
    var p := Decimals(prec, f);
    if FallsBack(a, adapt) then (if p > exponent then p - exponent - 1 else 0)
    else if adapt && p > 0 && f.precision then p - 1
    else p
  }

  function PlanFor(a: real, exponent: int, prec: nat, width: nat, f: Flags, adapt: bool): Plan {
    var p := PlannedPrecision(a, exponent, prec, f, adapt);
    if FallsBack(a, adapt) then Plan(p, f.(precision := true), width, 0, 0)
    else
      var exponentWidth := if -100 < exponent < 100 then 4 else 5;
      Plan(p, f, if f.left || width <= exponentWidth then 0 else width - exponentWidth, exponent, exponentWidth)
  }

  function Scaled(v: Double, plan: Plan): real
    requires v.Finite? && v.power != 0.0
  {
    var a := if plan.exponent != 0 then Magnitude(v.r) / v.power else Magnitude(v.r);
    if v.r < 0.0 then 0.0 - a else a
  }

  const EXPONENT_FLAGS := Flags(true, false, true, false, false, false, false)

  function Absolute(e: int): nat {
    if e < 0 then -e else e
  }

  function ExponentNumber(plan: Plan): string
    requires plan.exponentWidth > 0
  {
    LongText(Absolute(plan.exponent), plan.exponent < 0, 10, 0, plan.exponentWidth - 1, EXPONENT_FLAGS)
  }

  function ExponentText(plan: Plan, upper: bool): string {
    if plan.exponentWidth == 0 then "" else [if upper then 'E' else 'e'] + ExponentNumber(plan)
  }

  function SpacesBehind(text: string, width: nat, f: Flags, plan: Plan): string {
    if plan.exponentWidth != 0 && f.left then SpaceText(width - |text|) else ""
  }

  /** The scaled number can be printed in full, with a precision the table of powers covers. */
  predicate Plannable(v: Double, plan: Plan) {
    v.Finite? && v.power != 0.0 && Small(Scaled(v, plan)) && Decimals(plan.prec, plan.f) <= MAX_PRECISION
  }

  function PlannedText(v: Double, width: nat, f: Flags, plan: Plan): string
    requires Plannable(v, plan)
  {
    var text := FixedText(Scaled(v, plan), plan.prec, plan.width, plan.f) + ExponentText(plan, f.upper);
    text + SpacesBehind(text, width, f, plan)
  }

  predicate EtoaSupplied(v: Double, prec: nat, width: nat, f: Flags, adapt: bool) {
    v.Finite? ==> Plannable(v, PlanFor(Magnitude(v.r), v.exponent, prec, width, f, adapt))
  }

  function EtoaText(v: Double, prec: nat, width: nat, f: Flags, adapt: bool): string
    requires EtoaSupplied(v, prec, width, f, adapt)
  {
    if v.Finite? then PlannedText(v, width, f, PlanFor(Magnitude(v.r), v.exponent, prec, width, f, adapt))
    else Padded(Special(v, f), width, f)
  }

  predicate FtoaSupplied(v: Double, prec: nat, width: nat, f: Flags) {
    if v.Finite? && Small(v.r) then Decimals(prec, f) <= MAX_PRECISION else EtoaSupplied(v, prec, width, f, false)
  }

  /** Numbers too large to print in full get an exponent. */
  function FtoaText(v: Double, prec: nat, width: nat, f: Flags): string
    requires FtoaSupplied(v, prec, width, f)
  {
    if v.Finite? && Small(v.r) then FixedText(v.r, prec, width, f) else EtoaText(v, prec, width, f, false)
  }

  // ---------------------------------------------------------------- the code

  method OutSpecial(sink: Sink, idx: nat, lastFirst: string, width: nat, f: Flags) returns (end: nat)
    requires sink.Valid()
    modifies sink, sink.buffer
    ensures end == idx + |Padded(lastFirst, width, f)|
    ensures sink.State() == PutAll(old(sink.State()), idx, Padded(lastFirst, width, f))
  {
    var buf := new char[|lastFirst|](i requires 0 <= i < |lastFirst| => lastFirst[i]);
    assert buf[..|lastFirst|] == lastFirst;
    end := OutRev(sink, idx, buf, |lastFirst|, width, f);
  }

  method Ftoa(sink: Sink, idx: nat, v: Double, prec: nat, width: nat, f: Flags) returns (end: nat)
    requires sink.Valid() && FtoaSupplied(v, prec, width, f)
    modifies sink, sink.buffer
    ensures end == idx + |FtoaText(v, prec, width, f)|
    ensures sink.State() == PutAll(old(sink.State()), idx, FtoaText(v, prec, width, f))
  {
    if v.Finite? && Small(v.r) {
      end := FixedToText(sink, idx, v.r, prec, width, f);
    } else {
      end := Etoa(sink, idx, v, prec, width, f, false);
    }
  }

  method Etoa(sink: Sink, idx: nat, v: Double, prec: nat, width: nat, f: Flags, adapt: bool) returns (end: nat)
    requires sink.Valid() && EtoaSupplied(v, prec, width, f, adapt)
    modifies sink, sink.buffer
    ensures end == idx + |EtoaText(v, prec, width, f, adapt)|
    ensures sink.State() == PutAll(old(sink.State()), idx, EtoaText(v, prec, width, f, adapt))
  {
    if v.Finite? {
      var plan := PlanFor(Magnitude(v.r), v.exponent, prec, width, f, adapt);
      end := OutPlanned(sink, idx, v, width, f, plan);
    } else {
      end := OutSpecial(sink, idx, Special(v, f), width, f);
    }
  }

  /** The number, its exponent and the spaces behind. */
  method OutPlanned(sink: Sink, idx: nat, v: Double, width: nat, f: Flags, plan: Plan) returns (end: nat)
    requires sink.Valid() && Plannable(v, plan)
    modifies sink, sink.buffer
    ensures end == idx + |PlannedText(v, width, f, plan)|
    ensures sink.State() == PutAll(old(sink.State()), idx, PlannedText(v, width, f, plan))
  {
    ghost var start := sink.State();
    var scaled := Scaled(v, plan);
    ghost var number := FixedText(scaled, plan.prec, plan.width, plan.f);
    end := FixedToText(sink, idx, scaled, plan.prec, plan.width, plan.f);
    end := OutExponent(sink, end, idx, width, f, plan, start, number);
  }

  method OutExponent(sink: Sink, at: nat, idx: nat, width: nat, f: Flags, plan: Plan, ghost start: Output, ghost number: string)
    returns (end: nat)
    requires sink.Valid() && Good(start) && at == idx + |number| && sink.State() == PutAll(start, idx, number)
    modifies sink, sink.buffer
    ensures var text := number + ExponentText(plan, f.upper);
            var whole := text + SpacesBehind(text, width, f, plan);
            end == idx + |whole| && sink.State() == PutAll(start, idx, whole)
  {
    ghost var text;
    end, text := OutMarkAndExponent(sink, at, idx, f.upper, plan, start, number);
    NothingBehind(text, width, f, plan);
    if plan.exponentWidth != 0 && f.left {
      end := sink.SpacesBehind(width, end, idx, start, text);
    }
  }

  lemma {:induction false} NothingBehind(text: string, width: nat, f: Flags, plan: Plan)
    ensures !(plan.exponentWidth != 0 && f.left) ==> text + SpacesBehind(text, width, f, plan) == text
  {
  }

  method OutMarkAndExponent(
      sink: Sink, at: nat, idx: nat, upper: bool, plan: Plan, ghost start: Output, ghost number: string)
    returns (end: nat, ghost text: string)
    requires sink.Valid() && Good(start) && at == idx + |number| && sink.State() == PutAll(start, idx, number)
    modifies sink, sink.buffer
    ensures text == number + ExponentText(plan, upper) && end == idx + |text| && sink.State() == PutAll(start, idx, text)
  {
    end, text := at, number;
    NoExponent(number, plan, upper);
    if plan.exponentWidth > 0 {
      var mark := if upper then 'E' else 'e';
      sink.OutNext(mark, end, start, idx, number);
      end, text := OutExponentNumber(sink, end + 1, idx, plan, start, number + [mark]);
      MarkAndExponent(number, mark, plan, upper);
    }
  }

  lemma {:induction false} NoExponent(number: string, plan: Plan, upper: bool)
    ensures plan.exponentWidth == 0 ==> number + ExponentText(plan, upper) == number
  {
  }

  lemma {:induction false} MarkAndExponent(number: string, mark: char, plan: Plan, upper: bool)
    requires plan.exponentWidth > 0 && mark == if upper then 'E' else 'e'
    ensures number + [mark] + ExponentNumber(plan) == number + ExponentText(plan, upper)
  {
    var exponent := ExponentNumber(plan);
    assert number + [mark] + exponent == number + ([mark] + exponent);
  }

  method OutExponentNumber(sink: Sink, at: nat, idx: nat, plan: Plan, ghost start: Output, ghost before: string)
    returns (end: nat, ghost text: string)
    requires sink.Valid() && plan.exponentWidth > 0
    requires Good(start) && at == idx + |before| && sink.State() == PutAll(start, idx, before)
    modifies sink, sink.buffer
    ensures text == before + ExponentNumber(plan) && end == idx + |text| && sink.State() == PutAll(start, idx, text)
  {
    ghost var number := ExponentNumber(plan);
    end := NtoaBehind(sink, at, idx, Absolute(plan.exponent), plan.exponent < 0, plan.exponentWidth - 1, start, before, number);
    text := before + number;
  }

  /** A signed decimal number behind a text that has been emitted. */
  method NtoaBehind(
      sink: Sink, at: nat, idx: nat, value: nat, negative: bool, width: nat, ghost start: Output, ghost before: string,
      ghost number: string)
    returns (end: nat)
    requires sink.Valid() && Good(start) && at == idx + |before| && sink.State() == PutAll(start, idx, before)
    requires number == LongText(value, negative, 10, 0, width, EXPONENT_FLAGS)
    modifies sink, sink.buffer
    ensures end == idx + |before + number| && sink.State() == PutAll(start, idx, before + number)
  {
    end := NtoaLong(sink, at, value, negative, 10, 0, width, EXPONENT_FLAGS);
    PutAllConcat(start, idx, before, number);
  }
}
