/** Quotients and remainders, where the solver wants the multiplications spelled out. */
module Arithmetic {

  lemma {:induction false} MulMonotone(d: nat, a: nat, b: nat)
    requires a <= b
    ensures d * a <= d * b
  {
    assert d * b == d * a + d * (b - a);
  }

  lemma {:induction false} MulCancel(d: nat, a: nat, b: nat)
    requires d * a < d * b
    ensures a < b
  {
    if b <= a {
      MulMonotone(d, b, a);
    }
  }

  lemma {:induction false} QuotientIs(x: nat, d: nat, q: nat, r: nat)
    requires d > 0 && x == d * q + r && r < d
    ensures x / d == q && x % d == r
  {
    var q' := x / d;
    assert x == d * q' + x % d;
    assert d * (q + 1) == d * q + d && d * (q' + 1) == d * q' + d;
    MulCancel(d, q, q' + 1);
    MulCancel(d, q', q + 1);
  }

  lemma {:induction false} QuotientAtLeast(x: nat, d: nat, q: nat)
    requires d > 0 && d * q <= x
    ensures q <= x / d
  {
    assert d * (x / d + 1) == d * (x / d) + d;
    MulCancel(d, q, x / d + 1);
  }

  lemma {:induction false} QuotientShrinks(x: nat, a: nat, b: nat)
    requires 0 < a <= b
    ensures x / b <= x / a
  {
    var q := x / b;
    MulMonotone(q, a, b);
    assert a * q == q * a && b * q == q * b;
    QuotientAtLeast(x, a, q);
  }

  lemma {:induction false} QuotientOfQuotient(x: nat, a: nat, b: nat)
    requires a > 0 && b > 0
    ensures a * b > 0 && x / a / b == x / (a * b)
  {
    var q, h := x / a, x / a / b;
    var r, s := x % a, q % b;
    assert x == a * (b * h + s) + r;
    assert a * (b * h + s) == (a * b) * h + a * s;
    MulMonotone(a, s + 1, b);
    assert a * (s + 1) == a * s + a;
    QuotientIs(x, a * b, h, a * s + r);
  }

  lemma {:induction false} ModMinusMultiple(x: nat, d: nat, q: nat)
    requires d > 0 && d * q <= x
    ensures (x - d * q) % d == x % d
  {
    QuotientAtLeast(x, d, q);
    assert x - d * q == d * (x / d - q) + x % d;
    QuotientIs(x - d * q, d, x / d - q, x % d);
  }

  /** Adding to a remainder is adding before taking it. */
  lemma {:induction false} ModAdd(x: nat, y: nat, d: nat)
    requires d > 0
    ensures (x % d + y) % d == (x + y) % d
  {
    assert x % d + y == x + y - d * (x / d);
    ModMinusMultiple(x + y, d, x / d);
  }

  lemma {:induction false} NextModulo(k: nat, n: nat)
    requires n > 0
    ensures (k + 1) % n == (if k % n == n - 1 then 0 else k % n + 1)
    ensures (k + 1) / n == (if k % n == n - 1 then k / n + 1 else k / n)
  {
    if k % n == n - 1 {
      assert n * (k / n + 1) == n * (k / n) + n;
      QuotientIs(k + 1, n, k / n + 1, 0);
    } else {
      QuotientIs(k + 1, n, k / n, k % n + 1);
    }
  }
}
