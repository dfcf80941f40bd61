/** Facts about products, quotients and floors, kept apart from the functions that use
    them. */
module Arithmetic {

  lemma MulSmall(d: int, b: int, x: int)
    requires b > 0 && d * b == x && -b < x < b
    ensures d == 0
  {
    assert d >= 1 ==> d * b >= b;
    assert d <= -1 ==> d * b <= -b;
  }

  /** A quotient is known from a product and a small remainder. */
  lemma QuotientIs(a: int, b: int, q: int, r: int)
    requires b > 0 && a == q * b + r && 0 <= r < b
    ensures a / b == q
  {
    var d := a / b - q;
    assert a == (a / b) * b + a % b;
    assert d * b == (a / b) * b - q * b;
    MulSmall(d, b, r - a % b);
  }

  lemma MulReorder(a: int, b: int, c: int)
    ensures a * b * c == a * c * b == a * (b * c) == b * (a * c)
  {
  }

  lemma MulDistributes(a: int, b: int, c: int)
    ensures (a + b) * c == a * c + b * c
  {
  }

  lemma RemainderFits(r': int, b: int, c: int, r: int)
    requires 0 <= r' < b && 0 <= r < c
    ensures 0 <= r' * c + r < b * c
  {
    MulDistributes(b - 1 - r', r' + 1, c);
    assert (b - 1 - r') * c >= 0 && r' * c >= 0;
    MulDistributes(r', 1, c);
  }

  /** Dividing by c and then by b is dividing by the product. */
  lemma DivDiv(a: nat, b: nat, c: nat)
    requires b > 0 && c > 0
    ensures b * c > 0 && a / c / b == a / (b * c)
  {
    var q, r := a / c, a % c;
    var q', r' := q / b, q % b;
    MulDistributes(q' * b, r', c);
    MulReorder(q', b, c);
    RemainderFits(r', b, c, r);
    ProductPositive(b, c);
    ExactDivision(a, c, q, r);
    ExactDivision(q, b, q', r');
    QuotientIs(a, b * c, q', r' * c + r);
  }

  lemma ExactDivision(a: nat, b: nat, q: nat, r: nat)
    requires b > 0 && q == a / b && r == a % b
    ensures a == q * b + r
  {
  }

  lemma ProductPositive(b: nat, c: nat)
    requires b > 0 && c > 0
    ensures b * c > 0
  {
  }

  lemma CancelFactor(a: nat, b: nat, c: nat)
    requires b > 0 && c > 0
    ensures b * c > 0 && (a * c) / (b * c) == a / b
  {
    ProductPositive(c, b);
    MulReorder(1, a, c);
    DivDiv(a * c, b, c);
    QuotientIs(a * c, c, a, 0);
  }

  /** Adding a multiple of the divisor. */
  lemma AddMultiple(a: nat, b: nat, m: nat)
    requires b > 0
    ensures (m * b + a) / b == m + a / b
  {
    var q, r := a / b, a % b;
    assert (m + q) * b == m * b + q * b;
    QuotientIs(m * b + a, b, m + q, r);
  }

  lemma FloorOfQuotient(a: nat, b: nat)
    requires b > 0
    ensures (a as real / b as real).Floor == a / b
  {
    var q, r := a / b, a % b;
    var x := a as real / b as real;
    assert q * b + r == a;
    assert (q * b) as real == q as real * b as real;
    assert x * b as real == a as real;
    assert (x - q as real) * b as real == r as real;
    BetweenZeroAndOne(x - q as real, b as real, r as real);
  }

  /** n * p / q, rounded down. */
  function MulDiv(n: nat, p: nat, q: nat): nat
    requires q > 0
  {
    n * p / q
  }

  lemma FloorOfMulDiv(n: nat, p: nat, q: nat, x: real)
    requires q > 0 && x == (n * p) as real / q as real
    ensures x.Floor == MulDiv(n, p, q)
  {
    FloorOfQuotient(n * p, q);
  }

  lemma BetweenZeroAndOne(y: real, b: real, r: real)
    requires b > 0.0 && y * b == r && 0.0 <= r < b
    ensures 0.0 <= y < 1.0
  {
    assert y < 0.0 ==> y * b < 0.0;
    assert y >= 1.0 ==> y * b >= b;
  }

  /** (w + f / p) * e, over one denominator. */
  lemma CommonDenominator(w: nat, f: nat, p: nat, e: nat)
    requires p > 0
    ensures (w as real + f as real / p as real) * e as real == ((w * p + f) * e) as real / p as real
  {
    var w', f', p', e' := w as real, f as real, p as real, e as real;
    assert (w * p) as real == w' * p' && ((w * p + f) * e) as real == (w' * p' + f') * e';
    var x := f' / p';
    assert x * p' == f';
    RealFactor(w', x, p', e');
    assert ((w' + x) * e') * p' == (w' * p' + f') * e';
    RealQuotient((w' + x) * e', p', (w' * p' + f') * e');
  }

  lemma RealFactor(w: real, x: real, p: real, e: real)
    ensures ((w + x) * e) * p == (w * p + x * p) * e
  {
    assert (w + x) * e == w * e + x * e;
    assert (w * e + x * e) * p == w * e * p + x * e * p;
    assert w * e * p == w * p * e && x * e * p == x * p * e;
  }

  lemma RealQuotient(y: real, p: real, a: real)
    requires p > 0.0 && y * p == a
    ensures y == a / p
  {
  }
}
