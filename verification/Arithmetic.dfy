/** Products, quotients and remainders. */
module Arithmetic {

  lemma LeTimes(a: nat, b: nat, c: nat)
    requires a <= b
    ensures a * c <= b * c && c * a <= c * b
  {
  }

  lemma Distribute(a: int, b: int, c: int)
    ensures (a + b) * c == a * c + b * c && c * (a + b) == c * a + c * b
  {
  }

  lemma Subtract(a: int, b: int, c: int)
    ensures (a - b) * c == a * c - b * c && c * (a - b) == c * a - c * b
  {
  }

  lemma Regroup(a: int, b: int, c: int)
    ensures a * b * c == a * (b * c) && a * b * c == a * c * b && a * b == b * a
  {
  }

  lemma LessTimes(a: nat, b: nat, n: nat)
    requires a < b
    ensures a * n + n <= b * n
  {
    LeTimes(a + 1, b, n);
    Distribute(a, 1, n);
  }

  lemma SameQuotient(d: nat, p: nat, r: nat, q: nat, s: nat)
    requires p * d + r == q * d + s && r < d && s < d
    ensures p == q && r == s
  {
    if p < q {
      LessTimes(p, q, d);
    } else if q < p {
      LessTimes(q, p, d);
    }
  }

  lemma DivMod(x: nat, d: nat)
    requires 0 < d
    ensures x == x / d * d + x % d && x % d < d
  {
  }

  /** x is q times d with remainder r. */
  lemma QuotientRemainder(x: nat, d: nat, q: nat, r: nat)
    requires x == q * d + r && r < d
    ensures x / d == q && x % d == r
  {
    DivMod(x, d);
    SameQuotient(d, x / d, x % d, q, r);
  }

  lemma QuotientIs(x: nat, d: nat, q: nat)
    requires 0 < d && q * d <= x < q * d + d
    ensures x / d == q
  {
    QuotientRemainder(x, d, q, x - q * d);
  }

  lemma QuotientAtMost(x: nat, d: nat, b: nat)
    requires 0 < d && x < b * d + d
    ensures x / d <= b
  {
    DivMod(x, d);
    if b < x / d {
      LessTimes(b, x / d, d);
    }
  }

  lemma DivDiv(x: nat, a: nat, b: nat)
    requires 0 < a && 0 < b
    ensures 0 < a * b && x / a / b == x / (a * b)
  {
    LeTimes(1, a, b);
    var y := x / a;
    var q, r, s := y / b, y % b, x % a;
    DivMod(x, a);
    DivMod(y, b);
    Distribute(q * b, r, a);
    Regroup(q, b, a);
    Regroup(b, a, 1);
    LessTimes(r, b, a);
    QuotientRemainder(x, a * b, q, r * a + s);
  }

  lemma TimesModulo(c: nat, d: nat)
    requires 0 < d
    ensures c * d % d == 0 && c * d / d == c
  {
    QuotientRemainder(c * d, d, c, 0);
  }

  lemma OddTimesOdd(a: nat, b: nat)
    requires a % 2 == 1 && b % 2 == 1
    ensures a * b % 2 == 1
  {
    var i, j := a / 2, b / 2;
    Distribute(2 * i, 1, b);
    Regroup(2, i, b);
    assert a * b == 2 * (i * b) + b;
  }

  lemma Unscale(a: nat, b: nat, c: nat)
    requires 0 < c && a * c < b * c + c
    ensures a <= b
  {
    if b < a {
      LessTimes(b, a, c);
    }
  }
}
