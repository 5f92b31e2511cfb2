/** The arithmetic behind the run-time generated division routine of quantize.cpp. */
module Quantize {
  import opened Arithmetic
  import opened Powers

  const WORD: nat := 0x1_0000_0000
  const MAX_WORD: nat := 0xFFFF_FFFF

  /** Divisors from here on overflow the int in ilog2. */
  const DIVISOR_LIMIT: nat := 0x4000_0000

  lemma WordIsPow2()
    ensures Pow2(32) == WORD && Pow2(30) == DIVISOR_LIMIT
  {
    assert Pow2(10) == 1024;
    Pow2Sum(10, 10);
    Pow2Sum(10, 20);
    Pow2Sum(2, 30);
  }

  /** An odd number above 1 divides no power of two. */
  lemma {:induction false} OddDividesNoPower(o: nat, n: nat, c: nat)
    requires 3 <= o && o % 2 == 1
    ensures Pow2(n) != c * o
  {
    if n > 0 && Pow2(n) == c * o {
      if c % 2 == 1 {
        OddTimesOdd(c, o);
      }
      Regroup(2, c / 2, o);
      OddDividesNoPower(o, n - 1, c / 2);
    } else if n == 0 && c > 0 {
      LeTimes(1, c, o);
    }
  }

  lemma PowerRemainder(o: nat, n: nat)
    requires 3 <= o && o % 2 == 1
    ensures 1 <= Pow2(n) % o
  {
    DivMod(Pow2(n), o);
    OddDividesNoPower(o, n, Pow2(n) / o);
  }

  /** The largest multiple of o that fits a word. */
  function Top(o: nat): nat
    requires 0 < o
  {
    MAX_WORD - MAX_WORD % o
  }

  lemma TopIs(o: nat)
    requires 0 < o <= MAX_WORD
    ensures Top(o) == MAX_WORD / o * o && o <= Top(o) <= MAX_WORD < Top(o) + o
  {
    DivMod(MAX_WORD, o);
    if MAX_WORD / o > 0 {
      LeTimes(1, MAX_WORD / o, o);
    }
  }

  lemma BetweenMultiples(v: nat, p: nat, q: nat, o: nat)
    requires 0 < o && 0 < p && q * p * o <= v * o < q * p * o + p * o
    ensures v / p == q
  {
    Distribute(q * p, p, o);
    Unscale(q * p, v, o);
    Distribute(v, 1, o);
    Unscale(v + 1, q * p + p, o);
    QuotientIs(v, p, q);
  }

  lemma Expand(p: nat, q: nat, o: nat, s: nat)
    ensures (q * o + s) * p == q * p * o + s * p
  {
    Distribute(q * o, s, p);
    Regroup(q, o, p);
    Regroup(q, p, o);
    Regroup(p, o, 1);
  }

  /** If e * x < p * (o - x % o) where m * o == p + e, then m * x / p == x / o. */
  lemma ScaledQuotient(o: nat, m: nat, p: nat, e: nat, x: nat)
    requires 0 < o && 0 < p && m * o == p + e && e * x < p * (o - x % o)
    ensures m * x / p == x / o
  {
    var q, s := x / o, x % o;
    DivMod(x, o);
    Regroup(m, x, o);
    Distribute(p, e, x);
    Expand(p, q, o, s);
    Subtract(o, s, p);
    Regroup(p, x, 1);
    BetweenMultiples(m * x, p, q, o);
  }

  lemma LastMultiple(o: nat, x: nat)
    requires 3 <= o <= MAX_WORD && o % 2 == 1 && x <= MAX_WORD && x % o == o - 1
    ensures x + 1 <= Top(o)
  {
    TopIs(o);
    DivMod(x, o);
    var a, b := MAX_WORD / o, x / o + 1;
    Distribute(x / o, 1, o);
    if x == MAX_WORD {
      WordIsPow2();
      OddDividesNoPower(o, 32, b);
    }
    if a < b {
      LessTimes(a, b, o);
    } else {
      LeTimes(b, a, o);
    }
  }

  /** Multiplying by m and dividing by p divides a word by o exactly, when m * o is above p by little enough. */
  lemma RoundedUpIsExact(o: nat, m: nat, p: nat, e: nat, x: nat)
    requires 3 <= o <= MAX_WORD && o % 2 == 1 && m * o == p + e && 1 <= e && e * Top(o) <= p && x <= MAX_WORD
    ensures 0 < p && m * x / p == x / o
  {
    TopIs(o);
    var t, s := Top(o), x % o;
    LeTimes(1, e, t);
    if s == o - 1 {
      LastMultiple(o, x);
      LeTimes(x, t - 1, e);
      Subtract(t, 1, e);
    } else {
      LeTimes(x, t + o - 1, e);
      Distribute(t, o - 1, e);
      LeTimes(o - 1, t, e);
      LeTimes(2, o - s, p);
      assert e * x <= e * t + e * (o - 1);
      SmallerProduct(e, o - 1, t);
    }
    ScaledQuotient(o, m, p, e, x);
  }

  lemma SmallerProduct(e: nat, a: nat, b: nat)
    requires 1 <= e && a < b
    ensures e * a < e * b
  {
    LessTimes(a, b, e);
  }

  /** Adding m once more makes up for an m that is too small by little enough. */
  lemma RoundedDownIsExact(o: nat, m: nat, p: nat, r: nat, x: nat)
    requires 1 <= o && m * o + r == p && 1 <= r && r * WORD <= p && x <= MAX_WORD
    ensures 0 < p && m * (x + 1) / p == x / o
  {
    var q, s := x / o, x % o;
    DivMod(x, o);
    LeTimes(x + 1, WORD, r);
    LeTimes(1, x + 1, r);
    Regroup(m, x + 1, o);
    Subtract(p, r, x + 1);
    Expand(p, q, o, s + 1);
    Regroup(p, x + 1, 1);
    LeTimes(1, s + 1, p);
    LeTimes(s + 1, o, p);
    BetweenMultiples(m * (x + 1), p, q, o);
  }
}
