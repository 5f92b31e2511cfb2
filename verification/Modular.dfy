/** Congruence, divisibility and coprimality. */
module Modular {
  import opened Arithmetic

  predicate DifferBy(a: int, b: int, k: int, m: nat) {
    a - b == k * m
  }

  ghost predicate Congruent(a: int, b: int, m: nat) {
    exists k: int :: DifferBy(a, b, k, m)
  }

  lemma Witnessed(a: int, b: int, m: nat, k: int)
    requires a - b == k * m
    ensures Congruent(a, b, m)
  {
    assert DifferBy(a, b, k, m);
  }

  lemma Reflexive(a: int, m: nat)
    ensures Congruent(a, a, m)
  {
    Witnessed(a, a, m, 0);
  }

  lemma Symmetric(a: int, b: int, m: nat)
    requires Congruent(a, b, m)
    ensures Congruent(b, a, m)
  {
    var k: int :| DifferBy(a, b, k, m);
    Subtract(0, k, m);
    Witnessed(b, a, m, -k);
  }

  lemma Transitive(a: int, b: int, c: int, m: nat)
    requires Congruent(a, b, m) && Congruent(b, c, m)
    ensures Congruent(a, c, m)
  {
    var k: int :| DifferBy(a, b, k, m);
    var l: int :| DifferBy(b, c, l, m);
    Distribute(k, l, m);
    Witnessed(a, c, m, k + l);
  }

  lemma Sum(a: int, b: int, c: int, d: int, m: nat)
    requires Congruent(a, b, m) && Congruent(c, d, m)
    ensures Congruent(a + c, b + d, m)
  {
    var k: int :| DifferBy(a, b, k, m);
    var l: int :| DifferBy(c, d, l, m);
    Distribute(k, l, m);
    Witnessed(a + c, b + d, m, k + l);
  }

  lemma Difference(a: int, b: int, c: int, d: int, m: nat)
    requires Congruent(a, b, m) && Congruent(c, d, m)
    ensures Congruent(a - c, b - d, m)
  {
    var k: int :| DifferBy(a, b, k, m);
    var l: int :| DifferBy(c, d, l, m);
    Subtract(k, l, m);
    Witnessed(a - c, b - d, m, k - l);
  }

  lemma Scaled(a: int, b: int, c: int, m: nat)
    requires Congruent(a, b, m)
    ensures Congruent(a * c, b * c, m) && Congruent(c * a, c * b, m)
  {
    var k: int :| DifferBy(a, b, k, m);
    Subtract(a, b, c);
    Regroup(k, m, c);
    Regroup(a, c, 1);
    Regroup(b, c, 1);
    Witnessed(a * c, b * c, m, k * c);
  }

  lemma Product(a: int, b: int, c: int, d: int, m: nat)
    requires Congruent(a, b, m) && Congruent(c, d, m)
    ensures Congruent(a * c, b * d, m)
  {
    Scaled(a, b, c, m);
    Scaled(c, d, b, m);
    Transitive(a * c, b * c, b * d, m);
  }

  lemma Remainder(a: nat, m: nat)
    requires 0 < m
    ensures Congruent(a, a % m, m) && a % m < m
  {
    DivMod(a, m);
    Witnessed(a, a % m, m, a / m);
  }

  /** Each residue class has one member below m. */
  lemma SameResidue(a: nat, b: nat, m: nat)
    requires a < m && b < m && Congruent(a, b, m)
    ensures a == b
  {
    var k: int :| DifferBy(a, b, k, m);
    if k > 0 {
      LeTimes(1, k, m);
    } else if k < 0 {
      LeTimes(1, -k, m);
      Subtract(0, k, m);
    }
  }

  ghost predicate Divides(d: nat, a: int) {
    exists k: int :: DifferBy(a, 0, k, d)
  }

  lemma DividesBy(d: nat, a: int, k: int)
    requires a == k * d
    ensures Divides(d, a)
  {
    assert DifferBy(a, 0, k, d);
  }

  /** A divisor of a and b divides a - q * b and a + q * b. */
  lemma DividesCombination(d: nat, a: int, b: int, q: int)
    requires Divides(d, a) && Divides(d, b)
    ensures Divides(d, a + q * b) && Divides(d, a - q * b)
  {
    var k: int :| DifferBy(a, 0, k, d);
    var l: int :| DifferBy(b, 0, l, d);
    Regroup(q, l, d);
    Distribute(k, q * l, d);
    Subtract(k, q * l, d);
    DividesBy(d, a + q * b, k + q * l);
    DividesBy(d, a - q * b, k - q * l);
  }

  ghost predicate Coprime(a: int, b: int) {
    forall d: nat :: Divides(d, a) && Divides(d, b) ==> d == 1
  }

  lemma SelfDivides(a: nat)
    ensures Divides(a, a) && Divides(a, 0)
  {
    DividesBy(a, a, 1);
    DividesBy(a, 0, 0);
  }

  /** One step of Euclid's algorithm keeps the common divisors. */
  lemma EuclidStep(s: nat, t: nat)
    requires 0 < t && Coprime(s, t)
    ensures Coprime(s % t, t)
  {
    DivMod(s, t);
    forall d: nat | Divides(d, s % t) && Divides(d, t)
      ensures d == 1
    {
      DividesCombination(d, s % t, t, s / t);
    }
  }

  lemma CoprimeSymmetric(a: int, b: int)
    requires Coprime(a, b)
    ensures Coprime(b, a)
  {
  }

  /** Coprime numbers combine to 1. */
  lemma {:induction false} Bezout(a: nat, b: nat) returns (c: int, d: int)
    requires Coprime(a, b)
    ensures c * a + d * b == 1
    decreases b
  {
    if b == 0 {
      SelfDivides(a);
      c, d := 1, 0;
    } else {
      EuclidStep(a, b);
      CoprimeSymmetric(a % b, b);
      var e, f := Bezout(b, a % b);
      DivMod(a, b);
      c, d := f, e - f * (a / b);
      Subtract(e, f * (a / b), b);
      Regroup(f, a / b, b);
      Distribute(a / b * b, a % b, f);
    }
  }

  ghost predicate Prime(p: nat) {
    2 <= p && forall d: nat :: Divides(d, p) ==> d == 1 || d == p
  }

  lemma PrimeCoprime(p: nat, x: nat)
    requires Prime(p) && 0 < x < p
    ensures Coprime(p, x)
  {
    forall d: nat | Divides(d, p) && Divides(d, x)
      ensures d == 1
    {
      var k: int :| DifferBy(x, 0, k, d);
      if d == p {
        if k <= 0 {
          Subtract(0, k, d);
          LeTimes(0, -k, d);
        } else {
          LeTimes(1, k, d);
        }
      }
    }
  }

  /** If a * c and b * c are congruent and c has an inverse, then so are a and b. */
  lemma CancelFactor(a: int, b: int, c: int, e: int, m: nat)
    requires Congruent(a * c, b * c, m) && Congruent(c * e, 1, m)
    ensures Congruent(a, b, m)
  {
    Scaled(a * c, b * c, e, m);
    Regroup(a, c, e);
    Regroup(b, c, e);
    Scaled(c * e, 1, a, m);
    Scaled(c * e, 1, b, m);
    Symmetric(a * (c * e), a * 1, m);
    Transitive(a * 1, a * (c * e), b * (c * e), m);
    Transitive(a, b * (c * e), b * 1, m);
  }
}
