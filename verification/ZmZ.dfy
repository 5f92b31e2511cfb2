/** Residues modulo m: the inverse of zm.h, and exponentiation. */
module ZmZ {
  import opened Arithmetic
  import opened Modular

  function Neg(x: nat, m: nat): nat
    requires x < m
  {
    if x == 0 then x else m - x
  }

  function Sub(x: nat, y: nat, m: nat): nat
    requires x < m && y < m
  {
    if x < y then x + m - y else x - y
  }

  function Mul(x: nat, y: nat, m: nat): nat
    requires 0 < m
  {
    x * y % m
  }

  lemma NegIs(x: nat, m: nat)
    requires x < m
    ensures Neg(x, m) < m && Congruent(Neg(x, m), 0 - x, m)
  {
    if x == 0 {
      Witnessed(0, 0, m, 0);
    } else {
      Witnessed(m - x, 0 - x, m, 1);
    }
  }

  lemma SubIs(x: nat, y: nat, m: nat)
    requires x < m && y < m
    ensures Sub(x, y, m) < m && Congruent(Sub(x, y, m), x - y, m)
  {
    Witnessed(Sub(x, y, m), x - y, m, if x < y then 1 else 0);
  }

  /** s is congruent to a * x: what the coefficients in the inverse keep. */
  ghost predicate Tracks(s: nat, a: nat, x: nat, m: nat) {
    a < m && Congruent(s, a * x, m)
  }

  /** The remainder of s by t is tracked by a - b * q. */
  lemma TrackRemainder(s: nat, t: nat, a: nat, b: nat, x: nat, m: nat)
    requires 0 < t && Tracks(s, a, x, m) && Tracks(t, b, x, m)
    ensures 0 < m && a < m && Mul(b, s / t, m) < m && Tracks(s % t, Sub(a, Mul(b, s / t, m), m), x, m)
  {
    var q, r := s / t, s % t;
    DivMod(s, t);
    var n := Mul(b, q, m);
    Remainder(b * q, m);
    var c := Sub(a, n, m);
    SubIs(a, n, m);
    Scaled(c, a - n, x, m);
    Subtract(a, n, x);
    Scaled(b * q, n, x, m);
    Regroup(b, q, x);
    Regroup(b, x, q);
    Scaled(t, b * x, q, m);
    Transitive(t * q, b * x * q, n * x, m);
    Difference(s, a * x, t * q, n * x, m);
    Regroup(t, q, 1);
    Symmetric(c * x, a * x - n * x, m);
    Transitive(r, a * x - n * x, c * x, m);
  }

  /** a and b have the same common divisors as c and d. */
  ghost predicate CommonDivisors(a: nat, b: nat, c: nat, d: nat) {
    forall e: nat :: (Divides(e, a) && Divides(e, b)) <==> (Divides(e, c) && Divides(e, d))
  }

  lemma RemainderDivisors(s: nat, t: nat, x: nat, m: nat)
    requires 0 < t && (CommonDivisors(x, m, s, t) || CommonDivisors(x, m, t, s))
    ensures CommonDivisors(x, m, s % t, t) && CommonDivisors(x, m, t, s % t)
  {
    DivMod(s, t);
    forall e: nat
      ensures (Divides(e, s) && Divides(e, t)) <==> (Divides(e, s % t) && Divides(e, t))
    {
      if Divides(e, s) && Divides(e, t) {
        DividesCombination(e, s, t, s / t);
      }
      if Divides(e, s % t) && Divides(e, t) {
        DividesCombination(e, s % t, t, s / t);
      }
    }
  }

  /** When one of the two numbers is 0 the other divides both x and m, and it is 1 if they are coprime. */
  lemma LastDivisor(g: nat, out: nat, x: nat, m: nat)
    requires 0 < g && (CommonDivisors(x, m, 0, g) || CommonDivisors(x, m, g, 0)) && Tracks(g, out, x, m)
    ensures out < m && (Congruent(out * x, 1, m) <==> Coprime(x, m))
  {
    SelfDivides(g);
    Symmetric(g, out * x, m);
    if Coprime(x, m) {
      assert Divides(g, x) && Divides(g, m);
    }
    if Congruent(out * x, 1, m) {
      InverseMeansCoprime(out, x, m);
    }
  }

  lemma InverseMeansCoprime(out: int, x: int, m: nat)
    requires Congruent(out * x, 1, m)
    ensures Coprime(x, m)
  {
    var k: int :| DifferBy(out * x, 1, k, m);
    forall d: nat | Divides(d, x) && Divides(d, m)
      ensures d == 1
    {
      var i: int :| DifferBy(x, 0, i, d);
      var j: int :| DifferBy(m, 0, j, d);
      Regroup(out, i, d);
      Regroup(k, j, d);
      Subtract(out * i, k * j, d);
      var n := out * i - k * j;
      if n <= 0 {
        Subtract(0, n, d);
        LeTimes(0, -n, d);
      } else if d == 0 {
      } else {
        LeTimes(1, n, d);
      }
    }
  }

  /** The inverse of x modulo m, prime or not. The source asserts that x is 1 or does not divide m. */
  method Inv(x: nat, m: nat) returns (out: nat)
    requires 0 < x < m && (x == 1 || m % x != 0)
    ensures out < m && (Congruent(out * x, 1, m) <==> Coprime(x, m))
  {
    hide Congruent, Divides, Coprime, CommonDivisors, Tracks, Mul, Sub, Neg;
    var a: nat := 1;
    if a == x {
      Reflexive(1, m);
      InverseMeansCoprime(1, x, m);
      return a;
    }
    var q, t := m / x, m % x;
    var s := x;
    StartTracks(x, m);
    var b := Neg(q, m);
    while true
      invariant 0 < t < s && Tracks(s, a, x, m) && Tracks(t, b, x, m)
      invariant CommonDivisors(x, m, s, t)
      decreases s
    {
      RemainderDivisors(s, t, x, m);
      TrackRemainder(s, t, a, b, x, m);
      q, s := s / t, s % t;
      if s == 0 {
        LastDivisor(t, b, x, m);
        return b;
      }
      a := Sub(a, Mul(b, q, m), m);
      RemainderDivisors(t, s, x, m);
      TrackRemainder(t, s, b, a, x, m);
      q, t := t / s, t % s;
      if t == 0 {
        LastDivisor(s, a, x, m);
        return a;
      }
      b := Sub(b, Mul(a, q, m), m);
    }
  }

  lemma StartTracks(x: nat, m: nat)
    requires 1 < x < m
    ensures m / x < m && Tracks(x, 1, x, m) && Tracks(m % x, Neg(m / x, m), x, m) && CommonDivisors(x, m, x, m % x)
  {
    var q, t := m / x, m % x;
    DivMod(m, x);
    if q >= m {
      LeTimes(m, q, x);
      LeTimes(2, x, m);
      Regroup(m, x, 1);
    }
    Reflexive(x, m);
    NegIs(q, m);
    Scaled(Neg(q, m), 0 - q, x, m);
    Subtract(0, q, x);
    Witnessed(t, (0 - q) * x, m, 1);
    Symmetric(Neg(q, m) * x, (0 - q) * x, m);
    Transitive(t, (0 - q) * x, Neg(q, m) * x, m);
    forall e: nat
      ensures (Divides(e, x) && Divides(e, m)) <==> (Divides(e, x) && Divides(e, t))
    {
      if Divides(e, x) && Divides(e, m) {
        DividesCombination(e, m, x, q);
      }
      if Divides(e, x) && Divides(e, t) {
        DividesCombination(e, t, x, q);
      }
    }
  }
}
