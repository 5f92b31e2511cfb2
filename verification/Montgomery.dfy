/** Montgomery reduction with 64-bit limbs. */
module Montgomery {
  import opened Arithmetic
  import opened Limbs
  import opened Modular
  import opened Powers
  import opened Quantize
  import opened ZmZ

  /** 2^256 */
  function R(): (r: nat)
    ensures 1 <= r
  {
    LimbPower(4)
  }

  lemma LimbIsPow2()
    ensures LIMB == Pow2(64)
  {
    WordIsPow2();
    Pow2Sum(32, 32);
  }

  /** ppMont is -1/p modulo LIMB. */
  ghost predicate NegatedInverse(ppMont: nat, p: nat) {
    ppMont < LIMB && Congruent(ppMont * p, -1, LIMB)
  }

  lemma OddCoprime(t: nat, n: nat)
    requires t % 2 == 1
    ensures Coprime(t, Pow2(n))
  {
    forall d: nat | Divides(d, t) && Divides(d, Pow2(n))
      ensures d == 1
    {
      var k: int :| DifferBy(t, 0, k, d);
      var l: int :| DifferBy(Pow2(n), 0, l, d);
      if d % 2 == 0 {
        Regroup(k, 2, d / 2);
      } else if d >= 3 {
        if l <= 0 {
          Subtract(0, l, d);
          LeTimes(0, -l, d);
        } else {
          OddDividesNoPower(d, n, l);
        }
      }
    }
  }

  /** Sets up pp_mont for an odd modulus. */
  method InverseOfModulus(p: nat) returns (ppMont: nat)
    requires p % 2 == 1
    ensures NegatedInverse(ppMont, p)
  {
    hide Congruent, Coprime, Neg;
    var t := p % LIMB;
    t := Neg(t, LIMB);
    NegatedModulus(p);
    ppMont := ZmZ.Inv(t, LIMB);
    InverseOfNegated(p, t, ppMont);
  }

  lemma NegatedModulus(p: nat)
    requires p % 2 == 1
    ensures var t := Neg(p % LIMB, LIMB);
            0 < t < LIMB && t % 2 == 1 && Coprime(t, LIMB) && (t == 1 || LIMB % t != 0) && Congruent(t, 0 - p, LIMB)
  {
    hide Pow2, Coprime, Congruent;
    DivMod(p, LIMB);
    var t := LIMB - p % LIMB;
    LimbIsPow2();
    OddCoprime(t, 64);
    OddLeavesRemainder(t);
    Witnessed(t, 0 - p, LIMB, 1 + p / LIMB);
  }

  lemma OddLeavesRemainder(t: nat)
    requires t % 2 == 1
    ensures t == 1 || LIMB % t != 0
  {
    LimbIsPow2();
    if t > 1 {
      PowerRemainder(t, 64);
    }
  }

  lemma InverseOfNegated(p: nat, t: nat, inv: nat)
    requires inv < LIMB && Congruent(t, 0 - p, LIMB) && Congruent(inv * t, 1, LIMB)
    ensures NegatedInverse(inv, p)
  {
    Scaled(t, 0 - p, inv, LIMB);
    Symmetric(inv * t, inv * (0 - p), LIMB);
    Transitive(inv * (0 - p), inv * t, 1, LIMB);
    Scaled(inv * (0 - p), 1, -1, LIMB);
    Subtract(0, p, inv);
    Regroup(inv, p, 1);
  }

  /** Adding q * p clears the lowest limb. */
  lemma ClearsLimb(c: nat, p: nat, ppMont: nat)
    requires NegatedInverse(ppMont, p)
    ensures var q := c % LIMB * ppMont % LIMB;
            q < LIMB && (c + q * p) / LIMB * LIMB == c + q * p
  {
    var u := c % LIMB;
    var q := u * ppMont % LIMB;
    var k: int :| DifferBy(ppMont * p, -1, k, LIMB);
    DivMod(c, LIMB);
    DivMod(u * ppMont, LIMB);
    var j, d := u * ppMont / LIMB, c / LIMB;
    Subtract(u * ppMont, j * LIMB, p);
    Regroup(u, ppMont, p);
    Subtract(k * LIMB, 1, u);
    Regroup(k, LIMB, u);
    Regroup(j, LIMB, p);
    var n := d + k * u - j * p;
    Distribute(d, k * u, LIMB);
    Subtract(d + k * u, j * p, LIMB);
    assert c + q * p == n * LIMB;
    TimesModulo(n, LIMB);
  }

  /** x plus a multiple of p, divided by i limbs. */
  ghost predicate Reduced(c: nat, x: nat, p: nat, i: nat, k: nat) {
    k < LimbPower(i) && c * LimbPower(i) == x + k * p
  }

  lemma ReduceStep(c: nat, x: nat, p: nat, i: nat, k: nat, q: nat, d: nat)
    requires Reduced(c, x, p, i, k) && q < LIMB && d * LIMB == c + q * p
    ensures Reduced(d, x, p, i + 1, k + q * LimbPower(i))
  {
    var l := LimbPower(i);
    Regroup(d, LIMB, l);
    Regroup(LIMB, l, 1);
    Distribute(c, q * p, l);
    Distribute(k, q * l, p);
    Regroup(q, p, l);
    LessTimes(q, LIMB, l);
  }

  lemma ReducedStart(x: nat, p: nat)
    ensures Reduced(x, x, p, 0, 0)
  {
  }

  /** c is x plus a multiple of p that clears its lower 256 bits, without these bits. */
  ghost predicate Cleared(c: nat, k: nat, x: nat, p: nat) {
    k < R() && Shift(c, 4) == x + k * p
  }

  lemma ClearedIs(c: nat, k: nat, x: nat, p: nat)
    ensures Cleared(c, k, x, p) <==> k < R() && c * R() == x + k * p
  {
    ShiftIs(c, 4);
  }

  lemma ReducedEnd(c: nat, x: nat, p: nat, k: nat)
    requires Reduced(c, x, p, 4, k) && 0 < p
    ensures Cleared(c, k, x, p) && (x < p * R() ==> c < 2 * p) && (x < R() * R() ==> c < R() + p)
    ensures Congruent(c * R(), x, p)
    ensures p <= c ==> Congruent((c - p) * R(), x, p)
  {
    hide LimbPower;
    var r := R();
    LessTimes(k, r, p);
    Regroup(p, r, 1);
    if c >= 2 * p && x < p * r {
      LeTimes(2 * p, c, r);
      Regroup(2, p, r);
    }
    if c >= r + p && x < r * r {
      LeTimes(r + p, c, r);
      Distribute(r, p, r);
    }
    Witnessed(c * r, x, p, k);
    Subtract(c, p, r);
    Subtract(k, r, p);
    Witnessed((c - p) * r, x, p, k - r);
    ClearedIs(c, k, x, p);
  }

  /** Makes y * 2^256 congruent to x. Of l, which is x plus a multiple of p less its lower half, at most one p is
      taken off, so that y need not be below p unless x is below p * 2^256. */
  method Mod(x: nat, p: nat, ppMont: nat) returns (c: nat, ghost l: nat, ghost k: nat)
    requires NegatedInverse(ppMont, p) && 0 < p
    ensures Cleared(l, k, x, p) && c == if l >= p then l - p else l
    ensures Congruent(c * R(), x, p) && (x < p * R() ==> c < p) && (x < R() * R() && p <= R() ==> c < R())
  {
    hide NegatedInverse, Reduced, Congruent, R, Cleared;
    c, k := x, 0;
    ReducedStart(x, p);
    for i := 0 to 4
      invariant Reduced(c, x, p, i, k)
    {
      var u := c % LIMB;
      var q := u * ppMont % LIMB;
      ClearsLimb(c, p, ppMont);
      ReduceStep(c, x, p, i, k, q, (c + q * p) / LIMB);
      c := c + q * p;
      c := c / LIMB;
      k := k + q * LimbPower(i);
    }
    l := c;
    ReducedEnd(c, x, p, k);
    if c >= p {
      c := c - p;
    }
  }

  /** Only one multiple of an odd p below 2^256 * p clears the lower half of x. */
  lemma ClearedOnce(c: nat, k: nat, d: nat, l: nat, x: nat, p: nat)
    requires p % 2 == 1 && Cleared(c, k, x, p) && Cleared(d, l, x, p)
    ensures c == d && k == l
  {
    hide Congruent, R, Cleared;
    ClearedIs(c, k, x, p);
    ClearedIs(d, l, x, p);
    var r := R();
    var g := InverseModuloR(p);
    Subtract(c, d, r);
    Subtract(k, l, p);
    Witnessed(k * p, l * p, r, c - d);
    CancelFactor(k, l, p, g, r);
    SameResidue(k, l, r);
    SameQuotient(r, c, 0, d, 0);
  }

  /** The multiple is -x/p modulo 2^256 times p. */
  lemma ClearedBy(x: nat, p: nat, e: int)
    requires Congruent(e * p, 1, R())
    ensures var k := (0 - x * e) % R(); Cleared((x + k * p) / R(), k, x, p)
  {
    var j: int :| DifferBy(e * p, 1, j, R());
    hide R, Cleared;
    var r := R();
    var k, q := (0 - x * e) % r, (0 - x * e) / r;
    var n := 0 - (x * j + q * p);
    ClearedTimes(x, p, e, j, r, k, q);
    if n < 0 {
      LessTimes(0, 0 - n, r);
      Subtract(0, n, r);
    }
    TimesModulo(n, r);
    ClearedIs(n, k, x, p);
  }

  lemma ClearedTimes(x: int, p: int, e: int, j: int, r: int, k: int, q: int)
    requires e * p - 1 == j * r && 0 - x * e == q * r + k
    ensures x + k * p == (0 - (x * j + q * p)) * r
  {
    Distribute(q * r, k, p);
    Regroup(q, r, p);
    Regroup(x, e, p);
    Subtract(0, x * e, p);
    Distribute(1, j * r, x);
    Regroup(x, j, r);
    Subtract(0, x * j + q * p, r);
    Distribute(x * j, q * p, r);
  }

  /** The double number x when as much of p was added as clears its lower half, without that half. */
  ghost function Lifted(x: nat, p: nat): (l: nat)
    requires p % 2 == 1
    ensures exists k :: Cleared(l, k, x, p)
  {
    hide Cleared;
    CanBeCleared(x, p);
    var l, k :| Cleared(l, k, x, p);
    l
  }

  lemma CanBeCleared(x: nat, p: nat)
    requires p % 2 == 1
    ensures exists l, k :: Cleared(l, k, x, p)
  {
    hide Congruent, R, Cleared;
    var g := InverseModuloR(p);
    Regroup(g, p, 1);
    ClearedBy(x, p, g);
  }

  lemma {:induction false} LimbPowerIsPow2(i: nat)
    ensures LimbPower(i) == Pow2(64 * i)
  {
    if i > 0 {
      LimbPowerIsPow2(i - 1);
      LimbIsPow2();
      Pow2Sum(64, 64 * (i - 1));
    }
  }

  /** There is only one such y, since 2^256 can be inverted modulo an odd p. */
  lemma ModUnique(x: int, p: nat, y: nat, z: nat)
    requires p % 2 == 1 && y < p && z < p && Congruent(y * R(), x, p) && Congruent(z * R(), x, p)
    ensures y == z
  {
    hide Congruent, R;
    var e := InverseOfR(p);
    Symmetric(z * R(), x, p);
    Transitive(y * R(), x, z * R(), p);
    CancelFactor(y, z, R(), e, p);
    SameResidue(y, z, p);
  }

  lemma InverseModuloR(p: nat) returns (e: int)
    requires p % 2 == 1
    ensures Congruent(p * e, 1, R())
  {
    hide Congruent, Coprime, LimbPower;
    LimbPowerIsPow2(4);
    OddCoprime(p, 256);
    var c, d := Bezout(p, R());
    InverseFrom(d, R(), c, p);
    e := c;
  }

  lemma InverseOfR(p: nat) returns (e: int)
    requires p % 2 == 1
    ensures Congruent(R() * e, 1, p)
  {
    hide Congruent, Coprime, LimbPower;
    LimbPowerIsPow2(4);
    OddCoprime(p, 256);
    var c, d := Bezout(p, R());
    InverseFrom(c, p, d, R());
    e := d;
  }

  lemma InverseFrom(c: int, p: nat, d: int, a: int)
    requires c * p + d * a == 1
    ensures Congruent(a * d, 1, p)
  {
    Subtract(0, c, p);
    Regroup(a, d, 1);
    Witnessed(a * d, 1, p, -c);
  }

  /** The Montgomery product. */
  method Mul(x: nat, y: nat, p: nat, ppMont: nat) returns (z: nat)
    requires NegatedInverse(ppMont, p) && x < p && y < p && p <= R()
    ensures z < p && Congruent(z * R(), x * y, p)
  {
    hide NegatedInverse, Cleared, Congruent, R;
    LeTimes(x, p, y);
    LeTimes(y, R(), p);
    Regroup(p, R(), 1);
    SmallerProduct(p, y, R());
    ghost var l, k;
    z, l, k := Mod(x * y, p, ppMont);
  }
}
