/** The tower of extension fields of bn.h, over the integers: the values that the numbers of TowerField stand for. */
module Tower {
  import opened Arithmetic
  import opened Modular

  /** a + b * u, where u * u is -1 */
  datatype Fp2 = Fp2(a: int, b: int)

  /** a + b * v + c * v * v, where v * v * v is xi */
  datatype Fp6 = Fp6(a: Fp2, b: Fp2, c: Fp2)

  /** a + b * w, where w * w is v */
  datatype Fp12 = Fp12(a: Fp6, b: Fp6)

  const ZERO: Fp2 := Fp2(0, 0)

  function Add(x: Fp2, y: Fp2): Fp2 {
    Fp2(x.a + y.a, x.b + y.b)
  }

  function Sub(x: Fp2, y: Fp2): Fp2 {
    Fp2(x.a - y.a, x.b - y.b)
  }

  function Mul(x: Fp2, y: Fp2): Fp2 {
    Fp2(x.a * y.a - x.b * y.b, x.a * y.b + x.b * y.a)
  }

  /** 9 + u when built for SNARKs, 1 + u otherwise. */
  function Xi(snark: bool): Fp2 {
    Fp2(if snark then 9 else 1, 1)
  }

  function Add6(x: Fp6, y: Fp6): Fp6 {
    Fp6(Add(x.a, y.a), Add(x.b, y.b), Add(x.c, y.c))
  }

  function Sub6(x: Fp6, y: Fp6): Fp6 {
    Fp6(Sub(x.a, y.a), Sub(x.b, y.b), Sub(x.c, y.c))
  }

  function Mul6(x: Fp6, y: Fp6, xi: Fp2): Fp6 {
    Fp6(Add(Mul(x.a, y.a), Mul(Add(Mul(x.b, y.c), Mul(x.c, y.b)), xi)),
        Add(Add(Mul(x.a, y.b), Mul(x.b, y.a)), Mul(Mul(x.c, y.c), xi)),
        Add(Add(Mul(x.a, y.c), Mul(x.b, y.b)), Mul(x.c, y.a)))
  }

  /** x * v */
  function Gamma(x: Fp6, xi: Fp2): Fp6 {
    Fp6(Mul(x.c, xi), x.a, x.b)
  }

  function Mul12(x: Fp12, y: Fp12, xi: Fp2): Fp12 {
    Fp12(Add6(Mul6(x.a, y.a, xi), Gamma(Mul6(x.b, y.b, xi), xi)),
         Add6(Mul6(x.a, y.b, xi), Mul6(x.b, y.a, xi)))
  }

  /** A line: (l00, l11, l02) stands for l00 + l02 * v * v + l11 * v * w. */
  function Embed(l: Fp6): Fp12 {
    Fp12(Fp6(l.a, ZERO, l.c), Fp6(ZERO, l.b, ZERO))
  }

  lemma Distributes(x: Fp2, y: Fp2, z: Fp2)
    ensures Mul(Add(x, y), z) == Add(Mul(x, z), Mul(y, z)) && Mul(z, Add(x, y)) == Add(Mul(z, x), Mul(z, y))
  {
  }

  lemma DistributesSub(x: Fp2, y: Fp2, z: Fp2)
    ensures Mul(Sub(x, y), z) == Sub(Mul(x, z), Mul(y, z)) && Mul(z, Sub(x, y)) == Sub(Mul(z, x), Mul(z, y))
  {
  }

  lemma Commutes(x: Fp2, y: Fp2)
    ensures Mul(x, y) == Mul(y, x)
  {
  }

  lemma Associates(x: Fp2, y: Fp2, z: Fp2)
    ensures Mul(Mul(x, y), z) == Mul(x, Mul(y, z))
  {
  }

  lemma TimesZero(x: Fp2)
    ensures Mul(x, ZERO) == ZERO == Mul(ZERO, x)
  {
  }

  /** Two cross products from one product of sums. */
  lemma Cross(a: Fp2, b: Fp2, c: Fp2, d: Fp2)
    ensures Sub(Sub(Mul(Add(a, b), Add(c, d)), Mul(a, c)), Mul(b, d)) == Add(Mul(a, d), Mul(b, c))
  {
    hide Mul;
    Distributes(a, b, Add(c, d));
    Distributes(c, d, a);
    Distributes(c, d, b);
  }

  /** Modulo a prime (a + a) * (a - b) is (a + b) * (a - b) only if a is b. */
  lemma SquareDiffers(a: int, b: int, p: nat)
    requires Prime(p)
    ensures Congruent((a + a) * (a - b), (a + b) * (a - b), p) <==> Congruent(a, b, p)
  {
    assert 2 <= p;
    hide Prime;
    var d := a - b;
    assert (a + a) * d == (a + b) * d + d * d by { Distribute(a + b, d, d); }
    if Congruent(a, b, p) {
      var k: int :| DifferBy(a, b, k, p);
      Regroup(k, p, d);
      Witnessed((a + a) * d, (a + b) * d, p, k * d);
    }
    if Congruent((a + a) * d, (a + b) * d, p) {
      var k: int :| DifferBy((a + a) * d, (a + b) * d, k, p);
      NoSquareRoot(d, k, p);
      Witnessed(a, b, p, d / p);
    }
  }

  /** Modulo a prime the only square root of zero is zero. */
  lemma NoSquareRoot(d: int, k: int, p: nat)
    requires Prime(p) && d * d == k * p
    ensures d == d / p * p
  {
    var q, e := d / p, d % p;
    assert d == q * p + e && 0 <= e < p;
    if e > 0 {
      PrimeCoprime(p, e);
      var c, g := Bezout(p, e);
      assert e * e == (k - 2 * (q * e) - q * q * p) * p by {
        Distribute(q * p, e, q * p + e);
        Distribute(q * p, e, q * p);
        Distribute(q * p, e, e);
        Regroup(q, p, e);
        Regroup(e, q, p);
        Regroup(q, p, q * p);
        Regroup(q, q, p);
        Subtract(k, 2 * (q * e), p);
        Subtract(k - 2 * (q * e), q * q * p, p);
      }
      var l := k - 2 * (q * e) - q * q * p;
      assert e == (c * p + g * e) * e == (c * e + g * l) * p by {
        Distribute(c * p, g * e, e);
        Distribute(c * e, g * l, p);
        Regroup(c, p, e);
        Regroup(g, e, e);
        Regroup(g, l, p);
      }
      NoMultiple(e, c * e + g * l, p);
    }
  }

  lemma NoMultiple(d: nat, m: int, p: nat)
    requires 0 < d < p
    ensures d != m * p
  {
    if m >= 1 {
      LeTimes(1, m, p);
    }
  }

  /** Whatever the modulus, the square of 1 comes out as 2. */
  lemma SquareOfOne(p: nat)
    requires 2 <= p
    ensures !Congruent((1 + 1) * (1 - 0), (1 + 0) * (1 - 0), p)
  {
    if Congruent(2, 1, p) {
      var k: int :| DifferBy(2, 1, k, p);
      NoMultiple(1, k, p);
    }
  }

  lemma SquareOfThree(a: Fp2, b: Fp2, c: Fp2)
    ensures var s := Add(Sub(a, b), c); var ab, ac, bc := Mul(a, b), Mul(a, c), Mul(b, c);
            Mul(s, s) == Add(Add(Add(Mul(a, a), Mul(b, b)), Mul(c, c)),
                             Sub(Sub(Add(ac, ac), Add(ab, ab)), Add(bc, bc)))
  {
    hide Mul;
    var d := Sub(a, b);
    var s := Add(d, c);
    Distributes(d, c, s);
    Distributes(d, c, d);
    Distributes(d, c, c);
    DistributesSub(a, b, d);
    DistributesSub(a, b, a);
    DistributesSub(a, b, b);
    DistributesSub(a, b, c);
    Commutes(a, b);
    Commutes(a, c);
    Commutes(b, c);
  }

  lemma Distributes6(x: Fp6, y: Fp6, z: Fp6, xi: Fp2)
    ensures Mul6(Add6(x, y), z, xi) == Add6(Mul6(x, z, xi), Mul6(y, z, xi))
  {
    hide Mul;
    Distributes(x.a, y.a, z.a);
    Distributes(x.b, y.b, z.c);
    Distributes(x.c, y.c, z.b);
    Distributes(Add(Mul(x.b, z.c), Mul(x.c, z.b)), Add(Mul(y.b, z.c), Mul(y.c, z.b)), xi);
    Distributes(x.a, y.a, z.b);
    Distributes(x.b, y.b, z.a);
    Distributes(x.c, y.c, z.c);
    Distributes(Mul(x.c, z.c), Mul(y.c, z.c), xi);
    Distributes(x.a, y.a, z.c);
    Distributes(x.b, y.b, z.b);
    Distributes(x.c, y.c, z.a);
  }

  lemma Commutes6(x: Fp6, y: Fp6, xi: Fp2)
    ensures Mul6(x, y, xi) == Mul6(y, x, xi)
  {
    hide Mul;
    Commutes(x.a, y.a);
    Commutes(x.a, y.b);
    Commutes(x.a, y.c);
    Commutes(x.b, y.a);
    Commutes(x.b, y.b);
    Commutes(x.b, y.c);
    Commutes(x.c, y.a);
    Commutes(x.c, y.b);
    Commutes(x.c, y.c);
  }

  /** Multiplying by v may be done before or after. */
  lemma GammaOut(x: Fp6, y: Fp6, xi: Fp2)
    ensures Mul6(x, Gamma(y, xi), xi) == Gamma(Mul6(x, y, xi), xi)
  {
    hide Mul;
    Associates(x.a, y.c, xi);
    Associates(x.b, y.c, xi);
    Associates(x.c, y.c, xi);
    Distributes(Add(Mul(x.a, y.c), Mul(x.b, y.b)), Mul(x.c, y.a), xi);
    Distributes(Mul(x.a, y.c), Mul(x.b, y.b), xi);
    Distributes(Mul(x.b, y.b), Mul(x.c, y.a), xi);
    Distributes(Mul(x.b, y.c), Mul(x.c, y.b), xi);
  }

  lemma GammaSum(x: Fp6, y: Fp6, xi: Fp2)
    ensures Gamma(Add6(x, y), xi) == Add6(Gamma(x, xi), Gamma(y, xi))
  {
    hide Mul;
    Distributes(x.c, y.c, xi);
  }

  lemma Cross6(a: Fp6, b: Fp6, c: Fp6, d: Fp6, xi: Fp2)
    ensures Mul6(Add6(a, b), Add6(c, d), xi) ==
            Add6(Add6(Mul6(a, c, xi), Mul6(a, d, xi)), Add6(Mul6(b, c, xi), Mul6(b, d, xi)))
  {
    hide Mul6;
    var s := Add6(c, d);
    Distributes6(a, b, s, xi);
    Commutes6(a, s, xi);
    Commutes6(b, s, xi);
    Distributes6(c, d, a, xi);
    Distributes6(c, d, b, xi);
    Commutes6(a, c, xi);
    Commutes6(a, d, xi);
    Commutes6(b, c, xi);
    Commutes6(b, d, xi);
  }

  /** z * (x0 + x2 * v * v + x4 * v * w), written out. */
  lemma SparseProduct(z: Fp12, x: Fp6, xi: Fp2)
    ensures var p := Mul12(z, Embed(x), xi); var x0, x2, x4 := x.a, x.c, x.b;
            p.a.a == Add(Mul(z.a.a, x0), Mul(Add(Mul(z.a.b, x2), Mul(z.b.b, x4)), xi)) &&
            p.a.b == Add(Mul(z.a.b, x0), Mul(Add(Mul(z.a.c, x2), Mul(z.b.c, x4)), xi)) &&
            p.a.c == Add(Add(Mul(z.a.a, x2), Mul(z.a.c, x0)), Mul(z.b.a, x4)) &&
            p.b.a == Add(Mul(z.b.a, x0), Mul(Add(Mul(z.a.c, x4), Mul(z.b.b, x2)), xi)) &&
            p.b.b == Add(Add(Mul(z.a.a, x4), Mul(z.b.b, x0)), Mul(Mul(z.b.c, x2), xi)) &&
            p.b.c == Add(Add(Mul(z.a.b, x4), Mul(z.b.a, x2)), Mul(z.b.c, x0))
  {
    hide Mul;
    TimesZero(z.a.a);
    TimesZero(z.a.b);
    TimesZero(z.a.c);
    TimesZero(z.b.a);
    TimesZero(z.b.b);
    TimesZero(z.b.c);
    TimesZero(xi);
    Distributes(Mul(z.a.b, x.c), Mul(z.b.b, x.b), xi);
    Distributes(Mul(z.a.c, x.c), Mul(z.b.c, x.b), xi);
    Distributes(Mul(z.a.c, x.b), Mul(z.b.b, x.c), xi);
  }

  /** Nine cross products from one product of sums. */
  lemma Cross3(a: Fp2, b: Fp2, c: Fp2, d: Fp2, e: Fp2, f: Fp2)
    ensures Mul(Add(Add(a, b), c), Add(Add(d, e), f)) ==
            Add(Add(Add(Add(Mul(a, d), Mul(a, e)), Mul(a, f)), Add(Add(Mul(b, d), Mul(b, e)), Mul(b, f))),
                Add(Add(Mul(c, d), Mul(c, e)), Mul(c, f)))
  {
    hide Mul;
    var s := Add(Add(d, e), f);
    Distributes(Add(a, b), c, s);
    Distributes(a, b, s);
    Distributes3(d, e, f, a);
    Distributes3(d, e, f, b);
    Distributes3(d, e, f, c);
  }

  lemma Distributes3(d: Fp2, e: Fp2, f: Fp2, a: Fp2)
    ensures Mul(a, Add(Add(d, e), f)) == Add(Add(Mul(a, d), Mul(a, e)), Mul(a, f))
  {
    hide Mul;
    Distributes(Add(d, e), f, a);
    Distributes(d, e, a);
  }

  lemma AddCommutes(t: Fp2, x: Fp2, y: Fp2)
    requires t == Add(y, x)
    ensures t == Add(x, y)
  {
  }

  /** The product of two lines, written out. */
  lemma LineProduct(x: Fp6, y: Fp6, xi: Fp2)
    ensures Mul12(Embed(x), Embed(y), xi) ==
            Fp12(Fp6(Add(Mul(Mul(x.b, y.b), xi), Mul(x.a, y.a)), Mul(Mul(x.c, y.c), xi),
                     Add(Mul(x.a, y.c), Mul(x.c, y.a))),
                 Fp6(Mul(Add(Mul(x.c, y.b), Mul(x.b, y.c)), xi), Add(Mul(x.b, y.a), Mul(x.a, y.b)), ZERO))
  {
    SparseProduct(Embed(x), y, xi);
    ZerosVanish(y, xi);
    hide Mul, Mul12;
  }

  lemma ZerosVanish(y: Fp6, xi: Fp2)
    ensures Mul(ZERO, y.a) == Mul(ZERO, y.b) == Mul(ZERO, y.c) == Mul(ZERO, xi) == ZERO
  {
    hide Mul;
    TimesZero(y.a);
    TimesZero(y.b);
    TimesZero(y.c);
    TimesZero(xi);
  }
}
