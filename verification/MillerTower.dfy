/** The tower of fields meets what the Miller loops ask of their target field. */
module MillerTower {
  import opened Tower
  import Miller

  function Scale(s: Fp2, y: Fp6): Fp6 {
    Fp6(Mul(s, y.a), Mul(s, y.b), Mul(s, y.c))
  }

  /** A product, coefficient by coefficient of the first factor. */
  lemma ByParts(x: Fp6, y: Fp6, xi: Fp2)
    ensures Mul6(x, y, xi) ==
            Add6(Add6(Scale(x.a, y), Scale(x.b, Gamma(y, xi))), Scale(x.c, Gamma(Gamma(y, xi), xi)))
  {
    hide Mul;
    Associates(x.b, y.c, xi);
    Associates(x.c, y.b, xi);
    Associates(x.c, y.c, xi);
    Distributes(Mul(x.b, y.c), Mul(x.c, y.b), xi);
  }

  lemma ScaleOut(s: Fp2, y: Fp6, z: Fp6, xi: Fp2)
    ensures Mul6(Scale(s, y), z, xi) == Scale(s, Mul6(y, z, xi))
  {
    hide Mul;
    ScaleSum(s, y.a, z.a, Add(Mul(y.b, z.c), Mul(y.c, z.b)), xi);
    ScaleTwo(s, y.b, z.c, y.c, z.b);
    ScaleTwo(s, y.a, z.b, y.b, z.a);
    Associates(s, y.c, z.c);
    Associates(s, Mul(y.c, z.c), xi);
    Distributes(Add(Mul(y.a, z.b), Mul(y.b, z.a)), Mul(Mul(y.c, z.c), xi), s);
    ScaleTwo(s, y.a, z.c, y.b, z.b);
    Associates(s, y.c, z.a);
    Distributes(Add(Mul(y.a, z.c), Mul(y.b, z.b)), Mul(y.c, z.a), s);
  }

  lemma ScaleTwo(s: Fp2, a: Fp2, b: Fp2, c: Fp2, d: Fp2)
    ensures Add(Mul(Mul(s, a), b), Mul(Mul(s, c), d)) == Mul(s, Add(Mul(a, b), Mul(c, d)))
  {
    hide Mul;
    Associates(s, a, b);
    Associates(s, c, d);
    Distributes(Mul(a, b), Mul(c, d), s);
  }

  lemma ScaleSum(s: Fp2, a: Fp2, b: Fp2, c: Fp2, xi: Fp2)
    ensures Add(Mul(Mul(s, a), b), Mul(Mul(s, c), xi)) == Mul(s, Add(Mul(a, b), Mul(c, xi)))
  {
    ScaleTwo(s, a, b, c, xi);
  }

  lemma GammaIn(x: Fp6, y: Fp6, xi: Fp2)
    ensures Mul6(Gamma(x, xi), y, xi) == Gamma(Mul6(x, y, xi), xi)
  {
    hide Mul6, Gamma;
    Commutes6(Gamma(x, xi), y, xi);
    GammaOut(y, x, xi);
    Commutes6(x, y, xi);
  }

  lemma Associates6(x: Fp6, y: Fp6, z: Fp6, xi: Fp2)
    ensures Mul6(Mul6(x, y, xi), z, xi) == Mul6(x, Mul6(y, z, xi), xi)
  {
    hide Mul6, Gamma, Scale, Add6;
    var g := Gamma(y, xi);
    var gg := Gamma(g, xi);
    ByParts(x, y, xi);
    Distributes6(Add6(Scale(x.a, y), Scale(x.b, g)), Scale(x.c, gg), z, xi);
    Distributes6(Scale(x.a, y), Scale(x.b, g), z, xi);
    ScaleOut(x.a, y, z, xi);
    ScaleOut(x.b, g, z, xi);
    ScaleOut(x.c, gg, z, xi);
    GammaIn(y, z, xi);
    GammaIn(g, z, xi);
    ByParts(x, Mul6(y, z, xi), xi);
  }

  lemma Commutes12(x: Fp12, y: Fp12, xi: Fp2)
    ensures Mul12(x, y, xi) == Mul12(y, x, xi)
  {
    hide Mul6, Gamma;
    Commutes6(x.a, y.a, xi);
    Commutes6(x.b, y.b, xi);
    Commutes6(x.a, y.b, xi);
    Commutes6(x.b, y.a, xi);
  }

  lemma DistributesLeft6(x: Fp6, y: Fp6, z: Fp6, xi: Fp2)
    ensures Mul6(z, Add6(x, y), xi) == Add6(Mul6(z, x, xi), Mul6(z, y, xi))
  {
    hide Mul6, Add6;
    Commutes6(z, Add6(x, y), xi);
    Distributes6(x, y, z, xi);
    Commutes6(z, x, xi);
    Commutes6(z, y, xi);
  }

  lemma Associates12(x: Fp12, y: Fp12, z: Fp12, xi: Fp2)
    ensures Mul12(Mul12(x, y, xi), z, xi) == Mul12(x, Mul12(y, z, xi), xi)
  {
    hide Mul6, Gamma;
    var yz, xy := Mul12(y, z, xi), Mul12(x, y, xi);
    LeftProduct(x, y, z, xi);
    RightProduct(x, y, z, xi);
    Associates6(x.a, y.a, z.a, xi);
    Associates6(x.b, y.b, z.a, xi);
    Associates6(x.a, y.b, z.b, xi);
    Associates6(x.b, y.a, z.b, xi);
    Associates6(x.a, y.a, z.b, xi);
    Associates6(x.b, y.b, z.b, xi);
    Associates6(x.a, y.b, z.a, xi);
    Associates6(x.b, y.a, z.a, xi);
  }

  function Twice(x: Fp6, y: Fp6, z: Fp6, xi: Fp2): Fp6 {
    Mul6(Mul6(x, y, xi), z, xi)
  }

  function Then(x: Fp6, y: Fp6, z: Fp6, xi: Fp2): Fp6 {
    Mul6(x, Mul6(y, z, xi), xi)
  }

  lemma LeftProduct(x: Fp12, y: Fp12, z: Fp12, xi: Fp2)
    ensures Mul12(Mul12(x, y, xi), z, xi) ==
            Fp12(Add6(Add6(Twice(x.a, y.a, z.a, xi), Gamma(Twice(x.b, y.b, z.a, xi), xi)),
                      Add6(Gamma(Twice(x.a, y.b, z.b, xi), xi), Gamma(Twice(x.b, y.a, z.b, xi), xi))),
                 Add6(Add6(Twice(x.a, y.a, z.b, xi), Gamma(Twice(x.b, y.b, z.b, xi), xi)),
                      Add6(Twice(x.a, y.b, z.a, xi), Twice(x.b, y.a, z.a, xi))))
  {
    hide Mul6, Gamma, Add6;
    var aa, bb, ab, ba := Mul6(x.a, y.a, xi), Mul6(x.b, y.b, xi), Mul6(x.a, y.b, xi), Mul6(x.b, y.a, xi);
    Distributes6(aa, Gamma(bb, xi), z.a, xi);
    Distributes6(aa, Gamma(bb, xi), z.b, xi);
    GammaIn(bb, z.a, xi);
    GammaIn(bb, z.b, xi);
    Distributes6(ab, ba, z.b, xi);
    Distributes6(ab, ba, z.a, xi);
    GammaSum(Mul6(ab, z.b, xi), Mul6(ba, z.b, xi), xi);
  }

  lemma RightProduct(x: Fp12, y: Fp12, z: Fp12, xi: Fp2)
    ensures Mul12(x, Mul12(y, z, xi), xi) ==
            Fp12(Add6(Add6(Then(x.a, y.a, z.a, xi), Gamma(Then(x.a, y.b, z.b, xi), xi)),
                      Add6(Gamma(Then(x.b, y.a, z.b, xi), xi), Gamma(Then(x.b, y.b, z.a, xi), xi))),
                 Add6(Add6(Then(x.a, y.a, z.b, xi), Then(x.a, y.b, z.a, xi)),
                      Add6(Then(x.b, y.a, z.a, xi), Gamma(Then(x.b, y.b, z.b, xi), xi))))
  {
    hide Mul6, Gamma, Add6;
    var aa, bb, ab, ba := Mul6(y.a, z.a, xi), Mul6(y.b, z.b, xi), Mul6(y.a, z.b, xi), Mul6(y.b, z.a, xi);
    DistributesLeft6(aa, Gamma(bb, xi), x.a, xi);
    DistributesLeft6(aa, Gamma(bb, xi), x.b, xi);
    GammaOut(x.a, bb, xi);
    GammaOut(x.b, bb, xi);
    DistributesLeft6(ab, ba, x.b, xi);
    DistributesLeft6(ab, ba, x.a, xi);
    GammaSum(Mul6(x.b, ab, xi), Mul6(x.b, ba, xi), xi);
  }

  function Neg6(x: Fp6): Fp6 {
    Sub6(Fp6(ZERO, ZERO, ZERO), x)
  }

  /** The change of sign of b that ends a loop over a negative parameter. */
  function Conjugate(x: Fp12): Fp12 {
    Fp12(x.a, Neg6(x.b))
  }

  lemma NegOut(x: Fp6, y: Fp6, xi: Fp2)
    ensures Mul6(Neg6(x), y, xi) == Neg6(Mul6(x, y, xi)) == Mul6(x, Neg6(y), xi)
  {
    hide Mul6, Neg6;
    NegIn(x, y, xi);
    NegIn(y, x, xi);
    Commutes6(x, y, xi);
    Commutes6(x, Neg6(y), xi);
  }

  lemma NegIn(x: Fp6, y: Fp6, xi: Fp2)
    ensures Mul6(Neg6(x), y, xi) == Neg6(Mul6(x, y, xi))
  {
    hide Mul6;
    Distributes6(Neg6(x), x, y, xi);
    assert Add6(Neg6(x), x) == Fp6(ZERO, ZERO, ZERO);
    ZeroTimes(y, xi);
  }

  lemma ZeroTimes(y: Fp6, xi: Fp2)
    ensures Mul6(Fp6(ZERO, ZERO, ZERO), y, xi) == Fp6(ZERO, ZERO, ZERO)
  {
    hide Mul;
    TimesZero(y.a);
    TimesZero(y.b);
    TimesZero(y.c);
    TimesZero(xi);
  }

  lemma NegTwice(x: Fp6)
    ensures Neg6(Neg6(x)) == x
  {
  }

  lemma ConjugateKeepsProducts(x: Fp12, y: Fp12, xi: Fp2)
    ensures Conjugate(Mul12(x, y, xi)) == Mul12(Conjugate(x), Conjugate(y), xi)
  {
    hide Mul6, Gamma;
    NegOut(x.b, Neg6(y.b), xi);
    NegOut(x.b, y.b, xi);
    NegTwice(Mul6(x.b, y.b, xi));
    NegOut(x.a, y.b, xi);
    NegOut(x.b, y.a, xi);
  }

  /** Over the tower the loops compute what the laws of a commutative product let them. */
  lemma TowerIsLawful<T, Q, L, P>(c: Miller.Curve<T, Q, L, P, Fp12>, xi: Fp2, negative: bool)
    requires forall x, y :: c.mul(x, y) == Mul12(x, y, xi)
    requires forall x :: c.finishField(x) == if negative then Conjugate(x) else x
    ensures c.Lawful()
  {
    hide Mul12, Conjugate;
    forall a, b
      ensures c.Commutes(a, b)
    {
      Commutes12(a, b, xi);
    }
    forall a, b, d
      ensures c.Regroups(a, b, d)
    {
      Associates12(a, b, d, xi);
    }
    forall a, b
      ensures c.Finishes(a, b)
    {
      ConjugateKeepsProducts(a, b, xi);
    }
  }
}
