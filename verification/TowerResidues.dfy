/** The tower modulo p: the values that reduced numbers stand for, and what the Miller loops ask of their product. */
module TowerResidues {
  import opened Arithmetic
  import opened Modular
  import opened FieldNumbers
  import opened Tower
  import opened TowerField
  import opened TowerProducts
  import opened MillerTower
  import Miller

  ghost predicate Same2(x: Fp2, y: Fp2, p: nat) {
    Congruent(x.a, y.a, p) && Congruent(x.b, y.b, p)
  }

  ghost predicate Same6(x: Fp6, y: Fp6, p: nat) {
    Same2(x.a, y.a, p) && Same2(x.b, y.b, p) && Same2(x.c, y.c, p)
  }

  ghost predicate Same12(x: Fp12, y: Fp12, p: nat) {
    Same6(x.a, y.a, p) && Same6(x.b, y.b, p)
  }

  lemma Itself2(x: Fp2, p: nat)
    ensures Same2(x, x, p)
  {
    hide Congruent;
    Reflexive(x.a, p);
    Reflexive(x.b, p);
  }

  lemma SameAdd(x: Fp2, u: Fp2, y: Fp2, v: Fp2, p: nat)
    requires Same2(x, u, p) && Same2(y, v, p)
    ensures Same2(Add(x, y), Add(u, v), p) && Same2(Sub(x, y), Sub(u, v), p)
  {
    hide Congruent;
    Sum(x.a, u.a, y.a, v.a, p);
    Sum(x.b, u.b, y.b, v.b, p);
    Difference(x.a, u.a, y.a, v.a, p);
    Difference(x.b, u.b, y.b, v.b, p);
  }

  lemma SameMul(x: Fp2, u: Fp2, y: Fp2, v: Fp2, p: nat)
    requires Same2(x, u, p) && Same2(y, v, p)
    ensures Same2(Mul(x, y), Mul(u, v), p)
  {
    hide Congruent;
    Product(x.a, u.a, y.a, v.a, p);
    Product(x.b, u.b, y.b, v.b, p);
    Product(x.a, u.a, y.b, v.b, p);
    Product(x.b, u.b, y.a, v.a, p);
    Difference(x.a * y.a, u.a * v.a, x.b * y.b, u.b * v.b, p);
    Sum(x.a * y.b, u.a * v.b, x.b * y.a, u.b * v.a, p);
  }

  lemma SameAdd6(x: Fp6, u: Fp6, y: Fp6, v: Fp6, p: nat)
    requires Same6(x, u, p) && Same6(y, v, p)
    ensures Same6(Add6(x, y), Add6(u, v), p) && Same6(Sub6(x, y), Sub6(u, v), p)
  {
    hide Same2, Add, Sub;
    SameAdd(x.a, u.a, y.a, v.a, p);
    SameAdd(x.b, u.b, y.b, v.b, p);
    SameAdd(x.c, u.c, y.c, v.c, p);
  }

  lemma SameGamma(x: Fp6, u: Fp6, xi: Fp2, p: nat)
    requires Same6(x, u, p)
    ensures Same6(Gamma(x, xi), Gamma(u, xi), p)
  {
    hide Same2, Mul;
    Itself2(xi, p);
    SameMul(x.c, u.c, xi, xi, p);
  }

  /** The sum of two products, and the same times xi. */
  lemma SameTwo(x: Fp2, u: Fp2, y: Fp2, v: Fp2, z: Fp2, w: Fp2, s: Fp2, t: Fp2, xi: Fp2, p: nat)
    requires Same2(x, u, p) && Same2(y, v, p) && Same2(z, w, p) && Same2(s, t, p)
    ensures var a, b := Add(Mul(x, y), Mul(z, s)), Add(Mul(u, v), Mul(w, t));
            Same2(a, b, p) && Same2(Mul(a, xi), Mul(b, xi), p)
  {
    hide Same2, Add, Mul;
    SameMul(x, u, y, v, p);
    SameMul(z, w, s, t, p);
    SameAdd(Mul(x, y), Mul(u, v), Mul(z, s), Mul(w, t), p);
    Itself2(xi, p);
    SameMul(Add(Mul(x, y), Mul(z, s)), Add(Mul(u, v), Mul(w, t)), xi, xi, p);
  }

  lemma SameMul6(x: Fp6, u: Fp6, y: Fp6, v: Fp6, xi: Fp2, p: nat)
    requires Same6(x, u, p) && Same6(y, v, p)
    ensures Same6(Mul6(x, y, xi), Mul6(u, v, xi), p)
  {
    hide Same2, Add, Mul;
    SameMul(x.a, u.a, y.a, v.a, p);
    SameTwo(x.b, u.b, y.c, v.c, x.c, u.c, y.b, v.b, xi, p);
    SameAdd(Mul(x.a, y.a), Mul(u.a, v.a), Mul(Add(Mul(x.b, y.c), Mul(x.c, y.b)), xi),
            Mul(Add(Mul(u.b, v.c), Mul(u.c, v.b)), xi), p);
    SameTwo(x.a, u.a, y.b, v.b, x.b, u.b, y.a, v.a, xi, p);
    SameMul(x.c, u.c, y.c, v.c, p);
    Itself2(xi, p);
    SameMul(Mul(x.c, y.c), Mul(u.c, v.c), xi, xi, p);
    SameAdd(Add(Mul(x.a, y.b), Mul(x.b, y.a)), Add(Mul(u.a, v.b), Mul(u.b, v.a)),
            Mul(Mul(x.c, y.c), xi), Mul(Mul(u.c, v.c), xi), p);
    SameTwo(x.a, u.a, y.c, v.c, x.b, u.b, y.b, v.b, xi, p);
    SameMul(x.c, u.c, y.a, v.a, p);
    SameAdd(Add(Mul(x.a, y.c), Mul(x.b, y.b)), Add(Mul(u.a, v.c), Mul(u.b, v.b)),
            Mul(x.c, y.a), Mul(u.c, v.a), p);
  }

  lemma SameMul12(x: Fp12, u: Fp12, y: Fp12, v: Fp12, xi: Fp2, p: nat)
    requires Same12(x, u, p) && Same12(y, v, p)
    ensures Same12(Mul12(x, y, xi), Mul12(u, v, xi), p)
  {
    hide Same6, Mul6, Gamma, Add6;
    SameMul6(x.a, u.a, y.a, v.a, xi, p);
    SameMul6(x.b, u.b, y.b, v.b, xi, p);
    SameMul6(x.a, u.a, y.b, v.b, xi, p);
    SameMul6(x.b, u.b, y.a, v.a, xi, p);
    SameGamma(Mul6(x.b, y.b, xi), Mul6(u.b, v.b, xi), xi, p);
    SameAdd6(Mul6(x.a, y.a, xi), Mul6(u.a, v.a, xi), Gamma(Mul6(x.b, y.b, xi), xi), Gamma(Mul6(u.b, v.b, xi), xi), p);
    SameAdd6(Mul6(x.a, y.b, xi), Mul6(u.a, v.b, xi), Mul6(x.b, y.a, xi), Mul6(u.b, v.a, xi), p);
  }

  lemma SameConjugate(x: Fp12, u: Fp12, p: nat)
    requires Same12(x, u, p)
    ensures Same12(Conjugate(x), Conjugate(u), p)
  {
    hide Same2;
    var zero := Fp6(ZERO, ZERO, ZERO);
    Itself2(ZERO, p);
    SameAdd6(zero, zero, x.b, u.b, p);
  }

  function Reduce2(x: Fp2, p: nat): Fp2
    requires 0 < p
  {
    Fp2(x.a % p, x.b % p)
  }

  function Reduce6(x: Fp6, p: nat): Fp6
    requires 0 < p
  {
    Fp6(Reduce2(x.a, p), Reduce2(x.b, p), Reduce2(x.c, p))
  }

  /** The residues of the coefficients modulo p. */
  function Reduce12(x: Fp12, p: nat): Fp12
    requires 0 < p
  {
    Fp12(Reduce6(x.a, p), Reduce6(x.b, p))
  }

  lemma SameResidues(a: int, b: int, p: nat)
    requires 0 < p
    ensures Congruent(a, b, p) <==> a % p == b % p
  {
    if Congruent(a, b, p) {
      var k: int :| DifferBy(a, b, k, p);
      Witnessed(a % p, b % p, p, k - a / p + b / p) by {
        Distribute(k - a / p, b / p, p);
        Subtract(k, a / p, p);
      }
      SameResidue(a % p, b % p, p);
    } else if a % p == b % p {
      Subtract(a / p, b / p, p);
      Witnessed(a, b, p, a / p - b / p);
    }
  }

  /** Elements have the same residues exactly if they are the same modulo p. */
  lemma ReducedSame(x: Fp12, y: Fp12, p: nat)
    requires 0 < p
    ensures Same12(x, y, p) <==> Reduce12(x, p) == Reduce12(y, p)
  {
    hide Congruent;
    ReducedSame6(x.a, y.a, p);
    ReducedSame6(x.b, y.b, p);
  }

  lemma ReducedSame6(x: Fp6, y: Fp6, p: nat)
    requires 0 < p
    ensures Same6(x, y, p) <==> Reduce6(x, p) == Reduce6(y, p)
  {
    hide Congruent;
    ReducedSame2(x.a, y.a, p);
    ReducedSame2(x.b, y.b, p);
    ReducedSame2(x.c, y.c, p);
  }

  lemma ReducedSame2(x: Fp2, y: Fp2, p: nat)
    requires 0 < p
    ensures Same2(x, y, p) <==> Reduce2(x, p) == Reduce2(y, p)
  {
    hide Congruent;
    SameResidues(x.a, y.a, p);
    SameResidues(x.b, y.b, p);
  }

  lemma Twice2(x: Fp2, p: nat)
    requires 0 < p
    ensures Reduce2(Reduce2(x, p), p) == Reduce2(x, p)
  {
    ModTwice(x.a, p);
    ModTwice(x.b, p);
  }

  lemma ModTwice(a: int, p: nat)
    requires 0 < p
    ensures a % p % p == a % p
  {
  }

  lemma Twice12(x: Fp12, p: nat)
    requires 0 < p
    ensures Same12(Reduce12(x, p), x, p) && Same12(x, Reduce12(x, p), p) && Same12(x, x, p)
  {
    hide Same12, Reduce2;
    Twice2(x.a.a, p);
    Twice2(x.a.b, p);
    Twice2(x.a.c, p);
    Twice2(x.b.a, p);
    Twice2(x.b.b, p);
    Twice2(x.b.c, p);
    ReducedSame(Reduce12(x, p), x, p);
    ReducedSame(x, Reduce12(x, p), p);
    ReducedSame(x, x, p);
  }

  /** The product of residues. */
  function MulMod(x: Fp12, y: Fp12, xi: Fp2, p: nat): Fp12
    requires 0 < p
  {
    Reduce12(Mul12(x, y, xi), p)
  }

  /** Residues may be taken before a product. */
  lemma ReduceFirst(x: Fp12, y: Fp12, xi: Fp2, p: nat)
    requires 0 < p
    ensures MulMod(Reduce12(x, p), y, xi, p) == MulMod(x, y, xi, p) == MulMod(x, Reduce12(y, p), xi, p)
  {
    hide Same12, Mul12, Reduce12;
    Twice12(x, p);
    Twice12(y, p);
    SameMul12(Reduce12(x, p), x, y, y, xi, p);
    SameMul12(x, x, Reduce12(y, p), y, xi, p);
    ReducedSame(Mul12(Reduce12(x, p), y, xi), Mul12(x, y, xi), p);
    ReducedSame(Mul12(x, Reduce12(y, p), xi), Mul12(x, y, xi), p);
  }

  lemma ModCommutes(x: Fp12, y: Fp12, xi: Fp2, p: nat)
    requires 0 < p
    ensures MulMod(x, y, xi, p) == MulMod(y, x, xi, p)
  {
    hide Mul12;
    Commutes12(x, y, xi);
  }

  lemma ModAssociates(x: Fp12, y: Fp12, z: Fp12, xi: Fp2, p: nat)
    requires 0 < p
    ensures MulMod(MulMod(x, y, xi, p), z, xi, p) == MulMod(x, MulMod(y, z, xi, p), xi, p)
  {
    hide Mul12, Reduce12;
    ReduceFirst(Mul12(x, y, xi), z, xi, p);
    ReduceFirst(x, Mul12(y, z, xi), xi, p);
    Associates12(x, y, z, xi);
  }

  function ConjugateMod(x: Fp12, p: nat): Fp12
    requires 0 < p
  {
    Reduce12(Conjugate(x), p)
  }

  lemma ModConjugates(x: Fp12, y: Fp12, xi: Fp2, p: nat)
    requires 0 < p
    ensures ConjugateMod(MulMod(x, y, xi, p), p) == MulMod(ConjugateMod(x, p), ConjugateMod(y, p), xi, p)
  {
    hide Mul12, Reduce12, Same12, Conjugate;
    var m := Mul12(x, y, xi);
    Twice12(m, p);
    SameConjugate(Reduce12(m, p), m, p);
    ReducedSame(Conjugate(Reduce12(m, p)), Conjugate(m), p);
    ConjugateKeepsProducts(x, y, xi);
    ReduceFirst(Conjugate(x), Conjugate(y), xi, p);
    ReduceFirst(Reduce12(Conjugate(x), p), Conjugate(y), xi, p);
  }

  /** Modulo p as well the loops compute what the laws of a commutative product let them. */
  lemma ResiduesAreLawful<T, Q, L, P>(c: Miller.Curve<T, Q, L, P, Fp12>, xi: Fp2, p: nat, negative: bool)
    requires 0 < p && forall x, y :: c.mul(x, y) == MulMod(x, y, xi, p)
    requires forall x :: c.finishField(x) == if negative then ConjugateMod(x, p) else x
    ensures c.Lawful()
  {
    hide MulMod, ConjugateMod;
    forall a, b
      ensures c.Commutes(a, b)
    {
      ModCommutes(a, b, xi, p);
    }
    forall a, b, d
      ensures c.Regroups(a, b, d)
    {
      ModAssociates(a, b, d, xi, p);
    }
    forall a, b
      ensures c.Finishes(a, b)
    {
      ModConjugates(a, b, xi, p);
    }
  }

  /** The residues of the value that an element stands for. */
  ghost function Residue(z: Num12, f: Field): Fp12
    requires 0 < f.p
  {
    Reduce12(z.Of(), f.p)
  }

  /** The numbers of an element, without the values they stand for. */
  function Numbers(z: Num12): Fp12 {
    Fp12(Numbers6(z.a), Numbers6(z.b))
  }

  function Numbers6(z: Num6): Fp6 {
    Fp6(Numbers2(z.a), Numbers2(z.b), Numbers2(z.c))
  }

  function Numbers2(z: Num2): Fp2 {
    Fp2(z.a.n, z.b.n)
  }

  /** Reduced elements have the same numbers exactly if they stand for the same residues. */
  lemma NumbersAreResidues(x: Num12, y: Num12, f: Field)
    requires f.Valid() && In12(x, f) && In12(y, f)
    ensures 0 < f.p && (Numbers(x) == Numbers(y) <==> Residue(x, f) == Residue(y, f))
  {
    hide In6, Congruent, Reduce12, Same6, Numbers6;
    assert 0 < f.p;
    ReducedSame(x.Of(), y.Of(), f.p);
    SameNumbers6(x.a, y.a, f);
    SameNumbers6(x.b, y.b, f);
  }

  lemma SameNumbers6(x: Num6, y: Num6, f: Field)
    requires f.Valid() && In6(x, f) && In6(y, f)
    ensures Numbers6(x) == Numbers6(y) <==> Same6(x.Of(), y.Of(), f.p)
  {
    hide Congruent, Fp, Field.Valid;
    OnlyOne2(x.a, y.a, f);
    OnlyOne2(x.b, y.b, f);
    OnlyOne2(x.c, y.c, f);
  }

  lemma OnlyOne2(x: Num2, y: Num2, f: Field)
    requires f.Valid() && In2(x, f) && In2(y, f)
    ensures Numbers2(x) == Numbers2(y) <==> Same2(x.Of(), y.Of(), f.p)
  {
    hide Congruent, Single;
    OnlyOneNumber(x.a, y.a, f);
    OnlyOneNumber(x.b, y.b, f);
  }

  /** Mul12C, MulSparse and MulTwoSparse, whose results stand for products of values, multiply residues. */
  lemma ProductOfResidues(x: Num12, y: Num12, z: Num12, f: Field)
    requires f.Valid() && z.Of() == Mul12(x.Of(), y.Of(), Xi(f.snark))
    ensures 0 < f.p && Residue(z, f) == MulMod(Residue(x, f), Residue(y, f), Xi(f.snark), f.p)
  {
    assert 0 < f.p;
    hide Mul12, Reduce12, Field.Valid;
    ReduceFirst(x.Of(), y.Of(), Xi(f.snark), f.p);
    ReduceFirst(x.Of(), Reduce12(y.Of(), f.p), Xi(f.snark), f.p);
  }
}
