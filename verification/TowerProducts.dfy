/** Products and squares in the upper floors of the tower, on double numbers that are reduced late. */
module TowerProducts {
  import opened Arithmetic
  import opened FieldNumbers
  import Montgomery
  import opened Tower
  import opened TowerField

  datatype Num6 = Num6(a: Num2, b: Num2, c: Num2) {
    ghost function Of(): Fp6 {
      Fp6(a.Of(), b.Of(), c.Of())
    }
  }

  datatype Num12 = Num12(a: Num6, b: Num6) {
    ghost function Of(): Fp12 {
      Fp12(a.Of(), b.Of())
    }
  }

  ghost predicate In6(x: Num6, f: Field) {
    In2(x.a, f) && In2(x.b, f) && In2(x.c, f)
  }

  ghost predicate Dbl6(x: Num6, f: Field) {
    Dbl2(x.a, f) && Dbl2(x.b, f) && Dbl2(x.c, f)
  }

  ghost predicate In12(x: Num12, f: Field) {
    In6(x.a, f) && In6(x.b, f)
  }

  lemma MixOfSums(a: Num2, b: Num2, c: Num2, d: Num2, s: Num2, t: Num2)
    requires s.a.n == a.a.n + b.a.n && s.b.n == a.b.n + b.b.n
    requires t.a.n == c.a.n + d.a.n && t.b.n == c.b.n + d.b.n
    ensures Mix(s, t) == Mix(a, c) + Mix(b, d) + (Mix(a, d) + Mix(b, c))
  {
    Karatsuba(a.a.n, b.a.n, c.b.n, d.b.n);
    Karatsuba(a.b.n, b.b.n, c.a.n, d.a.n);
  }

  /** The cross terms of two sums fit. */
  lemma CrossFits(a: Num2, b: Num2, c: Num2, d: Num2, f: Field)
    requires f.Valid() && In2(a, f) && In2(b, f) && In2(c, f) && In2(d, f)
    ensures var s, t := AddNC2(a, b, f), AddNC2(c, d, f);
            Mix(a, c) + Mix(b, d) <= Mix(s, t) < Mix(a, c) + Mix(b, d) + Top(f)
    ensures Mix(AddNC2(a, b, f), AddNC2(c, d, f)) == Mix(a, c) + Mix(b, d) + (Mix(a, d) + Mix(b, c))
  {
    hide Mix, Single, Top, Montgomery.R, Quarter, Square;
    Room(f);
    MixOfSums(a, b, c, d, AddNC2(a, b, f), AddNC2(c, d, f));
    MixBound(a, d, f);
    MixBound(b, c, f);
  }

  lemma CrossValue(a: Fp2, b: Fp2, c: Fp2, d: Fp2)
    ensures Sub(Mul(Add(a, b), Add(c, d)), Add(Mul(a, c), Mul(b, d))) == Add(Mul(a, d), Mul(b, c))
  {
    hide Mul;
    Cross(a, b, c, d);
  }

  /** The coefficient of v * v * u in the product of the numbers, before any reduction. */
  function Middle(x: Num6, y: Num6): nat {
    Mix(x.a, y.c) + Mix(x.c, y.a) + Mix(x.b, y.b)
  }

  /** z := x * y with six products. All coefficients but one are below p * 2^256. */
  method Mul6Dbl(x: Num6, y: Num6, f: Field) returns (z: Num6)
    requires f.Valid() && In6(x, f) && In6(y, f)
    ensures z.Of() == Mul6(x.Of(), y.Of(), Xi(f.snark))
    ensures Dbl2(z.a, f) && Dbl2(z.b, f) && FpDbl(z.c.a, f) && Double(z.c.b, f) && z.c.b.n == Middle(x, y)
  {
    hide Single, Double, Top, Wide, Mul, Quarter, Square, Mix, Xi, In2;
    Room(f);
    var T0 := MulOpt1(x.a, y.a, f);
    var T1 := MulOpt1(x.b, y.b, f);
    var T2 := MulOpt1(x.c, y.c, f);
    var t0, t1, zc, sum;
    t0, t1 := AddNC2(x.b, x.c, f), AddNC2(y.b, y.c, f);
    CrossFits(x.b, x.c, y.b, y.c, f);
    CrossValue(x.b.Of(), x.c.Of(), y.b.Of(), y.c.Of());
    zc := MulOpt2(t0, t1, f);
    sum := Num2(AddDblNC(T1.a, T2.a, f), AddDblNC(T1.b, T2.b, f));
    zc := Num2(SubDbl(zc.a, sum.a, f), SubDblNC(zc.b, sum.b, f));
    var zb := MulXiDbl(zc, f);
    var za := AddDbl2(zb, T0, f);
    t0, t1 := AddNC2(x.a, x.b, f), AddNC2(y.a, y.b, f);
    CrossFits(x.a, x.b, y.a, y.b, f);
    CrossValue(x.a.Of(), x.b.Of(), y.a.Of(), y.b.Of());
    zc := MulOpt2(t0, t1, f);
    sum := Num2(AddDblNC(T0.a, T1.a, f), AddDblNC(T0.b, T1.b, f));
    zc := Num2(SubDbl(zc.a, sum.a, f), SubDblNC(zc.b, sum.b, f));
    if f.snark {
      zb := MulXiDbl(T2, f);
    } else {
      TimesXi(T2.Of(), false);
      zb := Num2(SubOpt1(T2.a, T2.b, f), AddDbl(T2.a, T2.b, f));
    }
    zb := AddDbl2(zb, zc, f);
    t0, t1 := AddNC2(x.a, x.c, f), AddNC2(y.a, y.c, f);
    CrossFits(x.a, x.c, y.a, y.c, f);
    CrossValue(x.a.Of(), x.c.Of(), y.a.Of(), y.c.Of());
    zc := MulOpt2(t0, t1, f);
    sum := Num2(AddDblNC(T0.a, T2.a, f), AddDblNC(T0.b, T2.b, f));
    zc := Num2(SubDbl(zc.a, sum.a, f), SubDblNC(zc.b, sum.b, f));
    zc := Num2(AddDbl(zc.a, T1.a, f), AddDblNC(zc.b, T1.b, f));
    z := Num6(za, zb, zc);
  }

  method Mod6(x: Num6, f: Field) returns (r: Num6)
    requires f.Valid() && Dbl6(x, f)
    ensures In6(r, f) && r.Of() == x.Of()
  {
    hide In2, Dbl2;
    var a := Mod2(x.a, f);
    var b := Mod2(x.b, f);
    var c := Mod2(x.c, f);
    r := Num6(a, b, c);
  }

  /** The product stays below p * 2^256, as sums of double numbers assert. */
  ghost predicate Fits(x: Num6, y: Num6, f: Field) {
    Middle(x, y) < Top(f)
  }

  /** All coefficients are reduced but for the last one, from which p would have to be taken off once more. */
  ghost predicate Nearly6(x: Num6, f: Field) {
    In2(x.a, f) && In2(x.b, f) && Fp(x.c.a, f) && Single(x.c.b, f) && x.c.b.n < 2 * f.p
  }

  /** The product of x and y as its reduction leaves it. */
  ghost predicate ProductOf(z: Num6, x: Num6, y: Num6, f: Field)
    requires f.p % 2 == 1
  {
    Nearly6(z, f) && z.Of() == Mul6(x.Of(), y.Of(), Xi(f.snark)) && z.c.b.n == Lowered(Middle(x, y), f)
  }

  /** z := x * y. The value is always right; the last coefficient is reduced exactly if the reduction brings the
      middle of the product below p. */
  method Mul6C(x: Num6, y: Num6, f: Field) returns (z: Num6)
    requires f.Valid() && In6(x, f) && In6(y, f)
    ensures ProductOf(z, x, y, f)
    ensures In6(z, f) <==> Reduces(Middle(x, y), f)
    ensures Fits(x, y, f) || !f.snark ==> In6(z, f)
  {
    hide Single, Double, Top, Wide, Square, Quarter, Montgomery.R, Mul6, Xi, Middle, In2, Dbl2, Reduces, Lowered,
         Field.Valid;
    z := Mul6Dbl(x, y, f);
    MiddleBound(x, y, f);
    if !f.snark {
      AlwaysFits(x, y, f);
    }
    LowerOnce(z.c.b.n, f);
    var a := Mod2(z.a, f);
    var b := Mod2(z.b, f);
    var ca := Mod(z.c.a, f);
    var cb := Mod(z.c.b, f);
    z := Num6(a, b, Num2(ca, cb));
    LastReduced(z, f);
  }

  lemma LastReduced(z: Num6, f: Field)
    requires Nearly6(z, f)
    ensures In6(z, f) <==> z.c.b.n < f.p
  {
    hide Single;
  }

  lemma MiddleBound(x: Num6, y: Num6, f: Field)
    requires f.Valid() && In6(x, f) && In6(y, f)
    ensures Middle(x, y) < 6 * Square(f) < 2 * Top(f) < Wide()
  {
    hide Single, Top, Wide, Square, Quarter, Mix;
    Room(f);
    MixBound(x.a, y.c, f);
    MixBound(x.b, y.b, f);
    MixBound(x.c, y.a, f);
  }

  /** Below p * 2^257 the reduction leaves less than 2p, and less than p exactly if it reduces. */
  lemma LowerOnce(x: nat, f: Field)
    requires f.Valid() && x < 2 * Top(f)
    ensures Lowered(x, f) < 2 * f.p && (Lowered(x, f) < f.p <==> Reduces(x, f)) && (x < Top(f) ==> Reduces(x, f))
  {
    hide Montgomery.R, Montgomery.Cleared;
    var p, r, l := f.p, Montgomery.R(), Montgomery.Lifted(x, f.p);
    var k :| Montgomery.Cleared(l, k, x, p);
    Montgomery.ClearedIs(l, k, x, p);
    LessTimes(k, r, p);
    Regroup(p, r, 1);
    Regroup(2, p, r);
    Regroup(3, p, r);
    if l >= 3 * p {
      LeTimes(3 * p, l, r);
    }
    if l >= 2 * p {
      LeTimes(2 * p, l, r);
    }
  }

  lemma ReducedLast(z: Num6, f: Field)
    requires Dbl2(z.a, f) && Dbl2(z.b, f) && FpDbl(z.c.a, f) && Double(z.c.b, f) && z.c.b.n < Top(f)
    ensures Dbl6(z, f)
  {
    hide Double, Top;
  }

  /** With the modulus of the build without SNARK support every product fits. */
  lemma AlwaysFits(x: Num6, y: Num6, f: Field)
    requires f.Valid() && !f.snark && In6(x, f) && In6(y, f)
    ensures Fits(x, y, f)
  {
    hide Single, Top, Square, Quarter, Mix;
    Room(f);
    MixBound(x.a, y.c, f);
    MixBound(x.b, y.b, f);
    MixBound(x.c, y.a, f);
  }

  /** z := x * x */
  method Square6(x: Num6, f: Field) returns (z: Num6)
    requires f.Valid() && In6(x, f)
    ensures In6(z, f) && z.Of() == Mul6(x.Of(), x.Of(), Xi(f.snark))
  {
    hide In2, Mul, Xi, Field.Valid;
    var v4 := Add2(x.a, x.a, f);
    v4 := Mul2(v4, x.b, f);
    Distributes(x.a.Of(), x.a.Of(), x.b.Of());
    var v5 := Square2(x.c, f);
    var zb := MulXi2(v5, f);
    zb := Add2(zb, v4, f);
    var zc := Sub2(v4, v5, f);
    var v3 := Square2(x.a, f);
    v4 := Sub2(x.a, x.b, f);
    v4 := Add2(v4, x.c, f);
    v5 := Add2(x.b, x.b, f);
    v5 := Mul2(v5, x.c, f);
    Distributes(x.b.Of(), x.b.Of(), x.c.Of());
    v4 := Square2(v4, f);
    SquareOfThree(x.a.Of(), x.b.Of(), x.c.Of());
    var za := MulXi2(v5, f);
    za := Add2(za, v3, f);
    zc := Add2(zc, v4, f);
    zc := Add2(zc, v5, f);
    zc := Sub2(zc, v3, f);
    Commutes(x.a.Of(), x.b.Of());
    Commutes(x.a.Of(), x.c.Of());
    Commutes(x.b.Of(), x.c.Of());
    z := Num6(za, zb, zc);
  }

  /** x * v + y */
  method MulGammaAdd(x: Num6, y: Num6, f: Field) returns (z: Num6)
    requires f.Valid()
    ensures z.Of() == Add6(Gamma(x.Of(), Xi(f.snark)), y.Of()) && (In6(x, f) && In6(y, f) ==> In6(z, f))
    ensures z.c == Add2(x.b, y.c, f)
  {
    hide In2, Mul, Xi, Field.Valid, Add2;
    var za := MulXi2(x.c, f);
    za := Add2(za, y.a, f);
    z := Num6(za, Add2(x.a, y.b, f), Add2(x.b, y.c, f));
  }

  /** x * v + y, on double numbers. */
  method MulGammaAddDbl(x: Num6, y: Num6, f: Field) returns (z: Num6)
    requires Dbl6(x, f) && Dbl6(y, f)
    ensures Dbl6(z, f) && z.Of() == Add6(Gamma(x.Of(), Xi(f.snark)), y.Of())
  {
    hide Dbl2, Mul, Xi;
    var za := MulXiDbl(x.c, f);
    za := AddDbl2(za, y.a, f);
    z := Num6(za, AddDbl2(x.a, y.b, f), AddDbl2(x.b, y.c, f));
  }

  function SumOf6(x: Num6, y: Num6, f: Field): (r: Num6)
    requires f.Valid()
    ensures r.Of() == Add6(x.Of(), y.Of()) && (In6(x, f) && In6(y, f) ==> In6(r, f))
  {
    hide In2, Field.Valid;
    Num6(Add2(x.a, y.a, f), Add2(x.b, y.b, f), Add2(x.c, y.c, f))
  }

  function DifferenceOf6(x: Num6, y: Num6, f: Field): (r: Num6)
    requires f.Valid()
    ensures r.Of() == Sub6(x.Of(), y.Of()) && (In6(x, f) && In6(y, f) ==> In6(r, f))
  {
    hide In2, Field.Valid;
    Num6(Sub2(x.a, y.a, f), Sub2(x.b, y.b, f), Sub2(x.c, y.c, f))
  }

  function AddDbl6(x: Num6, y: Num6, f: Field): (r: Num6)
    requires Dbl6(x, f) && Dbl6(y, f)
    ensures Dbl6(r, f) && r.Of() == Add6(x.Of(), y.Of())
  {
    hide Dbl2;
    Num6(AddDbl2(x.a, y.a, f), AddDbl2(x.b, y.b, f), AddDbl2(x.c, y.c, f))
  }

  function SubDbl6(x: Num6, y: Num6, f: Field): (r: Num6)
    requires Dbl6(x, f) && Dbl6(y, f)
    ensures Dbl6(r, f) && r.Of() == Sub6(x.Of(), y.Of())
  {
    hide Dbl2;
    Num6(SubDbl2(x.a, y.a, f), SubDbl2(x.b, y.b, f), SubDbl2(x.c, y.c, f))
  }

  /** z := x * y with three products. Sums and differences of double numbers assert that their operands are below
      p * 2^256; `fits` says whether these assertions hold. */
  method Mul12C(x: Num12, y: Num12, f: Field) returns (fits: bool, z: Num12)
    requires f.Valid() && In12(x, f) && In12(y, f)
    ensures fits <==> Fits(x.a, y.a, f) && Fits(x.b, y.b, f) &&
                      Fits(SumOf6(x.a, x.b, f), SumOf6(y.a, y.b, f), f)
    ensures !f.snark ==> fits
    ensures fits ==> In12(z, f) && z.Of() == Mul12(x.Of(), y.Of(), Xi(f.snark))
  {
    hide Double, Top, Mul6, Gamma, Xi, Middle, In6, Dbl6, Field.Valid;
    var T0 := Mul6Dbl(x.a, y.a, f);
    var T1 := Mul6Dbl(x.b, y.b, f);
    var t0, t1 := SumOf6(x.a, x.b, f), SumOf6(y.a, y.b, f);
    var za := Mul6Dbl(t0, t1, f);
    if !f.snark {
      AlwaysFits(x.a, y.a, f);
      AlwaysFits(x.b, y.b, f);
      AlwaysFits(t0, t1, f);
    }
    fits := T0.c.b.n < Top(f) && T1.c.b.n < Top(f) && za.c.b.n < Top(f);
    if !fits {
      return false, x;
    }
    ReducedLast(T0, f);
    ReducedLast(T1, f);
    ReducedLast(za, f);
    var T2 := AddDbl6(T0, T1, f);
    var zb := SubDbl6(za, T2, f);
    Cross6(x.a.Of(), x.b.Of(), y.a.Of(), y.b.Of(), Xi(f.snark));
    za := MulGammaAddDbl(T1, T0, f);
    za := Mod6(za, f);
    zb := Mod6(zb, f);
    z := Num12(za, zb);
  }

  /** z := z * z with two products in Fp6: first, of b and a, and second, of a + b and t. Sums and differences take p
      off or add it at most once, so that the result is reduced exactly if first is and the last coefficient of
      second is brought below p by the last difference. */
  method Square12C(z: Num12, f: Field) returns (r: Num12, ghost t: Num6, ghost first: Num6, ghost second: Num6)
    requires f.Valid() && In12(z, f)
    ensures In6(t, f) && t.Of() == Add6(Gamma(z.b.Of(), Xi(f.snark)), z.a.Of())
    ensures ProductOf(first, z.b, z.a, f) && ProductOf(second, SumOf6(z.a, z.b, f), t, f)
    ensures In6(first, f) <==> Reduces(Middle(z.b, z.a), f)
    ensures In12(r, f) <==> In6(first, f) && second.c.b.n < f.p + AddFp(first.b.b, first.c.b, f).n
    ensures In6(first, f) ==> Single6(r.a, f) && In6(r.b, f)
    ensures r.Of() == Mul12(z.Of(), z.Of(), Xi(f.snark))
    ensures !f.snark ==> In12(r, f)
  {
    hide Single, Double, Top, Mul6, Gamma, Xi, Middle, In6, Reduces, Lowered, Field.Valid;
    var za, zb := z.a, z.b;
    var t0 := SumOf6(za, zb, f);
    var t1 := MulGammaAdd(zb, za, f);
    t := t1;
    zb := Mul6C(zb, za, f);
    za := Mul6C(t0, t1, f);
    first, second := zb, za;
    SquareBySums(z.a.Of(), z.b.Of(), Xi(f.snark));
    t1 := MulGammaAdd(zb, zb, f);
    za := DifferenceOf6(za, t1, f);
    zb := SumOf6(zb, zb, f);
    r := Num12(za, zb);
    DoubledLast(first, f);
    if In6(first, f) {
      DifferenceLast(second, t1, f);
    }
  }

  ghost predicate Single6(x: Num6, f: Field) {
    Single(x.a.a, f) && Single(x.a.b, f) && Single(x.b.a, f) && Single(x.b.b, f) && Single(x.c.a, f) && Single(x.c.b, f)
  }

  /** Doubling does not reduce what is not reduced. */
  lemma DoubledLast(x: Num6, f: Field)
    requires f.Valid() && Nearly6(x, f)
    ensures In6(SumOf6(x, x, f), f) <==> In6(x, f)
  {
    hide Single, Field.Valid, AddFp;
  }

  lemma DifferenceLast(x: Num6, y: Num6, f: Field)
    requires f.Valid() && Nearly6(x, f) && In6(y, f)
    ensures Single6(DifferenceOf6(x, y, f), f)
    ensures In6(DifferenceOf6(x, y, f), f) <==> x.c.b.n < f.p + y.c.b.n
  {
    hide Single, Field.Valid, SubFp;
  }

  lemma SquareBySums(a: Fp6, b: Fp6, xi: Fp2)
    ensures var ba := Mul6(b, a, xi); var z := Fp12(a, b);
            Mul12(z, z, xi) == Fp12(Sub6(Mul6(Add6(a, b), Add6(Gamma(b, xi), a), xi), Add6(Gamma(ba, xi), ba)),
                                    Add6(ba, ba))
  {
    hide Mul6, Gamma;
    Cross6(a, b, Gamma(b, xi), a, xi);
    GammaOut(a, b, xi);
    GammaOut(b, b, xi);
    Commutes6(a, b, xi);
  }

  /** z times a line, with thirteen products, overwriting the six coefficients of z one by one. */
  method MulSparse(z: Num12, x: Num6, f: Field) returns (r: Num12)
    requires f.Valid() && In12(z, f) && In6(x, f)
    ensures In12(r, f) && r.Of() == Mul12(z.Of(), Embed(x.Of()), Xi(f.snark))
  {
    hide Field.Valid, In2, Dbl2, Mul, Xi, Mul12, Embed;
    SparseProduct(z.Of(), x.Of(), Xi(f.snark));
    var z0, z1, z2, z3, z4, z5 := z.a.a, z.a.b, z.a.c, z.b.a, z.b.b, z.b.c;
    var x0, x2, x4 := x.a, x.c, x.b;
    var D0 := MulDbl2(z0, x0, f);
    var D2 := MulDbl2(z2, x2, f);
    var D4 := MulDbl2(z4, x4, f);
    var t2, t1, s0 := Add2(z0, z4, f), Add2(z0, z2, f), Add2(z1, z3, f);
    s0 := Add2(s0, z5, f);
    var S1 := MulDbl2(z1, x2, f);
    var T3 := AddDbl2(S1, D4, f);
    var T4 := MulXiDbl(T3, f);
    T4 := AddDbl2(T4, D0, f);
    z0 := Mod2(T4, f);
    T3 := MulDbl2(z5, x4, f);
    S1 := AddDbl2(S1, T3, f);
    T3 := AddDbl2(T3, D2, f);
    AddCommutes(T3.Of(), Mul(z.a.c.Of(), x2.Of()), Mul(z.b.c.Of(), x4.Of()));
    T4 := MulXiDbl(T3, f);
    T3 := MulDbl2(z1, x0, f);
    S1 := AddDbl2(S1, T3, f);
    T4 := AddDbl2(T4, T3, f);
    z1 := Mod2(T4, f);
    var t0 := Add2(x0, x2, f);
    T3 := MulDbl2(t1, t0, f);
    Cross(z.a.a.Of(), z.a.c.Of(), x0.Of(), x2.Of());
    T3 := SubDbl2(T3, D0, f);
    T3 := SubDbl2(T3, D2, f);
    T4 := MulDbl2(z3, x4, f);
    S1 := AddDbl2(S1, T4, f);
    T3 := AddDbl2(T3, T4, f);
    t0 := Add2(z2, z4, f);
    z2 := Mod2(T3, f);
    t1 := Add2(x2, x4, f);
    T3 := MulDbl2(t0, t1, f);
    Cross(z.a.c.Of(), z.b.b.Of(), x2.Of(), x4.Of());
    T3 := SubDbl2(T3, D2, f);
    T3 := SubDbl2(T3, D4, f);
    T4 := MulXiDbl(T3, f);
    T3 := MulDbl2(z3, x0, f);
    S1 := AddDbl2(S1, T3, f);
    T4 := AddDbl2(T4, T3, f);
    z3 := Mod2(T4, f);
    T3 := MulDbl2(z5, x2, f);
    S1 := AddDbl2(S1, T3, f);
    T4 := MulXiDbl(T3, f);
    t0 := Add2(x0, x4, f);
    T3 := MulDbl2(t2, t0, f);
    Cross(z.a.a.Of(), z.b.b.Of(), x0.Of(), x4.Of());
    T3 := SubDbl2(T3, D0, f);
    T3 := SubDbl2(T3, D4, f);
    T4 := AddDbl2(T4, T3, f);
    z4 := Mod2(T4, f);
    t0 := Add2(x0, x2, f);
    t0 := Add2(t0, x4, f);
    T3 := MulDbl2(s0, t0, f);
    Cross3(z.a.b.Of(), z.b.a.Of(), z.b.c.Of(), x0.Of(), x2.Of(), x4.Of());
    T3 := SubDbl2(T3, S1, f);
    z5 := Mod2(T3, f);
    r := Num12(Num6(z0, z1, z2), Num6(z3, z4, z5));
  }

  /** The product of two lines, with six products. The coefficients of z serve as temporaries on the way. */
  method MulTwoSparse(x: Num6, y: Num6, f: Field) returns (z: Num12)
    requires f.Valid() && In6(x, f) && In6(y, f)
    ensures In12(z, f) && z.Of() == Mul12(Embed(x.Of()), Embed(y.Of()), Xi(f.snark))
  {
    hide Field.Valid, In2, Dbl2, Mul, Xi, Mul12, Embed;
    LineProduct(x.Of(), y.Of(), Xi(f.snark));
    var x0, x2, x4 := x.a, x.c, x.b;
    var y0, y2, y4 := y.a, y.c, y.b;
    var T00 := MulDbl2(x0, y0, f);
    var T22 := MulDbl2(x2, y2, f);
    var T44 := MulDbl2(x4, y4, f);
    var z0, z1 := Add2(x0, x2, f), Add2(y0, y2, f);
    var T02 := MulDbl2(z0, z1, f);
    Cross(x0.Of(), x2.Of(), y0.Of(), y2.Of());
    T02 := SubDbl2(T02, T00, f);
    T02 := SubDbl2(T02, T22, f);
    var z2 := Mod2(T02, f);
    z0, z1 := Add2(x2, x4, f), Add2(y2, y4, f);
    var T24 := MulDbl2(z0, z1, f);
    Cross(x2.Of(), x4.Of(), y2.Of(), y4.Of());
    T24 := SubDbl2(T24, T22, f);
    T24 := SubDbl2(T24, T44, f);
    T02 := MulXiDbl(T24, f);
    var z3 := Mod2(T02, f);
    z0, z1 := Add2(x4, x0, f), Add2(y4, y0, f);
    var T40 := MulDbl2(z0, z1, f);
    Cross(x4.Of(), x0.Of(), y4.Of(), y0.Of());
    T40 := SubDbl2(T40, T00, f);
    T40 := SubDbl2(T40, T44, f);
    var z4 := Mod2(T40, f);
    T02 := MulXiDbl(T22, f);
    z1 := Mod2(T02, f);
    T02 := MulXiDbl(T44, f);
    T02 := AddDbl2(T02, T00, f);
    z0 := Mod2(T02, f);
    var z5 := Zero2(f);
    z := Num12(Num6(z0, z1, z2), Num6(z3, z4, z5));
  }

  lemma LargestMix(x: Num2, y: Num2, f: Field)
    requires Below2(x, f.p) && Below2(y, f.p)
    ensures Mix(x, y) <= 2 * ((f.p - 1) * (f.p - 1))
  {
    LeTimes(x.a.n, f.p - 1, y.b.n);
    LeTimes(y.b.n, f.p - 1, f.p - 1);
    LeTimes(x.b.n, f.p - 1, y.a.n);
    LeTimes(y.a.n, f.p - 1, f.p - 1);
  }

  /** All products fit exactly if six products of the largest number do. */
  lemma FitsAlways(f: Field)
    requires f.Valid()
    ensures (forall x: Num6, y: Num6 :: In6(x, f) && In6(y, f) ==> Fits(x, y, f)) <==>
            6 * ((f.p - 1) * (f.p - 1)) < Top(f)
  {
    assert 0 < f.p;
    hide Field.Valid, Single, Top;
    if 6 * ((f.p - 1) * (f.p - 1)) < Top(f) {
      forall x: Num6, y: Num6 | In6(x, f) && In6(y, f)
        ensures Fits(x, y, f)
      {
        hide Mix;
        LargestMix(x.a, y.c, f);
        LargestMix(x.b, y.b, f);
        LargestMix(x.c, y.a, f);
      }
    } else {
      var n := Given(f.p - 1, f);
      var c := Num2(n, n);
      var x := Num6(c, c, c);
      assert In6(x, f) && !Fits(x, x, f);
    }
  }

  /** p for the curve parameter z */
  function CurveModulus(z: int): int {
    36 * (z * z * z * z) + 36 * (z * z * z) + 24 * (z * z) + 6 * z + 1
  }

  const SNARK_PARAMETER: int := 4965661367192848881
  const BN_PARAMETER: int := -4647714815446351873

  /** The moduli of the two builds: with the one for SNARKs not every product fits. */
  lemma CurveModuli()
    ensures var p, r := CurveModulus(BN_PARAMETER), Montgomery.R(); 0 < p && p % 2 == 1 && 6 * p < r < 7 * p
    ensures var p, r := CurveModulus(SNARK_PARAMETER), Montgomery.R();
            0 < p && p % 2 == 1 && 4 * p < r && p * r <= 6 * ((p - 1) * (p - 1))
  {
  }

  /** With the modulus for SNARKs a product can be left unreduced: operands whose coefficients are p - 1 but for one
      that is p - 17. */
  lemma NotReduced(f: Field) returns (x: Num6, y: Num6)
    requires f.Valid() && f.p == CurveModulus(SNARK_PARAMETER)
    ensures In6(x, f) && In6(y, f) && !Reduces(Middle(x, y), f)
  {
    hide Single, Field.Valid, Montgomery.Lifted, Montgomery.Cleared;
    CurveModuli();
    var n := Given(f.p - 1, f);
    var m := Given(f.p - 17, f);
    x := Num6(Num2(n, n), Num2(n, n), Num2(n, n));
    y := x.(c := Num2(n, m));
    var k := 111334590029822345875617084605945464359745454197798813529391420543260944145976;
    var l := 45870919487627794361380106977969700044404165294548265762491549482085104923765;
    UnreducedMiddle(k, l, f.p);
    LiftedIs(l, k, Middle(x, y), f);
  }

  lemma UnreducedMiddle(k: nat, l: nat, p: nat)
    requires k == 111334590029822345875617084605945464359745454197798813529391420543260944145976
    requires l == 45870919487627794361380106977969700044404165294548265762491549482085104923765
    requires p == CurveModulus(SNARK_PARAMETER)
    ensures 17 <= p && Montgomery.Cleared(l, k, 5 * ((p - 1) * (p - 1)) + (p - 1) * (p - 17), p) && 2 * p <= l
  {
  }

  /** The coefficient without u in the product of the numbers. */
  function Plain(x: Num2, y: Num2): int {
    x.a.n * y.a.n - x.b.n * y.b.n
  }

  /** Subtraction modulo top, on whatever numbers it gets; below zero there is a borrow. */
  function Minus(x: int, y: int, top: nat): int {
    if x < y then x + top - y else x - y
  }

  /** Half of p * 2^256 in place of a quarter, as the header has it: what the product of sums leaves less the sum of
      two such products has a borrow exactly if its own coefficient is not negative and the smaller one. */
  lemma HalfBorrowsWhen(b: Num2, c: Num2, d: Num2, e: Num2, f: Field)
    requires f.Valid() && In2(b, f) && In2(c, f) && In2(d, f) && In2(e, f)
    ensures var h, top := Top(f) / 2, Top(f);
            var product, sum := Plain(AddNC2(b, c, f), AddNC2(d, e, f)), Plain(b, d) + Plain(c, e);
            Minus(Minus(product, 0, top), Plain(b, d) + h + (Plain(c, e) + h), top) < 0 <==> 0 <= product < sum
  {
    hide Single, Top, Montgomery.R, Wide, Square, Quarter, Plain, Minus;
    Room(f);
    var s, t := AddNC2(b, c, f), AddNC2(d, e, f);
    LooseSquare(s.a.n, t.a.n, f);
    LooseSquare(s.b.n, t.b.n, f);
    PlainBound(s, t, Top(f));
    ReducedPlain(b, d, f);
    ReducedPlain(c, e, f);
    ReducedPlain(b, e, f);
    ReducedPlain(c, d, f);
    PlainOfSums(b, c, d, e, s, t);
    HalfAdded(Plain(s, t), Plain(b, d), Plain(c, e), Quarter(f), Top(f));
  }

  lemma PlainOfSums(b: Num2, c: Num2, d: Num2, e: Num2, s: Num2, t: Num2)
    requires s.a.n == b.a.n + c.a.n && s.b.n == b.b.n + c.b.n
    requires t.a.n == d.a.n + e.a.n && t.b.n == d.b.n + e.b.n
    ensures Plain(s, t) == Plain(b, d) + Plain(c, e) + (Plain(b, e) + Plain(c, d))
  {
    Karatsuba(b.a.n, c.a.n, d.a.n, e.a.n);
    Karatsuba(b.b.n, c.b.n, d.b.n, e.b.n);
  }

  lemma HalfAdded(product: int, x: int, y: int, quarter: nat, top: nat)
    requires 4 * quarter == top && 0 - top < product < top
    requires 0 - quarter < x < quarter && 0 - quarter < y < quarter && x + y - top < product
    ensures var h := top / 2; Minus(Minus(product, 0, top), x + h + (y + h), top) < 0 <==> 0 <= product < x + y
  {
    assert top / 2 == 2 * quarter;
  }

  /** The bound for reduced numbers. */
  lemma ReducedPlain(x: Num2, y: Num2, f: Field)
    requires Below2(x, f.p) && Below2(y, f.p)
    ensures Within(Plain(x, y), Square(f))
  {
    BelowSquare(x.a.n, y.a.n, f.p);
    BelowSquare(x.b.n, y.b.n, f.p);
    PlainBound(x, y, Square(f));
  }

  ghost predicate Within(d: int, bound: nat) {
    0 - bound < d < bound
  }

  lemma PlainBound(x: Num2, y: Num2, bound: nat)
    requires x.a.n * y.a.n < bound && x.b.n * y.b.n < bound
    ensures 0 - bound < Plain(x, y) < bound
  {
  }

  /** Such operands. */
  lemma HalfBorrows(f: Field) returns (b: Num2, c: Num2, d: Num2, e: Num2)
    requires f.Valid() && 2 < f.p
    ensures In2(b, f) && In2(c, f) && In2(d, f) && In2(e, f)
    ensures 0 <= Plain(AddNC2(b, c, f), AddNC2(d, e, f)) < Plain(b, d) + Plain(c, e)
  {
    hide Field.Valid, Single, Top, Quarter;
    var n0 := Given(0, f);
    var n1 := Given(1, f);
    var n2 := Given(2, f);
    b, d, c, e := Num2(n2, n1), Num2(n2, n0), Num2(n0, n0), Num2(n0, n1);
    QuarterIs(f);
  }
}
