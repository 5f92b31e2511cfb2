/** The tower on reduced numbers: products are kept double and reduced late. */
module TowerField {
  import opened Arithmetic
  import opened FieldNumbers
  import opened Modular
  import Montgomery
  import opened Tower

  datatype Num2 = Num2(a: Num, b: Num) {
    ghost function Of(): Fp2 {
      Fp2(a.v, b.v)
    }
  }

  ghost predicate In2(x: Num2, f: Field) {
    Fp(x.a, f) && Fp(x.b, f)
  }

  ghost predicate Dbl2(x: Num2, f: Field) {
    FpDbl(x.a, f) && FpDbl(x.b, f)
  }

  /** Not reduced: the sum of up to k reduced elements. */
  ghost predicate Loose2(x: Num2, k: nat, f: Field) {
    Single(x.a, f) && Single(x.b, f) && x.a.n < k * f.p && x.b.n < k * f.p
  }

  function Add2(x: Num2, y: Num2, f: Field): (r: Num2)
    requires f.Valid()
    ensures r.Of() == Add(x.Of(), y.Of()) && (In2(x, f) && In2(y, f) ==> In2(r, f))
  {
    Num2(AddFp(x.a, y.a, f), AddFp(x.b, y.b, f))
  }

  function Sub2(x: Num2, y: Num2, f: Field): (r: Num2)
    requires f.Valid()
    ensures r.Of() == Sub(x.Of(), y.Of()) && (In2(x, f) && In2(y, f) ==> In2(r, f))
  {
    Num2(SubFp(x.a, y.a, f), SubFp(x.b, y.b, f))
  }

  function AddNC2(x: Num2, y: Num2, f: Field): (r: Num2)
    requires f.Valid() && In2(x, f) && In2(y, f)
    ensures Loose2(r, 2, f) && r.Of() == Add(x.Of(), y.Of())
    ensures r.a.n == x.a.n + y.a.n && r.b.n == x.b.n + y.b.n
  {
    Num2(AddNC(x.a, y.a, f), AddNC(x.b, y.b, f))
  }

  function AddDbl2(x: Num2, y: Num2, f: Field): (r: Num2)
    requires Dbl2(x, f) && Dbl2(y, f)
    ensures Dbl2(r, f) && r.Of() == Add(x.Of(), y.Of())
  {
    Num2(AddDbl(x.a, y.a, f), AddDbl(x.b, y.b, f))
  }

  function SubDbl2(x: Num2, y: Num2, f: Field): (r: Num2)
    requires Dbl2(x, f) && Dbl2(y, f)
    ensures Dbl2(r, f) && r.Of() == Sub(x.Of(), y.Of())
  {
    Num2(SubDbl(x.a, y.a, f), SubDbl(x.b, y.b, f))
  }

  /** The coefficient of u in the product of the numbers, before any reduction. */
  function Mix(x: Num2, y: Num2): nat {
    x.a.n * y.b.n + x.b.n * y.a.n
  }

  lemma Karatsuba(a: int, b: int, c: int, d: int)
    ensures (a + b) * (c + d) - a * c - b * d == a * d + b * c
  {
    Distribute(a, b, c + d);
    Distribute(c, d, a);
    Distribute(c, d, b);
  }

  /** What the product of the sums holds beside the products of the coefficients. */
  lemma CrossTerms(x: Num2, y: Num2, s: Num, t: Num, m: Num, d0: Num, d1: Num)
    requires s.n == x.a.n + x.b.n && t.n == y.a.n + y.b.n && s.v == x.a.v + x.b.v && t.v == y.a.v + y.b.v
    requires m.n == s.n * t.n && d1.n == x.a.n * y.a.n && d0.n == x.b.n * y.b.n
    requires m.v == s.v * t.v && d1.v == x.a.v * y.a.v && d0.v == x.b.v * y.b.v
    ensures m.n == d1.n + d0.n + Mix(x, y) && Mul(x.Of(), y.Of()) == Fp2(d1.v - d0.v, m.v - d1.v - d0.v)
  {
    Karatsuba(x.a.n, x.b.n, y.a.n, y.b.n);
    Karatsuba(x.a.v, x.b.v, y.a.v, y.b.v);
  }

  lemma BelowSquare(a: nat, b: nat, p: nat)
    requires a < p && b < p
    ensures a * b < p * p
  {
    LeTimes(a, p - 1, b);
    LeTimes(b, p, p - 1);
    Subtract(p, 1, p);
  }

  /** Both numbers are below k. */
  predicate Below2(x: Num2, k: nat) {
    x.a.n < k && x.b.n < k
  }

  lemma MixBound(x: Num2, y: Num2, f: Field)
    requires Below2(x, f.p) && Below2(y, f.p)
    ensures Mix(x, y) < 2 * Square(f)
  {
    BelowSquare(x.a.n, y.b.n, f.p);
    BelowSquare(x.b.n, y.a.n, f.p);
  }

  /** The three products behind every product: of the coefficients of u, of the others, and what is mixed. */
  method Products(x: Num2, y: Num2, f: Field) returns (d0: Num, za: Num, zb: Num)
    requires f.Valid() && Loose2(x, 2, f) && Loose2(y, 2, f)
    ensures Double(d0, f) && d0.n == x.b.n * y.b.n && Double(za, f) && za.n == x.a.n * y.a.n
    ensures Double(zb, f) && zb.n == Mix(x, y) && Mul(x.Of(), y.Of()) == Fp2(za.v - d0.v, zb.v)
  {
    hide Single, Double, Mul, Mix;
    var s, t := AddNC(x.a, x.b, f), AddNC(y.a, y.b, f);
    d0 := MulDbl(x.b, y.b, f);
    za := MulDbl(x.a, y.a, f);
    zb := MulDbl(s, t, f);
    CrossTerms(x, y, s, t, zb, d0, za);
    zb := SubDblNC(zb, za, f);
    zb := SubDblNC(zb, d0, f);
  }

  /** Bounds that leave room for two more such numbers, and from which no smaller one borrows. */
  ghost predicate Bounded(z: Num2, f: Field) {
    Dbl2(z, f) && z.b.n < 2 * Square(f) && z.a.n < Quarter(f) + Square(f) && Quarter(f) < z.a.n + Square(f)
  }

  /** Product with a difference that cannot borrow, of operands that are reduced. */
  method MulOpt1(x: Num2, y: Num2, f: Field) returns (z: Num2)
    requires f.Valid() && In2(x, f) && In2(y, f)
    ensures Bounded(z, f) && z.Of() == Mul(x.Of(), y.Of()) && z.b.n == Mix(x, y)
  {
    hide Single, Double, Top, Wide, Mul, Quarter, Mix;
    Room(f);
    var d0, za, zb := Products(x, y, f);
    BelowSquare(x.a.n, y.a.n, f.p);
    BelowSquare(x.b.n, y.b.n, f.p);
    za := SubOpt1(za, d0, f);
    MixBound(x, y, f);
    z := Num2(za, zb);
  }

  lemma LooseSquare(a: nat, b: nat, f: Field)
    requires f.Valid() && a < 2 * f.p && b < 2 * f.p
    ensures a * b < Top(f)
  {
    hide Montgomery.R, Quarter;
    Room(f);
    BelowSquare(a, b, 2 * f.p);
    Regroup(2, f.p, 2 * f.p);
    Regroup(f.p, 2, f.p);
  }

  /** Product with a difference modulo p * 2^256, of operands that may be sums of two reduced ones. */
  method MulOpt2(x: Num2, y: Num2, f: Field) returns (z: Num2)
    requires f.Valid() && Loose2(x, 2, f) && Loose2(y, 2, f)
    ensures FpDbl(z.a, f) && Double(z.b, f) && z.Of() == Mul(x.Of(), y.Of()) && z.b.n == Mix(x, y)
    ensures In2(x, f) && In2(y, f) ==> Dbl2(z, f)
  {
    hide Single, Double, Top, Wide, Mul, Quarter, Square, Mix;
    Room(f);
    var d0, za, zb := Products(x, y, f);
    LooseSquare(x.a.n, y.a.n, f);
    LooseSquare(x.b.n, y.b.n, f);
    za := SubDbl(za, d0, f);
    if In2(x, f) && In2(y, f) {
      MixBound(x, y, f);
    }
    z := Num2(za, zb);
  }

  method Mod2(x: Num2, f: Field) returns (r: Num2)
    requires f.Valid() && Dbl2(x, f)
    ensures In2(r, f) && r.Of() == x.Of()
  {
    hide Single, Double, Top, Montgomery.R, Wide, Quarter, Square, Field.Valid;
    Room(f);
    var a := Mod(x.a, f);
    var b := Mod(x.b, f);
    r := Num2(a, b);
  }

  /** Multiplication with three products, each coefficient reduced once. */
  method Mul2(x: Num2, y: Num2, f: Field) returns (z: Num2)
    requires f.Valid() && In2(x, f) && In2(y, f)
    ensures In2(z, f) && z.Of() == Mul(x.Of(), y.Of())
  {
    hide Single, Double, Top, Wide, Mul, Quarter, Square, Mix;
    Room(f);
    var d2, d1, d0 := Products(x, y, f);
    MixBound(x, y, f);
    var zb := Mod(d0, f);
    LooseSquare(x.a.n, y.a.n, f);
    LooseSquare(x.b.n, y.b.n, f);
    d1 := SubDbl(d1, d2, f);
    var za := Mod(d1, f);
    z := Num2(za, zb);
  }

  lemma TimesXi(x: Fp2, snark: bool)
    ensures Mul(x, Xi(snark)) == if snark then Fp2(9 * x.a - x.b, 9 * x.b + x.a) else Fp2(x.a - x.b, x.a + x.b)
  {
  }

  /** Multiplication by xi with additions only. */
  method MulXi2(x: Num2, f: Field) returns (z: Num2)
    requires f.Valid()
    ensures z.Of() == Mul(x.Of(), Xi(f.snark)) && (In2(x, f) ==> In2(z, f))
  {
    hide Fp, Mul, Xi, Field.Valid;
    TimesXi(x.Of(), f.snark);
    if f.snark {
      var a := AddFp(x.a, x.a, f);
      a := AddFp(a, a, f);
      a := AddFp(a, a, f);
      a := AddFp(a, x.a, f);
      a := SubFp(a, x.b, f);
      var b := AddFp(x.b, x.b, f);
      b := AddFp(b, b, f);
      b := AddFp(b, b, f);
      b := AddFp(b, x.b, f);
      b := AddFp(b, x.a, f);
      return Num2(a, b);
    }
    return Num2(SubFp(x.a, x.b, f), AddFp(x.a, x.b, f));
  }

  method MulXiDbl(x: Num2, f: Field) returns (z: Num2)
    requires Dbl2(x, f)
    ensures Dbl2(z, f) && z.Of() == Mul(x.Of(), Xi(f.snark))
  {
    hide FpDbl, Mul, Xi;
    TimesXi(x.Of(), f.snark);
    if f.snark {
      var a := AddDbl(x.a, x.a, f);
      a := AddDbl(a, a, f);
      a := AddDbl(a, a, f);
      a := AddDbl(a, x.a, f);
      a := SubDbl(a, x.b, f);
      var b := AddDbl(x.b, x.b, f);
      b := AddDbl(b, b, f);
      b := AddDbl(b, b, f);
      b := AddDbl(b, x.b, f);
      b := AddDbl(b, x.a, f);
      return Num2(a, b);
    }
    return Num2(SubDbl(x.a, x.b, f), AddDbl(x.b, x.a, f));
  }

  /** The product of reduced elements, with its difference modulo p * 2^256. */
  method MulDbl2(x: Num2, y: Num2, f: Field) returns (z: Num2)
    requires f.Valid() && In2(x, f) && In2(y, f)
    ensures Dbl2(z, f) && z.Of() == Mul(x.Of(), y.Of())
  {
    hide Single, Double, Top, Montgomery.R, Mul;
    z := MulOpt2(x, y, f);
  }

  function Zero2(f: Field): (r: Num2)
    requires f.Valid()
    ensures In2(r, f) && r.Of() == ZERO
  {
    hide Montgomery.R;
    Reflexive(0, f.p);
    Num2(Num(0, 0), Num(0, 0))
  }

  /** The square of x by two products, the second one of a + p - b and a + b; sums are reduced for SNARKs only. */
  method Square2(x: Num2, f: Field) returns (z: Num2)
    requires f.Valid() && In2(x, f)
    ensures In2(z, f) && z.Of() == Mul(x.Of(), x.Of())
  {
    hide Single, Double, Top, Montgomery.R, Wide, Mul, Quarter, Square;
    Room(f);
    var t, s;
    if f.snark {
      t, s := AddFp(x.b, x.b, f), AddFp(x.a, x.b, f);
    } else {
      t, s := AddNC(x.b, x.b, f), AddNC(x.a, x.b, f);
    }
    LooseSquare(t.n, x.a.n, f);
    var d0 := MulDbl(t, x.a, f);
    t := AddPSub(x.a, x.b, f);
    LooseSquare(t.n, s.n, f);
    var d1 := MulDbl(t, s, f);
    SquareParts(x.Of());
    Regroup(t.v, s.v, 1);
    var zb := Mod(d0, f);
    var za := Mod(d1, f);
    z := Num2(za, zb);
  }

  lemma SquareParts(x: Fp2)
    ensures Mul(x, x) == Fp2((x.a + x.b) * (x.a - x.b), (x.b + x.b) * x.a)
  {
  }

  /** a + p - b, not reduced. */
  function AddPSub(a: Num, b: Num, f: Field): (r: Num)
    requires Fp(a, f) && Fp(b, f)
    ensures Single(r, f) && r.n < 2 * f.p && r.v == a.v - b.v
  {
    hide Montgomery.R, Stands;
    ShiftedStands(a, Montgomery.R(), f, 1, a.n + f.p);
    DifferenceStands(Num(a.n + f.p, a.v), b, Montgomery.R(), f, a.n + f.p - b.n, a.v - b.v);
    Num(a.n + f.p - b.n, a.v - b.v)
  }

  /** The Montgomery product; the operands may be sums of two reduced numbers. */
  method MulFp(x: Num, y: Num, f: Field) returns (z: Num)
    requires f.Valid() && Single(x, f) && Single(y, f) && x.n < 2 * f.p && y.n < 2 * f.p
    ensures Fp(z, f) && z.v == x.v * y.v
  {
    hide Single, Double, Top, Wide, Quarter, Square;
    Room(f);
    LooseSquare(x.n, y.n, f);
    z := Mod(MulDbl(x, y, f), f);
  }

  /** The portable square is right for SNARKs, and otherwise only if both coefficients are equal. */
  method SquareC(x: Num2, f: Field) returns (z: Num2)
    requires f.Valid() && In2(x, f) && Prime(f.p)
    ensures var s := Mul(x.Of(), x.Of());
            In2(Num2(Num(z.a.n, s.a), Num(z.b.n, s.b)), f) <==> f.snark || x.a.n == x.b.n
  {
    hide Single, Prime, Mul, Montgomery.R;
    var t, s;
    if f.snark {
      t, s := AddFp(x.b, x.b, f), AddFp(x.a, x.b, f);
    } else {
      t, s := AddNC(x.b, x.b, f), AddNC(x.a, x.a, f);
    }
    t := MulFp(t, x.a, f);
    s := MulFp(s, SubFp(x.a, x.b, f), f);
    z := Num2(s, t);
    SquareParts(x.Of());
    if !f.snark {
      OnlyOneValue(s, (x.a.v + x.b.v) * (x.a.v - x.b.v), f);
      SquareDiffers(x.a.v, x.b.v, f.p);
      OnlyOneNumber(x.a, x.b, f);
    }
  }

  /** A number stands for the values of one residue class. */
  lemma OnlyOneValue(x: Num, v: int, f: Field)
    requires f.p % 2 == 1 && Single(x, f)
    ensures Single(Num(x.n, v), f) <==> Congruent(x.v, v, f.p)
  {
    hide Congruent, Montgomery.R;
    var r := Montgomery.R();
    if Congruent(x.v, v, f.p) {
      Scaled(x.v, v, r, f.p);
      Transitive(x.n, x.v * r, v * r, f.p);
    }
    if Single(Num(x.n, v), f) {
      var e := Montgomery.InverseOfR(f.p);
      Symmetric(x.n, x.v * r, f.p);
      Transitive(x.v * r, x.n, v * r, f.p);
      CancelFactor(x.v, v, r, e, f.p);
    }
  }

  /** A value modulo p has one reduced number. */
  lemma OnlyOneNumber(x: Num, y: Num, f: Field)
    requires f.p % 2 == 1 && Fp(x, f) && Fp(y, f)
    ensures x.n == y.n <==> Congruent(x.v, y.v, f.p)
  {
    hide Congruent, Montgomery.R;
    var r := Montgomery.R();
    if x.n == y.n {
      OnlyOneValue(x, y.v, f);
    }
    if Congruent(x.v, y.v, f.p) {
      OnlyOneValue(x, y.v, f);
      Symmetric(y.n, y.v * r, f.p);
      Transitive(x.n, y.v * r, y.n, f.p);
      SameResidue(x.n, y.n, f.p);
    }
  }
}
