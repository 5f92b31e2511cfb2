/** Numbers of the field, in Montgomery form: single ones of 256 bits and double ones of 512 bits, whose reduction is
    put off. Each carries, for the proof only, the value it stands for. */
module FieldNumbers {
  import opened Arithmetic
  import FpReduction
  import opened Limbs
  import opened Modular
  import opened Montgomery

  /** The modulus, what its Montgomery reduction needs, and which of the two builds it is for. The modulus of the
      build for SNARKs is below a quarter of 2^256, the other one below a sixth. */
  datatype Field = Field(p: nat, ppMont: nat, snark: bool) {
    ghost predicate Valid() {
      p % 2 == 1 && NegatedInverse(ppMont, p) && 4 * p < R() && (snark || 6 * p < R())
    }
  }

  /** A number, and the value it stands for. */
  datatype Num = Num(n: nat, ghost v: int)

  /** p * 2^256, modulo which double numbers are added. */
  function Top(f: Field): nat {
    f.p * R()
  }

  /** The square of p. */
  function Square(f: Field): nat {
    f.p * f.p
  }

  /** 2^512 */
  function Wide(): nat {
    R() * R()
  }

  /** The table entry p * 2^254. */
  function Quarter(f: Field): nat {
    Top(f) / 4
  }

  ghost predicate Stands(x: Num, scale: nat, f: Field) {
    Congruent(x.n, x.v * scale, f.p)
  }

  /** n is v * 2^256 modulo p. */
  ghost predicate Single(x: Num, f: Field) {
    Stands(x, R(), f)
  }

  /** n is v * 2^512 modulo p. */
  ghost predicate Double(x: Num, f: Field) {
    Stands(x, Wide(), f)
  }

  /** A single number that is reduced. */
  ghost predicate Fp(x: Num, f: Field) {
    x.n < f.p && Single(x, f)
  }

  /** A double number below p * 2^256, as the reduction needs it. */
  ghost predicate FpDbl(x: Num, f: Field) {
    x.n < Top(f) && Double(x, f)
  }

  lemma SumStands(x: Num, y: Num, scale: nat, f: Field, v: int)
    requires Stands(x, scale, f) && Stands(y, scale, f) && v == x.v + y.v
    ensures Stands(Num(x.n + y.n, v), scale, f)
  {
    Sum(x.n, x.v * scale, y.n, y.v * scale, f.p);
    Distribute(x.v, y.v, scale);
  }

  lemma DifferenceStands(x: Num, y: Num, scale: nat, f: Field, n: nat, v: int)
    requires Stands(x, scale, f) && Stands(y, scale, f) && n == x.n - y.n && v == x.v - y.v
    ensures Stands(Num(n, v), scale, f)
  {
    Difference(x.n, x.v * scale, y.n, y.v * scale, f.p);
    Subtract(x.v, y.v, scale);
  }

  /** A multiple of p may be added or taken off. */
  lemma ShiftedStands(x: Num, scale: nat, f: Field, k: int, n: nat)
    requires Stands(x, scale, f) && n == x.n + k * f.p
    ensures Stands(Num(n, x.v), scale, f)
  {
    Witnessed(n, x.n, f.p, k);
    Transitive(n, x.n, x.v * scale, f.p);
  }

  /** p is taken off once if the sum reaches it; what does not fit 256 bits is cut off. */
  function Plus(x: nat, y: nat, p: nat): nat {
    (if x + y >= p then x + y - p else x + y) % R()
  }

  function AddFp(x: Num, y: Num, f: Field): (r: Num)
    requires f.Valid()
    ensures r.v == x.v + y.v && (Fp(x, f) && Fp(y, f) ==> Fp(r, f))
    ensures x.n == y.n < 2 * f.p ==> (r.n < f.p <==> x.n < f.p)
  {
    hide R, Stands, NegatedInverse;
    var r := Num(Plus(x.n, y.n, f.p), x.v + y.v);
    assert (Fp(x, f) && Fp(y, f) ==> Fp(r, f)) && (x.n == y.n < 2 * f.p ==> (r.n < f.p <==> x.n < f.p)) by {
      var n := if x.n + y.n >= f.p then x.n + y.n - f.p else x.n + y.n;
      if n < R() {
        FpReduction.SmallModulo(n, R());
      }
      if Fp(x, f) && Fp(y, f) {
        SumStands(x, y, R(), f, x.v + y.v);
        ShiftedStands(Num(x.n + y.n, x.v + y.v), R(), f, if x.n + y.n >= f.p then -1 else 0, n);
      }
    }
    r
  }

  /** Subtraction: p is added once if there is a borrow. */
  function SubFp(x: Num, y: Num, f: Field): (r: Num)
    requires f.Valid()
    ensures r.v == x.v - y.v && (Fp(x, f) && Fp(y, f) ==> Fp(r, f))
    ensures Single(x, f) && Fp(y, f) ==> Single(r, f) && (r.n < f.p <==> x.n < f.p + y.n)
  {
    hide R, Stands, NegatedInverse;
    var r := Num(FpReduction.Sub(x.n, y.n, f.p), x.v - y.v);
    assert Single(x, f) && Fp(y, f) ==> Single(r, f) && (r.n < f.p <==> x.n < f.p + y.n) by {
      if Single(x, f) && Fp(y, f) {
        var m := if x.n < y.n then x.n + f.p else x.n;
        if x.n < y.n {
          FpReduction.SmallModulo(m - y.n, R());
        }
        ShiftedStands(x, R(), f, if x.n < y.n then 1 else 0, m);
        DifferenceStands(Num(m, x.v), y, R(), f, m - y.n, x.v - y.v);
      }
    }
    r
  }

  /** Addition that does not reduce; 256 bits have to hold the sum. */
  function AddNC(x: Num, y: Num, f: Field): (r: Num)
    requires Single(x, f) && Single(y, f) && x.n + y.n < R()
    ensures Single(r, f) && r.n == x.n + y.n && r.v == x.v + y.v
  {
    hide R, Stands;
    SumStands(x, y, R(), f, x.v + y.v);
    Num(x.n + y.n, x.v + y.v)
  }

  function MulDbl(x: Num, y: Num, f: Field): (r: Num)
    requires Single(x, f) && Single(y, f)
    ensures Double(r, f) && r.n == x.n * y.n && r.v == x.v * y.v
  {
    ProductStands(x, y, f);
    Num(x.n * y.n, x.v * y.v)
  }

  lemma ProductStands(x: Num, y: Num, f: Field)
    requires Single(x, f) && Single(y, f)
    ensures Double(Num(x.n * y.n, x.v * y.v), f)
  {
    hide R;
    var r := R();
    Product(x.n, x.v * r, y.n, y.v * r, f.p);
    Regroup(x.v * r, y.v, r);
    Regroup(x.v, r, y.v);
    Regroup(x.v * y.v, r, r);
  }

  /** Addition modulo p * 2^256. */
  function AddDbl(x: Num, y: Num, f: Field): (r: Num)
    requires FpDbl(x, f) && FpDbl(y, f)
    ensures FpDbl(r, f) && r.v == x.v + y.v
  {
    hide R, Stands;
    Regroup(f.p, R(), 1);
    SumStands(x, y, Wide(), f, x.v + y.v);
    ShiftedStands(Num(x.n + y.n, x.v + y.v), Wide(), f, if x.n + y.n >= Top(f) then 0 - R() else 0,
                  if x.n + y.n >= Top(f) then x.n + y.n - Top(f) else x.n + y.n);
    Num(if x.n + y.n >= Top(f) then x.n + y.n - Top(f) else x.n + y.n, x.v + y.v)
  }

  /** Subtraction modulo p * 2^256. */
  function SubDbl(x: Num, y: Num, f: Field): (r: Num)
    requires FpDbl(x, f) && FpDbl(y, f)
    ensures FpDbl(r, f) && r.v == x.v - y.v
  {
    hide R, Stands;
    Regroup(f.p, R(), 1);
    ShiftedStands(x, Wide(), f, if x.n < y.n then R() else 0, if x.n < y.n then x.n + Top(f) else x.n);
    DifferenceStands(Num(if x.n < y.n then x.n + Top(f) else x.n, x.v), y, Wide(), f,
                     if x.n < y.n then x.n + Top(f) - y.n else x.n - y.n, x.v - y.v);
    Num(if x.n < y.n then x.n + Top(f) - y.n else x.n - y.n, x.v - y.v)
  }

  /** Addition that does not reduce; 512 bits have to hold the sum. */
  function AddDblNC(x: Num, y: Num, f: Field): (r: Num)
    requires Double(x, f) && Double(y, f) && x.n + y.n < Wide()
    ensures Double(r, f) && r.n == x.n + y.n && r.v == x.v + y.v
  {
    hide R, Stands;
    SumStands(x, y, Wide(), f, x.v + y.v);
    Num(x.n + y.n, x.v + y.v)
  }

  /** Subtraction that does not reduce; there must be no borrow. */
  function SubDblNC(x: Num, y: Num, f: Field): (r: Num)
    requires Double(x, f) && Double(y, f) && y.n <= x.n
    ensures Double(r, f) && r.n == x.n - y.n && r.v == x.v - y.v
  {
    hide R, Stands;
    DifferenceStands(x, y, Wide(), f, x.n - y.n, x.v - y.v);
    Num(x.n - y.n, x.v - y.v)
  }

  /** Subtraction with a quarter of p * 2^256 added first, so that there is no borrow. */
  function SubOpt1(x: Num, y: Num, f: Field): (r: Num)
    requires Double(x, f) && Double(y, f) && y.n <= x.n + Quarter(f)
    ensures Double(r, f) && r.n == x.n + Quarter(f) - y.n && r.v == x.v - y.v
  {
    hide R, Stands, Quarter;
    QuarterIs(f);
    Regroup(f.p, R() / 4, 1);
    ShiftedStands(x, Wide(), f, R() / 4, x.n + Quarter(f));
    DifferenceStands(Num(x.n + Quarter(f), x.v), y, Wide(), f, x.n + Quarter(f) - y.n, x.v - y.v);
    Num(x.n + Quarter(f) - y.n, x.v - y.v)
  }

  lemma QuarterIs(f: Field)
    ensures Quarter(f) == f.p * (R() / 4) && 4 * Quarter(f) == Top(f)
  {
    var r := R() / 4;
    assert R() == 4 * r by { assert R() == LIMB * LimbPower(3); }
    hide R;
    Regroup(f.p, 4, r);
    assert Top(f) == 4 * (f.p * r) by { Regroup(4, f.p, r); }
  }

  /** The square of p has room four times below p * 2^256. */
  lemma Room(f: Field)
    requires f.Valid()
    ensures 0 < f.p && Square(f) < Quarter(f) && 4 * Quarter(f) == Top(f) && 4 * Top(f) < Wide()
    ensures f.snark || 6 * Square(f) < Top(f)
  {
    hide R, NegatedInverse, Quarter;
    QuarterIs(f);
    LessTimes(4 * f.p, R(), f.p);
    LessTimes(4 * f.p, R(), R());
    Regroup(4, f.p, f.p);
    Regroup(4, f.p, R());
    if !f.snark {
      LessTimes(6 * f.p, R(), f.p);
      Regroup(6, f.p, f.p);
    }
    Regroup(f.p, R(), 1);
  }

  /** What the reduction leaves of a double number: p is taken off once if it is reached. */
  ghost function Lowered(x: nat, f: Field): nat
    requires f.p % 2 == 1
  {
    var l := Lifted(x, f.p);
    if l >= f.p then l - f.p else l
  }

  /** The reduction keeps the value of every double number; those below p * 2^256 are reduced by it. */
  method Mod(x: Num, f: Field) returns (r: Num)
    requires f.Valid() && Double(x, f) && x.n < Wide()
    ensures Single(r, f) && r.v == x.v && r.n == Lowered(x.n, f) && r.n < R()
    ensures x.n < Top(f) ==> Fp(r, f)
  {
    hide R, NegatedInverse, Congruent, Cleared, Lifted;
    var c, l, k := Montgomery.Mod(x.n, f.p, f.ppMont);
    LiftedIs(l, k, x.n, f);
    ScaleDown(c, x, f);
    r := Num(c, x.v);
  }

  lemma LiftedIs(l: nat, k: nat, x: nat, f: Field)
    requires f.p % 2 == 1 && Cleared(l, k, x, f.p)
    ensures Lifted(x, f.p) == l
  {
    hide Cleared, Lifted;
    var m :| Cleared(Lifted(x, f.p), m, x, f.p);
    ClearedOnce(l, k, Lifted(x, f.p), m, x, f.p);
  }

  /** The double number is reduced by the reduction. */
  ghost predicate Reduces(x: nat, f: Field)
    requires f.p % 2 == 1
  {
    Lifted(x, f.p) < 2 * f.p
  }

  lemma ScaleDown(c: nat, x: Num, f: Field)
    requires f.p % 2 == 1 && Congruent(c * R(), x.n, f.p) && Double(x, f)
    ensures Single(Num(c, x.v), f)
  {
    hide Congruent, R;
    var e := InverseOfR(f.p);
    Regroup(x.v, R(), R());
    Transitive(c * R(), x.n, x.v * R() * R(), f.p);
    CancelFactor(c, x.v * R(), R(), e, f.p);
  }

  /** Every number below p stands for some value. */
  lemma Given(n: nat, f: Field) returns (x: Num)
    requires f.Valid() && n < f.p
    ensures Fp(x, f) && x.n == n
  {
    hide Congruent, R;
    var r := R();
    var e := InverseOfR(f.p);
    x := Num(n, n * e);
    Scaled(r * e, 1, n, f.p);
    Regroup(n, e, r);
    Regroup(r, e, 1);
    Symmetric(n * (r * e), n * 1, f.p);
  }
}
