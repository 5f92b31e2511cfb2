/** The almost-inverse loop of Fp::inv and the table that completes it. */
module FpInverse {
  import opened Arithmetic
  import opened Limbs
  import opened Modular
  import opened Montgomery
  import opened Powers
  import opened Quantize

  const TABLE: nat := 512

  /** Field elements are stored in 256 bits; sums that would not fit are never formed. */
  function AddNC(x: nat, y: nat): nat
    requires x + y < R()
  {
    x + y
  }

  function SubNC(x: nat, y: nat): nat
    requires y <= x
  {
    x - y
  }

  /** Addition modulo p. */
  function Add(x: nat, y: nat, p: nat): nat
    requires x < p && y < p
  {
    if x + y >= p then x + y - p else x + y
  }

  /** An odd modulus that leaves one bit of the 256 free. */
  ghost predicate IsModulus(p: nat) {
    3 <= p && p % 2 == 1 && 2 * p <= R()
  }

  /** p = u * s + v * r, and r * x and s * x are congruent to -u and v, both times 2^k. The integers a, b witness the
      congruences, and c, d that u and v are coprime. */
  ghost predicate Halving(p: nat, x: nat, u: nat, v: nat, r: nat, s: nat, k: nat, a: int, b: int, c: int, d: int) {
    1 <= u && 1 <= s && p == u * s + v * r && r * x + u * Pow2(k) == a * p && s * x - v * Pow2(k) == b * p &&
    c * u + d * v == 1
  }

  lemma HalveU(p: nat, x: nat, u: nat, v: nat, r: nat, s: nat, k: nat, a: int, b: int, c: int, d: int)
    requires Halving(p, x, u, v, r, s, k, a, b, c, d) && u % 2 == 0
    ensures Halving(p, x, u / 2, v, r, 2 * s, k + 1, a, 2 * b, 2 * c, d)
  {
    var h, e := u / 2, Pow2(k);
    Regroup(2, h, s);
    Regroup(h, 2, s);
    Regroup(2, h, e);
    Regroup(h, 2, e);
    Regroup(2, s, x);
    Regroup(2, v, e);
    Regroup(v, 2, e);
    Regroup(2, b, p);
    Regroup(c, 2, h);
    Regroup(2, c, 1);
  }

  lemma HalveV(p: nat, x: nat, u: nat, v: nat, r: nat, s: nat, k: nat, a: int, b: int, c: int, d: int)
    requires Halving(p, x, u, v, r, s, k, a, b, c, d) && v % 2 == 0
    ensures Halving(p, x, u, v / 2, 2 * r, s, k + 1, 2 * a, b, c, 2 * d)
  {
    var h, e := v / 2, Pow2(k);
    Regroup(2, h, r);
    Regroup(h, 2, r);
    Regroup(2, h, e);
    Regroup(h, 2, e);
    Regroup(2, r, x);
    Regroup(2, u, e);
    Regroup(u, 2, e);
    Regroup(2, a, p);
    Regroup(d, 2, h);
    Regroup(2, d, 1);
  }

  lemma TakeUFromV(p: nat, x: nat, u: nat, v: nat, r: nat, s: nat, k: nat, a: int, b: int, c: int, d: int)
    requires Halving(p, x, u, v, r, s, k, a, b, c, d) && v >= u
    ensures Halving(p, x, u, v - u, r, s + r, k, a, a + b, c + d, d)
  {
    var e := Pow2(k);
    Distribute(s, r, u);
    Subtract(v, u, r);
    Distribute(s, r, x);
    Subtract(v, u, e);
    Distribute(a, b, p);
    Distribute(c, d, u);
    Subtract(v, u, d);
    Regroup(u, r, 1);
  }

  lemma TakeVFromU(p: nat, x: nat, u: nat, v: nat, r: nat, s: nat, k: nat, a: int, b: int, c: int, d: int)
    requires Halving(p, x, u, v, r, s, k, a, b, c, d) && u > v
    ensures Halving(p, x, u - v, v, r + s, s, k, a + b, b, c, c + d)
  {
    var e := Pow2(k);
    Distribute(r, s, v);
    Subtract(u, v, s);
    Distribute(r, s, x);
    Subtract(u, v, e);
    Distribute(a, b, p);
    Distribute(c, d, v);
    Subtract(u, v, c);
    Regroup(v, s, 1);
  }

  /** Neither coefficient exceeds p while both numbers are positive, and r at most doubles once more. */
  lemma Small(p: nat, x: nat, u: nat, v: nat, r: nat, s: nat, k: nat, a: int, b: int, c: int, d: int)
    requires Halving(p, x, u, v, r, s, k, a, b, c, d) && 0 < p
    ensures s <= p && (0 < v ==> r < p)
  {
    LeTimes(1, u, s);
    if 0 < v {
      LeTimes(1, v, r);
    }
  }

  /** How often the numbers have been halved: their sum at most k times, their product at least k times. */
  ghost predicate Counted(p: nat, x: nat, u: nat, v: nat, k: nat) {
    p + x <= (u + v) * Pow2(k) &&
    (if v == 0 then 1 <= k && Pow2(k - 1) <= p * x else u * v * Pow2(k) <= p * x)
  }

  lemma CountStep(p: nat, x: nat, u: nat, v: nat, k: nat, i: nat, j: nat)
    requires Counted(p, x, u, v, k) && 1 <= u && 1 <= v && 1 <= i
    requires u + v <= 2 * (i + j) && 2 * (i * j) <= u * v
    ensures Counted(p, x, i, j, k + 1)
  {
    var e := Pow2(k);
    LeTimes(u + v, 2 * (i + j), e);
    Regroup(2, i + j, e);
    Regroup(i + j, 2, e);
    LeTimes(2 * (i * j), u * v, e);
    Regroup(2, i * j, e);
    Regroup(i * j, 2, e);
    if j == 0 {
      LeTimes(1, u, v);
      LeTimes(1, u * v, e);
    }
  }

  lemma NotNegative(a: nat, b: nat)
    ensures 0 <= a * b
  {
  }

  /** Halving u, or halving the difference of two odd numbers, counts as one round. */
  lemma CountHalf(p: nat, x: nat, u: nat, v: nat, k: nat)
    requires Counted(p, x, u, v, k) && 1 <= u && 1 <= v
    ensures u % 2 == 0 ==> Counted(p, x, u / 2, v, k + 1)
    ensures v % 2 == 0 ==> Counted(p, x, u, v / 2, k + 1)
  {
    hide Counted;
    if u % 2 == 0 {
      HalvedProduct(u, v);
      CountStep(p, x, u, v, k, u / 2, v);
    }
    if v % 2 == 0 {
      HalvedProduct(v, u);
      CountStep(p, x, u, v, k, u, v / 2);
    }
  }

  lemma CountTake(p: nat, x: nat, u: nat, v: nat, k: nat)
    requires Counted(p, x, u, v, k) && u % 2 == 1 && v % 2 == 1
    ensures v >= u ==> Counted(p, x, u, (v - u) / 2, k + 1)
    ensures u > v ==> Counted(p, x, (u - v) / 2, v, k + 1)
  {
    hide Counted;
    if v >= u {
      DifferenceProduct(u, v);
      HalvedProduct(v - u, u);
      CountStep(p, x, u, v, k, u, (v - u) / 2);
    } else {
      DifferenceProduct(v, u);
      HalvedProduct(u - v, v);
      CountStep(p, x, u, v, k, (u - v) / 2, v);
    }
  }

  lemma HalvedProduct(u: nat, v: nat)
    requires u % 2 == 0
    ensures 2 * (u / 2 * v) == u * v && 2 * (v * (u / 2)) == v * u
  {
    Regroup(2, u / 2, v);
    Regroup(u / 2, v, 1);
    Regroup(u, v, 1);
  }

  lemma DifferenceProduct(u: nat, v: nat)
    requires v >= u
    ensures u * (v - u) <= u * v && (v - u) * u <= v * u
  {
    LeTimes(v - u, v, u);
  }

  /** The number of bits of p. */
  ghost predicate Bits(p: nat, n: nat) {
    1 <= n && Pow2(n - 1) <= p < Pow2(n)
  }

  lemma LoopCount(p: nat, x: nat, k: nat, n: nat)
    requires 0 < x < p && Counted(p, x, 1, 0, k) && Bits(p, n)
    ensures n <= k <= 2 * n
  {
    if k < n {
      Pow2Monotone(k, n - 1);
    }
    LeTimes(x, p, p);
    LeTimes(p, Pow2(n), p);
    LeTimes(p, Pow2(n), Pow2(n));
    Pow2Sum(n, n);
    if k > 2 * n {
      Pow2Monotone(2 * n, k - 1);
      SmallerProduct(p, p, Pow2(n));
    }
  }

  lemma FewBits(p: nat, n: nat)
    requires IsModulus(p) && Bits(p, n)
    ensures n <= 255
  {
    hide Pow2;
    if n >= 256 {
      Pow2Monotone(255, n - 1);
      HalfOfR();
    }
  }

  lemma HalfOfR()
    ensures Pow2(256) == 2 * Pow2(255) == R()
  {
    LimbPowerIsPow2(4);
  }

  lemma BitsOf(p: nat) returns (n: nat)
    requires 1 <= p
    ensures Bits(p, n)
  {
    if Pow2(Level(p)) == p {
      n := Level(p) + 1;
    } else {
      n := Level(p);
    }
  }

  /** p is odd, so a power of two is no multiple of it. */
  lemma PowerIsNoMultiple(p: nat, k: nat, m: int)
    requires 3 <= p && p % 2 == 1
    ensures Pow2(k) != m * p
  {
    if m >= 0 {
      OddDividesNoPower(p, k, m);
    } else {
      LeTimes(0, -m, p);
      Subtract(0, m, p);
    }
  }

  lemma Finish(p: nat, x: nat, r: nat, s: nat, k: nat, a: int, b: int, c: int, d: int)
    requires 3 <= p && p % 2 == 1 && Halving(p, x, 1, 0, r, s, k, a, b, c, d)
    ensures r != 0 && r != p && r != 2 * p
    ensures r < p ==> Congruent((p - r) * x, Pow2(k), p)
    ensures p <= r < 2 * p ==> Congruent((2 * p - r) * x, Pow2(k), p)
  {
    hide Pow2;
    var e := Pow2(k);
    PowerIsNoMultiple(p, k, a);
    Subtract(a, x, p);
    Regroup(p, x, 1);
    PowerIsNoMultiple(p, k, a - x);
    Subtract(a, 2 * x, p);
    Regroup(2, p, x);
    Regroup(2, x, p);
    PowerIsNoMultiple(p, k, a - 2 * x);
    if r < p {
      Subtract(p, r, x);
      Subtract(x, a, p);
      Witnessed((p - r) * x, e, p, x - a);
    }
    if p <= r < 2 * p {
      Subtract(2 * p, r, x);
      Subtract(2 * x, a, p);
      Witnessed((2 * p - r) * x, e, p, 2 * x - a);
    }
  }

  /** 2^(512 - j) in Montgomery form. */
  ghost predicate Entry(t: nat, j: nat, p: nat)
    requires j < TABLE
  {
    t < p && Congruent(t, Pow2(TABLE - j) * R(), p)
  }

  ghost predicate InvTable(tbl: seq<nat>, p: nat) {
    |tbl| == TABLE && forall j :: 0 <= j < TABLE ==> Entry(tbl[j], j, p)
  }

  lemma AddIs(x: nat, y: nat, p: nat)
    requires x < p && y < p
    ensures Add(x, y, p) < p && Congruent(Add(x, y, p), x + y, p)
  {
    Witnessed(Add(x, y, p), x + y, p, if x + y >= p then -1 else 0);
  }

  lemma DoubledEntry(t: nat, p: nat, i: nat)
    requires t < p && Congruent(t, Pow2(i) * R(), p)
    ensures Add(t, t, p) < p && Congruent(Add(t, t, p), Pow2(i + 1) * R(), p)
  {
    hide R;
    AddIs(t, t, p);
    Sum(t, Pow2(i) * R(), t, Pow2(i) * R(), p);
    Regroup(2, Pow2(i), R());
    Transitive(Add(t, t, p), t + t, Pow2(i + 1) * R(), p);
  }

  lemma TwoInMontgomeryForm(p: nat, r: nat, r2: nat, t: nat)
    requires p % 2 == 1 && Congruent(R(), r, p) && Congruent(r * r, r2, p) && Congruent(t * R(), 2 * r2, p)
    ensures Congruent(t, Pow2(1) * R(), p)
  {
    hide LimbPower, R;
    Product(R(), r, R(), r, p);
    Transitive(R() * R(), r * r, r2, p);
    Scaled(R() * R(), r2, 2, p);
    Symmetric(2 * (R() * R()), 2 * r2, p);
    Transitive(t * R(), 2 * r2, 2 * (R() * R()), p);
    Regroup(2, R(), R());
    CancelR(t, 2 * R(), p);
  }

  lemma CancelR(a: int, b: int, p: nat)
    requires p % 2 == 1 && Congruent(a * R(), b * R(), p)
    ensures Congruent(a, b, p)
  {
    hide Congruent, Coprime, LimbPower, R;
    HalfOfR();
    OddCoprime(p, 256);
    var c, d := Bezout(p, R());
    InverseFrom(c, p, d, R());
    CancelFactor(a, b, R(), d, p);
  }

  /** The field element 2, in Montgomery form. */
  method Two(p: nat, ppMont: nat) returns (t: nat)
    requires IsModulus(p) && NegatedInverse(ppMont, p)
    ensures t < p && Congruent(t, Pow2(1) * R(), p)
  {
    hide Congruent, NegatedInverse, R, Pow2;
    var montgomeryR: nat := R() % p;
    NotNegative(montgomeryR, montgomeryR);
    Remainder(R(), p);
    var square: nat := montgomeryR * montgomeryR;
    Remainder(square, p);
    t := Montgomery.Mul(2, square % p, p, ppMont);
    TwoInMontgomeryForm(p, montgomeryR, square % p, t);
  }

  /** Fills invTbl_ from its end, doubling each time. */
  method SetUpTable(p: nat, ppMont: nat) returns (tbl: array<nat>)
    requires IsModulus(p) && NegatedInverse(ppMont, p)
    ensures InvTable(tbl[..], p) && fresh(tbl)
  {
    hide NegatedInverse, Pow2, Add, R, Congruent;
    tbl := new nat[TABLE];
    var t: nat := Two(p, ppMont);
    for i := 0 to TABLE
      invariant t < p && Congruent(t, Pow2(i + 1) * R(), p)
      invariant forall j :: TABLE - i <= j < TABLE ==> Entry(tbl[j], j, p)
    {
      tbl[TABLE - 1 - i] := t;
      DoubledEntry(t, p, i + 1);
      t := Add(t, t, p);
    }
  }

  lemma Completed(p: nat, x: nat, r: nat, k: nat, entry: nat, out: nat)
    requires p % 2 == 1 && k <= TABLE
    requires Congruent(r * x, Pow2(k), p) && Congruent(entry, Pow2(TABLE - k) * R(), p)
    requires Congruent(out * R(), r * entry, p)
    ensures Congruent(x * out, R() * R(), p)
  {
    hide LimbPower, Pow2, R;
    var e, f := Pow2(k), Pow2(TABLE - k);
    Scaled(out * R(), r * entry, x, p);
    Regroup(x, out, R());
    Regroup(r, x, entry);
    Regroup(r, entry, x);
    Product(r * x, e, entry, f * R(), p);
    Regroup(e, f, R());
    Pow2Sum(k, TABLE - k);
    Pow2Sum(256, 256);
    HalfOfR();
    Transitive(x * out * R(), r * x * entry, R() * R() * R(), p);
    CancelR(x * out, R() * R(), p);
  }

  ghost predicate RoundsOk(p: nat, k: nat) {
    k < TABLE && forall n: nat :: Bits(p, n) ==> n <= k <= 2 * n < TABLE
  }

  lemma RoundsBounded(p: nat, x: nat, k: nat)
    requires IsModulus(p) && 0 < x < p && Counted(p, x, 1, 0, k)
    ensures RoundsOk(p, k) && k < TABLE
  {
    hide Counted, Bits, IsModulus;
    ModulusIs(p);
    forall n: nat | Bits(p, n)
      ensures n <= k <= 2 * n < TABLE
    {
      LoopCount(p, x, k, n);
      FewBits(p, n);
    }
    var n := BitsOf(p);
  }

  lemma ModulusIs(p: nat)
    requires IsModulus(p)
    ensures 3 <= p && p % 2 == 1 && 2 * p <= R()
  {
  }

  lemma TableEntry(tbl: seq<nat>, p: nat, k: nat)
    requires InvTable(tbl, p) && k < TABLE
    ensures |tbl| == TABLE && tbl[k] < p && Congruent(tbl[k], Pow2(TABLE - k) * R(), p)
  {
  }

  /** What the loop keeps. */
  ghost predicate Going(p: nat, x: nat, u: nat, v: nat, r: nat, s: nat, k: nat) {
    r < 2 * p && Counted(p, x, u, v, k) && exists a, b, c, d :: Halving(p, x, u, v, r, s, k, a, b, c, d)
  }

  lemma Goes(p: nat, x: nat, u: nat, v: nat, r: nat, s: nat, k: nat, a: int, b: int, c: int, d: int)
    requires r < 2 * p && Counted(p, x, u, v, k) && Halving(p, x, u, v, r, s, k, a, b, c, d)
    ensures Going(p, x, u, v, r, s, k)
  {
  }

  lemma Start(p: nat, x: nat)
    requires 0 < x < p && Coprime(p, x)
    ensures Going(p, x, p, x, 0, 1, 0)
  {
    var c, d := Bezout(p, x);
    assert Halving(p, x, p, x, 0, 1, 0, 1, 0, c, d);
  }

  lemma RoundU(p: nat, x: nat, u: nat, v: nat, r: nat, s: nat, k: nat)
    requires Going(p, x, u, v, r, s, k) && 0 < v && u % 2 == 0
    ensures 2 * s <= p && Going(p, x, u / 2, v, r, 2 * s, k + 1)
  {
    hide Halving, Counted;
    var a, b, c, d :| Halving(p, x, u, v, r, s, k, a, b, c, d);
    AtLeastOne(p, x, u, v, r, s, k, a, b, c, d);
    HalveU(p, x, u, v, r, s, k, a, b, c, d);
    Small(p, x, u / 2, v, r, 2 * s, k + 1, a, 2 * b, 2 * c, d);
    CountHalf(p, x, u, v, k);
    Goes(p, x, u / 2, v, r, 2 * s, k + 1, a, 2 * b, 2 * c, d);
  }

  lemma RoundV(p: nat, x: nat, u: nat, v: nat, r: nat, s: nat, k: nat)
    requires Going(p, x, u, v, r, s, k) && 0 < v && v % 2 == 0
    ensures r < p && Going(p, x, u, v / 2, 2 * r, s, k + 1)
  {
    hide Halving, Counted;
    var a, b, c, d :| Halving(p, x, u, v, r, s, k, a, b, c, d);
    AtLeastOne(p, x, u, v, r, s, k, a, b, c, d);
    Small(p, x, u, v, r, s, k, a, b, c, d);
    HalveV(p, x, u, v, r, s, k, a, b, c, d);
    CountHalf(p, x, u, v, k);
    Goes(p, x, u, v / 2, 2 * r, s, k + 1, 2 * a, b, c, 2 * d);
  }

  lemma TakeUAndHalve(p: nat, x: nat, u: nat, v: nat, r: nat, s: nat, k: nat, a: int, b: int, c: int, d: int, w: nat)
    requires Halving(p, x, u, v, r, s, k, a, b, c, d) && v == u + w && w % 2 == 0 && 0 < p
    ensures s + r <= p && Halving(p, x, u, w / 2, 2 * r, s + r, k + 1, 2 * a, a + b, c + d, 2 * d)
  {
    hide Halving;
    TakeUFromV(p, x, u, v, r, s, k, a, b, c, d);
    Small(p, x, u, w, r, s + r, k, a, a + b, c + d, d);
    HalveV(p, x, u, w, r, s + r, k, a, a + b, c + d, d);
  }

  lemma TakeVAndHalve(p: nat, x: nat, u: nat, v: nat, r: nat, s: nat, k: nat, a: int, b: int, c: int, d: int, w: nat)
    requires Halving(p, x, u, v, r, s, k, a, b, c, d) && u == v + w && 0 < w && w % 2 == 0 && 0 < v && 0 < p
    ensures r + s < p && 2 * s <= p && Halving(p, x, w / 2, v, r + s, 2 * s, k + 1, a + b, 2 * b, 2 * c, c + d)
  {
    hide Halving;
    TakeVFromU(p, x, u, v, r, s, k, a, b, c, d);
    Small(p, x, w, v, r + s, s, k, a + b, b, c, c + d);
    HalveU(p, x, w, v, r + s, s, k, a + b, b, c, c + d);
    Small(p, x, w / 2, v, r + s, 2 * s, k + 1, a + b, 2 * b, 2 * c, c + d);
  }

  lemma RoundTakeU(p: nat, x: nat, u: nat, v: nat, r: nat, s: nat, k: nat)
    requires Going(p, x, u, v, r, s, k) && 0 < v && u % 2 == 1 && v % 2 == 1 && v >= u
    ensures r < p && s + r <= p && Going(p, x, u, (v - u) / 2, 2 * r, s + r, k + 1)
  {
    hide Halving, Counted;
    var a, b, c, d :| Halving(p, x, u, v, r, s, k, a, b, c, d);
    AtLeastOne(p, x, u, v, r, s, k, a, b, c, d);
    Small(p, x, u, v, r, s, k, a, b, c, d);
    TakeUAndHalve(p, x, u, v, r, s, k, a, b, c, d, v - u);
    CountTake(p, x, u, v, k);
    Goes(p, x, u, (v - u) / 2, 2 * r, s + r, k + 1, 2 * a, a + b, c + d, 2 * d);
  }

  lemma RoundTakeV(p: nat, x: nat, u: nat, v: nat, r: nat, s: nat, k: nat)
    requires Going(p, x, u, v, r, s, k) && 0 < v && u % 2 == 1 && v % 2 == 1 && v < u
    ensures r + s < p && 2 * s <= p && Going(p, x, (u - v) / 2, v, r + s, 2 * s, k + 1)
  {
    hide Halving, Counted;
    var a, b, c, d :| Halving(p, x, u, v, r, s, k, a, b, c, d);
    AtLeastOne(p, x, u, v, r, s, k, a, b, c, d);
    TakeVAndHalve(p, x, u, v, r, s, k, a, b, c, d, u - v);
    CountTake(p, x, u, v, k);
    Goes(p, x, (u - v) / 2, v, r + s, 2 * s, k + 1, a + b, 2 * b, 2 * c, c + d);
  }

  lemma AtLeastOne(p: nat, x: nat, u: nat, v: nat, r: nat, s: nat, k: nat, a: int, b: int, c: int, d: int)
    requires Halving(p, x, u, v, r, s, k, a, b, c, d)
    ensures 1 <= u && 1 <= s && 1 <= p
  {
    LeTimes(1, u, s);
    LeTimes(0, v, r);
  }

  lemma GoingPositive(p: nat, x: nat, u: nat, v: nat, r: nat, s: nat, k: nat)
    requires Going(p, x, u, v, r, s, k)
    ensures 1 <= u
  {
  }

  /** At the end u is 1, and r is the negated inverse of x times 2^k. */
  lemma Ended(p: nat, x: nat, u: nat, r: nat, s: nat, k: nat)
    requires 3 <= p && p % 2 == 1 && Going(p, x, u, 0, r, s, k)
    ensures r != 0 && r != p && r < 2 * p && Counted(p, x, 1, 0, k)
    ensures r < p ==> Congruent((p - r) * x, Pow2(k), p)
    ensures p <= r ==> Congruent((2 * p - r) * x, Pow2(k), p)
  {
    hide Halving, Counted, Congruent, Pow2;
    var a, b, c, d :| Halving(p, x, u, 0, r, s, k, a, b, c, d);
    LastU(p, x, u, r, s, k, a, b, c, d);
    Finish(p, x, r, s, k, a, b, c, d);
  }

  lemma LastU(p: nat, x: nat, u: nat, r: nat, s: nat, k: nat, a: int, b: int, c: int, d: int)
    requires Halving(p, x, u, 0, r, s, k, a, b, c, d)
    ensures u == 1
  {
    if c <= 0 {
      LeTimes(0, -c, u);
      Subtract(0, c, u);
    } else if u >= 2 {
      LeTimes(1, c, u);
    }
  }

  /** The inverse in Montgomery form: for x = a * R this is R / a modulo p. The number of rounds k lies between the
      length of p and twice that, so it is an index into the table. */
  method Inv(x: nat, p: nat, ppMont: nat, invTbl: array<nat>) returns (out: nat, ghost rounds: nat)
    requires IsModulus(p) && NegatedInverse(ppMont, p) && InvTable(invTbl[..], p)
    requires 0 < x < p && Coprime(p, x)
    ensures out < p && Congruent(x * out, R() * R(), p)
    ensures RoundsOk(p, rounds)
  {
    hide Congruent, NegatedInverse, Going, Counted, Coprime, R, Pow2, InvTable, RoundsOk, IsModulus;
    ModulusIs(p);
    var u: nat, v: nat, r: nat, s: nat, k: nat := p, x, 0, 1, 0;
    Start(p, x);
    while v != 0
      invariant Going(p, x, u, v, r, s, k)
      decreases u + v
    {
      GoingPositive(p, x, u, v, r, s, k);
      if u % 2 == 0 {
        RoundU(p, x, u, v, r, s, k);
        u := u / 2;
        s := AddNC(s, s);
      } else if v % 2 == 0 {
        RoundV(p, x, u, v, r, s, k);
        v := v / 2;
        r := AddNC(r, r);
      } else if v >= u {
        RoundTakeU(p, x, u, v, r, s, k);
        v := SubNC(v, u);
        s := AddNC(s, r);
        v := v / 2;
        r := AddNC(r, r);
      } else {
        RoundTakeV(p, x, u, v, r, s, k);
        u := SubNC(u, v);
        r := AddNC(r, s);
        u := u / 2;
        s := AddNC(s, s);
      }
      k := k + 1;
    }
    Ended(p, x, u, r, s, k);
    if r >= p {
      r := SubNC(r, p);
    }
    r := SubNC(p, r);
    rounds := k;
    RoundsBounded(p, x, k);
    TableEntry(invTbl[..], p, k);
    out := Montgomery.Mul(r, invTbl[k], p, ppMont);
    Completed(p, x, r, k, invTbl[k], out);
  }
}
