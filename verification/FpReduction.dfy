/** Shortcuts in the field: reduction by the topmost bits, and halves and quarters from tables. */
module FpReduction {
  import opened Arithmetic
  import opened Limbs
  import opened Montgomery
  import opened Powers

  /** The weight of the topmost limb of four. */
  function TopLimb(): (r: nat)
    ensures 1 <= r
  {
    LimbPower(3)
  }

  /** What a limb is divided by when it is shifted right by 61. */
  function Shift61(): (r: nat)
    ensures 1 <= r
  {
    Pow2(61)
  }

  /** 2^253 */
  function Eighth(): (e: nat)
    ensures 1 <= e
  {
    LeTimes(1, TopLimb(), Shift61());
    TopLimb() * Shift61()
  }

  lemma EighthIs()
    ensures R() == 8 * Eighth()
  {
    hide LimbPower, Pow2;
    LimbIsPow2();
    Pow2Sum(3, 61);
    assert Pow2(3) == 8 by { SmallPowers(); }
    LimbPowerSum(1, 3);
    assert LimbPower(1) == LIMB by { SmallPowers(); }
    Regroup(8, Pow2(61), LimbPower(3));
    Regroup(LimbPower(3), Pow2(61), 1);
  }

  lemma SmallPowers()
    ensures Pow2(3) == 8 && Pow2(2) == 4 && LimbPower(1) == LIMB
  {
    assert LimbPower(0) == 1;
  }

  function DownBy(z: nat, a: nat, b: nat): nat
    requires 0 < a && 0 < b
  {
    z / a / b
  }

  /** The topmost three of 256 bits, from the topmost limb. */
  function TopBits(z: nat): nat {
    DownBy(z, TopLimb(), Shift61())
  }

  lemma TopBitsAre(z: nat)
    ensures TopBits(z) == z / Eighth()
  {
    hide TopLimb, Shift61;
    DivDiv(z, TopLimb(), Shift61());
  }

  /** The table of multiples of p; what does not fit 256 bits is cut off. */
  function DirectP(p: nat, i: nat): nat {
    p * i % R()
  }

  /** Subtraction modulo p: p is added when there is a borrow. */
  function Sub(x: nat, y: nat, p: nat): nat {
    if x >= y then x - y else (x - y + p) % R()
  }

  function FastModp(z: nat, p: nat): nat {
    Sub(z, DirectP(p, TopBits(z)), p)
  }

  /** A modulus just above 2^253. */
  predicate Fits(p: nat) {
    Eighth() <= p && 6 * p < 7 * Eighth()
  }

  /** The topmost bits give the quotient, or one more. */
  lemma NearQuotient(z: nat, p: nat, e: nat)
    requires 0 < e <= p && 6 * p < 7 * e && z <= 6 * p
    ensures z / p <= z / e <= z / p + 1 && z / p <= 6 && z / e <= 6
  {
    var t, q := z / e, z / p;
    DivMod(z, e);
    DivMod(z, p);
    QuotientAtMost(z, p, 6);
    QuotientAtMost(z, e, 6);
    if t < q {
      LeTimes(t + 1, q, e);
      LeTimes(e, p, q);
      Distribute(t, 1, e);
    }
    if q + 2 <= t {
      LeTimes(q + 2, t, e);
      Distribute(q, 2, e);
      assert q * e + 2 * e <= z < q * p + p;
      SixCases(q, p, e, z);
    }
  }

  lemma SixCases(q: nat, p: nat, e: nat, z: nat)
    requires q <= 6 && 0 < e <= p && 6 * p < 7 * e && z <= 6 * p
    ensures !(q * e + 2 * e <= z < q * p + p)
  {
    if q == 0 {
    } else if q == 1 {
    } else if q == 2 {
    } else if q == 3 {
    } else if q == 4 {
    } else if q == 5 {
    } else {
      assert q == 6;
    }
  }

  lemma ReducesOne(z: nat, p: nat)
    requires Fits(p) && z <= 6 * p
    ensures FastModp(z, p) == z % p
  {
    hide R, Eighth, TopBits;
    EighthIs();
    TopBitsAre(z);
    NearQuotient(z, p, Eighth());
    var t, q := TopBits(z), z / p;
    DivMod(z, p);
    LeTimes(t, 6, p);
    Regroup(p, t, 1);
    Distribute(q, 1, p);
    SmallModulo(p * t, R());
    if t == q + 1 {
      SmallModulo(z % p, R());
    }
  }

  lemma SmallModulo(x: nat, m: nat)
    requires x < m
    ensures x % m == x
  {
  }

  /** The shortcut reduces every number of 256 bits up to 6p exactly for moduli just above 2^253, and for no others. */
  lemma FastModpReduces(p: nat)
    requires 0 < p < R()
    ensures (forall z: nat :: z <= 6 * p && z < R() ==> FastModp(z, p) == z % p) <==> Fits(p)
  {
    if Fits(p) {
      hide FastModp, R, Eighth;
      forall z: nat | z <= 6 * p && z < R()
        ensures FastModp(z, p) == z % p
      {
        ReducesOne(z, p);
      }
    } else {
      var z := Missed(p);
    }
  }

  /** A number that the shortcut reduces wrongly. */
  lemma Missed(p: nat) returns (z: nat)
    requires 0 < p < R() && !Fits(p)
    ensures z <= 6 * p && z < R() && FastModp(z, p) != z % p
  {
    hide R, Eighth, FastModp;
    EighthIs();
    NotWhole(p);
    var e := Eighth();
    QuotientRemainder(p, p, 1, 0);
    if p <= 2 * e {
      z := MissedBelow(p);
    } else if p == 4 * e {
      z := p;
      Shortcut(z, p, 4, 2);
      TooRound(p, e);
    } else if p == 6 * e {
      z := p;
      Shortcut(z, p, 6, 4);
      TooRound(p, e);
    } else {
      z := p - 1;
      LastBelow(1, p);
      if p <= 5 * e {
        MissedFar(p);
      } else {
        MissedFarthest(p);
      }
    }
  }

  lemma MissedBelow(p: nat) returns (z: nat)
    requires 0 < p <= 2 * Eighth() && !Fits(p)
    ensures z <= 6 * p && z < R() && FastModp(z, p) != z % p
  {
    hide R, Eighth, FastModp, Outcome;
    EighthIs();
    NotWhole(p);
    var e := Eighth();
    if p < e {
      z := p;
      Shortcut(z, p, 0, 0);
      TooSmall(p, e);
      QuotientRemainder(p, p, 1, 0);
    } else if 6 * p < 8 * e {
      z := 6 * p - 1;
      Shortcut(z, p, 7, 1);
      TooLarge(p, e);
      LastBelow(6, p);
    } else {
      z := 3 * p - 1;
      MuchTooLarge(p, e);
      LastBelow(3, p);
      if z < 5 * e {
        Shortcut(z, p, 4, 0);
      } else {
        Shortcut(z, p, 5, 1);
      }
    }
  }

  lemma MissedFar(p: nat)
    requires 2 * Eighth() < p <= 5 * Eighth() && p != 4 * Eighth()
    ensures FastModp(p - 1, p) != p - 1
  {
    hide R, Eighth, FastModp, Outcome;
    EighthIs();
    NotWhole(p);
    var e, z := Eighth(), p - 1;
    FarTooLarge(p, e);
    if z < 3 * e {
      Shortcut(z, p, 2, 0);
    } else if z < 4 * e {
      Shortcut(z, p, 3, 1);
    } else {
      Shortcut(z, p, 4, 2);
    }
  }

  lemma MissedFarthest(p: nat)
    requires 5 * Eighth() < p < R() && p != 6 * Eighth()
    ensures FastModp(p - 1, p) != p - 1
  {
    hide R, Eighth, FastModp, Outcome;
    EighthIs();
    NotWhole(p);
    var e, z := Eighth(), p - 1;
    FarthestTooLarge(p, e);
    if z < 6 * e {
      Shortcut(z, p, 5, 3);
    } else if z >= 7 * e {
      Shortcut(z, p, 7, 6);
    } else if 6 * p < 40 * e {
      Shortcut(z, p, 6, 4);
    } else {
      Shortcut(z, p, 6, 5);
    }
  }

  lemma LastBelow(k: nat, p: nat)
    requires 0 < p && 1 <= k
    ensures k * p >= 1 && (k * p - 1) % p == p - 1
  {
    LeTimes(1, k, p);
    Subtract(k, 1, p);
    QuotientRemainder(k * p - 1, p, k - 1, p - 1);
  }

  lemma SubIs(x: nat, y: nat, p: nat)
    requires x < R() && y < R() && p < R()
    ensures Sub(x, y, p) == if x >= y then x - y else if x + p >= y then x + p - y else x + p - y + R()
  {
    hide R;
    if x + p >= y && x < y {
      QuotientRemainder(x + p - y, R(), 0, x + p - y);
    } else if x < y {
      WrapOnce(x + p - y, R());
    }
  }

  lemma WrapOnce(x: int, m: nat)
    requires 0 - m <= x < 0
    ensures x % m == x + m
  {
    var q := x / m;
    assert x == q * m + x % m;
    if q >= 0 {
      LeTimes(0, q, m);
    } else if q <= -2 {
      LeTimes(2, 0 - q, m);
      Subtract(0, q, m);
    }
  }

  /** 2^256 / 3, 3 * 2^254 / 5 and 2^258 / 5 are no whole numbers. */
  lemma NotWhole(p: nat)
    ensures var e := Eighth();
            3 * p != 8 * e && 3 * p != 20 * e && 5 * p != 24 * e && 5 * p != 32 * e && 6 * p != 7 * e && 6 * p != 8 * e
  {
    hide R, Eighth;
    NoFactors();
    var e := Eighth();
    Thirds(8 * e, p);
    Thirds(20 * e, p);
    Thirds(7 * e, 2 * p);
    Thirds(8 * e, 2 * p);
    Fifths(24 * e, p);
    Fifths(32 * e, p);
  }

  lemma Fifths(x: nat, p: nat)
    requires x % 5 != 0
    ensures 5 * p != x
  {
  }

  lemma Thirds(x: nat, p: nat)
    requires x % 3 != 0
    ensures 3 * p != x
  {
  }

  /** What the shortcut makes of z when the topmost bits are t and t * p passes 2^256, which is 8 * e, k times. */
  function Outcome(z: int, p: int, t: int, k: int, e: int): int {
    var y := p * t - 8 * (k * e);
    if z >= y then z - y else if z + p >= y then z + p - y else z + p - y + 8 * e
  }

  lemma Shortcut(z: nat, p: nat, t: nat, k: nat)
    requires t * Eighth() <= z < t * Eighth() + Eighth() && z < R() && p < R()
    requires 8 * (k * Eighth()) <= p * t < 8 * (k * Eighth()) + R()
    ensures FastModp(z, p) == Outcome(z, p, t, k, Eighth())
  {
    hide R, Eighth, TopBits, Sub;
    SubIs(z, p * t - 8 * (k * Eighth()), p);
    EighthIs();
    TopBitsAre(z);
    QuotientIs(z, Eighth(), t);
    Regroup(k, 8, Eighth());
    QuotientRemainder(p * t, R(), k, p * t - 8 * (k * Eighth()));
  }

  lemma TooSmall(p: nat, e: nat)
    requires 0 < p < e
    ensures Outcome(p, p, 0, 0, e) == p
  {
  }

  lemma TooLarge(p: nat, e: nat)
    requires e <= p && 7 * e < 6 * p < 8 * e
    ensures Outcome(6 * p - 1, p, 7, 1, e) >= p
  {
  }

  lemma MuchTooLarge(p: nat, e: nat)
    requires 8 * e <= 6 * p && 0 < p <= 2 * e && 3 * p != 8 * e && 6 * p != 8 * e
    requires 5 * p != 24 * e && 5 * p != 32 * e && 3 * p != 20 * e
    ensures Outcome(3 * p - 1, p, 4, 0, e) != p - 1
    ensures 5 * e <= 3 * p - 1 ==> Outcome(3 * p - 1, p, 5, 1, e) != p - 1
  {
  }

  lemma TooRound(p: nat, e: nat)
    requires 0 < e
    ensures p == 4 * e ==> Outcome(p, p, 4, 2, e) != 0
    ensures p == 6 * e ==> Outcome(p, p, 6, 4, e) != 0
  {
  }

  lemma FarTooLarge(p: nat, e: nat)
    requires 2 * e < p < 8 * e && p != 4 * e && p != 6 * e
    ensures p - 1 < 3 * e ==> Outcome(p - 1, p, 2, 0, e) != p - 1
    ensures 3 * e <= p - 1 < 4 * e && 3 * p != 8 * e ==> Outcome(p - 1, p, 3, 1, e) != p - 1
    ensures 4 * e <= p - 1 < 5 * e ==> Outcome(p - 1, p, 4, 2, e) != p - 1
  {
  }

  lemma FarthestTooLarge(p: nat, e: nat)
    requires 5 * e < p < 8 * e && p != 6 * e && 5 * p != 24 * e && 5 * p != 32 * e && 3 * p != 20 * e && 3 * p != 8 * e
    ensures 5 * e <= p - 1 < 6 * e ==> Outcome(p - 1, p, 5, 3, e) != p - 1
    ensures 7 * e <= p - 1 ==> Outcome(p - 1, p, 7, 6, e) != p - 1
    ensures 6 * e <= p - 1 < 7 * e && 6 * p < 40 * e ==> Outcome(p - 1, p, 6, 4, e) != p - 1
    ensures 6 * e <= p - 1 < 7 * e && 40 * e <= 6 * p ==> Outcome(p - 1, p, 6, 5, e) != p - 1
  {
  }

  /** 2^253 is a multiple neither of 3 nor of 5. */
  lemma NoFactors()
    ensures Eighth() % 3 != 0 && Eighth() % 5 != 0
  {
    hide R, Eighth, Pow2;
    EighthIs();
    FullIsPow2();
    NeverDivide(256);
  }

  lemma FullIsPow2()
    ensures R() == Pow2(256)
  {
    hide Pow2, LimbPower;
    LimbPowerIsPow2(4);
  }

  lemma {:induction false} NeverDivide(n: nat)
    ensures Pow2(n) % 3 != 0 && Pow2(n) % 5 != 0
  {
    if n > 0 {
      NeverDivide(n - 1);
      StillNot(Pow2(n - 1));
    }
  }

  lemma StillNot(x: nat)
    requires x % 3 != 0 && x % 5 != 0
    ensures 2 * x % 3 != 0 && 2 * x % 5 != 0
  {
  }

  /** z + x, doubled, and x once more: what both _3z_add_2xC and _2z_add_3x do. */
  method AddTwiceThrice(z: nat, x: nat, p: nat) returns (r: nat)
    requires Fits(p) && z < p && x < p
    ensures r == (2 * z + 3 * x) % p
  {
    r := z + x;
    r := r + r;
    r := r + x;
    ReducesOne(r, p);
    r := FastModp(r, p);
  }

  /** So _3z_add_2xC computes the 3z + 2x that its comment promises only where its arguments are equal. */
  lemma PromisedOnlyWhenEqual(z: nat, x: nat, p: nat)
    requires z < p && x < p
    ensures (2 * z + 3 * x) % p == (3 * z + 2 * x) % p <==> z == x
  {
    var a, b := 2 * z + 3 * x, 3 * z + 2 * x;
    DivMod(a, p);
    DivMod(b, p);
    if a % p == b % p {
      Subtract(a / p, b / p, p);
      SmallMultiple(x - z, a / p - b / p, p);
    }
  }

  lemma SmallMultiple(d: int, k: int, p: nat)
    requires d == k * p && d < p && 0 < d + p
    ensures d == 0
  {
    if k >= 1 {
      LeTimes(1, k, p);
    } else if k <= -1 {
      LeTimes(1, -k, p);
    }
  }

  /** halfTbl: 0 and 1/2. */
  function HalfTable(p: nat, i: nat): nat {
    if i == 0 then 0 else (p + 1) / 2
  }

  /** quarterTbl: 0, 1/4, 2/4 and 3/4. */
  function QuarterTable(p: nat, i: nat): nat {
    (p + 1) / 4 * i
  }

  /** The half of x modulo p; nothing is carried out of 256 bits. */
  method DivBy2(x: nat, p: nat) returns (z: nat)
    requires p % 2 == 1 && x < p
    ensures z < p && (2 * z == x || 2 * z == x + p)
  {
    z := x / 2 + HalfTable(p, x % 2);
  }

  /** The quarter of x modulo p, as set up for moduli that leave 3 when divided by 4. */
  method DivBy4(x: nat, p: nat) returns (z: nat)
    requires p % 4 == 3 && x < p
    ensures z < p && exists i :: 0 <= i < 4 && 4 * z == x + i * p
  {
    var i := x % 4;
    z := x / 4 + QuarterTable(p, i);
    Quarters(x, p, i);
  }

  lemma Quarters(x: nat, p: nat, i: nat)
    requires p % 4 == 3 && x < p && i == x % 4
    ensures x / 4 + (p + 1) / 4 * i < p && 4 * (x / 4 + (p + 1) / 4 * i) == x + i * p
  {
    if i == 0 {
    } else if i == 1 {
    } else if i == 2 {
    } else {
      assert i == 3;
    }
  }
}
