/** Division of whole numbers of any length, and of signed ones. */
module VuintDivide {
  import opened Arithmetic
  import opened Limbs
  import opened Vuint
  import opened VuintDivision
  import opened VuintSum

  lemma ValueCons(x: nat, s: seq<nat>)
    ensures Value([x] + s) == x + Value(s) * LIMB
  {
    ValueAppend([x], s);
    SingleValue(x);
    ShiftByOne(Value(s));
  }

  /** Quotient and remainder of a number of two limbs; the quotient fits one. */
  method DivUnit(h: nat, l: nat, y: nat) returns (q: nat, r: nat)
    requires h < y < LIMB && l < LIMB
    ensures q < LIMB && r < y && h * LIMB + l == q * y + r
  {
    var t := h * LIMB + l;
    q, r := t / y, t % y;
    DivMod(t, y);
    LeTimes(h + 1, y, LIMB);
    Distribute(h, 1, LIMB);
    QuotientAtMost(t, y, LIMB - 1);
  }

  lemma NextLimb(xs: seq<nat>, i: nat, qs: seq<nat>, r: nat, y: nat, q: nat, s: nat)
    requires i < |xs| && Value(xs[i + 1..]) == Value(qs) * y + r && r * LIMB + xs[i] == q * y + s
    ensures Value(xs[i..]) == Value([q] + qs) * y + s
  {
    hide Value;
    assert xs[i..] == [xs[i]] + xs[i + 1..];
    ValueCons(xs[i], xs[i + 1..]);
    ValueCons(q, qs);
    Distribute(Value(qs) * y, r, LIMB);
    Distribute(q, Value(qs) * LIMB, y);
    Regroup(Value(qs), y, LIMB);
  }

  lemma OneMoreLimb(d: nat, qs: seq<nat>)
    requires d < LIMB && Limbed(qs)
    ensures Limbed([d] + qs)
  {
  }

  /** Divides x[..xn] by one limb, from the top down; q may be x. */
  method InDiv(q: array<nat>, x: array<nat>, xn: nat, y: nat) returns (r: nat)
    requires xn <= q.Length && xn <= x.Length && 0 < y < LIMB && Limbed(x[..xn])
    modifies q
    ensures Limbed(q[..xn]) && r < y && old(Value(x[..xn])) == Value(q[..xn]) * y + r
  {
    hide Value, Shift, LimbPower, Limbed;
    ghost var xs, qs: seq<nat> := x[..xn], [];
    r := 0;
    NothingYet(xs);
    for i := xn downto 0
      invariant r < y && Limbed(qs) && |qs| == xn - i && Value(xs[i..]) == Value(qs) * y + r
      invariant forall j :: 0 <= j < i ==> x[j] == xs[j]
      invariant forall j :: i <= j < xn ==> q[j] == qs[j - i]
    {
      LimbOf(xs, i);
      var d, s := DivUnit(r, x[i], y);
      NextLimb(xs, i, qs, r, y, d, s);
      OneMoreLimb(d, qs);
      q[i] := d;
      qs, r := [d] + qs, s;
    }
    assert xs[0..] == xs && q[..xn] == qs;
  }

  lemma NothingYet(xs: seq<nat>)
    ensures Value(xs[|xs|..]) == Value([]) == 0 && Limbed([])
  {
    assert xs[|xs|..] == [];
  }

  /** The remainder alone. */
  method InMod(x: array<nat>, xn: nat, y: nat) returns (r: nat)
    requires xn <= x.Length && 0 < y < LIMB && Limbed(x[..xn])
    ensures r == Value(x[..xn]) % y
  {
    hide Value, Shift, LimbPower, Limbed;
    ghost var xs, qs: seq<nat> := x[..xn], [];
    r := 0;
    NothingYet(xs);
    for i := xn downto 0
      invariant r < y && |qs| == xn - i && Value(xs[i..]) == Value(qs) * y + r
    {
      LimbOf(xs, i);
      var d, s := DivUnit(r, x[i], y);
      NextLimb(xs, i, qs, r, y, d, s);
      qs, r := [d] + qs, s;
    }
    assert xs[0..] == xs;
    QuotientRemainder(Value(xs), y, Value(qs), r);
  }

  /** Quotient and remainder; refused exactly when y is zero. */
  method Divide(x: seq<nat>, y: seq<nat>) returns (ok: bool, q: seq<nat>, r: seq<nat>)
    requires Trimmed(x) && Trimmed(y)
    ensures ok <==> Value(y) != 0
    ensures ok ==> Trimmed(q) && Trimmed(r) && Value(x) == Value(q) * Value(y) + Value(r) && Value(r) < Value(y)
  {
    hide Value;
    SingleValue(0);
    SingleValue(1);
    var xn, yn := |x|, |y|;
    if yn == 1 {
      SingleValue(y[0]);
      assert y == [y[0]];
      if y[0] == 0 {
        return false, [0], [0];
      }
      var xa := Buffer(x);
      var qa := new nat[xn];
      assert xa[..xn] == x;
      var rest := InDiv(qa, xa, xn, y[0]);
      assert qa[..xn] == qa[..];
      q := Trim(qa);
      SingleValue(rest);
      return true, q, [rest];
    }
    ValueAtLeast(y);
    var xa := Buffer(x);
    var ya := Buffer(y);
    assert xa[0..xn] == xa[..xn] == x && ya[..yn] == y;
    var cmp := Compare(xa, 0, xn, ya, yn);
    if cmp < 0 {
      if xn < yn {
        Finished(x, y);
      }
      return true, [0], x;
    } else if cmp == 0 {
      return true, [1], [0];
    }
    var qa := new nat[xn - yn + 1];
    var rn, qs := Div(qa, xa, xn, ya, yn);
    assert xa[..xn] == xa[..];
    ZerosAbove(xa[..], rn);
    assert xa[..][..rn] == xa[..rn];
    q := Trim(qa);
    r := Trim(xa);
    ok := true;
  }

  /** A sign and a magnitude. */
  datatype Vsint = Vsint(isNeg: bool, v: seq<nat>) {
    ghost predicate Valid() {
      Trimmed(v)
    }

    ghost function Size(): nat {
      Value(v)
    }

    ghost function Int(): int {
      if isNeg then 0 - Size() else Size()
    }
  }

  /** Division that rounds down: the remainder has the sign of the divisor. A quotient of zero may come with a
      minus sign. */
  method DivideSigned(x: Vsint, y: Vsint) returns (ok: bool, q: Vsint, r: Vsint)
    requires x.Valid() && y.Valid()
    ensures ok <==> y.Size() != 0
    ensures ok ==> q.Valid() && r.Valid() && x.Int() == q.Int() * y.Int() + r.Int() && r.Size() < y.Size()
    ensures ok ==> if y.isNeg then y.Int() < r.Int() <= 0 else 0 <= r.Int() < y.Int()
    ensures ok ==> (q.isNeg <==> x.isNeg != y.isNeg)
    ensures ok ==> (q.Size() == 0 && q.isNeg <==> x.Size() == 0 && x.isNeg != y.isNeg)
  {
    hide Value, Vsint.Int;
    var qv, rv;
    ok, qv, rv := Divide(x.v, y.v);
    if !ok {
      return false, x, x;
    }
    ghost var q0, r0, d := Value(qv), Value(rv), y.Size();
    NoQuotient(x.Size(), d, q0, r0);
    Distribute(q0, 1, d);
    var qsign := x.isNeg != y.isNeg;
    var rneg := false;
    var zero := IsZero(rv);
    if !zero {
      if qsign {
        qv := AddUnit(qv, 1);
        Shorter(rv, y.v);
        var fits;
        fits, rv := Minus(y.v, rv);
      }
      rneg := y.isNeg;
    }
    q, r := Vsint(qsign, qv), Vsint(rneg, rv);
    SignedProduct(q, y);
    SignedSum(x, y, q, r);
  }

  method IsZero(x: seq<nat>) returns (zero: bool)
    requires Trimmed(x)
    ensures zero <==> Value(x) == 0
  {
    SingleValue(0);
    if |x| > 1 {
      ValueAtLeast(x);
    } else {
      SingleValue(x[0]);
      assert x == [x[0]];
    }
    zero := |x| == 1 && x[0] == 0;
  }

  lemma Shorter(x: seq<nat>, y: seq<nat>)
    requires Trimmed(x) && Trimmed(y) && Value(x) < Value(y)
    ensures |x| <= |y|
  {
    if |y| < |x| {
      ValueAtLeast(x);
      ValueBound(y);
      LimbPowerMonotone(|y|, |x| - 1);
    }
  }

  lemma NoQuotient(x: nat, y: nat, q: nat, r: nat)
    requires 0 < y && x == q * y + r
    ensures q == 0 && r == 0 <==> x == 0
  {
    LeTimes(0, q, y);
    if q > 0 {
      LeTimes(1, q, y);
    }
  }

  lemma SignedSum(x: Vsint, y: Vsint, q: Vsint, r: Vsint)
    requires q.Int() * y.Int() == if q.isNeg == y.isNeg then q.Size() * y.Size() else 0 - q.Size() * y.Size()
    requires if r.Size() == 0 || !q.isNeg then x.Size() == q.Size() * y.Size() + r.Size()
             else x.Size() + r.Size() == q.Size() * y.Size()
    requires (q.isNeg <==> x.isNeg != y.isNeg) && (r.isNeg <==> r.Size() != 0 && y.isNeg) && r.Size() < y.Size()
    ensures x.Int() == q.Int() * y.Int() + r.Int()
    ensures if y.isNeg then y.Int() < r.Int() <= 0 else 0 <= r.Int() < y.Int()
  {
  }

  /** 0 / -5 */
  method MinusZero() returns (q: Vsint)
    ensures q.v == [0] && q.isNeg
  {
    SingleValue(0);
    SingleValue(5);
    var ok, r;
    ok, q, r := DivideSigned(Vsint(false, [0]), Vsint(true, [5]));
    if |q.v| > 1 {
      ValueAtLeast(q.v);
    } else {
      SingleValue(q.v[0]);
      assert q.v == [q.v[0]];
    }
  }

  lemma SignedProduct(q: Vsint, y: Vsint)
    ensures q.Int() * y.Int() == if q.isNeg == y.isNeg then q.Size() * y.Size() else 0 - q.Size() * y.Size()
  {
    var b, d := q.Size(), y.Size();
    SignsOut(b, d);
  }

  lemma SignsOut(b: int, d: int)
    ensures (0 - b) * d == 0 - b * d == b * (0 - d) && (0 - b) * (0 - d) == b * d
  {
  }
}
