/** Trimmed numbers, and sums with a limb and differences of them. */
module VuintSum {
  import opened Limbs
  import opened Vuint
  import opened VuintDivision

  /** A number with no zero limb on top, but for zero itself. */
  ghost predicate Trimmed(s: seq<nat>) {
    s != [] && Limbed(s) && (|s| > 1 ==> s[|s| - 1] != 0)
  }

  method Trim(a: array<nat>) returns (s: seq<nat>)
    requires a.Length > 0 && Limbed(a[..])
    ensures Trimmed(s) && Value(s) == Value(a[..])
  {
    var i := a.Length - 1;
    while i > 0
      invariant 0 <= i < a.Length && forall j :: i < j < a.Length ==> a[j] == 0
    {
      if a[i] != 0 {
        break;
      }
      i := i - 1;
    }
    ZerosAbove(a[..], i + 1);
    PrefixLimbed(a[..], i + 1);
    assert a[..][..i + 1] == a[..i + 1];
    s := a[..i + 1];
  }

  method Buffer(s: seq<nat>) returns (a: array<nat>)
    ensures fresh(a) && a[..] == s
  {
    a := new nat[|s|](i requires 0 <= i < |s| => s[i]);
  }

  lemma WholePatch(s: seq<nat>, r: seq<nat>)
    requires |s| == |r|
    ensures Patched(s, 0, r) == r
  {
  }

  /** x + y, for a single limb y. */
  method AddUnit(x: seq<nat>, y: nat) returns (z: seq<nat>)
    requires Trimmed(x) && y < LIMB
    ensures Trimmed(z) && Value(z) == Value(x) + y
  {
    hide Value, Shift;
    var n := |x|;
    var a := Buffer(x);
    assert a[0..n] == a[..] == x;
    var out := new nat[n];
    ghost var blank := out[..];
    var c, r := Add1(out, 0, a, 0, n, y);
    WholePatch(blank, r);
    z := out[..];
    ShiftZero(0, n);
    if c {
      ValueSnoc(z, 1);
      z := z + [1];
    } else if n > 1 {
      StillLong(x, z, y);
    }
  }

  /** Adding without a carry leaves the top limb other than zero. */
  lemma StillLong(x: seq<nat>, z: seq<nat>, y: nat)
    requires Trimmed(x) && |z| == |x| > 1 && Limbed(z) && Value(z) == Value(x) + y
    ensures z[|z| - 1] != 0
  {
    var k := |x| - 1;
    ValueAtLeast(x);
    if z[k] == 0 {
      assert z == z[..k] + [0];
      ValueSnoc(z[..k], 0);
      ShiftZero(0, k);
      ValueBound(z[..k]);
    }
  }

  /** x - y; refused exactly when y is the greater one. */
  method Minus(x: seq<nat>, y: seq<nat>) returns (ok: bool, z: seq<nat>)
    requires Trimmed(x) && Trimmed(y) && |y| <= |x|
    ensures ok <==> Value(y) <= Value(x)
    ensures ok ==> Trimmed(z) && Value(z) + Value(y) == Value(x)
  {
    hide Value, Shift, Patched;
    var xn, yn := |x|, |y|;
    var xa := Buffer(x);
    var ya := Buffer(y);
    var out := new nat[xn];
    ghost var blank := out[..];
    assert xa[0..yn] == x[..yn] && ya[0..yn] == y;
    var c, low := SubN(out, 0, xa, 0, ya, 0, yn);
    ghost var high := [];
    var b := c;
    if xn > yn {
      assert xa[yn..yn + (xn - yn)] == x[yn..];
      c, high := Sub1(out, yn, xa, yn, xn - yn, Bit(b));
      PatchedTwice(blank, low, high);
    } else {
      WholePatch(blank, low);
      assert x[yn..] == [];
    }
    TwoParts(x, y, low, high, b, c);
    NoBorrowFits(low + high, Value(x), Value(y), c);
    ShiftZero(0, xn);
    assert out[..] == low + high;
    ok := !c;
    z := Trim(out);
  }

  lemma PatchedTwice(s: seq<nat>, low: seq<nat>, high: seq<nat>)
    requires |s| == |low| + |high|
    ensures Patched(Patched(s, 0, low), |low|, high) == low + high
  {
  }

  lemma TwoParts(x: seq<nat>, y: seq<nat>, low: seq<nat>, high: seq<nat>, b: bool, c: bool)
    requires |low| == |y| <= |x| == |low| + |high|
    requires Value(low) + Value(y) == Value(x[..|y|]) + Shift(Bit(b), |y|)
    requires high == [] ==> b == c
    requires high != [] ==> Value(high) + Bit(b) == Value(x[|y|..]) + Shift(Bit(c), |high|)
    ensures Value(low + high) + Value(y) == Value(x) + Shift(Bit(c), |x|)
  {
    hide Shift, Value, Bit;
    var k := |y|;
    SplitValue(x, k);
    ValueAppend(low, high);
    if high == [] {
      NoLimbs(high, x[k..]);
      ShiftZero(Bit(c), 0);
    }
    PartsBorrow(Value(low), Value(high), Value(x[..k]), Value(x[k..]), Value(y), Bit(b), Bit(c), k, |high|);
  }

  lemma PartsBorrow(l: nat, h: nat, u: nat, v: nat, y: nat, b: nat, c: nat, k: nat, n: nat)
    requires l + y == u + Shift(b, k) && h + b == v + Shift(c, n)
    ensures l + Shift(h, k) + y == u + Shift(v, k) + Shift(c, n + k)
  {
    hide Shift;
    ShiftSum(h, b, k);
    ShiftSum(v, Shift(c, n), k);
    ShiftTwice(c, n, k);
  }

  lemma NoLimbs(a: seq<nat>, b: seq<nat>)
    requires a == b == []
    ensures Value(a) == Value(b) == 0
  {
  }

  lemma NoBorrowFits(s: seq<nat>, x: nat, y: nat, c: bool)
    requires Limbed(s) && Value(s) + y == x + Shift(Bit(c), |s|)
    ensures c <==> x < y
  {
    hide Shift, Value;
    ValueBound(s);
    ShiftZero(0, |s|);
  }
}
