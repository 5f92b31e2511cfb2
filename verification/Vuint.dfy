/** Multiplication and division of limb buffers, from zm.h. */
module Vuint {
  import opened Arithmetic
  import opened Limbs

  /** The value of s split at index at. */
  lemma SplitValue(s: seq<nat>, at: nat)
    requires at <= |s|
    ensures Value(s) == Value(s[..at]) + Shift(Value(s[at..]), at)
  {
    hide Value, Shift;
    ValueAppend(s[..at], s[at..]);
    assert s == s[..at] + s[at..];
  }

  lemma ThreeParts(a: seq<nat>, m: seq<nat>, z: seq<nat>, i: nat, j: nat)
    requires i == |a| && j == |a| + |m|
    ensures Value(a + m + z) == Value(a) + Shift(Value(m), i) + Shift(Value(z), j)
  {
    hide Value, Shift;
    ValueAppend(a + m, z);
    ValueAppend(a, m);
  }

  lemma ThreeSlices(s: seq<nat>, at: nat, n: nat)
    requires at + n <= |s|
    ensures s == s[..at] + s[at..at + n] + s[at + n..]
  {
  }

  lemma PatchedValue(s: seq<nat>, at: nat, r: seq<nat>)
    requires at + |r| <= |s|
    ensures Value(Patched(s, at, r)) + Shift(Value(s[at..at + |r|]), at) == Value(s) + Shift(Value(r), at)
  {
    hide Value, Shift;
    var j := at + |r|;
    ThreeSlices(s, at, |r|);
    ThreeParts(s[..at], s[at..j], s[j..], at, j);
    ThreeParts(s[..at], r, s[j..], at, j);
  }

  lemma PatchedLimbed(s: seq<nat>, at: nat, r: seq<nat>)
    requires at + |r| <= |s| && Limbed(s) && Limbed(r)
    ensures Limbed(Patched(s, at, r))
  {
  }

  lemma PartLimbed(s: seq<nat>, at: nat, n: nat)
    requires at + n <= |s| && Limbed(s)
    ensures Limbed(s[at..at + n]) && Limbed(s[at..])
  {
  }

  lemma PrefixLimbed(s: seq<nat>, n: nat)
    requires n <= |s| && Limbed(s)
    ensures Limbed(s[..n])
  {
  }

  lemma PrefixValue(s: seq<nat>, n: nat)
    requires n <= |s|
    ensures Value(s[..n]) <= Value(s)
  {
    hide Value, Shift;
    SplitValue(s, n);
  }

  /** A sum below LIMB^(at + n) carries nothing out of the limbs from at on. */
  lemma NoCarry(s: seq<nat>, at: nat, n: nat, add: nat, v: nat, carry: bool)
    requires at + n == |s| && Shift(add, at) + Value(s) < LimbPower(at + n)
    requires v + Shift(Bit(carry), n) == Value(s[at..]) + add
    ensures !carry
  {
    hide Value, Shift, LimbPower;
    SplitValue(s, at);
    ShiftSum(Value(s[at..]), add, at);
    ShiftSum(v, Shift(Bit(carry), n), at);
    ShiftTwice(Bit(carry), n, at);
    ShiftZero(0, at + n);
  }

  /** The product fits the limbs of both factors. */
  lemma ProductBound(xs: seq<nat>, ys: seq<nat>)
    requires Limbed(xs) && Limbed(ys)
    ensures Value(xs) * Value(ys) < LimbPower(|xs| + |ys|)
  {
    hide Value, LimbPower;
    var p, q := LimbPower(|xs|), LimbPower(|ys|);
    ValueBound(xs);
    ValueBound(ys);
    LeTimes(Value(ys), q, Value(xs));
    LessTimes(Value(xs), p, q);
    LimbPowerSum(|xs|, |ys|);
  }

  lemma OneLimb(ys: seq<nat>)
    requires ys != []
    ensures Value(ys[..1]) == ys[0]
  {
    hide Shift;
    assert ys[..1] == [] + [ys[0]];
    ValueSnoc([], ys[0]);
    ShiftZero(ys[0], 0);
  }

  lemma FirstProduct(o: seq<nat>, xs: seq<nat>, ys: seq<nat>, n: nat)
    requires 0 < |ys| && n <= |o| && Limbed(o[..n]) && Value(o[..n]) == Value(xs) * ys[0]
    requires forall j :: n <= j < |o| ==> o[j] == 0
    ensures Limbed(o) && Value(o) == Value(xs) * Value(ys[..1])
  {
    hide Shift, Value;
    SplitValue(o, n);
    ValueZeros(o[n..]);
    ShiftZero(0, n);
    OneLimb(ys);
    forall j | 0 <= j < |o|
      ensures o[j] < LIMB
    {
      assert j < n ==> o[j] == o[..n][j];
    }
  }

  lemma OneMoreDigit(xs: seq<nat>, ys: seq<nat>, i: nat)
    requires i < |ys|
    ensures Value(xs) * Value(ys[..i + 1]) == Value(xs) * Value(ys[..i]) + Shift(Value(xs) * ys[i], i)
  {
    hide Value, Shift;
    TakeStep(ys, i);
    ValueSnoc(ys[..i], ys[i]);
    Distribute(Value(ys[..i]), Shift(ys[i], i), Value(xs));
    ShiftTimes(Value(xs), ys[i], i);
  }

  lemma NoCarryOut(o: seq<nat>, xs: seq<nat>, ys: seq<nat>, i: nat, v: nat, n: nat, carry: bool)
    requires i < |ys| && n == |xs| + 1 && i + n <= |o| && Limbed(xs) && Limbed(ys)
    requires Value(o) == Value(xs) * Value(ys[..i])
    requires v + Shift(Bit(carry), n) == Value(o[i..i + n]) + Value(xs) * ys[i]
    ensures !carry
  {
    hide Value, LimbPower, Limbed, Shift;
    OneMoreDigit(xs, ys, i);
    PrefixLimbed(ys, i + 1);
    ProductBound(xs, ys[..i + 1]);
    PrefixValue(o, i + n);
    var s := o[..i + n];
    assert s[i..] == o[i..i + n];
    NoCarry(s, i, n, Value(xs) * ys[i], v, carry);
  }

  lemma NextProduct(o: seq<nat>, xs: seq<nat>, ys: seq<nat>, i: nat, r: seq<nat>, carry: bool)
    requires i < |ys| && |r| == |xs| + 1 && i + |r| <= |o| && Limbed(o) && Limbed(xs) && Limbed(ys) && Limbed(r)
    requires Value(o) == Value(xs) * Value(ys[..i])
    requires Value(r) + Shift(Bit(carry), |r|) == Value(o[i..i + |r|]) + Value(xs) * ys[i]
    ensures !carry && Limbed(Patched(o, i, r)) && Value(Patched(o, i, r)) == Value(xs) * Value(ys[..i + 1])
  {
    hide Value, Shift, Patched, Limbed;
    OneMoreDigit(xs, ys, i);
    NoCarryOut(o, xs, ys, i, Value(r), |r|, carry);
    PatchedValue(o, i, r);
    PatchedLimbed(o, i, r);
    ShiftZero(0, |r|);
    ShiftSum(Value(o[i..i + |r|]), Value(xs) * ys[i], i);
  }

  /** out := x[..xn] * y[..yn]. The carry that each addition returns is always zero. */
  method Mul(out: array<nat>, x: array<nat>, xn: nat, y: array<nat>, yn: nat)
    requires 0 < yn && 0 < xn && xn <= x.Length && yn <= y.Length && out.Length == xn + yn && out != x && out != y
    requires Limbed(x[..xn]) && Limbed(y[..yn])
    modifies out
    ensures Limbed(out[..]) && Value(out[..]) == Value(x[..xn]) * Value(y[..yn])
  {
    hide Value, LimbPower, Patched, Limbed, Shift;
    var a, an, b, bn := x, xn, y, yn;
    if bn > an {
      a, an, b, bn := b, bn, a, an;
    }
    Regroup(Value(x[..xn]), Value(y[..yn]), 1);
    ghost var xs, ys := a[..an], b[..bn];
    for i := an + 1 to an + bn
      invariant forall j :: an + 1 <= j < i ==> out[j] == 0
    {
      out[i] := 0;
    }
    LimbOf(ys, 0);
    ghost var zeros := out[an + 1..];
    Mul1(out, a, an, b[0]);
    assert forall j :: an + 1 <= j < out.Length ==> out[j] == zeros[j - an - 1] == 0;
    FirstProduct(out[..], xs, ys, an + 1);
    var t2 := new nat[an + 1];
    for i := 1 to bn
      invariant Limbed(out[..]) && Value(out[..]) == Value(xs) * Value(ys[..i])
      invariant a[..an] == xs && b[..bn] == ys && fresh(t2)
    {
      LimbOf(ys, i);
      Mul1(t2, a, an, b[i]);
      ghost var o := out[..];
      PartLimbed(o, i, an + 1);
      assert o[i..i + (an + 1)] == out[i..i + (an + 1)];
      var carry, r := AddN(out, i, out, i, t2, 0, an + 1);
      NextProduct(o, xs, ys, i, r, carry);
    }
    assert ys[..bn] == ys;
  }

  lemma LimbOf(s: seq<nat>, i: nat)
    requires i < |s| && Limbed(s)
    ensures s[i] < LIMB
  {
  }
}
