/** Numbers as little-endian sequences of 64-bit limbs, and the loops of zm.cpp on them. */
module Limbs {
  import opened Arithmetic

  const LIMB: nat := 0x1_0000_0000_0000_0000

  /** LIMB to the power i. */
  function LimbPower(i: nat): (r: nat)
    ensures 1 <= r
  {
    if i == 0 then 1 else LIMB * LimbPower(i - 1)
  }

  lemma {:induction false} LimbPowerSum(i: nat, j: nat)
    ensures LimbPower(i + j) == LimbPower(i) * LimbPower(j)
  {
    if i > 0 {
      LimbPowerSum(i - 1, j);
      Regroup(LIMB, LimbPower(i - 1), LimbPower(j));
      assert i + j - 1 == (i - 1) + j;
    }
  }

  lemma {:induction false} LimbPowerMonotone(i: nat, j: nat)
    requires i <= j
    ensures LimbPower(i) <= LimbPower(j)
    decreases j
  {
    if i < j {
      LimbPowerMonotone(i, j - 1);
    }
  }

  /** v moved up by k limbs. */
  function Shift(v: nat, k: nat): nat {
    if k == 0 then v else LIMB * Shift(v, k - 1)
  }

  lemma {:induction false} ShiftIs(v: nat, k: nat)
    ensures Shift(v, k) == v * LimbPower(k)
  {
    if k > 0 {
      ShiftIs(v, k - 1);
      Regroup(LIMB, v, LimbPower(k - 1));
    }
  }

  lemma {:induction false} ShiftSum(a: nat, b: nat, k: nat)
    ensures Shift(a + b, k) == Shift(a, k) + Shift(b, k)
  {
    hide Shift;
    ShiftIs(a, k);
    ShiftIs(b, k);
    ShiftIs(a + b, k);
    Distribute(a, b, LimbPower(k));
  }

  lemma {:induction false} ShiftMonotone(a: nat, b: nat, k: nat)
    requires a <= b
    ensures Shift(a, k) <= Shift(b, k)
  {
    ShiftSum(a, b - a, k);
  }

  lemma {:induction false} ShiftOnce(a: nat, k: nat)
    ensures Shift(a * LIMB, k) == Shift(a, k + 1)
  {
    hide Shift;
    ShiftIs(a * LIMB, k);
    ShiftIs(a, k + 1);
    Regroup(a, LIMB, LimbPower(k));
  }

  lemma {:induction false} ShiftTwice(a: nat, i: nat, k: nat)
    ensures Shift(Shift(a, i), k) == Shift(a, i + k)
  {
    hide Shift;
    ShiftIs(a, i);
    ShiftIs(Shift(a, i), k);
    ShiftIs(a, i + k);
    LimbPowerSum(i, k);
    Regroup(a, LimbPower(i), LimbPower(k));
  }

  lemma {:induction false} ShiftTimes(a: nat, b: nat, k: nat)
    ensures Shift(a * b, k) == Shift(a, k) * b == a * Shift(b, k)
  {
    hide Shift;
    ShiftIs(a * b, k);
    ShiftIs(a, k);
    ShiftIs(b, k);
    Regroup(a, b, LimbPower(k));
    Regroup(a, LimbPower(k), b);
  }

  lemma {:induction false} ShiftZero(v: nat, k: nat)
    ensures Shift(0, k) == 0 && Shift(v, 0) == v && Shift(1, k) == LimbPower(k)
  {
    ShiftIs(0, k);
    ShiftIs(1, k);
  }

  function Value(s: seq<nat>): nat {
    if s == [] then 0 else Value(s[..|s| - 1]) + Shift(s[|s| - 1], |s| - 1)
  }

  ghost predicate Limbed(s: seq<nat>) {
    forall i :: 0 <= i < |s| ==> s[i] < LIMB
  }

  lemma {:induction false} ValueSnoc(s: seq<nat>, x: nat)
    ensures Value(s + [x]) == Value(s) + Shift(x, |s|)
  {
    hide Shift;
    assert (s + [x])[..|s|] == s;
  }

  lemma {:induction false} ValueBound(s: seq<nat>)
    requires Limbed(s)
    ensures Value(s) < LimbPower(|s|)
  {
    if s != [] {
      ValueBound(s[..|s| - 1]);
      ShiftIs(s[|s| - 1], |s| - 1);
      LessTimes(s[|s| - 1], LIMB, LimbPower(|s| - 1));
    }
  }

  lemma {:induction false} ValueAppend(a: seq<nat>, b: seq<nat>)
    ensures Value(a + b) == Value(a) + Shift(Value(b), |a|)
    decreases |b|
  {
    hide Shift;
    if b == [] {
      assert a + b == a;
      ShiftZero(0, |a|);
    } else {
      var c, x := b[..|b| - 1], b[|b| - 1];
      ValueAppend(a, c);
      assert a + b == (a + c) + [x];
      ValueSnoc(a + c, x);
      ShiftTwice(x, |c|, |a|);
      ShiftSum(Value(c), Shift(x, |c|), |a|);
    }
  }

  lemma {:induction false} ValueZeros(s: seq<nat>)
    requires forall i :: 0 <= i < |s| ==> s[i] == 0
    ensures Value(s) == 0
  {
    hide Shift;
    if s != [] {
      ValueZeros(s[..|s| - 1]);
      ShiftZero(0, |s| - 1);
    }
  }

  /** A number with a limb on top that is not zero. */
  lemma ValueAtLeast(s: seq<nat>)
    requires s != [] && s[|s| - 1] != 0
    ensures LimbPower(|s| - 1) <= Value(s)
  {
    ShiftZero(0, |s| - 1);
    ShiftMonotone(1, s[|s| - 1], |s| - 1);
  }

  function Bit(b: bool): nat {
    if b then 1 else 0
  }

  /** One more limb of a sum or product: the limbs so far are v, with c carried into place k. */
  lemma {:induction false} CarryStep(v: nat, w: nat, k: nat, c: nat, a: nat, d: nat, e: nat)
    requires v + Shift(c, k) == w && d + e * LIMB == a + c
    ensures v + Shift(d, k) + Shift(e, k + 1) == w + Shift(a, k)
  {
    hide Shift;
    ShiftSum(d, e * LIMB, k);
    ShiftSum(a, c, k);
    ShiftOnce(e, k);
  }

  /** The limb and the carry of a + b + c, as the loop of in_addN finds them without a wider type. */
  method AddLimb(a: nat, b: nat, c: nat) returns (o: nat, carry: nat)
    requires a < LIMB && b < LIMB && c <= 1
    ensures o < LIMB && carry <= 1 && o + carry * LIMB == a + b + c
  {
    var xc := (a + c) % LIMB;
    if xc < c {
      return b, c;
    }
    xc := (xc + b) % LIMB;
    return xc, if b > xc then 1 else 0;
  }

  /** The limb and the borrow of a - b - c. */
  method SubLimb(a: nat, b: nat, c: nat) returns (o: nat, borrow: nat)
    requires a < LIMB && b < LIMB && c <= 1
    ensures o < LIMB && borrow <= 1 && o + b + c == a + borrow * LIMB
  {
    var yc := (b + c) % LIMB;
    if yc < c {
      return a, c;
    }
    return (a - yc) % LIMB, if a < yc then 1 else 0;
  }

  /** Product of two limbs as high and low limb. */
  method MulUnit(a: nat, b: nat) returns (hi: nat, lo: nat)
    requires a < LIMB && b < LIMB
    ensures lo < LIMB && hi * LIMB + lo == a * b && hi <= LIMB - 2
  {
    hi, lo := a * b / LIMB, a * b % LIMB;
    DivMod(a * b, LIMB);
    LeTimes(a, LIMB - 1, b);
    LeTimes(b, LIMB - 1, LIMB - 1);
    QuotientAtMost(a * b, LIMB, LIMB - 2);
  }

  /** The elements of s from index at on replaced by r. */
  function Patched(s: seq<nat>, at: nat, r: seq<nat>): (p: seq<nat>)
    requires at + |r| <= |s|
    ensures |p| == |s|
  {
    s[..at] + r + s[at + |r|..]
  }

  lemma PatchedStep(s: seq<nat>, at: nat, r: seq<nat>, d: nat)
    requires at + |r| < |s|
    ensures Patched(s, at, r)[at + |r| := d] == Patched(s, at, r + [d])
    ensures Patched(s, at, r)[at + |r|] == s[at + |r|]
  {
  }

  /** What lies beyond the part replaced is as it was. */
  lemma PatchedBeyond(s: seq<nat>, at: nat, r: seq<nat>, k: nat)
    requires at + |r| <= k < |s|
    ensures Patched(s, at, r)[k] == s[k]
  {
  }

  lemma TakeStep(s: seq<nat>, i: nat)
    requires i < |s|
    ensures s[..i + 1] == s[..i] + [s[i]]
  {
  }

  /** out[to..to + n] := x[at..at + n] + y[from..from + n]; the result is the carry. The arrays may be the same. */
  method AddN(out: array<nat>, to: nat, x: array<nat>, at: nat, y: array<nat>, from: nat, n: nat)
    returns (carry: bool, ghost r: seq<nat>)
    requires 0 < n && to + n <= out.Length && at + n <= x.Length && from + n <= y.Length
    requires (out == x ==> to <= at) && (out == y ==> to <= from)
    requires Limbed(x[at..at + n]) && Limbed(y[from..from + n])
    modifies out
    ensures |r| == n && Limbed(r) && out[..] == Patched(old(out[..]), to, r)
    ensures Value(r) + Shift(Bit(carry), n) == old(Value(x[at..at + n]) + Value(y[from..from + n]))
  {
    hide Shift, Value, Patched;
    var c: nat := 0;
    ghost var o0, xs, ys := out[..], x[at..at + n], y[from..from + n];
    r := [];
    EmptySum(o0, to, xs, ys);
    for i := 0 to n
      invariant c <= 1 && |r| == i && Limbed(r) && out[..] == Patched(o0, to, r)
      invariant Value(r) + Shift(c, i) == Value(xs[..i]) + Value(ys[..i])
    {
      if out == x {
        PatchedBeyond(o0, to, r, at + i);
        assert x[at + i] == x[..][at + i] == o0[at + i];
      }
      if out == y {
        PatchedBeyond(o0, to, r, from + i);
        assert y[from + i] == y[..][from + i] == o0[from + i];
      }
      assert x[at + i] == xs[i] && y[from + i] == ys[i];
      var d, e := AddLimb(x[at + i], y[from + i], c);
      CarryStep(Value(r), Value(xs[..i]) + Value(ys[..i]), i, c, xs[i] + ys[i], d, e);
      ShiftSum(xs[i], ys[i], i);
      ValueSnoc(r, d);
      ValueSnoc(xs[..i], xs[i]);
      ValueSnoc(ys[..i], ys[i]);
      TakeStep(xs, i);
      TakeStep(ys, i);
      PatchedStep(o0, to, r, d);
      out[to + i] := d;
      r, c := r + [d], e;
    }
    assert xs[..n] == xs && ys[..n] == ys;
    return c != 0, r;
  }

  lemma EmptySum(s: seq<nat>, at: nat, x: seq<nat>, y: seq<nat>)
    requires at <= |s|
    ensures Patched(s, at, []) == s && Value([]) == Value(x[..0]) == Value(y[..0]) == Shift(0, 0) == 0
  {
  }

  /** out[to..to + n] := x[at..at + n] - y[from..from + n]; the result is the borrow. The arrays may be the same. */
  method SubN(out: array<nat>, to: nat, x: array<nat>, at: nat, y: array<nat>, from: nat, n: nat)
    returns (borrow: bool, ghost r: seq<nat>)
    requires 0 < n && to + n <= out.Length && at + n <= x.Length && from + n <= y.Length
    requires (out == x ==> to <= at) && (out == y ==> to <= from)
    requires Limbed(x[at..at + n]) && Limbed(y[from..from + n])
    modifies out
    ensures |r| == n && Limbed(r) && out[..] == Patched(old(out[..]), to, r)
    ensures Value(r) + old(Value(y[from..from + n])) == old(Value(x[at..at + n])) + Shift(Bit(borrow), n)
  {
    hide Shift, Value, Patched;
    var c: nat := 0;
    ghost var o0, xs, ys := out[..], x[at..at + n], y[from..from + n];
    r := [];
    EmptySum(o0, to, xs, ys);
    for i := 0 to n
      invariant c <= 1 && |r| == i && Limbed(r) && out[..] == Patched(o0, to, r)
      invariant Value(r) + Value(ys[..i]) == Value(xs[..i]) + Shift(c, i)
    {
      if out == x {
        PatchedBeyond(o0, to, r, at + i);
        assert x[at + i] == x[..][at + i] == o0[at + i];
      }
      if out == y {
        PatchedBeyond(o0, to, r, from + i);
        assert y[from + i] == y[..][from + i] == o0[from + i];
      }
      assert x[at + i] == xs[i] && y[from + i] == ys[i];
      var d, e := SubLimb(x[at + i], y[from + i], c);
      ShiftedBorrow(c, d, e, xs[i], ys[i], i);
      ValueSnoc(r, d);
      ValueSnoc(xs[..i], xs[i]);
      ValueSnoc(ys[..i], ys[i]);
      TakeStep(xs, i);
      TakeStep(ys, i);
      PatchedStep(o0, to, r, d);
      out[to + i] := d;
      r, c := r + [d], e;
    }
    assert xs[..n] == xs && ys[..n] == ys;
    return c != 0, r;
  }

  lemma ShiftedBorrow(c: nat, d: nat, e: nat, a: nat, b: nat, k: nat)
    requires d + b + c == a + e * LIMB
    ensures Shift(d, k) + Shift(b, k) + Shift(c, k) == Shift(a, k) + Shift(e, k + 1)
  {
    hide Shift;
    ShiftSum(d + b, c, k);
    ShiftSum(d, b, k);
    ShiftSum(a, e * LIMB, k);
    ShiftOnce(e, k);
  }

  /** out[to..to + n] := x[at..at + n] + y, for a single limb y; the result is the carry. */
  method Add1(out: array<nat>, to: nat, x: array<nat>, at: nat, n: nat, y: nat)
    returns (carry: bool, ghost r: seq<nat>)
    requires 0 < n && to + n <= out.Length && at + n <= x.Length && (out == x ==> to <= at)
    requires Limbed(x[at..at + n]) && y < LIMB
    modifies out
    ensures |r| == n && Limbed(r) && out[..] == Patched(old(out[..]), to, r)
    ensures Value(r) + Shift(Bit(carry), n) == old(Value(x[at..at + n])) + y
  {
    hide Shift, Value, Patched;
    ghost var o0, xs := out[..], x[at..at + n];
    var a := x[at];
    var d, c: nat := (a + y) % LIMB, 0;
    c := if y > d then 1 else 0;
    r := [d];
    EmptySum(o0, to, xs, []);
    PatchedStep(o0, to, [], d);
    assert [] + [d] == r;
    out[to] := d;
    TakeStep(xs, 0);
    FirstLimb(d, c, a, y);
    for i := 1 to n
      invariant c <= 1 && |r| == i && Limbed(r) && out[..] == Patched(o0, to, r)
      invariant Value(r) + Shift(c, i) == Value(xs[..i]) + y
    {
      if out == x {
        PatchedBeyond(o0, to, r, at + i);
        assert x[at + i] == x[..][at + i] == o0[at + i];
      }
      a := x[at + i];
      assert a == xs[i];
      var e: nat;
      if (a + c) % LIMB < c {
        d, e := 0, c;
      } else {
        d, e := (a + c) % LIMB, 0;
      }
      CarryStep(Value(r), Value(xs[..i]) + y, i, c, a, d, e);
      ValueSnoc(r, d);
      ValueSnoc(xs[..i], a);
      TakeStep(xs, i);
      PatchedStep(o0, to, r, d);
      out[to + i] := d;
      r, c := r + [d], e;
    }
    assert xs[..n] == xs;
    return c != 0, r;
  }

  /** out[to..to + n] := x[at..at + n] - y, for a single limb y; the result is the borrow. */
  method Sub1(out: array<nat>, to: nat, x: array<nat>, at: nat, n: nat, y: nat)
    returns (borrow: bool, ghost r: seq<nat>)
    requires 0 < n && to + n <= out.Length && at + n <= x.Length && (out == x ==> to <= at)
    requires Limbed(x[at..at + n]) && y < LIMB
    modifies out
    ensures |r| == n && Limbed(r) && out[..] == Patched(old(out[..]), to, r)
    ensures Value(r) + y == old(Value(x[at..at + n])) + Shift(Bit(borrow), n)
  {
    hide Shift, Value, Patched;
    ghost var o0, xs := out[..], x[at..at + n];
    var a := x[at];
    var d, c: nat := (a - y) % LIMB, if a < y then 1 else 0;
    r := [d];
    EmptySum(o0, to, xs, []);
    PatchedStep(o0, to, [], d);
    assert [] + [d] == r;
    out[to] := d;
    TakeStep(xs, 0);
    FirstBorrow(d, c, a, y);
    for i := 1 to n
      invariant c <= 1 && |r| == i && Limbed(r) && out[..] == Patched(o0, to, r)
      invariant Value(r) + y == Value(xs[..i]) + Shift(c, i)
    {
      if out == x {
        PatchedBeyond(o0, to, r, at + i);
        assert x[at + i] == x[..][at + i] == o0[at + i];
      }
      a := x[at + i];
      assert a == xs[i];
      var e: nat;
      if a < c {
        d, e := LIMB - 1, c;
      } else {
        d, e := a - c, 0;
      }
      ShiftedBorrow(c, d, e, a, 0, i);
      ShiftZero(0, i);
      ValueSnoc(r, d);
      ValueSnoc(xs[..i], a);
      TakeStep(xs, i);
      PatchedStep(o0, to, r, d);
      out[to + i] := d;
      r, c := r + [d], e;
    }
    assert xs[..n] == xs;
    return c != 0, r;
  }

  lemma FirstLimb(d: nat, c: nat, a: nat, y: nat)
    requires d + c * LIMB == a + y
    ensures Value([d]) + Shift(c, 1) == Value([] + [a]) + y
  {
    SingleValue(d);
    SingleValue(a);
    assert [] + [a] == [a];
    ShiftIs(c, 1);
    assert LimbPower(1) == LIMB * LimbPower(0);
  }

  lemma FirstBorrow(d: nat, c: nat, a: nat, y: nat)
    requires d + y == a + c * LIMB
    ensures Value([d]) + y == Value([] + [a]) + Shift(c, 1)
  {
    SingleValue(d);
    SingleValue(a);
    assert [] + [a] == [a];
    ShiftIs(c, 1);
    assert LimbPower(1) == LIMB * LimbPower(0);
  }

  lemma SingleValue(x: nat)
    ensures Value([x]) == x
  {
    assert [x][..0] == [];
  }

  /** out[..n + 1] := x[..n] * y; both may be the same array. */
  method Mul1(out: array<nat>, x: array<nat>, n: nat, y: nat)
    requires 0 < n < out.Length && n <= x.Length && Limbed(x[..n]) && y < LIMB
    modifies out
    ensures Limbed(out[..n + 1]) && Value(out[..n + 1]) == old(Value(x[..n])) * y
    ensures out[n + 1..] == old(out[n + 1..])
  {
    hide Shift, Value, Patched;
    var hi: nat := 0;
    ghost var o0, xs := out[..], x[..n];
    ghost var r: seq<nat> := [];
    EmptySum(o0, 0, xs, []);
    for i := 0 to n
      invariant hi < LIMB && |r| == i && Limbed(r) && out[..] == Patched(o0, 0, r)
      invariant Value(r) + Shift(hi, i) == Value(xs[..i]) * y
    {
      if out == x {
        PatchedBeyond(o0, 0, r, i);
        assert x[i] == x[..][i] == o0[i];
      }
      assert x[i] == xs[i];
      var e, lo := MulUnit(x[i], y);
      var d := (hi + lo) % LIMB;
      if d < hi {
        e := e + 1;
      }
      CarryStep(Value(r), Value(xs[..i]) * y, i, hi, xs[i] * y, d, e);
      ValueSnoc(r, d);
      ValueSnoc(xs[..i], xs[i]);
      Distribute(Value(xs[..i]), Shift(xs[i], i), y);
      ShiftTimes(xs[i], y, i);
      TakeStep(xs, i);
      PatchedStep(o0, 0, r, d);
      out[i] := d;
      r, hi := r + [d], e;
    }
    PatchedStep(o0, 0, r, hi);
    ValueSnoc(r, hi);
    out[n] := hi;
    PatchedParts(o0, r + [hi]);
    assert out[..] == Patched(o0, 0, r + [hi]) && out[..n + 1] == out[..][..n + 1] && out[n + 1..] == out[..][n + 1..];
    assert xs[..n] == xs;
  }

  lemma PatchedParts(s: seq<nat>, r: seq<nat>)
    requires |r| <= |s|
    ensures Patched(s, 0, r)[..|r|] == r && Patched(s, 0, r)[|r|..] == s[|r|..]
  {
  }
}
