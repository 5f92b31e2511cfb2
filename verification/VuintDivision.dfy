/** Long division with approximated quotient limbs. */
module VuintDivision {
  import opened Arithmetic
  import opened Limbs
  import opened Vuint

  /** The number in s, scaled so that its top limb stands before the point. */
  function Scaled(s: seq<nat>): real
    requires s != []
  {
    Value(s) as real / LimbPower(|s| - 1) as real
  }

  predicate Approximates(t: real, s: seq<nat>, up: bool)
    requires s != []
  {
    if up then Scaled(s) <= t else 0.0 <= t <= Scaled(s)
  }

  /** A floating-point number near x[..xn], rounded up or down. */
  method GetApp(x: array<nat>, xn: nat, up: bool) returns (t: real)
    requires 2 <= xn <= x.Length && x[xn - 1] != 0
    ensures Approximates(t, x[..xn], up)
  {
    hide Scaled;
    ScaledNotNegative(x[..xn]);
    assert Approximates(Scaled(x[..xn]), x[..xn], up);
    t :| Approximates(t, x[..xn], up);
  }

  lemma ScaledNotNegative(s: seq<nat>)
    requires s != []
    ensures 0.0 <= Scaled(s)
  {
  }

  /** Compares x[at..at + xn] with y[..yn], longer numbers first. */
  method Compare(x: array<nat>, at: nat, xn: nat, y: array<nat>, yn: nat) returns (r: int)
    requires at + xn <= x.Length && yn <= y.Length && Limbed(x[at..at + xn]) && Limbed(y[..yn])
    ensures xn < yn ==> r < 0
    ensures xn > yn ==> r > 0
    ensures xn == yn ==> (r < 0 <==> Value(x[at..at + xn]) < Value(y[..yn])) &&
                         (r > 0 <==> Value(x[at..at + xn]) > Value(y[..yn]))
  {
    hide Value, Shift, LimbPower, Limbed;
    if xn != yn {
      return if xn > yn then 1 else -1;
    }
    ghost var xs, ys := x[at..at + xn], y[..yn];
    for i := xn downto 0
      invariant xs[i..] == ys[i..]
    {
      assert x[at + i] == xs[i] && y[i] == ys[i];
      if x[at + i] != y[i] {
        Differ(xs, ys, i);
        return if x[at + i] > y[i] then 1 else -1;
      }
      assert xs[i..] == [xs[i]] + xs[i + 1..] && ys[i..] == [ys[i]] + ys[i + 1..];
    }
    assert xs == xs[0..] && ys == ys[0..];
    return 0;
  }

  /** The topmost limb that differs decides. */
  lemma Differ(xs: seq<nat>, ys: seq<nat>, i: nat)
    requires |xs| == |ys| && i < |xs| && Limbed(xs) && Limbed(ys) && xs[i + 1..] == ys[i + 1..]
    ensures xs[i] < ys[i] ==> Value(xs) < Value(ys)
    ensures xs[i] > ys[i] ==> Value(xs) > Value(ys)
  {
    hide Value, Shift, LimbPower;
    SplitValue(xs, i + 1);
    SplitValue(ys, i + 1);
    TakeStep(xs, i);
    TakeStep(ys, i);
    ValueSnoc(xs[..i], xs[i]);
    ValueSnoc(ys[..i], ys[i]);
    ValueBound(xs[..i]);
    ValueBound(ys[..i]);
    ShiftZero(0, i);
    if xs[i] < ys[i] {
      ShiftSum(xs[i], 1, i);
      ShiftMonotone(xs[i] + 1, ys[i], i);
    } else if ys[i] < xs[i] {
      ShiftSum(ys[i], 1, i);
      ShiftMonotone(ys[i] + 1, xs[i], i);
    }
  }

  lemma RealLeTimes(a: real, b: real, c: real)
    requires a <= b && 0.0 <= c
    ensures a * c <= b * c
  {
  }

  lemma RealRegroup(a: real, b: real, c: real)
    ensures a * b * c == a * (b * c) && a * b * c == a * c * b && a * b == b * a
  {
  }

  lemma RealQuotient(v: nat, a: nat)
    requires 0 < a
    ensures v as real / a as real * a as real == v as real
  {
  }

  lemma FloorTimes(x: real, y: real)
    requires 0.0 <= x && 0.0 < y
    ensures 0 <= (x / y).Floor && (x / y).Floor as real * y <= x
  {
    var f := x / y;
    assert f * y == x;
    RealLeTimes(f.Floor as real, f, y);
  }

  lemma IntegerProduct(a: nat, b: nat, c: nat)
    ensures (a * b * c) as real == a as real * b as real * c as real
  {
    assert (a * b) as real == a as real * b as real;
  }

  /** A quotient of a number rounded down by one rounded up does not exceed the true quotient. */
  lemma FloorBound(xt: real, yt: real, x: nat, a: nat, y: nat, b: nat)
    requires 0 < a && 0 < b && 0 < y && 0.0 <= xt <= x as real / a as real && y as real / b as real <= yt
    ensures 0.0 < yt && 0 <= (xt / yt).Floor && (xt / yt).Floor * y * a <= x * b
  {
    var w, z, ar, br := x as real / a as real, y as real / b as real, a as real, b as real;
    RealQuotient(x, a);
    RealQuotient(y, b);
    FloorTimes(xt, yt);
    var f := (xt / yt).Floor;
    var fr := f as real;
    RealLeTimes(z, yt, fr);
    RealRegroup(z, fr, 1.0);
    RealRegroup(yt, fr, 1.0);
    RealLeTimes(fr * z, w, ar * br);
    RealRegroup(fr, z, ar * br);
    RealRegroup(z, ar, br);
    RealRegroup(z, br, ar);
    RealRegroup(fr, z * br, ar);
    RealRegroup(w, ar, br);
    IntegerProduct(f, y, a);
    IntegerProduct(x, b, 1);
  }

  lemma ShiftReflects(a: nat, b: nat, k: nat)
    requires Shift(a, k) < Shift(b, k) + LimbPower(k)
    ensures a <= b
  {
    hide Shift, LimbPower;
    if b < a {
      ShiftMonotone(b + 1, a, k);
      ShiftSum(b, 1, k);
      ShiftZero(0, k);
    }
  }

  lemma ShiftFurther(v: nat, i: nat, j: nat)
    requires i <= j
    ensures Shift(v, i) <= Shift(v, j)
  {
    LimbPowerMonotone(i, j);
    LeTimes(LimbPower(i), LimbPower(j), v);
  }

  /** The limbs of s from at on, as a quotient by LIMB^at. */
  lemma TopBetween(s: seq<nat>, at: nat)
    requires at <= |s| && Limbed(s)
    ensures var v := Value(s[at..]); Shift(v, at) <= Value(s) < Shift(v + 1, at) == Shift(v, at) + LimbPower(at)
  {
    hide Value, Shift, LimbPower;
    SplitValue(s, at);
    PrefixLimbed(s, at);
    ValueBound(s[..at]);
    ShiftSum(Value(s[at..]), 1, at);
    ShiftZero(0, at);
  }

  /** The divisor goes into the topmost limbs of s, but not LIMB times. */
  ghost predicate GoesInto(y: nat, s: seq<nat>, at: nat)
    requires at <= |s|
  {
    0 < y <= Value(s[at..]) < LIMB * y
  }

  /** As many limbs as the divisor has, when they are not less than the divisor. */
  lemma SameLength(s: seq<nat>, ys: seq<nat>)
    requires 2 <= |ys| <= |s| && Limbed(s) && Limbed(ys) && ys[|ys| - 1] != 0
    requires Value(ys) <= Value(s[|s| - |ys|..])
    ensures GoesInto(Value(ys), s, |s| - |ys|)
  {
    hide Value;
    var top := s[|s| - |ys|..];
    ValueAtLeast(ys);
    PartLimbed(s, |s| - |ys|, |ys|);
    ValueBound(top);
    LeTimes(LimbPower(|ys| - 1), Value(ys), LIMB);
  }

  /** One limb more, when they are. */
  lemma OneLonger(s: seq<nat>, ys: seq<nat>)
    requires 2 <= |ys| < |s| && Limbed(s) && Limbed(ys) && s[|s| - 1] != 0
    requires Value(s[|s| - |ys|..]) < Value(ys)
    ensures GoesInto(Value(ys), s, |s| - |ys| - 1)
  {
    hide Value, Shift, LimbPower;
    var k := |s| - |ys| - 1;
    var top := s[k..];
    assert top[1..] == s[|s| - |ys|..];
    PartLimbed(s, k, |ys| + 1);
    TopBetween(top, 1);
    ShiftMonotone(Value(top[1..]) + 1, Value(ys), 1);
    ShiftByOne(Value(ys));
    ValueAtLeast(top);
    ValueBound(ys);
  }

  lemma ShiftByOne(v: nat)
    ensures Shift(v, 1) == LIMB * v
  {
    assert LimbPower(1) == LIMB * LimbPower(0);
    Regroup(v, LIMB, 1);
  }

  lemma GoesIntoBetween(y: nat, s: seq<nat>, at: nat)
    requires at <= |s| && Limbed(s) && GoesInto(y, s, at)
    ensures Shift(y, at) <= Value(s) < Shift(y, at + 1)
  {
    hide Value, Shift, LimbPower;
    TopBetween(s, at);
    ShiftMonotone(y, Value(s[at..]), at);
    Regroup(LIMB, y, 1);
    ShiftMonotone(Value(s[at..]) + 1, y * LIMB, at);
    ShiftOnce(y, at);
  }

  /** The quotient of the approximations is at most that of the numbers, whether or not one limb more is used. */
  lemma DigitFits(xt: real, yt: real, s: seq<nat>, ys: seq<nat>, len: nat)
    requires 2 <= |ys| <= len <= |s| && len <= |ys| + 1 && Limbed(s) && Limbed(ys) && ys[|ys| - 1] != 0
    requires Approximates(yt, ys, true)
    requires exists xs :: Approximates(xs, s, false) && xt == if len == |ys| then xs else xs * LIMB as real
    ensures 0.0 < yt && 0 <= (xt / yt).Floor && (xt / yt).Floor * Value(ys) <= Value(s[|s| - len..])
  {
    hide Value, LimbPower, Shift;
    var x, y, at := Value(s), Value(ys), |s| - len;
    var a, b, e := LimbPower(|s| - 1), LimbPower(|ys| - 1), len - |ys|;
    ValueAtLeast(ys);
    var c := if e == 0 then 1 else LIMB;
    var xs :| Approximates(xs, s, false) && xt == if len == |ys| then xs else xs * LIMB as real;
    ScaledUp(xs, x, a, c);
    FloorBound(xt, yt, x * c, a, y, b);
    var f := (xt / yt).Floor;
    // LIMB^(|s| - 1) == LIMB^(|ys| - 1) * LIMB^e * LIMB^at
    LimbPowerSum(|ys| - 1, e);
    LimbPowerSum(|ys| - 1 + e, at);
    assert |ys| - 1 + e + at == |s| - 1;
    ExtraLimb(e, c);
    CancelPowers(f * y, x, b, c, LimbPower(at), a);
    ShiftIs(f * y, at);
    TopBetween(s, at);
    ShiftReflects(f * y, Value(s[at..]), at);
  }

  lemma ExtraLimb(e: nat, c: nat)
    requires e <= 1 && c == if e == 0 then 1 else LIMB
    ensures LimbPower(e) == c
  {
    assert LimbPower(1) == LIMB * LimbPower(0);
  }

  lemma ScaledUp(xs: real, x: nat, a: nat, c: nat)
    requires 0 < a && 0.0 <= xs <= x as real / a as real
    ensures 0.0 <= xs * c as real <= (x * c) as real / a as real
  {
    var w := x as real / a as real;
    RealLeTimes(xs, w, c as real);
    RealQuotient(x, a);
    RealRegroup(w, c as real, a as real);
    IntegerProduct(x, c, 1);
    RealQuotient(x * c, a);
    SameFactor(w * c as real, (x * c) as real / a as real, a as real);
  }

  lemma SameFactor(p: real, q: real, a: real)
    requires a > 0.0 && p * a == q * a
    ensures p == q
  {
  }

  lemma CancelPowers(n: nat, x: nat, b: nat, c: nat, d: nat, a: nat)
    requires 0 < b && 0 < c && a == b * c * d && n * a <= x * c * b
    ensures n * d <= x
  {
    Regroup(b, c, d);
    Regroup(n, b * c, d);
    Regroup(n, d, b * c);
    Regroup(x, c, b);
    Regroup(c, b, 1);
    LeTimes(1, b, c);
    if n * d > x {
      LessTimes(x, n * d, b * c);
    }
  }

  /** Below limb `at` the quotient is still zero, and what is left would not fill limb `at`. */
  ghost predicate DigitsLeft(qs: seq<nat>, at: nat, x: nat, y: nat) {
    at < |qs| && (forall i :: 0 <= i < at ==> qs[i] == 0) && x + Shift(y * qs[at], at) < Shift(y, at + 1)
  }

  lemma MoveDown(qs: seq<nat>, p: nat, at: nat, x: nat, y: nat)
    requires DigitsLeft(qs, p, x, y) && Shift(y, at) <= x < Shift(y, at + 1)
    ensures at <= p && DigitsLeft(qs, at, x, y)
  {
    hide Shift;
    if at > p {
      ShiftFurther(y, p + 1, at);
    } else if at < p {
      ShiftZero(0, at);
    }
  }

  /** Adding d to quotient limb at takes d * y off, and the limb does not overflow. */
  lemma AddDigit(qs: seq<nat>, at: nat, d: nat, x: nat, y: nat, rest: nat, x0: nat)
    requires DigitsLeft(qs, at, x, y) && Limbed(qs) && 0 < y && rest + Shift(d * y, at) == x
    requires x0 == Value(qs) * y + x
    ensures qs[at] + d < LIMB
    ensures var n := qs[at := qs[at] + d]; Limbed(n) && DigitsLeft(n, at, rest, y) && x0 == Value(n) * y + rest
  {
    hide Shift, Value;
    var n := qs[at := qs[at] + d];
    Regroup(d, y, 1);
    Distribute(qs[at], d, y);
    Regroup(y, qs[at], 1);
    Regroup(y, n[at], 1);
    ShiftSum(y * qs[at], d * y, at);
    DigitBound(y, n[at], at);
    UpdatedValue(qs, at, d);
    Distribute(Value(qs), Shift(d, at), y);
    ShiftTimes(d, y, at);
  }

  lemma DigitBound(y: nat, d: nat, at: nat)
    requires Shift(y * d, at) < Shift(y, at + 1)
    ensures d < LIMB
  {
    ShiftOnce(y, at);
    if d >= LIMB {
      LeTimes(LIMB, d, y);
      ShiftMonotone(y * LIMB, y * d, at);
    }
  }

  lemma UpdatedValue(qs: seq<nat>, at: nat, d: nat)
    requires at < |qs|
    ensures Value(qs[at := qs[at] + d]) == Value(qs) + Shift(d, at)
  {
    hide Value, Shift;
    var r := [qs[at] + d];
    assert qs[at := qs[at] + d] == Patched(qs, at, r);
    PatchedValue(qs, at, r);
    OneLimb(r);
    OneLimb(qs[at..at + 1]);
    assert r[..1] == r && qs[at..at + 1][..1] == qs[at..at + 1];
    ShiftSum(qs[at], d, at);
  }

  /** The product taken off fits the limbs it is taken off from, and needs no borrow. */
  lemma NoBorrow(s: seq<nat>, at: nat, ts: seq<nat>, len: nat, r: seq<nat>, borrow: bool)
    requires at + len == |s| && Limbed(s) && Limbed(ts) && len <= |ts| && |r| == len && Limbed(r)
    requires Value(ts) <= Value(s[at..])
    requires Value(r) + Value(ts[..len]) == Value(s[at..]) + Shift(Bit(borrow), len)
    ensures !borrow && Value(ts[..len]) == Value(ts)
  {
    hide Value, Shift, LimbPower, Limbed;
    SplitValue(ts, len);
    PartLimbed(s, at, len);
    ValueBound(s[at..]);
    ValueBound(r);
    ShiftZero(0, len);
    if Value(ts[len..]) > 0 {
      ShiftMonotone(1, Value(ts[len..]), len);
    }
  }

  lemma ZerosAbove(s: seq<nat>, n: nat)
    requires n <= |s| && forall i :: n <= i < |s| ==> s[i] == 0
    ensures Value(s) == Value(s[..n])
  {
    hide Value, Shift;
    SplitValue(s, n);
    ValueZeros(s[n..]);
    ShiftZero(0, n);
  }

  lemma PatchedPrefix(s: seq<nat>, at: nat, r: seq<nat>, n: nat)
    requires at + |r| <= n <= |s|
    ensures Patched(s, at, r)[..n] == Patched(s[..n], at, r)
    ensures forall i :: n <= i < |s| ==> Patched(s, at, r)[i] == s[i]
  {
  }

  /** One subtraction of the division: d times y is taken off x at limb `at`. */
  lemma TakenOff(s: seq<nat>, at: nat, r: seq<nat>, d: nat, y: nat)
    requires at + |r| == |s| && Value(r) + d * y == Value(s[at..])
    ensures Value(Patched(s, at, r)) + Shift(d * y, at) == Value(s)
  {
    hide Value, Shift;
    PatchedValue(s, at, r);
    assert s[at..at + |r|] == s[at..];
    ShiftSum(Value(r), d * y, at);
  }

  /** A shorter number, or one that compares as less, is less. */
  lemma Finished(s: seq<nat>, ys: seq<nat>)
    requires Limbed(s) && ys != [] && ys[|ys| - 1] != 0 && |s| < |ys|
    ensures Value(s) < Value(ys)
  {
    hide Value, LimbPower;
    ValueBound(s);
    ValueAtLeast(ys);
    LimbPowerMonotone(|s|, |ys| - 1);
  }

  lemma StillMore(s: seq<nat>, ys: seq<nat>)
    requires Limbed(ys) && s != [] && s[|s| - 1] != 0 && |s| > |ys|
    ensures Value(s) > Value(ys)
  {
    hide Value, LimbPower;
    ValueBound(ys);
    ValueAtLeast(s);
    LimbPowerMonotone(|ys|, |s| - 1);
  }

  /** The position of the first quotient limb. */
  lemma FirstDigit(qs: seq<nat>, s: seq<nat>, ys: seq<nat>)
    requires 2 <= |ys| <= |s| && Limbed(s) && ys[|ys| - 1] != 0 && |qs| == |s| - |ys| + 1
    requires forall i :: 0 <= i < |qs| ==> qs[i] == 0
    ensures DigitsLeft(qs, |s| - |ys|, Value(s), Value(ys)) && Value(qs) == 0
  {
    hide Value;
    ValueZeros(qs);
    ValueBound(s);
    ValueAtLeast(ys);
    var k := |s| - |ys| + 1;
    LimbPowerSum(|ys| - 1, k);
    LeTimes(LimbPower(|ys| - 1), Value(ys), LimbPower(k));
    ShiftIs(Value(ys), k);
    ShiftZero(0, |s| - |ys|);
    Regroup(Value(ys), 0, 1);
  }

  /** One round: how far to shift the divisor, and an approximate quotient limb that is not too large. */
  method Digit(x: array<nat>, xn: nat, y: array<nat>, yn: nat, yt: real) returns (len: nat, qt: nat)
    requires 2 <= yn <= xn <= x.Length && yn <= y.Length && Limbed(x[..xn]) && Limbed(y[..yn])
    requires x[xn - 1] != 0 && y[yn - 1] != 0 && Approximates(yt, y[..yn], true)
    requires Value(y[..yn]) <= Value(x[..xn])
    ensures yn <= len <= xn && len <= yn + 1 && 1 <= qt < LIMB
    ensures GoesInto(Value(y[..yn]), x[..xn], xn - len) && qt * Value(y[..yn]) <= Value(x[..xn][xn - len..])
  {
    hide Value, Shift, LimbPower, Limbed, GoesInto, Approximates;
    ghost var s, ys := x[..xn], y[..yn];
    len := yn;
    var xt := GetApp(x, xn, false);
    PartLimbed(s, xn - len, yn);
    assert s[xn - len..xn - len + yn] == x[xn - len..xn - len + yn] == s[xn - len..];
    var c := Compare(x, xn - len, yn, y, yn);
    if c < 0 {
      Longer(s, ys);
      OneLonger(s, ys);
      DigitFitsLonger(xt, yt, s, ys);
      xt := xt * LIMB as real;
      len := len + 1;
    } else {
      SameLength(s, ys);
      DigitFitsSame(xt, yt, s, ys);
    }
    qt := (xt / yt).Floor;
    DigitSmall(s, Value(ys), xn - len, qt);
    if qt == 0 {
      qt := 1;
    }
  }

  lemma DigitSmall(s: seq<nat>, y: nat, at: nat, qt: nat)
    requires at <= |s| && GoesInto(y, s, at) && qt * y <= Value(s[at..])
    ensures qt < LIMB && 1 * y <= Value(s[at..])
  {
    if qt >= LIMB {
      LeTimes(LIMB, qt, y);
    }
  }

  /** If the top limbs are less than the divisor, the number has more limbs than the divisor. */
  lemma Longer(s: seq<nat>, ys: seq<nat>)
    requires |ys| <= |s| && Value(ys) <= Value(s) && Value(s[|s| - |ys|..]) < Value(ys)
    ensures |ys| < |s|
  {
    assert s[0..] == s;
  }

  lemma DigitFitsLonger(xt: real, yt: real, s: seq<nat>, ys: seq<nat>)
    requires 2 <= |ys| < |s| && Limbed(s) && Limbed(ys) && ys[|ys| - 1] != 0
    requires Approximates(yt, ys, true) && Approximates(xt, s, false)
    ensures var x := xt * LIMB as real;
            0.0 < yt && 0 <= (x / yt).Floor && (x / yt).Floor * Value(ys) <= Value(s[|s| - |ys| - 1..])
  {
    DigitFits(xt * LIMB as real, yt, s, ys, |ys| + 1);
  }

  lemma DigitFitsSame(xt: real, yt: real, s: seq<nat>, ys: seq<nat>)
    requires 2 <= |ys| <= |s| && Limbed(s) && Limbed(ys) && ys[|ys| - 1] != 0
    requires Approximates(yt, ys, true) && Approximates(xt, s, false)
    ensures 0.0 < yt && 0 <= (xt / yt).Floor && (xt / yt).Floor * Value(ys) <= Value(s[|s| - |ys|..])
  {
    DigitFits(xt, yt, s, ys, |ys|);
  }

  /** The buffer, if there is one, holds the quotient limbs so far. */
  ghost predicate Stored(q: array?<nat>, qs: seq<nat>)
    reads q
  {
    q != null ==> q[..] == qs
  }

  /** Takes qt times the divisor off x, and adds qt to the quotient. */
  method TakeOff(q: array?<nat>, x: array<nat>, xn0: nat, xn: nat, y: array<nat>, yn: nat, t: array<nat>, len: nat,
                 qt: nat, ghost qs: seq<nat>, ghost at: nat, ghost x0: nat)
    returns (ghost ds: seq<nat>)
    requires 2 <= yn <= len <= xn <= xn0 <= x.Length && yn <= y.Length && len <= yn + 1 == t.Length
    requires q != x && q != y && x != y && t != q && t != x && t != y
    requires |qs| == xn0 - yn + 1 && Stored(q, qs) && 1 <= qt < LIMB
    requires Limbed(qs) && Limbed(x[..xn0]) && Limbed(y[..yn])
    requires forall i :: xn <= i < xn0 ==> x[i] == 0
    requires Value(x[..xn]) == Value(x[..xn0]) && 0 < Value(y[..yn])
    requires GoesInto(Value(y[..yn]), x[..xn], xn - len) && qt * Value(y[..yn]) <= Value(x[..xn][xn - len..])
    requires DigitsLeft(qs, at, Value(x[..xn0]), Value(y[..yn]))
    requires x0 == Value(qs) * Value(y[..yn]) + Value(x[..xn0])
    modifies q, x, t
    ensures |ds| == |qs| && Stored(q, ds)
    ensures Limbed(ds) && Limbed(x[..xn0]) && (forall i :: xn <= i < xn0 ==> x[i] == 0)
    ensures DigitsLeft(ds, xn - len, Value(x[..xn0]), Value(y[..yn]))
    ensures x0 == Value(ds) * Value(y[..yn]) + Value(x[..xn0]) && Value(x[..xn0]) < old(Value(x[..xn0]))
  {
    hide Value, Shift, LimbPower, GoesInto, Patched, DigitsLeft, Limbed;
    var k := xn - len;
    ghost var s, ys, whole := x[..xn], Value(y[..yn]), x[..];
    Mul1(t, y, yn, qt);
    ghost var ts := t[..yn + 1];
    assert ts[..len] == t[..len];
    PrefixLimbed(x[..xn0], xn);
    assert x[..xn0][..xn] == s;
    PartLimbed(s, k, len);
    PrefixLimbed(ts, len);
    assert s[k..k + len] == x[k..k + len] == s[k..];
    Regroup(ys, qt, 1);
    var borrow, r := SubN(x, k, x, k, t, 0, len);
    NoBorrow(s, k, ts, len, r, borrow);
    ShiftZero(0, len);
    TakenOff(s, k, r, qt, ys);
    AfterTakingOff(whole, x[..], k, r, xn, xn0);
    GoesIntoBetween(ys, s, k);
    MoveDown(qs, at, k, Value(s), ys);
    AddDigit(qs, k, qt, Value(s), ys, Value(x[..xn0]), x0);
    Progress(qt, ys, k);
    DigitsIndex(qs, k, Value(s), ys);
    ds := qs[k := qs[k] + qt];
    if q != null {
      q[k] := q[k] + qt;
    }
  }

  lemma DigitsIndex(qs: seq<nat>, at: nat, x: nat, y: nat)
    requires DigitsLeft(qs, at, x, y)
    ensures at < |qs|
  {
  }

  lemma Progress(qt: nat, y: nat, k: nat)
    requires 1 <= qt && 1 <= y
    ensures 0 < Shift(qt * y, k)
  {
    LeTimes(1, qt, y);
    LeTimes(1, qt * y, LimbPower(k));
  }

  lemma AfterTakingOff(whole: seq<nat>, now: seq<nat>, k: nat, r: seq<nat>, xn: nat, xn0: nat)
    requires k + |r| == xn <= xn0 <= |whole| && now == Patched(whole, k, r) && Limbed(whole[..xn0]) && Limbed(r)
    requires forall i :: xn <= i < xn0 ==> whole[i] == 0
    ensures |now| == |whole| && Limbed(now[..xn0]) && forall i :: xn <= i < xn0 ==> now[i] == 0
    ensures Value(now[..xn0]) == Value(Patched(whole[..xn], k, r))
  {
    hide Value;
    PatchedPrefix(whole, k, r, xn);
    assert now[..xn0][..xn] == now[..xn];
    ZerosAbove(now[..xn0], xn);
    forall i | 0 <= i < xn0
      ensures now[i] < LIMB
    {
      assert now[i] == if k <= i < k + |r| then r[i - k] else whole[..xn0][i];
    }
  }

  lemma Ends(s: seq<nat>, ys: seq<nat>)
    requires Limbed(s) && ys != [] && ys[|ys| - 1] != 0 && (|s| < |ys| || (|s| == |ys| && Value(s) < Value(ys)))
    ensures Value(s) < Value(ys)
  {
    if |s| < |ys| {
      Finished(s, ys);
    }
  }

  lemma Begins(s: seq<nat>, ys: seq<nat>)
    requires Limbed(ys) && 2 <= |ys| <= |s| && s[|s| - 1] != 0 && ys[|ys| - 1] != 0
    requires |s| == |ys| ==> Value(s) >= Value(ys)
    ensures Value(ys) <= Value(s) && 0 < Value(ys)
  {
    ValueAtLeast(ys);
    if |s| > |ys| {
      StillMore(s, ys);
    }
  }

  /** Divides x[..xn0] by y[..yn]: x becomes the remainder, of xn limbs, and q the quotient, if it is wanted. */
  method Div(q: array?<nat>, x: array<nat>, xn0: nat, y: array<nat>, yn: nat) returns (xn: nat, ghost qs: seq<nat>)
    requires 2 <= yn <= xn0 <= x.Length && yn <= y.Length && (q != null ==> q.Length == xn0 - yn + 1)
    requires q != x && q != y && x != y && Limbed(x[..xn0]) && Limbed(y[..yn]) && x[xn0 - 1] != 0 && y[yn - 1] != 0
    modifies q, x
    ensures |qs| == xn0 - yn + 1 && Stored(q, qs)
    ensures xn <= xn0 && Limbed(qs) && Limbed(x[..xn0]) && forall i :: xn <= i < xn0 ==> x[i] == 0
    ensures Value(x[..xn]) < old(Value(y[..yn]))
    ensures old(Value(x[..xn0])) == Value(qs) * old(Value(y[..yn])) + Value(x[..xn])
  {
    hide Value, Shift, LimbPower, GoesInto, Approximates, Patched, DigitsLeft;
    ghost var ys, x0 := y[..yn], Value(x[..xn0]);
    xn := xn0;
    qs := seq(xn0 - yn + 1, _ => 0);
    if q != null {
      for i := 0 to xn0 - yn + 1
        invariant forall j :: 0 <= j < i ==> q[j] == 0
        invariant x[..] == old(x[..])
      {
        q[i] := 0;
      }
    }
    FirstDigit(qs, x[..xn0], ys);
    ghost var at: nat := xn0 - yn;
    var t := new nat[yn + 1];
    var yt := GetApp(y, yn, true);
    while true
      invariant yn - 1 <= xn <= xn0 && Limbed(x[..xn0]) && (xn >= yn ==> x[xn - 1] != 0)
      invariant forall i :: xn <= i < xn0 ==> x[i] == 0
      invariant y[..yn] == ys && fresh(t) && |qs| == xn0 - yn + 1 && Stored(q, qs)
      invariant Limbed(qs) && DigitsLeft(qs, at, Value(x[..xn0]), Value(ys))
      invariant x0 == Value(qs) * Value(ys) + Value(x[..xn0])
      decreases Value(x[..xn0])
    {
      ghost var s := x[..xn];
      PrefixLimbed(x[..xn0], xn);
      assert x[..xn0][..xn] == s == x[0..xn];
      ZerosAbove(x[..xn0], xn);
      var c := Compare(x, 0, xn, y, yn);
      if c < 0 {
        Ends(s, ys);
        break;
      }
      Begins(s, ys);
      var len, qt := Digit(x, xn, y, yn, yt);
      qs := TakeOff(q, x, xn0, xn, y, yn, t, len, qt, qs, at, x0);
      at := xn - len;
      while xn >= yn && x[xn - 1] == 0
        invariant yn - 1 <= xn <= xn0 && forall i :: xn <= i < xn0 ==> x[i] == 0
      {
        xn := xn - 1;
      }
    }
  }
}
