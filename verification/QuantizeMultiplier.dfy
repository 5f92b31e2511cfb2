/** How udiv chooses its multiplier and shift, and why the choice is right. */
module QuantizeMultiplier {
  import opened Arithmetic
  import opened Powers
  import opened Quantize

  /** o is odd, above 1, and has L bits. */
  ghost predicate OddBits(o: nat, L: nat) {
    3 <= o < DIVISOR_LIMIT && o % 2 == 1 && 2 <= L && Pow2(L - 1) < o < Pow2(L)
  }

  method ILog2(x: nat) returns (r: nat)
    requires 1 <= x < DIVISOR_LIMIT
    ensures Pow2(r) <= x < Pow2(r + 1)
  {
    var shift: nat := 0;
    WordIsPow2();
    while Pow2(shift) <= x
      invariant shift > 0 ==> Pow2(shift - 1) <= x
      decreases 30 - shift
    {
      if shift >= 30 {
        Pow2Monotone(30, shift);
      }
      shift := shift + 1;
    }
    r := shift - 1;
  }

  function Power(len: nat): (p: nat)
    ensures 1 <= p
  {
    Pow2(32 + len)
  }

  function Slack(o: nat, L: nat): nat
    requires 0 < o <= MAX_WORD
  {
    TopIs(o);
    Power(L) / Top(o)
  }

  function FirstLow(o: nat, L: nat): nat
    requires 0 < o <= MAX_WORD
  {
    Power(L) / o
  }

  function FirstHigh(o: nat, L: nat): nat
    requires 0 < o <= MAX_WORD
  {
    (Power(L) + Slack(o, L)) / o
  }

  /** The multipliers for shift len: low is too small, and high is too large by little enough. */
  ghost predicate Narrowed(o: nat, len: nat, low: nat, high: nat)
    requires 0 < o <= MAX_WORD
  {
    low == Power(len) / o && low < high && Power(len) < high * o && (high * o - Power(len)) * Top(o) <= Power(len)
  }

  lemma AboveQuotient(p: nat, o: nat, h: nat)
    requires 0 < o && p / o < h
    ensures p < h * o
  {
    DivMod(p, o);
    LessTimes(p / o, h, o);
  }

  lemma PowerSplits(L: nat)
    ensures Power(L) == Pow2(L) * WORD
  {
    WordIsPow2();
    Pow2Sum(32, L);
  }

  lemma AtMostQuotient(x: nat, d: nat, b: nat)
    requires 0 < d && b * d <= x
    ensures b <= x / d
  {
    DivMod(x, d);
    if x / d < b {
      LessTimes(x / d, b, d);
    }
  }

  lemma SlackAtLeast(o: nat, L: nat)
    requires OddBits(o, L)
    ensures o < Pow2(L) <= Slack(o, L) && Slack(o, L) * Top(o) <= Power(L)
  {
    hide Pow2, Power, Top;
    TopIs(o);
    PowerSplits(L);
    LeTimes(Top(o), WORD, Pow2(L));
    AtMostQuotient(Power(L), Top(o), Pow2(L));
    DivMod(Power(L), Top(o));
  }

  lemma NarrowStart(o: nat, L: nat)
    requires OddBits(o, L)
    ensures Narrowed(o, L, FirstLow(o, L), FirstHigh(o, L))
  {
    hide Pow2;
    TopIs(o);
    SlackAtLeast(o, L);
    var p, k, high := Power(L), Slack(o, L), FirstHigh(o, L);
    DivMod(p, o);
    DivMod(p + k, o);
    if high <= p / o {
      LeTimes(high, p / o, o);
    }
    AboveQuotient(p, o, high);
    LeTimes(high * o - p, k, Top(o));
  }

  lemma HalfPower(len: nat)
    requires len > 0
    ensures Power(len) == 2 * Power(len - 1)
  {
  }

  lemma NarrowStep(o: nat, len: nat, low: nat, high: nat)
    requires 0 < o <= MAX_WORD && Narrowed(o, len, low, high) && len > 0 && low / 2 < high / 2
    ensures Narrowed(o, len - 1, low / 2, high / 2)
  {
    HalfPower(len);
    var p, h := Power(len - 1), high / 2;
    DivDiv(2 * p, o, 2);
    DivDiv(2 * p, 2, o);
    AboveQuotient(p, o, h);
    LeTimes(2 * h, high, o);
    Regroup(2, h, o);
    LeTimes(2 * (h * o - p), high * o - 2 * p, Top(o));
    Regroup(2, h * o - p, Top(o));
  }

  /** Once the shift is below L the rounded-up multiplier fits a word. */
  lemma NarrowFits(o: nat, L: nat, len: nat, low: nat, high: nat)
    requires OddBits(o, L) && len < L && Narrowed(o, len, low, high)
    ensures high <= MAX_WORD
  {
    hide Pow2;
    TopIs(o);
    WordIsPow2();
    Pow2Monotone(len, L - 1);
    Pow2Sum(32, len);
    if high > MAX_WORD {
      LeTimes(WORD, high, o);
      LessTimes(Pow2(len), o, WORD);
      Regroup(o, WORD, 1);
      LeTimes(WORD, high * o - Power(len), Top(o));
    }
  }

  /** When narrowing stops, the rounded-up multiplier is odd. */
  lemma NarrowOdd(o: nat, len: nat, low: nat, high: nat)
    requires 3 <= o < DIVISOR_LIMIT && o % 2 == 1 && Narrowed(o, len, low, high)
    requires low / 2 >= high / 2 || len == 0
    ensures high % 2 == 1
  {
    if low / 2 < high / 2 {
      TopIs(o);
      WordIsPow2();
      var e := high * o - WORD;
      if e >= 2 {
        LeTimes(2, e, Top(o));
      }
      if high % 2 == 0 {
        Regroup(2, high / 2, o);
      }
    }
  }

  lemma NarrowExact(o: nat, len: nat, low: nat, high: nat, x: nat)
    requires 3 <= o < DIVISOR_LIMIT && o % 2 == 1 && Narrowed(o, len, low, high) && x <= MAX_WORD
    ensures high * x / Power(len) == x / o
  {
    RoundedUpIsExact(o, high, Power(len), high * o - Power(len), x);
  }

  /** When the rounded-up multiplier cannot be narrowed even once, the one rounded down is the nearer one; so the
      form with the addition never rounds up. */
  lemma AddFormRoundsDown(o: nat, L: nat)
    requires OddBits(o, L) && FirstLow(o, L) / 2 >= FirstHigh(o, L) / 2
    ensures var r := Power(L - 1) % o; 1 <= r <= o / 2 && r < Pow2(L - 1) && r * WORD <= Power(L - 1)
  {
    hide Pow2;
    HalfPower(L);
    TopIs(o);
    SlackAtLeast(o, L);
    WordIsPow2();
    Pow2Sum(32, L - 1);
    HalfPow2(L);
    PowerRemainder(o, 32 + (L - 1));
    var p, q, r := Power(L - 1), Power(L - 1) / o, Power(L - 1) % o;
    DivMod(p, o);
    if r > o / 2 {
      DivDiv(2 * p, o, 2);
      DivDiv(2 * p, 2, o);
      DivMod(2 * p + Slack(o, L), o);
      Distribute(2 * q, 2, o);
      Regroup(2, q, o);
      if FirstHigh(o, L) < 2 * q + 2 {
        LeTimes(FirstHigh(o, L) + 1, 2 * q + 2, o);
        Distribute(FirstHigh(o, L), 1, o);
      }
    }
    LeTimes(r, Pow2(L - 1), WORD);
  }

  lemma HalfPow2(L: nat)
    requires 0 < L
    ensures Pow2(L) == 2 * Pow2(L - 1)
  {
  }

  lemma AddFormFits(o: nat, L: nat)
    requires OddBits(o, L)
    ensures 0 < Power(L - 1) / o <= MAX_WORD
  {
    hide Pow2;
    WordIsPow2();
    Pow2Sum(32, L - 1);
    HalfPow2(L);
    var p, q := Power(L - 1), Power(L - 1) / o;
    DivMod(p, o);
    if q > MAX_WORD {
      LeTimes(WORD, q, o);
      LessTimes(Pow2(L - 1), o, WORD);
      Regroup(o, WORD, 1);
    }
  }

  lemma AddFormExact(o: nat, L: nat, x: nat)
    requires OddBits(o, L) && FirstLow(o, L) / 2 >= FirstHigh(o, L) / 2 && x <= MAX_WORD
    ensures Power(L - 1) / o * (x + 1) / Power(L - 1) == x / o
  {
    hide Pow2;
    AddFormRoundsDown(o, L);
    DivMod(Power(L - 1), o);
    RoundedDownIsExact(o, Power(L - 1) / o, Power(L - 1), Power(L - 1) % o, x);
  }

  /** m has at most len zeros at its end. */
  ghost predicate FewZeros(m: nat, len: nat) {
    m % Pow2(len + 1) != 0
  }

  lemma AddFormFewZeros(o: nat, L: nat, m: nat)
    requires OddBits(o, L) && FirstLow(o, L) / 2 >= FirstHigh(o, L) / 2 && m == Power(L - 1) / o
    ensures FewZeros(m, L - 1)
  {
    hide Pow2;
    AddFormRoundsDown(o, L);
    var p, r, d := Power(L - 1), Power(L - 1) % o, Pow2(L);
    DivMod(p, o);
    HalfPow2(L);
    Pow2Sum(31, L);
    if m % d == 0 {
      DivMod(m, d);
      var c := m / d;
      Regroup(c, d, o);
      Regroup(c, o, d);
      Subtract(Pow2(31), c * o, d);
      if c * o < Pow2(31) {
        LeTimes(1, Pow2(31) - c * o, d);
      } else {
        LeTimes(Pow2(31), c * o, d);
      }
    }
  }

  lemma OddFewZeros(m: nat, len: nat)
    requires m % 2 == 1
    ensures FewZeros(m, len)
  {
    var d, h := Pow2(len + 1), Pow2(len);
    if m % d == 0 {
      DivMod(m, d);
      Regroup(m / d, 2, h);
      Regroup(m / d, h, 2);
    }
  }

  lemma Cancel(a: nat, b: nat, c: nat)
    requires 0 < b && 0 < c
    ensures 0 < b * c && a * c / (b * c) == a / b
  {
    DivDiv(a * c, c, b);
    TimesModulo(a, c);
    Regroup(b, c, 1);
  }

  /** Halving an even multiplier and shifting one place less gives the same quotients. */
  lemma HalvedSame(m: nat, len: nat, y: nat)
    requires m % 2 == 0 && 0 < len
    ensures m * y / Power(len) == m / 2 * y / Power(len - 1)
  {
    HalfPower(len);
    Cancel(m / 2 * y, Power(len - 1), 2);
    Regroup(2, m / 2, y);
  }

  lemma HalvedFewZeros(m: nat, len: nat)
    requires m % 2 == 0 && FewZeros(m, len)
    ensures 0 < len && FewZeros(m / 2, len - 1)
  {
    var h, d := m / 2, Pow2(len);
    HalfPow2(len + 1);
    if h % d == 0 {
      DivMod(h, d);
      Regroup(2, h / d, d);
      Regroup(h / d, 2, d);
      TimesModulo(h / d, 2 * d);
    }
  }
}
