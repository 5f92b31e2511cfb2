/** Powers of two, the level of a left-balanced tree, and the index at which it splits. */
module Powers {

  function Pow2(k: nat): (r: nat)
    ensures 1 <= r
  {
    if k == 0 then 1 else 2 * Pow2(k - 1)
  }

  lemma {:induction false} Pow2Sum(a: nat, b: nat)
    ensures Pow2(a + b) == Pow2(a) * Pow2(b)
  {
    if a == 0 {
    } else {
      Pow2Sum(a - 1, b);
      assert a + b - 1 == (a - 1) + b;
    }
  }

  lemma {:induction false} Pow2Monotone(a: nat, b: nat)
    requires a <= b
    ensures Pow2(a) <= Pow2(b)
    decreases b
  {
    if a < b {
      Pow2Monotone(a, b - 1);
    }
  }

  lemma Pow2Strict(a: nat, b: nat)
    requires a < b
    ensures 2 * Pow2(a) <= Pow2(b)
  {
    Pow2Monotone(a + 1, b);
  }

  lemma Pow2Reflects(a: nat, b: nat)
    requires Pow2(a) < Pow2(b)
    ensures a < b
  {
    if b <= a {
      Pow2Monotone(b, a);
    }
  }

  /** x shifted left by k bits. */
  function Shl(x: nat, k: nat): nat
    decreases k
  {
    if k == 0 then x else Shl(2 * x, k - 1)
  }

  lemma {:induction false} ShlAdd(x: nat, y: nat, k: nat)
    ensures Shl(x + y, k) == Shl(x, k) + Shl(y, k)
    decreases k
  {
    if k > 0 {
      ShlAdd(2 * x, 2 * y, k - 1);
    }
  }

  lemma {:induction false} ShlTimes(x: nat, k: nat)
    ensures Shl(x, k) == x * Pow2(k)
    decreases k
  {
    if k > 0 {
      ShlTimes(2 * x, k - 1);
    }
  }

  /** The least d with n <= 2^d. */
  function Level(n: nat): (d: nat)
    requires 1 <= n
    ensures n <= Pow2(d)
    ensures 1 < n ==> 1 <= d && Pow2(d - 1) < n
    ensures n == 1 ==> d == 0
  {
    if n == 1 then 0 else 1 + Level((n + 1) / 2)
  }

  lemma LevelUnique(n: nat, d: nat)
    requires 1 <= n <= Pow2(d)
    requires d == 0 || Pow2(d - 1) < n
    ensures Level(n) == d
  {
    var e := Level(n);
    if e < d {
      Pow2Monotone(e, d - 1);
    } else if d < e {
      Pow2Monotone(d, e - 1);
    }
  }

  lemma LevelMonotone(m: nat, n: nat)
    requires 1 <= m <= n
    ensures Level(m) <= Level(n)
  {
    if 1 < m {
      Pow2Reflects(Level(m) - 1, Level(n));
    }
  }

  /** The largest power of two strictly below n: where a left-balanced tree of n leaves forks. */
  function Split(n: nat): (k: nat)
    requires 2 <= n
    ensures 1 <= k < n <= 2 * k
  {
    Pow2(Level(n) - 1)
  }

  lemma SplitUnique(n: nat, d: nat)
    requires Pow2(d) < n <= 2 * Pow2(d)
    ensures Split(n) == Pow2(d) && Level(n) == d + 1
  {
    assert Pow2(d + 1) == 2 * Pow2(d);
    LevelUnique(n, d + 1);
  }

  lemma SplitLevels(n: nat)
    requires 2 <= n
    ensures Level(Split(n)) == Level(n) - 1
    ensures Level(n - Split(n)) <= Level(n) - 1
  {
    var d := Level(n) - 1;
    if d > 0 {
      Pow2Strict(d - 1, d);
    }
    LevelUnique(Split(n), d);
    LevelMonotone(n - Split(n), Split(n));
  }

  ghost predicate IsPow2(n: nat)
    requires 1 <= n
  {
    n == Pow2(Level(n))
  }

  lemma SplitIsPow2(n: nat)
    requires 2 <= n
    ensures IsPow2(Split(n))
  {
    SplitLevels(n);
  }

  /** A tree that is not full can take one more leaf without moving its fork. */
  lemma SplitStable(n: nat, m: nat)
    requires 2 <= n && Split(n) < m <= 2 * Split(n)
    ensures Split(m) == Split(n)
  {
    SplitUnique(m, Level(n) - 1);
  }

  /** Past a power of two the fork is that power. */
  lemma SplitAfterPow2(k: nat, m: nat)
    requires 1 <= k && IsPow2(k) && k < m <= 2 * k
    ensures Split(m) == k
  {
    SplitUnique(m, Level(k));
  }
}
