/** Which lines the Miller loops use: of a group of points, the multiples that the digits spell. */
module MillerLines {
  import opened Miller
  import Naf

  /** What points and lines stand for: a commutative group, the tangent at a point and the line through two, whatever
      the representation of points and the scale of lines. `negative` is the sign of the parameter of the curve. */
  datatype Points<!T, !Q, !L, !G(!new), !K> = Points(
    zero: G,
    plus: (G, G) -> G,
    neg: G -> G,
    point: T -> G,
    base: Q -> G,
    tangent: G -> K,
    chord: (G, G) -> K,
    kind: L -> K,
    negative: bool)
  {
    ghost predicate Regroups(a: G, b: G, c: G) {
      plus(plus(a, b), c) == plus(a, plus(b, c))
    }

    ghost predicate Commutes(a: G, b: G) {
      plus(a, b) == plus(b, a)
    }

    ghost predicate Cancels(a: G) {
      plus(a, neg(a)) == zero && plus(a, zero) == a
    }

    ghost predicate Group() {
      (forall a, b, c :: Regroups(a, b, c)) && (forall a, b :: Commutes(a, b)) && (forall a :: Cancels(a))
    }

    /** n times x */
    function Times(n: int, x: G): G
      decreases if n < 0 then 0 - n else n
    {
      if n == 0 then zero else if n > 0 then plus(Times(n - 1, x), x) else plus(Times(n + 1, x), neg(x))
    }

    lemma UndoOne(a: G, x: G)
      requires Group()
      ensures plus(plus(a, x), neg(x)) == a == plus(plus(a, neg(x)), x)
    {
      assert Regroups(a, x, neg(x)) && Regroups(a, neg(x), x) && Commutes(neg(x), x) && Cancels(x) && Cancels(a);
    }

    lemma TimesNext(n: int, x: G)
      requires Group()
      ensures Times(n + 1, x) == plus(Times(n, x), x) && Times(n - 1, x) == plus(Times(n, x), neg(x))
    {
      UndoOne(Times(n - 1, x), x);
      UndoOne(Times(n + 1, x), x);
    }

    lemma {:induction false} TimesSum(m: int, n: int, x: G)
      requires Group()
      ensures plus(Times(m, x), Times(n, x)) == Times(m + n, x)
      decreases if n < 0 then 0 - n else n
    {
      var a := Times(m, x);
      if n == 0 {
        assert Cancels(a);
      } else if n > 0 {
        TimesSum(m, n - 1, x);
        TimesNext(m + n - 1, x);
        assert Regroups(a, Times(n - 1, x), x);
      } else {
        TimesSum(m, n + 1, x);
        TimesNext(m + n + 1, x);
        assert Regroups(a, Times(n + 1, x), neg(x));
      }
    }

    lemma TimesDigit(x: G)
      requires Group()
      ensures Times(0, x) == zero && Times(1, x) == x && Times(-1, x) == neg(x)
    {
      assert Commutes(zero, x) && Cancels(x) && Commutes(zero, neg(x)) && Cancels(neg(x));
      assert Times(1, x) == plus(Times(0, x), x);
    }
  }

  ghost predicate Doubles<T, Q, L, P, F(!new), G(!new), K>(c: Curve<T, Q, L, P, F>, g: Points<T, Q, L, G, K>, t: T) {
    var (l, u) := c.double(t);
    g.point(u) == g.plus(g.point(t), g.point(t)) && g.kind(l) == g.tangent(g.point(t))
  }

  ghost predicate Adds<T, Q, L, P, F(!new), G(!new), K>(c: Curve<T, Q, L, P, F>, g: Points<T, Q, L, G, K>, t: T, q: Q) {
    var (l, u) := c.add(t, q);
    g.point(u) == g.plus(g.point(t), g.base(q)) && g.kind(l) == g.chord(g.point(t), g.base(q))
  }

  ghost predicate Signs<T, Q, L, P, F(!new), G(!new), K>(c: Curve<T, Q, L, P, F>, g: Points<T, Q, L, G, K>, q: Q) {
    g.base(c.negate(q)) == g.neg(g.base(q)) && g.point(c.start(q)) == g.base(q)
  }

  ghost predicate Finishes<T, Q, L, P, F(!new), G(!new), K>(c: Curve<T, Q, L, P, F>, g: Points<T, Q, L, G, K>, t: T) {
    g.point(c.finishPoint(t)) == if g.negative then g.neg(g.point(t)) else g.point(t)
  }

  /** Doubling, adding and changing the sign are what they should be, and so are their lines. */
  ghost predicate Geometric<T(!new), Q(!new), L, P, F(!new), G(!new), K>(c: Curve<T, Q, L, P, F>,
      g: Points<T, Q, L, G, K>) {
    g.Group() && (forall t :: Doubles(c, g, t)) && (forall t, q :: Adds(c, g, t, q)) && (forall q :: Signs(c, g, q)) &&
    forall t :: Finishes(c, g, t)
  }

  /** Digits of a number that starts with two ones. */
  ghost predicate Digits(si: seq<int>) {
    2 <= |si| && si[0] == 1 && si[1] == 1 && forall i :: 0 <= i < |si| ==> -1 <= si[i] <= 1
  }

  /** The number that the first i digits spell. */
  function Prefix(si: seq<int>, i: nat): int
    requires i <= |si|
  {
    Naf.Value(si[..i])
  }

  /** The place of the first line of digit i: one line for each digit before it, and another if that is not zero. */
  function Place(si: seq<int>, i: nat): (n: int)
    requires 1 <= i <= |si|
    ensures 0 <= n
  {
    i - 1 + Naf.Weight(si[1..i])
  }

  lemma {:induction false} PlaceCounts(si: seq<int>, i: nat)
    requires Digits(si) && 2 <= i <= |si|
    ensures Count(si, i) == Place(si, i)
    decreases i
  {
    PlaceNext(si, i - 1);
    if i == 2 {
      assert si[1..1] == [];
    } else {
      PlaceCounts(si, i - 1);
    }
  }

  lemma PlaceStart(si: seq<int>)
    requires 1 <= |si|
    ensures Place(si, 1) == 0
  {
    assert si[1..1] == [];
  }

  lemma PlaceNext(si: seq<int>, i: nat)
    requires 1 <= i < |si|
    ensures Place(si, i + 1) == Place(si, i) + if si[i] == 0 then 1 else 2
  {
    assert si[1..i + 1][..i - 1] == si[1..i];
  }

  lemma PrefixNext(si: seq<int>, i: nat)
    requires i < |si|
    ensures Prefix(si, i + 1) == 2 * Prefix(si, i) + si[i]
  {
    assert si[..i + 1][..i] == si[..i];
  }

  lemma PrefixStart(si: seq<int>)
    requires Digits(si)
    ensures Prefix(si, 1) == 1
  {
    PrefixNext(si, 0);
  }

  /** The lines of digit i: the tangent at the multiple spelled before it, and for a digit other than zero the line
      through twice that and the point itself or its negative. */
  ghost predicate LinesOfDigit<T, Q, L, G(!new), K>(g: Points<T, Q, L, G, K>, ls: seq<L>, q: Q, si: seq<int>, i: nat) {
    1 <= i < |si| && Place(si, i) < |ls| && (si[i] != 0 ==> Place(si, i) + 1 < |ls|) &&
    g.kind(ls[Place(si, i)]) == g.tangent(g.Times(Prefix(si, i), g.base(q))) &&
    (si[i] != 0 ==>
      g.kind(ls[Place(si, i) + 1]) == g.chord(g.Times(2 * Prefix(si, i), g.base(q)), g.Times(si[i], g.base(q))))
  }

  /** The lines of the first i digits. */
  ghost predicate LinesOfDigits<T, Q, L, G(!new), K>(g: Points<T, Q, L, G, K>, ls: seq<L>, q: Q, si: seq<int>, i: nat) {
    forall j :: 1 <= j < i ==> LinesOfDigit(g, ls, q, si, j)
  }

  /** More lines after them change nothing. */
  lemma LinesStay<T, Q, L, G(!new), K>(g: Points<T, Q, L, G, K>, ls: seq<L>, more: seq<L>, q: Q, si: seq<int>, i: nat)
    requires LinesOfDigits(g, ls, q, si, i)
    ensures LinesOfDigits(g, ls + more, q, si, i)
  {
    forall j | 1 <= j < i ensures LinesOfDigit(g, ls + more, q, si, j) {
      assert LinesOfDigit(g, ls, q, si, j);
    }
  }

  /** One digit: doubling, and adding for a digit other than zero. */
  lemma DigitDone<T(!new), Q(!new), L, P, F(!new), G(!new), K>(c: Curve<T, Q, L, P, F>, g: Points<T, Q, L, G, K>,
      n: int, t: T, q: Q)
    requires Geometric(c, g) && g.point(t) == g.Times(n, g.base(q))
    ensures var (l, t1) := c.double(t); var (m, t2) := c.add(t1, q); var (k, t3) := c.add(t1, c.negate(q));
            g.kind(l) == g.tangent(g.Times(n, g.base(q))) && g.point(t1) == g.Times(2 * n, g.base(q)) &&
            g.kind(m) == g.chord(g.Times(2 * n, g.base(q)), g.Times(1, g.base(q))) &&
            g.kind(k) == g.chord(g.Times(2 * n, g.base(q)), g.Times(-1, g.base(q))) &&
            g.point(t2) == g.Times(2 * n + 1, g.base(q)) && g.point(t3) == g.Times(2 * n - 1, g.base(q))
  {
    var x, t1 := g.base(q), c.double(t).1;
    assert Doubles(c, g, t) && Adds(c, g, t1, q) && Adds(c, g, t1, c.negate(q)) && Signs(c, g, q);
    g.TimesSum(n, n, x);
    g.TimesDigit(x);
    g.TimesNext(2 * n, x);
  }

  /** The line or lines appended for digit i, starting from the multiple spelled before it. */
  lemma DigitLines<T(!new), Q(!new), L, P, F(!new), G(!new), K>(c: Curve<T, Q, L, P, F>, g: Points<T, Q, L, G, K>,
      ls: seq<L>, t: T, q: Q, si: seq<int>, i: nat)
    requires Geometric(c, g) && 1 <= i < |si| && -1 <= si[i] <= 1 && g.point(t) == g.Times(Prefix(si, i), g.base(q))
    requires |ls| == Place(si, i) && LinesOfDigits(g, ls, q, si, i)
    ensures var (more, u) := Next(c, t, q, si[i]);
            |ls + more| == Place(si, i + 1) && g.point(u) == g.Times(Prefix(si, i + 1), g.base(q)) &&
            LinesOfDigits(g, ls + more, q, si, i + 1)
  {
    hide Place, Prefix, Geometric, LinesOfDigits;
    var (more, u) := Next(c, t, q, si[i]);
    PlaceNext(si, i);
    PrefixNext(si, i);
    DigitDone(c, g, Prefix(si, i), t, q);
    LinesStay(g, ls, more, q, si, i);
    assert LinesOfDigit(g, ls + more, q, si, i);
    assert LinesOfDigits(g, ls + more, q, si, i + 1) by {
      hide LinesOfDigit;
      LinesOneMore(g, ls + more, q, si, i);
    }
  }

  lemma LinesOneMore<T, Q, L, G(!new), K>(g: Points<T, Q, L, G, K>, ls: seq<L>, q: Q, si: seq<int>, i: nat)
    requires LinesOfDigits(g, ls, q, si, i) && LinesOfDigit(g, ls, q, si, i)
    ensures LinesOfDigits(g, ls, q, si, i + 1)
  {
  }

  /** What one digit adds. */
  function Next<T, Q, L, P, F(!new)>(c: Curve<T, Q, L, P, F>, t: T, q: Q, digit: int): (seq<L>, T) {
    var (l, t1) := c.double(t);
    if digit == 0 then
      ([l], t1)
    else
      var (m, t2) := c.add(t1, if digit > 0 then q else c.negate(q));
      ([l, m], t2)
  }

  lemma LinesNext<T, Q, L, P, F(!new)>(c: Curve<T, Q, L, P, F>, q: Q, si: seq<int>, i: nat)
    requires 2 <= i < |si|
    ensures var (ls, t) := c.Lines(q, si, i); var (more, u) := Next(c, t, q, si[i]);
            c.Lines(q, si, i + 1) == (ls + more, u)
  {
    var (ls, t) := c.Lines(q, si, i);
    var (l, t1) := c.double(t);
    if si[i] != 0 {
      var m := c.add(t1, if si[i] > 0 then q else c.negate(q)).0;
      assert ls + [l] + [m] == ls + [l, m];
    }
  }

  /** After i digits the point is the multiple that they spell. */
  lemma {:induction false} LinesReach<T(!new), Q(!new), L, P, F(!new), G(!new), K>(
      c: Curve<T, Q, L, P, F>, g: Points<T, Q, L, G, K>, q: Q, si: seq<int>, i: nat)
    requires Geometric(c, g) && Digits(si) && 2 <= i <= |si|
    ensures var (ls, t) := c.Lines(q, si, i);
            |ls| == Place(si, i) && g.point(t) == g.Times(Prefix(si, i), g.base(q)) && LinesOfDigits(g, ls, q, si, i)
    decreases i
  {
    hide Place, Prefix, Geometric, LinesOfDigits, LinesOfDigit;
    if i == 2 {
      Start(c, g, q, si);
      DigitLines(c, g, [], c.start(q), q, si, 1);
      assert c.Lines(q, si, i) == Next(c, c.start(q), q, si[1]);
      assert [] + c.Lines(q, si, i).0 == c.Lines(q, si, i).0;
    } else {
      var (ls, t) := c.Lines(q, si, i - 1);
      LinesReach(c, g, q, si, i - 1);
      DigitLines(c, g, ls, t, q, si, i - 1);
      LinesNext(c, q, si, i - 1);
    }
  }

  lemma Start<T(!new), Q(!new), L, P, F(!new), G(!new), K>(
      c: Curve<T, Q, L, P, F>, g: Points<T, Q, L, G, K>, q: Q, si: seq<int>)
    requires Geometric(c, g) && Digits(si)
    ensures Place(si, 1) == 0 && LinesOfDigits(g, [], q, si, 1)
    ensures g.point(c.start(q)) == g.Times(Prefix(si, 1), g.base(q))
  {
    assert si[1..1] == [];
    PrefixStart(si);
    assert Signs(c, g, q);
    g.TimesDigit(g.base(q));
  }

  /** The point after all digits, with its sign changed for a negative parameter. */
  function Signed<T, Q, L, G(!new), K>(g: Points<T, Q, L, G, K>, n: int): int {
    if g.negative then -n else n
  }

  lemma {:induction false} NegTimes<T, Q, L, G(!new), K>(g: Points<T, Q, L, G, K>, n: int, x: G)
    requires g.Group()
    ensures g.neg(g.Times(n, x)) == g.Times(-n, x)
  {
    var a, b := g.Times(n, x), g.Times(-n, x);
    g.TimesSum(n, -n, x);
    assert g.Cancels(a) && g.Cancels(b) && g.Regroups(b, a, g.neg(a)) && g.Commutes(a, b);
    assert g.Commutes(g.zero, g.neg(a)) && g.Cancels(g.neg(a));
  }

  /** The last two lines, from the point t after all digits. */
  lemma LastLines<T(!new), Q(!new), L, P, F(!new), G(!new), K>(c: Curve<T, Q, L, P, F>, g: Points<T, Q, L, G, K>,
      t: T, n: int, q: Q)
    requires Geometric(c, g) && g.point(t) == g.Times(n, g.base(q))
    ensures var (d, u) := c.add(c.finishPoint(t), c.frobenius1(q)); var e := c.add(u, c.frobenius2(q)).0;
            var (z, x, y) := (g.Times(Signed(g, n), g.base(q)), g.base(c.frobenius1(q)), g.base(c.frobenius2(q)));
            g.kind(d) == g.chord(z, x) && g.kind(e) == g.chord(g.plus(z, x), y)
  {
    var u := c.add(c.finishPoint(t), c.frobenius1(q)).1;
    NegTimes(g, n, g.base(q));
    assert Finishes(c, g, t) && Adds(c, g, c.finishPoint(t), c.frobenius1(q)) && Adds(c, g, u, c.frobenius2(q));
  }

  lemma LastTwoLines<T, Q, L, P, F(!new)>(c: Curve<T, Q, L, P, F>, q: Q, si: seq<int>)
    requires 2 <= |si|
    ensures var (ls, t) := c.Lines(q, si, |si|); var (d, u) := c.add(c.finishPoint(t), c.frobenius1(q));
            c.AllLines(q, si) == ls + [d, c.add(u, c.frobenius2(q)).0]
  {
  }

  /** The lines that both forms of the loop use: those of every digit; then those through the multiple that all digits
      spell, or its negative, and the two images of the point, which are added one after the other. */
  lemma LinesOfPairing<T(!new), Q(!new), L, P, F(!new), G(!new), K>(
      c: Curve<T, Q, L, P, F>, g: Points<T, Q, L, G, K>, q: Q, si: seq<int>)
    requires Geometric(c, g) && Digits(si)
    ensures LinesOfDigits(g, c.AllLines(q, si), q, si, |si|)
    ensures var (n, x, y) := (Place(si, |si|), g.base(c.frobenius1(q)), g.base(c.frobenius2(q)));
            var (ls, z) := (c.AllLines(q, si), g.Times(Signed(g, Naf.Value(si)), g.base(q)));
            |ls| == n + 2 && g.kind(ls[n]) == g.chord(z, x) && g.kind(ls[n + 1]) == g.chord(g.plus(z, x), y)
  {
    hide Geometric, LinesOfDigits, LinesOfDigit, Place, Points.Times, Signed, Curve.Lines, Naf.Value, Count;
    var (ls, t) := c.Lines(q, si, |si|);
    var (d, u) := c.add(c.finishPoint(t), c.frobenius1(q));
    var e := c.add(u, c.frobenius2(q)).0;
    LinesReach(c, g, q, si, |si|);
    assert si[..|si|] == si;
    LastLines(c, g, t, Naf.Value(si), q);
    LinesStay(g, ls, [d, e], q, si, |si|);
    LastTwoLines(c, q, si);
  }

  /** The lines of digit i at a point, multiplied. */
  function DigitValue<T, Q, L, P, F(!new)>(c: Curve<T, Q, L, P, F>, ls: seq<L>, p: P, si: seq<int>, i: nat): F
    requires 1 <= i < |si| && Place(si, i + 1) <= |ls|
  {
    PlaceNext(si, i);
    var n: nat := Place(si, i);
    if si[i] == 0 then c.Eval(ls[n], p) else c.mul(c.Eval(ls[n], p), c.Eval(ls[n + 1], p))
  }

  /** f to the power 2^k */
  function Squared<T, Q, L, P, F(!new)>(c: Curve<T, Q, L, P, F>, f: F, k: nat): F {
    if k == 0 then f else var g := Squared(c, f, k - 1); c.mul(g, g)
  }

  lemma {:induction false} SquaredProduct<T, Q, L, P, F(!new)>(c: Curve<T, Q, L, P, F>, a: F, b: F, k: nat)
    requires c.Lawful()
    ensures Squared(c, c.mul(a, b), k) == c.mul(Squared(c, a, k), Squared(c, b, k))
  {
    if k > 0 {
      SquaredProduct(c, a, b, k - 1);
      var x, y := Squared(c, a, k - 1), Squared(c, b, k - 1);
      c.Swap(x, y, x, y);
    }
  }

  /** The digits from 1 below i, each to the power of two that its place among the first n has. */
  function Weighted<T, Q, L, P, F(!new)>(c: Curve<T, Q, L, P, F>, ls: seq<L>, p: P, si: seq<int>, i: nat, n: nat): F
    requires 2 <= i <= n <= |si| && Place(si, i) <= |ls|
  {
    PlaceNext(si, i - 1);
    var f := Squared(c, DigitValue(c, ls, p, si, i - 1), n - i);
    if i == 2 then f else c.mul(Weighted(c, ls, p, si, i - 1, n), f)
  }

  lemma {:induction false} WeightedDoubles<T, Q, L, P, F(!new)>(
      c: Curve<T, Q, L, P, F>, ls: seq<L>, p: P, si: seq<int>, i: nat, n: nat)
    requires c.Lawful() && 2 <= i <= n < |si| && Place(si, i) <= |ls|
    ensures Weighted(c, ls, p, si, i, n + 1) == c.Square(Weighted(c, ls, p, si, i, n))
    decreases i
  {
    PlaceNext(si, i - 1);
    if i > 2 {
      WeightedDoubles(c, ls, p, si, i - 1, n);
      var x, y := Weighted(c, ls, p, si, i - 1, n), Squared(c, DigitValue(c, ls, p, si, i - 1), n - i);
      c.Swap(x, y, x, y);
    }
  }

  /** The loop squares and multiplies the lines of every digit to the power that its place has. */
  lemma {:induction false} FoldWeighs<T, Q, L, P, F(!new)>(
      c: Curve<T, Q, L, P, F>, ls: seq<L>, p: P, si: seq<int>, i: nat)
    requires c.Lawful() && Digits(si) && 2 <= i <= |si| && Place(si, i) <= |ls|
    ensures Count(si, i) <= |ls| && c.Fold(ls, p, si, i) == Weighted(c, ls, p, si, i, i)
    decreases i
  {
    hide Count, Place, Curve.Lawful, Curve.Fold;
    PlaceCounts(si, i);
    PlaceNext(si, i - 1);
    if i == 2 {
      PlaceStart(si);
      c.FoldStart(ls, p, si);
    } else {
      PlaceCounts(si, i - 1);
      FoldWeighs(c, ls, p, si, i - 1);
      WeightedDoubles(c, ls, p, si, i - 1, i - 1);
      c.FoldStep(ls, p, si, i - 1);
      var f, n := c.Square(c.Fold(ls, p, si, i - 1)), Place(si, i - 1);
      if si[i - 1] != 0 {
        Regrouped(c, f, c.Eval(ls[n], p), c.Eval(ls[n + 1], p));
      }
    }
  }

  lemma Regrouped<T, Q, L, P, F(!new)>(c: Curve<T, Q, L, P, F>, x: F, y: F, z: F)
    requires c.Lawful()
    ensures c.mul(c.mul(x, y), z) == c.mul(x, c.mul(y, z))
  {
    assert c.Regroups(x, y, z);
  }

  /** The value of the loop: the lines of every digit to the power of its place, finished, and the last two lines. */
  lemma ValueOfPairing<T, Q, L, P, F(!new)>(c: Curve<T, Q, L, P, F>, ls: seq<L>, p: P, si: seq<int>)
    requires c.Lawful() && Digits(si) && |ls| == Place(si, |si|) + 2
    ensures |ls| == Count(si, |si|) + 2
    ensures var f, n := c.finishField(Weighted(c, ls, p, si, |si|, |si|)), |ls|;
            c.Value(ls, p, si) == c.mul(f, c.mul(c.Eval(ls[n - 2], p), c.Eval(ls[n - 1], p)))
  {
    PlaceCounts(si, |si|);
    FoldWeighs(c, ls, p, si, |si|);
  }
}
