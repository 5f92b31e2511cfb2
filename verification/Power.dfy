/** Exponentiation from the lowest bit up, in any monoid. */
module Power {
  import opened Arithmetic
  import opened Powers
  import opened ScalarMult

  ghost predicate Unchanged<G(!new)>(g: Group<G>, a: G) {
    g.add(g.zero, a) == a == g.add(a, g.zero)
  }

  ghost predicate Neutral<G(!new)>(g: Group<G>) {
    g.Associative() && forall a :: Unchanged(g, a)
  }

  lemma AnyTimesSum<G(!new)>(g: Group<G>, x: G, m: nat, n: nat)
    requires Neutral(g)
    ensures g.add(g.Times(x, m), g.Times(x, n)) == g.Times(x, m + n)
  {
    if m > 0 && n > 0 {
      TimesSum(g, x, m, n);
    } else {
      assert Unchanged(g, g.Times(x, m)) && Unchanged(g, g.Times(x, n));
    }
  }

  /** v & (1 << j) */
  predicate Bit(v: nat, j: nat) {
    v / Pow2(j) % 2 == 1
  }

  /** The lowest j bits of v. */
  function Low(v: nat, j: nat): nat {
    v % Pow2(j)
  }

  lemma LowStep(v: nat, j: nat)
    ensures Low(v, j + 1) == Low(v, j) + if Bit(v, j) then Pow2(j) else 0
  {
    hide Pow2;
    var p, q, r := Pow2(j), v / Pow2(j), v % Pow2(j);
    Pow2Sum(1, j);
    assert Pow2(1) == 2 by { OneIsTwo(); }
    DivMod(v, p);
    DivMod(q, 2);
    Distribute(q / 2 * 2, q % 2, p);
    Regroup(q / 2, 2, p);
    QuotientRemainder(v, 2 * p, q / 2, q % 2 * p + r);
  }

  lemma OneIsTwo()
    ensures Pow2(1) == 2 && Pow2(0) == 1
  {
    assert Pow2(0) == 1;
  }

  lemma LowAll(v: nat, j: nat)
    requires v < Pow2(j)
    ensures Low(v, j) == v && Low(v, 0) == 0
  {
    hide Pow2;
    OneIsTwo();
    QuotientRemainder(v, Pow2(j), 0, v);
    QuotientRemainder(v, 1, v, 0);
  }

  /** Without its topmost bit, if that is zero, a number fits one bit less. */
  lemma TopBitZero(v: nat, m: nat)
    requires 1 <= m && v < Pow2(m) && !Bit(v, m - 1)
    ensures v < Pow2(m - 1)
  {
    LowStep(v, m - 1);
    LowAll(v, m);
    DivMod(v, Pow2(m - 1));
  }

  /** The weight of word i. */
  function Weight(i: nat, w: nat): nat {
    if i == 0 then 1 else Weight(i - 1, w) * Pow2(w)
  }

  lemma {:induction false} ValueOfPrefix(m: seq<nat>, i: nat, w: nat)
    requires i < |m|
    ensures Value(m[..i + 1], w) == Value(m[..i], w) + m[i] * Weight(i, w)
    decreases i
  {
    hide Pow2;
    if i == 0 {
      assert m[..1][1..] == [] && m[..1][0] == m[0];
    } else {
      var a, b := m[..i], m[..i + 1];
      assert b[1..] == m[1..][..i] && a[1..] == m[1..][..i - 1];
      ValueOfPrefix(m[1..], i - 1, w);
      Distribute(Value(a[1..], w), m[i] * Weight(i - 1, w), Pow2(w));
      Regroup(m[i], Weight(i - 1, w), Pow2(w));
    }
  }

  /** One bit: t is x to the power p * 2^j, and so its square is x to the power p * 2^(j + 1). */
  lemma OneBit<G(!new)>(g: Group<G>, x: G, base: nat, v: nat, j: nat, p: nat)
    requires Neutral(g)
    ensures g.add(g.Times(x, p * Pow2(j)), g.Times(x, p * Pow2(j))) == g.Times(x, p * Pow2(j + 1))
    ensures g.Times(x, base + Low(v, j + 1) * p) ==
            if Bit(v, j) then g.add(g.Times(x, base + Low(v, j) * p), g.Times(x, p * Pow2(j)))
            else g.Times(x, base + Low(v, j) * p)
  {
    hide Neutral, Low, Bit, Pow2;
    LowStep(v, j);
    Pow2Sum(1, j);
    OneIsTwo();
    Regroup(p, 2, Pow2(j));
    AnyTimesSum(g, x, p * Pow2(j), p * Pow2(j));
    Distribute(Low(v, j), Pow2(j), p);
    Regroup(p, Pow2(j), 1);
    AnyTimesSum(g, x, base + Low(v, j) * p, p * Pow2(j));
  }

  /** The number of bits to look at: all of a word, but of the last word none above its highest one. */
  method BitCount(v: nat, last: bool, w: nat) returns (m: nat)
    requires v < Pow2(w)
    ensures m <= w && v < Pow2(m) && (!last ==> m == w)
  {
    hide Pow2;
    m := w;
    if last {
      while m > 0 && !Bit(v, m - 1)
        invariant m <= w && v < Pow2(m)
      {
        TopBitZero(v, m);
        m := m - 1;
      }
    }
  }

  lemma Start<G(!new)>(g: Group<G>, x: G, y: seq<nat>, w: nat)
    ensures g.Times(x, Value(y[..0], w)) == g.zero && g.Times(x, Weight(0, w)) == x
  {
  }

  lemma Begin(v: nat, m: nat, base: nat, p: nat)
    requires v < Pow2(m)
    ensures base + Low(v, 0) * p == base && p * Pow2(0) == p && Low(v, m) == v
  {
    LowAll(v, m);
    OneIsTwo();
  }

  lemma NextWeight(i: nat, w: nat)
    ensures Weight(i + 1, w) == Weight(i, w) * Pow2(w)
  {
  }

  /** x multiplied by itself as often as the words y say. */
  method Raise<G(!new)>(g: Group<G>, x: G, y: seq<nat>, w: nat) returns (out: G)
    requires Neutral(g) && Words(y, w)
    ensures out == g.Times(x, Value(y, w))
  {
    hide Neutral, Value, Pow2, Low, Weight, Bit;
    out := g.zero;
    var t := x;
    Start(g, x, y, w);
    for i := 0 to |y|
      invariant out == g.Times(x, Value(y[..i], w))
      invariant i < |y| ==> t == g.Times(x, Weight(i, w))
    {
      var v := y[i];
      var m := BitCount(v, i == |y| - 1, w);
      ghost var base, p := Value(y[..i], w), Weight(i, w);
      Begin(v, m, base, p);
      for j := 0 to m
        invariant out == g.Times(x, base + Low(v, j) * p) && t == g.Times(x, p * Pow2(j))
      {
        OneBit(g, x, base, v, j, p);
        if Bit(v, j) {
          out := g.add(out, t);
        }
        t := g.add(t, t);
      }
      ValueOfPrefix(y, i, w);
      NextWeight(i, w);
    }
    assert y[..|y|] == y;
  }
}
