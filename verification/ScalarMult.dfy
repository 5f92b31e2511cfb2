/** Word by word double-and-add in any group. */
module ScalarMult {
  import opened Arithmetic
  import opened Powers

  /** An associative operation, and what stands for nothing added up. */
  datatype Group<!G(!new)> = Group(add: (G, G) -> G, zero: G) {
    ghost predicate Regroups(a: G, b: G, c: G) {
      add(add(a, b), c) == add(a, add(b, c))
    }

    ghost predicate Associative() {
      forall a, b, c :: Regroups(a, b, c)
    }

    /** x added up n times. */
    function Times(x: G, n: nat): G
    {
      if n == 0 then zero else if n == 1 then x else add(Times(x, n - 1), x)
    }
  }

  lemma {:induction false} TimesSum<G(!new)>(g: Group<G>, x: G, m: nat, n: nat)
    requires g.Associative() && 1 <= m && 1 <= n
    ensures g.add(g.Times(x, m), g.Times(x, n)) == g.Times(x, m + n)
    decreases n
  {
    if n > 1 {
      TimesSum(g, x, m, n - 1);
      assert g.Regroups(g.Times(x, m), g.Times(x, n - 1), x);
    }
  }

  /** The number in little-endian words of w bits. */
  function Value(words: seq<nat>, w: nat): nat {
    if words == [] then 0 else Value(words[1..], w) * Pow2(w) + words[0]
  }

  ghost predicate Words(words: seq<nat>, w: nat) {
    forall i :: 0 <= i < |words| ==> words[i] < Pow2(w)
  }

  /** v <<= 1, and whether a bit was shifted out. */
  function ShiftLeft(v: nat, w: nat): nat {
    2 * v % Pow2(w)
  }

  predicate TopBit(v: nat, w: nat)
    requires 1 <= w
  {
    v >= Pow2(w - 1)
  }

  lemma ShiftOut(v: nat, w: nat)
    requires 1 <= w && v < Pow2(w)
    ensures ShiftLeft(v, w) == 2 * v - (if TopBit(v, w) then Pow2(w) else 0) && ShiftLeft(v, w) < Pow2(w)
  {
    var p := Pow2(w);
    if TopBit(v, w) {
      QuotientRemainder(2 * v, p, 1, 2 * v - p);
    } else {
      QuotientRemainder(2 * v, p, 0, 2 * v);
    }
  }

  /** `prefix` and the bits left in v are the number n shifted left by j bits. */
  ghost predicate Taken(prefix: nat, v: nat, n: nat, j: nat, w: nat) {
    v < Pow2(w) && Shl(prefix, w) + v == Shl(n, j)
  }

  lemma TakeBit(prefix: nat, v: nat, n: nat, j: nat, w: nat)
    requires 1 <= w && Taken(prefix, v, n, j, w)
    ensures Taken(2 * prefix + if TopBit(v, w) then 1 else 0, ShiftLeft(v, w), n, j + 1, w)
  {
    hide Shl;
    ShiftOut(v, w);
    var p, bit := Pow2(w), if TopBit(v, w) then 1 else 0;
    ShlTimes(prefix, w);
    ShlTimes(2 * prefix + bit, w);
    ShlTimes(n, j);
    ShlTimes(n, j + 1);
    Distribute(2 * prefix, bit, p);
    Regroup(2, prefix, p);
    Regroup(2, n, Pow2(j));
    Regroup(n, 2, Pow2(j));
  }

  lemma AllTaken(prefix: nat, v: nat, n: nat, w: nat)
    requires Taken(prefix, v, n, w, w)
    ensures prefix == n
  {
    ShlTimes(prefix, w);
    ShlTimes(n, w);
    SameQuotient(Pow2(w), prefix, v, n, 0);
  }

  /** ECDouble, then ECAdd if the bit is set. */
  lemma DoubleAndAdd<G(!new)>(g: Group<G>, x: G, prefix: nat, bit: bool)
    requires g.Associative() && 1 <= prefix
    ensures var d := g.add(g.Times(x, prefix), g.Times(x, prefix));
            (if bit then g.add(d, x) else d) == g.Times(x, 2 * prefix + if bit then 1 else 0)
  {
    TimesSum(g, x, prefix, prefix);
  }

  /** Doubles and adds for the bits of v from number j on. */
  method AddBits<G(!new)>(g: Group<G>, x: G, out0: G, v0: nat, j0: nat, w: nat, ghost prefix0: nat, ghost n: nat)
    returns (out: G)
    requires g.Associative() && 1 <= w && j0 <= w && 1 <= prefix0 && Taken(prefix0, v0, n, j0, w)
    requires out0 == g.Times(x, prefix0)
    ensures n >= 1 && out == g.Times(x, n)
  {
    hide Taken, Pow2;
    out := out0;
    var v, j, prefix := v0, j0, prefix0;
    while j != w
      invariant j0 <= j <= w && 0 <= v && 1 <= prefix && Taken(prefix, v, n, j, w) && out == g.Times(x, prefix)
      decreases w - j
    {
      TakeBit(prefix, v, n, j, w);
      DoubleAndAdd(g, x, prefix, TopBit(v, w));
      out := g.add(out, out);
      if TopBit(v, w) {
        out := g.add(out, x);
      }
      prefix := 2 * prefix + if TopBit(v, w) then 1 else 0;
      j, v := j + 1, ShiftLeft(v, w);
    }
    AllTaken(prefix, v, n, w);
  }

  lemma NextWord(prefix: nat, v: nat, w: nat)
    requires v < Pow2(w)
    ensures Taken(prefix, v, prefix * Pow2(w) + v, 0, w)
  {
    ShlTimes(prefix, w);
  }

  lemma ValueFrom(words: seq<nat>, i: nat, w: nat)
    requires i < |words|
    ensures Value(words[i..], w) == Value(words[i + 1..], w) * Pow2(w) + words[i]
  {
    assert words[i..][1..] == words[i + 1..];
  }

  lemma {:induction false} ZeroWords(words: seq<nat>, w: nat)
    requires Words(words, w) && words != [] && words[|words| - 1] != 0
    ensures Value(words, w) >= 1
    decreases |words|
  {
    if |words| > 1 {
      ZeroWords(words[1..], w);
      LeTimes(1, Value(words[1..], w), Pow2(w));
    }
  }

  /** x added up m times, where m has no zero word at its top, or is the single word zero. */
  method Multiply<G(!new)>(g: Group<G>, x: G, m: seq<nat>, w: nat) returns (out: G)
    requires g.Associative() && 1 <= w && m != [] && Words(m, w) && (|m| > 1 ==> m[|m| - 1] != 0)
    ensures out == g.Times(x, Value(m, w))
  {
    hide Taken, Pow2, ShiftLeft;
    var mSize := |m|;
    TopWord(m, w);
    if m == [0] {
      return g.zero;
    }
    var v, j: nat := m[mSize - 1], 0;
    ghost var top := v;
    NextWord(0, v, w);
    while v != 0 && !TopBit(v, w)
      invariant 0 < v && j < w && Taken(0, v, top, j, w)
      decreases w - j
    {
      TakeBit(0, v, top, j, w);
      NotYet(v, top, j + 1, w);
      v := ShiftLeft(v, w);
      j := j + 1;
    }
    TakeBit(0, v, top, j, w);
    v := ShiftLeft(v, w);
    j := j + 1;
    out := AddBits(g, x, x, v, j, w, 1, top);
    for i := mSize - 1 downto 0
      invariant 1 <= Value(m[i..], w) && out == g.Times(x, Value(m[i..], w))
    {
      ValueFrom(m, i, w);
      ghost var p := Value(m[i + 1..], w);
      NextWord(p, m[i], w);
      out := AddBits(g, x, out, m[i], 0, w, p, p * Pow2(w) + m[i]);
    }
    assert m[0..] == m;
  }

  lemma TopWord(m: seq<nat>, w: nat)
    requires m != [] && Words(m, w) && (|m| > 1 ==> m[|m| - 1] != 0)
    ensures Value([0], w) == 0 && Value(m[|m| - 1..], w) == m[|m| - 1]
    ensures m != [0] ==> m[|m| - 1] != 0
    ensures m[|m| - 1] < Pow2(w)
  {
    var s := m[|m| - 1..];
    assert s[1..] == [] && [0][1..] == [];
  }

  /** As long as the top bit of a word that is not zero has not been reached, there are bits left. */
  lemma NotYet(v: nat, top: nat, j: nat, w: nat)
    requires 1 <= w && 0 < v && !TopBit(v, w) && 1 <= j <= w && Taken(0, v, top, j - 1, w)
    ensures 0 < ShiftLeft(v, w) && j < w
  {
    ShiftOut(v, w);
    ShlTimes(0, w);
    ShlTimes(top, j - 1);
    if j == w {
      LeTimes(1, top, Pow2(w - 1));
    }
  }
}
