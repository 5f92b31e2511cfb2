/** Signed-digit recoding of a binary number, most significant digit first. */
module Naf {
  import opened Arithmetic
  import opened Powers

  function Value(v: seq<int>): int {
    if v == [] then 0 else 2 * Value(v[..|v| - 1]) + v[|v| - 1]
  }

  /** The number of digits that are not zero. */
  function Weight(v: seq<int>): nat {
    if v == [] then 0 else Weight(v[..|v| - 1]) + if v[|v| - 1] != 0 then 1 else 0
  }

  ghost predicate Binary(v: seq<int>) {
    forall i :: 0 <= i < |v| ==> v[i] == 0 || v[i] == 1
  }

  ghost predicate Signed(v: seq<int>) {
    forall i :: 0 <= i < |v| ==> -1 <= v[i] <= 1
  }

  lemma {:induction false} ValueAppend(a: seq<int>, b: seq<int>)
    ensures Value(a + b) == Value(a) * Pow2(|b|) + Value(b)
    decreases |b|
  {
    if b == [] {
      assert a + b == a;
    } else {
      var c := b[..|b| - 1];
      ValueAppend(a, c);
      assert (a + b)[..|a + b| - 1] == a + c;
      Regroup(Value(a), 2, Pow2(|c|));
      Regroup(2, Value(a), Pow2(|c|));
    }
  }

  lemma {:induction false} WeightAppend(a: seq<int>, b: seq<int>)
    ensures Weight(a + b) == Weight(a) + Weight(b)
    decreases |b|
  {
    if b == [] {
      assert a + b == a;
    } else {
      var c := b[..|b| - 1];
      WeightAppend(a, c);
      assert (a + b)[..|a + b| - 1] == a + c;
    }
  }

  /** A zero and n ones, and what replaces them: a one, n - 1 zeros and a minus one. */
  function Ones(n: nat): seq<int> {
    [0] + seq(n, _ => 1)
  }

  function Replacement(n: nat): seq<int>
    requires 1 <= n
  {
    [1] + seq(n - 1, _ => 0) + [-1]
  }

  lemma {:induction false} OnesAre(n: nat)
    ensures Value(Ones(n)) == Pow2(n) - 1 && Weight(Ones(n)) == n
  {
    if n > 0 {
      OnesAre(n - 1);
      assert Ones(n)[..n] == Ones(n - 1);
    }
  }

  lemma {:induction false} LeadingOne(n: nat)
    ensures Value([1] + seq(n, _ => 0)) == Pow2(n) && Weight([1] + seq(n, _ => 0)) == 1
  {
    var s := [1] + seq(n, _ => 0);
    if n == 0 {
      assert s == [1] && s[..0] == [];
      assert Value([1]) == 2 * Value([1][..0]) + 1;
    } else {
      LeadingOne(n - 1);
      assert s[..n] == [1] + seq(n - 1, _ => 0);
    }
  }

  lemma ReplacementIs(n: nat)
    requires 1 <= n
    ensures |Replacement(n)| == |Ones(n)| && Value(Replacement(n)) == Value(Ones(n)) && Weight(Replacement(n)) == 2
  {
    OnesAre(n);
    LeadingOne(n - 1);
    var s := [1] + seq(n - 1, _ => 0);
    assert Replacement(n)[..n] == s;
  }

  /** Replacing a part by one of the same value and length keeps the value. */
  lemma SamePart(a: seq<int>, b: seq<int>, c: seq<int>, z: seq<int>)
    requires |b| == |c| && Value(b) == Value(c)
    ensures Value(a + b + z) == Value(a + c + z)
    ensures Weight(a + b + z) - Weight(b) == Weight(a + c + z) - Weight(c)
  {
    ValueAppend(a + b, z);
    ValueAppend(a + c, z);
    ValueAppend(a, b);
    ValueAppend(a, c);
    WeightAppend(a + b, z);
    WeightAppend(a + c, z);
    WeightAppend(a, b);
    WeightAppend(a, c);
  }

  /** The first index from pos downwards, but not below 1, whose digit is not val. */
  method GetContinuousVal(v: array<int>, pos0: nat, val: int) returns (pos: nat)
    requires 1 <= pos0 < v.Length
    ensures 1 <= pos <= pos0 && (pos != 1 ==> v[pos] != val)
    ensures forall i :: pos < i <= pos0 ==> v[i] == val
  {
    pos := pos0;
    while pos >= 2
      invariant 1 <= pos <= pos0
      invariant forall i :: pos < i <= pos0 ==> v[i] == val
    {
      if v[pos] != val {
        break;
      }
      pos := pos - 1;
    }
  }

  lemma RunReplaced(s: seq<int>, t: seq<int>, q: nat, p: nat)
    requires q + 1 < p < |s| && |t| == |s| && s[q] == 0 && (forall i :: q < i <= p ==> s[i] == 1)
    requires t[q] == 1 && (forall i :: q < i < p ==> t[i] == 0) && t[p] == -1
    requires (forall i :: 0 <= i < q ==> t[i] == s[i]) && (forall i :: p < i < |s| ==> t[i] == s[i])
    ensures Value(t) == Value(s) && Weight(t) <= Weight(s)
  {
    var n := p - q;
    assert s == s[..q] + Ones(n) + s[p + 1..];
    assert t == s[..q] + Replacement(n) + s[p + 1..];
    ReplacementIs(n);
    OnesAre(n);
    SamePart(s[..q], Ones(n), Replacement(n), s[p + 1..]);
  }

  /** From index top on, no two neighbouring digits are both different from zero. */
  ghost predicate NonAdjacent(v: seq<int>, top: nat) {
    forall i :: top <= i < |v| - 1 ==> v[i] == 0 || v[i + 1] == 0
  }

  /** Digits of which no two neighbours are both different from zero stand for less than two thirds of the next power
      of two, and for less than a third of it if the first one is zero. */
  lemma {:induction false} SpreadBound(s: seq<int>)
    requires Signed(s) && NonAdjacent(s, 0)
    ensures 0 - Pow2(|s| + 1) < 3 * Value(s) < Pow2(|s| + 1)
    ensures s == [] || s[0] == 0 ==> 0 - Pow2(|s|) < 3 * Value(s) < Pow2(|s|)
  {
    hide Value;
    FirstDigit(s);
    if s != [] {
      SpreadBound(s[1..]);
    }
  }

  lemma FirstDigit(s: seq<int>)
    ensures s == [] ==> Value(s) == 0
    ensures s != [] ==> Value(s) == s[0] * Pow2(|s| - 1) + Value(s[1..])
  {
    if s != [] {
      ValueAppend([s[0]], s[1..]);
      assert [s[0]] + s[1..] == s;
      assert Value([s[0]]) == s[0];
    }
  }

  /** Digits that begin with k ones and go on as above stand for more than a third of the next power of two; for more
      than two thirds exactly if k is above 1. */
  lemma {:induction false} OnesBound(s: seq<int>, k: nat)
    requires 1 <= k <= |s| && Signed(s) && NonAdjacent(s, k - 1) && forall i :: 0 <= i < k ==> s[i] == 1
    ensures Pow2(|s|) < 3 * Value(s)
    ensures if k == 1 then 3 * Value(s) < Pow2(|s| + 1) else Pow2(|s| + 1) < 3 * Value(s)
    decreases k
  {
    hide Value;
    FirstDigit(s);
    if k == 1 {
      SpreadBound(s[1..]);
    } else {
      OnesBound(s[1..], k - 1);
    }
  }

  /** The first two bits are not both 1, and what follows them is small enough. */
  predicate Spreads(bits: seq<int>)
    requires 2 <= |bits|
  {
    var rest := 3 * Value(bits[2..]);
    !(bits[0] == 1 && bits[1] == 1) && rest < Pow2(|bits| - 1) && (bits[1] == 0 || rest < Pow2(|bits| - 2))
  }

  /** What the recoding leaves at its top decides. */
  lemma TopDecides(bits: seq<int>, v: seq<int>, top: nat)
    requires 2 <= |bits| == |v| && Binary(bits) && Signed(v) && Value(v) == Value(bits)
    requires v[0] == bits[0] && v[1] == bits[1]
    requires 1 <= top < |v| && NonAdjacent(v, top) && forall i :: 1 < i <= top ==> v[i] == 1
    requires top == 1 && |v| > 2 ==> v[2] == 0
    ensures NonAdjacent(v, 0) <==> Spreads(bits)
  {
    hide Value, Pow2;
    var s := v[2..];
    assert v[..2] == bits[..2];
    SameRest(bits, v);
    assert forall i :: 0 <= i < |s| ==> s[i] == v[i + 2];
    DoublePow2(|s|);
    if top == 1 {
      SpreadBound(s);
    } else {
      OnesBound(s, top - 1);
      assert v[2] == 1 && (top > 2 ==> v[3] == 1);
    }
  }

  lemma DoublePow2(k: nat)
    ensures Pow2(k + 1) == 2 * Pow2(k)
  {
  }

  lemma SameRest(a: seq<int>, b: seq<int>)
    requires 2 <= |a| == |b| && a[..2] == b[..2] && Value(a) == Value(b)
    ensures Value(a[2..]) == Value(b[2..])
  {
    hide Value;
    ValueAppend(a[..2], a[2..]);
    ValueAppend(b[..2], b[2..]);
    assert a == a[..2] + a[2..] && b == b[..2] + b[2..];
  }

  /** Replaces a zero and the ones up to p by a one, zeros and a minus one. */
  method ReplaceRun(v: array<int>, q: nat, p: nat)
    requires q + 1 < p < v.Length && v[q] == 0 && forall i :: q < i <= p ==> v[i] == 1
    modifies v
    ensures v[q] == 1 && (forall i :: q < i < p ==> v[i] == 0) && v[p] == -1
    ensures (forall i :: 0 <= i < q ==> v[i] == old(v[i])) && forall i :: p < i < v.Length ==> v[i] == old(v[i])
    ensures Value(v[..]) == old(Value(v[..])) && Weight(v[..]) <= old(Weight(v[..]))
  {
    hide Value, Weight;
    ghost var s := v[..];
    v[q] := 1;
    for i := q + 1 to p
      invariant v[q] == 1 && (forall j :: q < j < i ==> v[j] == 0)
      invariant forall j :: 0 <= j < v.Length && (j < q || i <= j) ==> v[j] == s[j]
    {
      v[i] := 0;
    }
    v[p] := -1;
    RunReplaced(s, v[..], q, p);
  }

  /** Recodes the bits of `bits` with digits -1, 0 and 1: the same number, with no more digits that are not zero. A run
      of ones that reaches up to the third digit is left as it is. */
  method ConvertToNaf(bits: seq<int>) returns (v: array<int>, ghost top: nat)
    requires 2 <= |bits| && Binary(bits)
    ensures fresh(v) && v.Length == |bits| && Signed(v[..])
    ensures Value(v[..]) == Value(bits) && Weight(v[..]) <= Weight(bits)
    ensures 1 <= top < v.Length && NonAdjacent(v[..], top) && forall i :: 1 < i <= top ==> v[i] == 1
    ensures v[0] == bits[0] && v[1] == bits[1] && (NonAdjacent(v[..], 0) <==> Spreads(bits))
  {
    hide Value, Weight, Spreads;
    v := new int[|bits|](i requires 0 <= i < |bits| => bits[i]);
    assert v[..] == bits;
    var pos := v.Length - 1;
    while true
      invariant 1 <= pos < v.Length && Signed(v[..])
      invariant forall i :: 0 <= i <= pos ==> v[i] == 0 || v[i] == 1
      invariant Value(v[..]) == Value(bits) && Weight(v[..]) <= Weight(bits) && NonAdjacent(v[..], pos)
      invariant v[0] == bits[0] && v[1] == bits[1] && (pos == 1 ==> v.Length == 2)
      decreases pos
    {
      var p := GetContinuousVal(v, pos, 0);
      top := p;
      if p == 1 {
        TopDecides(bits, v[..], top);
        return;
      }
      assert v[p] == 1;
      var q := GetContinuousVal(v, p, 1);
      if q == 1 {
        TopDecides(bits, v[..], top);
        return;
      }
      assert v[q] == 0;
      if p - q <= 1 {
        pos := p - 1;
      } else {
        ReplaceRun(v, q, p);
        pos := q;
      }
    }
  }

  /** 11 is not recoded: its run of ones ends at the second bit. */
  method ElevenStays() returns (v: array<int>)
    ensures v[..] == [1, 0, 1, 1] && !Spreads([1, 0, 1, 1])
  {
    var bits := [1, 0, 1, 1];
    ghost var top;
    v, top := ConvertToNaf(bits);
    assert v[..][..2] == bits[..2];
    assert bits[2..] == [1, 1] && v[..][2..] == [v[2], v[3]];
    SameRest(bits, v[..]);
    TwoDigits(1, 1);
    TwoDigits(v[2], v[3]);
  }

  lemma TwoDigits(a: int, b: int)
    ensures Value([a, b]) == 2 * a + b
  {
    assert [a, b][..1] == [a];
    assert Value([a]) == a by { assert [a][..0] == []; }
  }

  method CountNonZero(v: seq<int>) returns (w: nat)
    ensures w == Weight(v)
  {
    w := 0;
    for i := 0 to |v|
      invariant w == Weight(v[..i])
    {
      assert v[..i + 1][..i] == v[..i];
      if v[i] != 0 {
        w := w + 1;
      }
    }
    assert v[..|v|] == v;
  }

  /** The digits that represent the number with fewer non-zero ones, the bits themselves if neither has fewer. */
  method GetGoodRepl(bits: seq<int>) returns (v: seq<int>, naf: bool)
    requires 2 <= |bits| && Binary(bits)
    ensures |v| == |bits| && Signed(v) && Value(v) == Value(bits) && Weight(v) <= Weight(bits)
    ensures naf <==> Weight(v) < Weight(bits)
    ensures !naf ==> v == bits
  {
    var recoded, top := ConvertToNaf(bits);
    var binW := CountNonZero(bits);
    var nafW := CountNonZero(recoded[..]);
    if nafW < binW {
      return recoded[..], true;
    }
    return bits, false;
  }
}
