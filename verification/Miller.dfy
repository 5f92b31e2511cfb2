/** The Miller loop of the optimal ate pairing: in one pass, with precomputed lines, and for a product of two. */
module Miller {

  /** What the loops are built from: doubling and adding points of the twist, each with the line through them; a
      line evaluated at a point; the product of the target field and a line as one of its elements. negate is the
      change of sign of a point; finishPoint, finishField and the two Frobenius maps are those of the last step. */
  datatype Curve<!T, !Q, !L, !P, !F(!new)> = Curve(
    start: Q -> T,
    double: T -> (L, T),
    add: (T, Q) -> (L, T),
    negate: Q -> Q,
    frobenius1: Q -> Q,
    frobenius2: Q -> Q,
    finishPoint: T -> T,
    finishField: F -> F,
    at: (L, P) -> L,
    line: L -> F,
    mul: (F, F) -> F)
  {
    /** A line at a point, as an element of the field. */
    function Eval(l: L, p: P): F {
      line(at(l, p))
    }

    function Square(f: F): F {
      mul(f, f)
    }

    /** The product is commutative and associative, and finishField (a conjugation, or nothing) keeps products. */
    ghost predicate Lawful() {
      (forall a, b :: Commutes(a, b)) && (forall a, b, c :: Regroups(a, b, c)) && (forall a, b :: Finishes(a, b))
    }

    ghost predicate Commutes(a: F, b: F) {
      mul(a, b) == mul(b, a)
    }

    ghost predicate Regroups(a: F, b: F, c: F) {
      mul(mul(a, b), c) == mul(a, mul(b, c))
    }

    ghost predicate Finishes(a: F, b: F) {
      finishField(mul(a, b)) == mul(finishField(a), finishField(b))
    }

    /** The lines of the first i digits, and the point they end at. */
    function Lines(q: Q, si: seq<int>, i: nat): (r: (seq<L>, T))
      requires 2 <= i <= |si|
      ensures |r.0| == Count(si, i)
    {
      if i == 2 then
        var (d, t1) := double(start(q));
        var (e, t2) := add(t1, q);
        ([d, e], t2)
      else
        var (ls, t) := Lines(q, si, i - 1);
        var (l, t1) := double(t);
        if si[i - 1] == 0 then
          (ls + [l], t1)
        else
          var (m, t2) := add(t1, if si[i - 1] > 0 then q else negate(q));
          (ls + [l] + [m], t2)
    }

    function AllLines(q: Q, si: seq<int>): (r: seq<L>)
      requires 2 <= |si|
      ensures |r| == Count(si, |si|) + 2
    {
      var (ls, t) := Lines(q, si, |si|);
      var (d, t1) := add(finishPoint(t), frobenius1(q));
      var (e, _) := add(t1, frobenius2(q));
      ls + [d] + [e]
    }

    /** The value of the loop after the first i digits. */
    function Fold(ls: seq<L>, p: P, si: seq<int>, i: nat): F
      requires 2 <= i <= |si| && Count(si, i) <= |ls|
    {
      if i == 2 then
        mul(Eval(ls[0], p), Eval(ls[1], p))
      else
        var idx := Count(si, i - 1);
        var f := mul(Square(Fold(ls, p, si, i - 1)), Eval(ls[idx], p));
        if si[i - 1] == 0 then f else mul(f, Eval(ls[idx + 1], p))
    }

    function Value(ls: seq<L>, p: P, si: seq<int>): F
      requires 2 <= |si| && |ls| == Count(si, |si|) + 2
    {
      var idx := Count(si, |si|);
      mul(finishField(Fold(ls, p, si, |si|)), mul(Eval(ls[idx], p), Eval(ls[idx + 1], p)))
    }

    lemma FoldStart(ls: seq<L>, p: P, si: seq<int>)
      requires 2 <= |si| && 2 <= |ls|
      ensures Fold(ls, p, si, 2) == mul(Eval(ls[0], p), Eval(ls[1], p))
    {
    }

    lemma FoldStep(ls: seq<L>, p: P, si: seq<int>, i: nat)
      requires 2 <= i < |si| && Count(si, i + 1) <= |ls|
      ensures var idx := Count(si, i); var f := mul(Square(Fold(ls, p, si, i)), Eval(ls[idx], p));
              Fold(ls, p, si, i + 1) == if si[i] == 0 then f else mul(f, Eval(ls[idx + 1], p))
    {
    }

    /** Later lines do not matter. */
    lemma {:induction false} FoldPrefix(ls: seq<L>, more: seq<L>, p: P, si: seq<int>, i: nat)
      requires 2 <= i <= |si| && Count(si, i) <= |ls|
      ensures Fold(ls + more, p, si, i) == Fold(ls, p, si, i)
      decreases i
    {
      if i > 2 {
        FoldPrefix(ls, more, p, si, i - 1);
      }
    }

    /** (ab)(cd) == (ac)(bd) */
    lemma Swap(a: F, b: F, c: F, d: F)
      requires Lawful()
      ensures mul(mul(a, b), mul(c, d)) == mul(mul(a, c), mul(b, d))
    {
      assert Regroups(a, b, mul(c, d)) && Regroups(b, c, d) && Commutes(b, c) && Regroups(c, b, d);
      assert Regroups(a, c, mul(b, d));
    }

    /** Doubling step of a product of two loops. */
    lemma SquareBoth(a: F, b: F, x: F, y: F)
      requires Lawful()
      ensures mul(Square(mul(a, b)), mul(x, y)) == mul(mul(Square(a), x), mul(Square(b), y))
    {
      Swap(a, b, a, b);
      Swap(Square(a), Square(b), x, y);
    }

    lemma FinishBoth(a: F, b: F, x: F, y: F)
      requires Lawful()
      ensures mul(mul(finishField(mul(a, b)), x), y) == mul(mul(finishField(a), x), mul(finishField(b), y))
    {
      var c := finishField(mul(a, b));
      assert Finishes(a, b) && Regroups(c, x, y);
      Swap(finishField(a), finishField(b), x, y);
    }

    /** Computes the lines of a point ahead of the loop. */
    method PrecomputeG2(q: Q, si: seq<int>) returns (coeff: seq<L>)
      requires 2 <= |si| && si[1] == 1
      ensures coeff == AllLines(q, si)
    {
      var t := start(q);
      var d, e, l;
      var qneg := negate(q);
      var p := double(t);
      d, t := p.0, p.1;
      coeff := [d];
      p := add(t, q);
      e, t := p.0, p.1;
      coeff := coeff + [e];
      assert coeff == [d, e];
      for i := 2 to |si|
        invariant (coeff, t) == Lines(q, si, i)
      {
        p := double(t);
        l, t := p.0, p.1;
        coeff := coeff + [l];
        if si[i] > 0 {
          p := add(t, q);
          l, t := p.0, p.1;
          coeff := coeff + [l];
        } else if si[i] < 0 {
          p := add(t, qneg);
          l, t := p.0, p.1;
          coeff := coeff + [l];
        }
      }
      t := finishPoint(t);
      p := add(t, frobenius1(q));
      d, t := p.0, p.1;
      coeff := coeff + [d];
      p := add(t, frobenius2(q));
      e, t := p.0, p.1;
      coeff := coeff + [e];
    }

    /** The loop over precomputed lines; it uses each of them once. */
    method MillerLoop(coeff: seq<L>, prec: P, si: seq<int>) returns (f: F, ghost used: nat)
      requires 2 <= |si| && si[1] == 1 && |coeff| == Count(si, |si|) + 2
      ensures f == Value(coeff, prec, si) && used == |coeff|
    {
      var idx: nat := 0;
      var d := at(coeff[idx], prec);
      idx := idx + 1;
      var e := at(coeff[idx], prec);
      f := mul(line(d), line(e));
      idx := idx + 1;
      CountGrows(si, 2, |si|);
      for i := 2 to |si|
        invariant idx == Count(si, i) <= |coeff| && f == Fold(coeff, prec, si, i)
      {
        CountGrows(si, i + 1, |si|);
        var l := coeff[idx];
        idx := idx + 1;
        f := Square(f);
        l := at(l, prec);
        f := mul(f, line(l));
        if si[i] != 0 {
          l := coeff[idx];
          idx := idx + 1;
          l := at(l, prec);
          f := mul(f, line(l));
        }
      }
      f := finishField(f);
      d := at(coeff[idx], prec);
      idx := idx + 1;
      e := at(coeff[idx], prec);
      var ft := mul(line(d), line(e));
      f := mul(f, ft);
      used := idx + 1;
    }

    /** The digits' part of the loop, computing each line where it is used. */
    method OnePass(q: Q, prec: P, si: seq<int>) returns (f: F, t: T, ghost ls: seq<L>)
      requires 2 <= |si| && si[1] == 1
      ensures (ls, t) == Lines(q, si, |si|) && f == Fold(ls, prec, si, |si|)
    {
      t := start(q);
      var qneg := negate(q);
      var p := double(t);
      var d := at(p.0, prec);
      ls, t := [p.0], p.1;
      p := add(t, q);
      var e := at(p.0, prec);
      ls, t := ls + [p.0], p.1;
      assert ls == [ls[0], ls[1]];
      f := mul(line(d), line(e));
      for i := 2 to |si|
        invariant (ls, t) == Lines(q, si, i)
        invariant f == Fold(ls, prec, si, i)
      {
        ghost var before := ls;
        p := double(t);
        var l := at(p.0, prec);
        ls, t := ls + [p.0], p.1;
        FoldPrefix(before, [p.0], prec, si, i);
        f := Square(f);
        f := mul(f, line(l));
        if si[i] != 0 {
          p := add(t, if si[i] > 0 then q else qneg);
          l := at(p.0, prec);
          FoldPrefix(ls, [p.0], prec, si, i);
          ls, t := ls + [p.0], p.1;
          f := mul(f, line(l));
        }
      }
    }

    lemma LastTwo(ls: seq<L>, d: L, e: L, prec: P, si: seq<int>)
      requires 2 <= |si| && |ls| == Count(si, |si|)
      ensures Value(ls + [d] + [e], prec, si)
           == mul(finishField(Fold(ls, prec, si, |si|)), mul(Eval(d, prec), Eval(e, prec)))
    {
      FoldPrefix(ls, [d], prec, si, |si|);
      FoldPrefix(ls + [d], [e], prec, si, |si|);
    }

    /** The pairing before the final exponentiation. */
    method OptAtePairing(q: Q, prec: P, si: seq<int>) returns (f: F)
      requires 2 <= |si| && si[1] == 1
      ensures f == Value(AllLines(q, si), prec, si)
    {
      hide Fold, Value, Count, Lines;
      var t;
      ghost var ls;
      f, t, ls := OnePass(q, prec, si);
      f, t := finishField(f), finishPoint(t);
      var p := add(t, frobenius1(q));
      var d := at(p.0, prec);
      t := p.1;
      var r := add(t, frobenius2(q));
      var e := at(r.0, prec);
      LastTwo(ls, p.0, r.0, prec, si);
      var ft := mul(line(d), line(e));
      f := mul(f, ft);
    }

    /** The digits' part of two loops at once. */
    method TwoLoops(coeff1: seq<L>, prec1: P, coeff2: seq<L>, prec2: P, si: seq<int>) returns (f: F, idx: nat)
      requires Lawful() && 2 <= |si| && si[1] == 1 && |coeff1| == |coeff2| == Count(si, |si|) + 2
      ensures idx == Count(si, |si|)
      ensures f == mul(Fold(coeff1, prec1, si, |si|), Fold(coeff2, prec2, si, |si|))
    {
      hide Lawful, Fold, Square;
      idx := 0;
      var d1, d2 := at(coeff1[idx], prec1), at(coeff2[idx], prec2);
      idx := idx + 1;
      var e1 := at(coeff1[idx], prec1);
      var f1 := mul(line(d1), line(e1));
      var e2 := at(coeff2[idx], prec2);
      var f2 := mul(line(d2), line(e2));
      f := mul(f1, f2);
      idx := idx + 1;
      CountGrows(si, 2, |si|);
      FoldStart(coeff1, prec1, si);
      FoldStart(coeff2, prec2, si);
      for i := 2 to |si|
        invariant idx == Count(si, i) <= |coeff1|
        invariant f == mul(Fold(coeff1, prec1, si, i), Fold(coeff2, prec2, si, i))
      {
        CountGrows(si, i + 1, |si|);
        FoldStep(coeff1, prec1, si, i);
        FoldStep(coeff2, prec2, si, i);
        ghost var a, b := Fold(coeff1, prec1, si, i), Fold(coeff2, prec2, si, i);
        var l1, l2 := at(coeff1[idx], prec1), at(coeff2[idx], prec2);
        idx := idx + 1;
        f := Square(f);
        f1 := mul(line(l1), line(l2));
        f := mul(f, f1);
        SquareBoth(a, b, line(l1), line(l2));
        a, b := mul(Square(a), line(l1)), mul(Square(b), line(l2));
        if si[i] != 0 {
          l1, l2 := at(coeff1[idx], prec1), at(coeff2[idx], prec2);
          idx := idx + 1;
          f1 := mul(line(l1), line(l2));
          f := mul(f, f1);
          Swap(a, b, line(l1), line(l2));
        }
      }
    }

    /** Two loops at once give the product of both. */
    method MillerLoop2(coeff1: seq<L>, prec1: P, coeff2: seq<L>, prec2: P, si: seq<int>) returns (f: F)
      requires Lawful() && 2 <= |si| && si[1] == 1 && |coeff1| == |coeff2| == Count(si, |si|) + 2
      ensures f == mul(Value(coeff1, prec1, si), Value(coeff2, prec2, si))
    {
      hide Lawful, Fold, Count;
      var idx;
      f, idx := TwoLoops(coeff1, prec1, coeff2, prec2, si);
      ghost var a, b := Fold(coeff1, prec1, si, |si|), Fold(coeff2, prec2, si, |si|);
      f := finishField(f);
      var d1, d2 := at(coeff1[idx], prec1), at(coeff2[idx], prec2);
      idx := idx + 1;
      var e1, e2 := at(coeff1[idx], prec1), at(coeff2[idx], prec2);
      var f1 := mul(line(d1), line(e1));
      var f2 := mul(line(d2), line(e2));
      f := mul(f, f1);
      f := mul(f, f2);
      FinishBoth(a, b, f1, f2);
    }
  }

  /** The number of lines used for the first i digits. */
  function Count(si: seq<int>, i: nat): (n: nat)
    requires 2 <= i <= |si|
    ensures 2 <= n
  {
    if i == 2 then 2 else Count(si, i - 1) + if si[i - 1] == 0 then 1 else 2
  }

  lemma {:induction false} CountGrows(si: seq<int>, i: nat, j: nat)
    requires 2 <= i <= j <= |si|
    ensures Count(si, i) <= Count(si, j)
    decreases j
  {
    if i < j {
      CountGrows(si, i, j - 1);
    }
  }
}
