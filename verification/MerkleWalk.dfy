/** Steering by the bits of a leaf index: why a walk that shifts them out of a 64-bit word ends at that leaf. */
module MerkleWalk {
  import opened Powers
  import opened MerkleSpec
  import opened MerkleNode
  import opened MerkleHeap
  import opened MerkleInsert
  import opened MerklePast

  const WORD_BITS: nat := 64

  /** x << k in an unsigned 64-bit word. */
  function ShiftLeft(x: nat, k: nat): nat {
    x * Pow2(k) % Pow2(WORD_BITS)
  }

  function TopBit(x: nat): bool {
    x / Pow2(WORD_BITS - 1) % 2 == 1
  }

  function StartWord(index: nat, height: nat): nat
    requires height <= WORD_BITS + 1
  {
    if height > 1 then ShiftLeft(index, WORD_BITS - height + 1) else 0
  }

  /** The top height - 1 bits of the word spell rel, the leaf's index within the current subtree. */
  ghost predicate Steers(it: nat, rel: nat, height: nat) {
    1 <= height <= WORD_BITS && rel < Pow2(height - 1) && it == rel * Pow2(WORD_BITS - height + 1)
  }

  lemma TimesLess(a: nat, b: nat, p: nat)
    requires a < b && 1 <= p
    ensures a * p < b * p
  {
  }

  lemma TimesAtMost(a: nat, b: nat, p: nat)
    requires a <= b
    ensures a * p <= b * p
  {
  }

  lemma SmallMod(x: nat, m: nat)
    requires x < m
    ensures x % m == x
  {
  }

  lemma StartSteers(index: nat, height: nat)
    requires 1 <= height <= WORD_BITS && index < Pow2(height - 1)
    ensures Steers(StartWord(index, height), index, height)
  {
    hide Pow2;
    if height > 1 {
      var p := Pow2(WORD_BITS - height + 1);
      TimesLess(index, Pow2(height - 1), p);
      Pow2Sum(height - 1, WORD_BITS - height + 1);
      SmallMod(index * p, Pow2(WORD_BITS));
    } else {
      OnlyZero(index);
      assert index * Pow2(WORD_BITS) == 0;
    }
  }

  lemma OnlyZero(x: nat)
    requires x < Pow2(0)
    ensures x == 0
  {
  }

  lemma Doubling(k: nat)
    ensures Pow2(k + 1) == 2 * Pow2(k)
  {
  }

  /** rel has its top bit in place q exactly if rel * p has it in place q * p, and a shift drops that bit. */
  lemma ShiftOut(rel: nat, q: nat, p: nat, it: nat, top: nat)
    requires 1 <= q && 1 <= p && rel < 2 * q && it == rel * p && top == q * p && 1 <= top
    ensures it / top % 2 == 1 <==> q <= rel
    ensures it * 2 % (2 * top) == (if q <= rel then rel - q else rel) * (2 * p)
  {
    var r, b := if q <= rel then rel - q else rel, if q <= rel then 1 else 0;
    TimesLess(r, q, p);
    assert it == r * p + b * top by {
      assert rel == r + b * q;
      Distribute(r, b * q, p);
      assert b == 0 || b == 1;
    }
    Quotient(r * p, top, b);
    Quotient(r * p * 2, 2 * top, b);
    assert r * p * 2 == r * (2 * p) by { Associate(r, p); }
  }

  lemma Distribute(a: nat, b: nat, p: nat)
    ensures (a + b) * p == a * p + b * p
  {
  }

  lemma Associate(a: nat, p: nat)
    ensures a * p * 2 == a * (2 * p)
  {
  }

  lemma SteerStep(it: nat, rel: nat, height: nat)
    requires Steers(it, rel, height) && height > 1
    ensures TopBit(it) <==> Pow2(height - 2) <= rel
    ensures Steers(ShiftLeft(it, 1), if TopBit(it) then rel - Pow2(height - 2) else rel, height - 1)
  {
    hide Pow2;
    var q, p, top := Pow2(height - 2), Pow2(WORD_BITS - height + 1), Pow2(WORD_BITS - 1);
    Doubling(height - 2);
    Doubling(WORD_BITS - height + 1);
    Doubling(WORD_BITS - 1);
    Doubling(0);
    OnlyOne();
    Pow2Sum(height - 2, WORD_BITS - height + 1);
    ShiftOut(rel, q, p, it, top);
  }

  lemma OnlyOne()
    ensures Pow2(0) == 1
  {
  }

  lemma Quotient(r: nat, m: nat, q: nat)
    requires r < m
    ensures (r + q * m) / m == q && (r + q * m) % m == r
  {
    var x := r + q * m;
    assert x == m * (x / m) + x % m;
    if q < x / m {
      TimesAtMost(q + 1, x / m, m);
    } else if x / m < q {
      TimesAtMost(x / m + 1, q, m);
    }
  }

  /** The walk has reached t, the subtree over part, which starts at leaf number off and holds the leaf sought. */
  ghost predicate At(h: HashFunction, t: Shape, part: seq<Digest>, off: nat, fl: nat, index: nat, it: nat,
                     height: nat)
  {
    1 <= |part| && off <= index < off + |part| && fl <= index && Good(h, t, part, off, fl) &&
    t.i.height <= height <= MAX_HEIGHT && Steers(it, index - off, height)
  }

  lemma AtStart(h: HashFunction, s: Shape, ls: seq<Digest>, fl: nat, index: nat)
    requires fl <= index < |ls| <= MAX_LEAVES && Good(h, s, ls, 0, fl)
    ensures 1 <= s.i.height <= MAX_HEIGHT
    ensures At(h, s, ls, 0, fl, index, StartWord(index, s.i.height), s.i.height)
  {
    hide Root, Split, Pow2;
    HeightBound(h, s, ls, 0, fl);
    StartSteers(index, s.i.height);
  }

  /** A step at a node of the current height: the top bit tells the subtree that holds the leaf. */
  lemma AtFork(h: HashFunction, t: Shape, part: seq<Digest>, off: nat, fl: nat, index: nat, it: nat, height: nat)
    requires At(h, t, part, off, fl, index, it, height) && height > 1 && t.i.height == height
    ensures t.Fork? && 2 <= |part|
    ensures var k := Split(|part|);
            if TopBit(it)
            then off + k <= index && At(h, t.r, part[k..], off + k, fl, index, ShiftLeft(it, 1), height - 1)
            else index < off + k && At(h, t.l, part[..k], off, fl, index, ShiftLeft(it, 1), height - 1)
  {
    hide Root, Pow2, Steers, TopBit, ShiftLeft, Level;
    SteerStep(it, index - off, height);
    SplitLevels(|part|);
    var k := Split(|part|);
    assert t.Fork?;
    assert Good(h, t.l, part[..k], off, fl) && Good(h, t.r, part[k..], off + k, fl);
    assert t.l.i.height <= height - 1 && t.r.i.height <= height - 1;
  }

  /** A step above the current node: its right edge is shorter than the walk's height, and the bit is clear. */
  lemma AtShort(h: HashFunction, t: Shape, part: seq<Digest>, off: nat, fl: nat, index: nat, it: nat, height: nat)
    requires At(h, t, part, off, fl, index, it, height) && height > 1 && t.i.height != height
    ensures !TopBit(it) && At(h, t, part, off, fl, index, ShiftLeft(it, 1), height - 1)
  {
    hide Root, Split, Pow2, Steers, TopBit, ShiftLeft;
    SteerStep(it, index - off, height);
    Pow2Monotone(Level(|part|), height - 2);
  }

  lemma AtGood(h: HashFunction, t: Shape, part: seq<Digest>, off: nat, fl: nat, index: nat, it: nat, height: nat)
    requires At(h, t, part, off, fl, index, it, height)
    ensures 1 <= |part| && off <= index < off + |part| && Good(h, t, part, off, fl) && 1 <= height
  {
  }

  lemma AtEnd(h: HashFunction, t: Shape, part: seq<Digest>, off: nat, fl: nat, index: nat, it: nat, height: nat)
    requires At(h, t, part, off, fl, index, it, height) && height == 1
    ensures t.Tip? && |part| == 1 && off == index && t.i.hash == part[0] && AuditPath(h, part, 0) == []
  {
  }

  /** The node of leaf number i of n, counted among the tips from the right. */
  ghost predicate IsLeafNode(n: Node, tips: seq<Node>, fromRight: int) {
    1 <= fromRight <= |tips| && tips[|tips| - fromRight] == n
  }

  /** From leaf number fl on every leaf has its node. */
  lemma {:induction false} AllTips(h: HashFunction, s: Shape, ls: seq<Digest>, off: nat, fl: nat)
    requires 1 <= |ls| && Good(h, s, ls, off, fl) && fl <= off
    ensures |Tips(s)| == |ls|
    decreases s
  {
    hide Root, Level, Pow2, Split;
    if s.Fork? {
      var k := Split(|ls|);
      AllTips(h, s.l, ls[..k], off, fl);
      AllTips(h, s.r, ls[k..], off + k, fl);
    }
  }

  /** The tips from leaf number index on, and the node and hash of that leaf. */
  lemma {:induction false} LeafNode(h: HashFunction, s: Shape, ls: seq<Digest>, off: nat, fl: nat, index: nat)
    returns (n: Node)
    requires 1 <= |ls| && off <= index < off + |ls| && fl <= index && Good(h, s, ls, off, fl) && Linked(s)
    ensures IsLeafNode(n, Tips(s), off + |ls| - index)
    ensures n in Nodes(s) && n.hash == ls[index - off]
    decreases s
  {
    hide Root, Level, Pow2, Split;
    if s.Tip? {
      n := s.n;
      SingleRoot(h, ls);
    } else {
      var k := Split(|ls|);
      if index < off + k {
        n := LeafNode(h, s.l, ls[..k], off, fl, index);
        AllTips(h, s.r, ls[k..], off + k, fl);
      } else {
        n := LeafNode(h, s.r, ls[k..], off + k, fl, index);
      }
    }
  }

  /** The same among the tips left of a path. */
  lemma {:induction false} CtxLeafNode(h: HashFunction, c: Ctx, at: nat, ls: seq<Digest>, fl: nat, index: nat)
    returns (n: Node)
    requires at < |ls| && CtxGood(h, c, at, ls, fl) && CtxHeld(c) && fl <= index < at
    ensures IsLeafNode(n, CtxTips(c), at - index)
    ensures n in CtxNodes(c) && n.hash == ls[index]
    decreases c
  {
    hide Root, Level, Pow2, Split, Good;
    var k := Count(c.sib);
    var part := ls[at - k..at];
    if at - k <= index {
      n := LeafNode(h, c.sib, part, at - k, fl, index);
    } else {
      n := CtxLeafNode(h, c.up, at - k, ls, fl, index);
      AllTips(h, c.sib, part, at - k, fl);
    }
  }

  lemma SingleRoot(h: HashFunction, ls: seq<Digest>)
    requires |ls| == 1
    ensures Root(h, ls) == ls[0]
  {
  }

  /** One round of a walk: the subtree it goes on to. */
  lemma Advance(h: HashFunction, t: Shape, part: seq<Digest>, off: nat, fl: nat, index: nat, it: nat, height: nat)
    returns (t': Shape, part': seq<Digest>, off': nat)
    requires At(h, t, part, off, fl, index, it, height) && height > 1
    ensures At(h, t', part', off', fl, index, ShiftLeft(it, 1), height - 1) && (Clean(t) ==> Clean(t'))
    ensures 1 <= |part| && off <= index < off + |part| && 1 <= |part'| && off' <= index < off' + |part'|
    ensures t.i.height == height ==> t.Fork? && 2 <= |part| && t' == Child(t, !TopBit(it))
    ensures t.i.height == height ==> Turns(part, off, index, TopBit(it), part', off')
    ensures t.i.height == height && Clean(t) ==> Forks(h, t, part)
    ensures t.i.height != height ==> t' == t && part' == part && off' == off && !TopBit(it)
  {
    hide Root, Level, Pow2, Split, ShiftLeft, TopBit, Steers;
    if t.i.height == height {
      AtFork(h, t, part, off, fl, index, it, height);
      var k := Split(|part|);
      assert Good(h, t.l, part[..k], off, fl) && Good(h, t.r, part[k..], off + k, fl);
      assert Clean(t) ==> Forks(h, t, part);
      if TopBit(it) {
        t', part', off' := t.r, part[k..], off + k;
      } else {
        t', part', off' := t.l, part[..k], off;
      }
    } else {
      AtShort(h, t, part, off, fl, index, it, height);
      t', part', off' := t, part, off;
    }
  }

  /** The children of t carry the roots of the two halves of part. */
  ghost predicate Forks(h: HashFunction, t: Shape, part: seq<Digest>)
    requires t.Fork? && 2 <= |part|
  {
    t.l.i.hash == Root(h, part[..Split(|part|)]) && t.r.i.hash == Root(h, part[Split(|part|)..])
  }

  /** One step down takes the last element off the audit path. */
  lemma AuditStep(h: HashFunction, t: Shape, part: seq<Digest>, off: nat, index: nat, right: bool,
                  part': seq<Digest>, off': nat)
    requires t.Fork? && 2 <= |part| && off <= index < off + |part|
    requires Forks(h, t, part) && Turns(part, off, index, right, part', off')
    ensures off' <= index < off' + |part'|
    ensures AuditPath(h, part, index - off)
         == AuditPath(h, part', index - off') + [Sibling(t.l.i.hash, t.r.i.hash, right)]
  {
    hide Root, Split;
  }

  function Sibling(left: Digest, right: Digest, goRight: bool): Element {
    Element(if goRight then left else right, if goRight then PATH_LEFT else PATH_RIGHT)
  }
}
