/** What retracting does to the snapshots. */
module MerkleRetract {
  import opened Powers
  import opened MerkleSpec
  import opened MerkleNode
  import opened MerkleHeap
  import opened MerkleInsert
  import opened MerkleWalk
  import opened MerklePast

  /** The left subtree l takes the place of its parent n, and is dirty if it has subtrees. */
  ghost function Promoted(n: Node, l: Shape): Shape {
    match l
    case Tip(_, i) => Tip(n, i)
    case Fork(_, i, ll, lr) => Fork(n, i.(dirty := true), ll, lr)
  }

  /** The tree without the leaves after number rel of n: nodes whose right subtree goes give way to their left one. */
  ghost function Retracted(s: Shape, n: nat, rel: nat): Shape
    decreases n
  {
    if s.Tip? || n < 2 then s
    else
      var k := Split(n);
      if k <= rel then Attach(Step(s.n, s.i, false, s.l, Top), Retracted(s.r, n - k, rel - k))
      else Retracted(Promoted(s.n, s.l), k, rel)
  }

  /** Attaches s to the last node of c, that node to the one above it, and so on to the root. */
  ghost function Settle(c: Ctx, s: Shape): Shape
    decreases c
  {
    if c.Top? then s else Settle(c.up, Attach(c, s))
  }

  lemma PromotedGood(h: HashFunction, n: Node, l: Shape, ls: seq<Digest>, off: nat, fl: nat)
    requires 1 <= |ls| && Good(h, l, ls, off, fl)
    ensures Good(h, Promoted(n, l), ls, off, fl)
  {
    hide Root, Level, Pow2, Split;
  }

  lemma {:induction false} RetractedTop(s: Shape, n: nat, rel: nat)
    ensures Retracted(s, n, rel).n == s.n
    decreases n
  {
    hide Split;
    if s.Fork? && 2 <= n && rel < Split(n) {
      RetractedTop(Promoted(s.n, s.l), Split(n), rel);
    }
  }

  /** A tree retracted to leaf number index is the left-balanced tree of the leaves up to it. */
  lemma {:induction false} RetractedGood(h: HashFunction, s: Shape, ls: seq<Digest>, off: nat, fl: nat, index: nat)
    requires 1 <= |ls| && Good(h, s, ls, off, fl) && fl <= index && off <= index < off + |ls|
    ensures Good(h, Retracted(s, |ls|, index - off), ls[..index - off + 1], off, fl)
    decreases |ls|
  {
    hide Root, Level, Pow2, Split, Good, Attach, Promoted;
    var rel := index - off;
    if |ls| == 1 {
      RetractedSingle(h, s, ls, off, fl);
    } else {
      GoodFork(h, s, ls, off, fl, index);
      RetractedFork(s, |ls|, rel);
      var k := Split(|ls|);
      if k <= rel {
        RetractedGood(h, s.r, ls[k..], off + k, fl, index);
        KeepLeft(h, s, Retracted(s.r, |ls| - k, rel - k), ls, off, fl, rel);
      } else {
        PromotedGood(h, s.n, s.l, ls[..k], off, fl);
        RetractedGood(h, Promoted(s.n, s.l), ls[..k], off, fl, index);
        assert ls[..k][..rel + 1] == ls[..rel + 1];
      }
    }
  }

  lemma GoodFork(h: HashFunction, s: Shape, ls: seq<Digest>, off: nat, fl: nat, index: nat)
    requires 2 <= |ls| && Good(h, s, ls, off, fl) && fl <= index < off + |ls|
    ensures var k := Split(|ls|);
            s.Fork? && Good(h, s.l, ls[..k], off, fl) && Good(h, s.r, ls[k..], off + k, fl)
  {
    hide Root, Level, Pow2, Split;
  }

  lemma RetractedSingle(h: HashFunction, s: Shape, ls: seq<Digest>, off: nat, fl: nat)
    requires |ls| == 1 && Good(h, s, ls, off, fl)
    ensures s.Tip? && Retracted(s, 1, 0) == s && ls[..1] == ls
  {
  }

  lemma RetractedFork(s: Shape, n: nat, rel: nat)
    requires s.Fork? && 2 <= n
    ensures Retracted(s, n, rel) ==
            if Split(n) <= rel
            then Attach(Step(s.n, s.i, false, s.l, Top), Retracted(s.r, n - Split(n), rel - Split(n)))
            else Retracted(Promoted(s.n, s.l), Split(n), rel)
  {
    hide Split;
  }

  /** A node that keeps its full left subtree and gets a shorter right one. */
  lemma KeepLeft(h: HashFunction, s: Shape, r: Shape, ls: seq<Digest>, off: nat, fl: nat, rel: nat)
    requires 2 <= |ls| && rel < |ls| && s.Fork?
    requires var k := Split(|ls|);
             k <= rel && fl <= off + rel && Good(h, s.l, ls[..k], off, fl) &&
             Good(h, r, ls[k..][..rel - k + 1], off + k, fl)
    ensures Good(h, Attach(Step(s.n, s.i, false, s.l, Top), r), ls[..rel + 1], off, fl)
  {
    hide Root, Level, Pow2, Split;
    var k, part := Split(|ls|), ls[..rel + 1];
    SplitStable(|ls|, rel + 1);
    SplitLevels(rel + 1);
    assert part[..k] == ls[..k] && part[k..] == ls[k..][..rel - k + 1];
  }

  /** All tips but the last stay, those after leaf number index go. */
  lemma {:induction false} RetractedTips(h: HashFunction, s: Shape, ls: seq<Digest>, off: nat, fl: nat, index: nat)
    requires 1 <= |ls| && Good(h, s, ls, off, fl) && fl <= index && off <= index < off + |ls|
    ensures KeepsTips(Tips(s), Tips(Retracted(s, |ls|, index - off)), off + |ls| - index)
    decreases |ls|
  {
    hide Root, Level, Pow2, Split, Good, Promoted, Retracted;
    var rel := index - off;
    if |ls| == 1 {
      RetractedSingle(h, s, ls, off, fl);
    } else {
      GoodFork(h, s, ls, off, fl, index);
      RetractedFork(s, |ls|, rel);
      var k := Split(|ls|);
      if k <= rel {
        RetractedTips(h, s.r, ls[k..], off + k, fl, index);
      } else {
        PromotedGood(h, s.n, s.l, ls[..k], off, fl);
        RetractedTips(h, Promoted(s.n, s.l), ls[..k], off, fl, index);
        AllTips(h, s.r, ls[k..], off + k, fl);
        PromotedTips(s.n, s.l);
      }
    }
  }

  /** b is a, without its last `cut` elements, and one more element. */
  ghost predicate KeepsTips<T>(a: seq<T>, b: seq<T>, cut: int) {
    1 <= cut <= |a| && |b| == |a| - cut + 1 && b[..|b| - 1] == a[..|a| - cut]
  }

  lemma PromotedTips(n: Node, l: Shape)
    ensures |Tips(Promoted(n, l))| == |Tips(l)|
    ensures Tips(Promoted(n, l))[..|Tips(l)| - 1] == Tips(l)[..|Tips(l)| - 1]
  {
    if l.Fork? {
      assert Tips(Promoted(n, l)) == Tips(l);
    }
  }

  /** The walk stack holds the nodes from the root down to n, each of them once or more, n itself any number of
      times. */
  ghost predicate Runs(w: seq<Node>, c: Ctx, n: Node)
    decreases |w|
  {
    if |w| > 0 && w[|w| - 1] == n then Runs(w[..|w| - 1], c, n)
    else if c.Top? then w == []
    else |w| > 0 && w[|w| - 1] == c.n && Runs(w[..|w| - 1], c.up, c.n)
  }

  lemma RunsPush(w: seq<Node>, c: Ctx, n: Node)
    requires Runs(w, c, n)
    ensures Runs(w + [n], c, n)
  {
    assert (w + [n])[..|w|] == w;
  }

  lemma RunsDown(w: seq<Node>, c: Ctx, d: Ctx, m: Node)
    requires d.Step? && d.up == c && Runs(w, c, d.n) && |w| > 0 && w[|w| - 1] == d.n && m != d.n
    ensures Runs(w, d, m)
  {
  }

  lemma RunsStart(n: Node)
    ensures Runs([], Top, n)
  {
  }

  lemma RunsPop(w: seq<Node>, c: Ctx, n: Node)
    requires Runs(w, c, n)
    ensures w == [] ==> c.Top?
    ensures w != [] ==>
              if w[|w| - 1] == n then Runs(w[..|w| - 1], c, n)
              else c.Step? && w[|w| - 1] == c.n && Runs(w[..|w| - 1], c.up, c.n)
  {
  }

  lemma SettleTop(s: Shape)
    ensures Settle(Top, s) == s
  {
  }

  lemma SettleUp(c: Ctx, s: Shape)
    requires c.Step?
    ensures Settle(c, s) == Settle(c.up, Attach(c, s))
  {
  }

  lemma {:induction false} SettleLastTip(c: Ctx, s: Shape)
    requires RightPath(c)
    ensures Tips(Settle(c, s))[|Tips(Settle(c, s))| - 1] == Tips(s)[|Tips(s)| - 1]
    decreases c
  {
    if c.Step? {
      SettleLastTip(c.up, Attach(c, s));
    }
  }

  lemma AtPromoted(h: HashFunction, t: Shape, part: seq<Digest>, off: nat, fl: nat, index: nat, it: nat, height: nat,
                   part': seq<Digest>, off': nat)
    requires At(h, t, part, off, fl, index, it, height) && t.Fork? && 2 <= |part| && t.i.height == height
    requires Turns(part, off, index, false, part', off')
    ensures off' <= index < off' + |part'|
    ensures At(h, Promoted(t.n, t.l), part', off', fl, index, it, height) && Promoted(t.n, t.l).i.height < height
  {
    hide Root, Split, Steers, Level;
    SplitLevels(|part|);
    PromotedGood(h, t.n, t.l, part', off, fl);
  }

  lemma ChildDiffers(c: Ctx, t: Shape)
    requires Attached(c, t) && t.Fork?
    ensures t.r.n != t.n
  {
    assert t.r.n in Nodes(t.r);
  }

  /** Every node on the path is dirty and was left to the right. */
  ghost predicate RightPath(c: Ctx) {
    c.Step? ==> c.i.dirty && !c.left && RightPath(c.up)
  }

  lemma RetractedStep(c: Ctx, t: Shape, part: seq<Digest>, off: nat, index: nat, part': seq<Digest>, off': nat)
    requires c.Step? && !c.left && c.n == t.n && c.i.hash == t.i.hash
    requires t.Fork? && c.sib == t.l && 2 <= |part| && off <= index < off + |part|
    requires Turns(part, off, index, true, part', off')
    ensures off' <= index < off' + |part'|
    ensures Settle(c, Retracted(t.r, |part'|, index - off')) == Settle(c.up, Retracted(t, |part|, index - off))
  {
    hide Split, Retracted, Settle;
    RetractedFork(t, |part|, index - off);
    SettleUp(c, Retracted(t.r, |part'|, index - off'));
  }

  lemma RetractedEliminate(t: Shape, part: seq<Digest>, off: nat, index: nat, part': seq<Digest>, off': nat)
    requires t.Fork? && 2 <= |part| && off <= index < off + |part| && Turns(part, off, index, false, part', off')
    ensures Retracted(t, |part|, index - off) == Retracted(Promoted(t.n, t.l), |part'|, index - off')
  {
    hide Split, Retracted;
    RetractedFork(t, |part|, index - off);
  }

  lemma RetractedTip(t: Shape, n: nat, rel: nat)
    requires t.Tip?
    ensures Retracted(t, n, rel) == t
  {
  }

  method WalkRetract(h: HashFunction, n: Node, index: nat, ghost s: Shape, ghost ls: seq<Digest>, ghost fl: nat)
    returns (leaf: Node)
    requires fl <= index < |ls| <= MAX_LEAVES
    requires n == s.n && Linked(s) && Good(h, s, ls, 0, fl)
    modifies Nodes(s)
    ensures var t := Retracted(s, |ls|, index);
            Linked(t) && Nodes(t) <= Nodes(s) && Tips(t)[|Tips(t)| - 1] == leaf
  {
    hide Linked, Attached, MemoryOf, Good, At, StartWord, TopBit, ShiftLeft, Root, Retracted, Settle, Nodes, Split;
    hide Runs, Tips;
    ghost var c, t, part := Top, s, ls;
    ghost var off: nat := 0;
    AttachedAtTop(s);
    Looked(c, t);
    AtStart(h, s, ls, fl, index);
    RunsStart(n);
    SettleTop(Retracted(s, |ls|, index));
    var cur := n;
    var it := StartWord(index, cur.height);
    var height: nat := cur.height;
    var walkStack: seq<Node> := [];
    while height > 1
      invariant 1 <= height && off <= index < off + |part|
      invariant cur == t.n && Attached(c, t) && MemoryOf(c, t) <= Nodes(s) && RightPath(c)
      invariant At(h, t, part, off, fl, index, it, height)
      invariant Settle(c, Retracted(t, |part|, index - off)) == Retracted(s, |ls|, index)
      invariant Runs(walkStack, c, cur)
      decreases height, t.i.height
    {
      Looked(c, t);
      var goRight := TopBit(it);
      ghost var t', part', off' := Advance(h, t, part, off, fl, index, it, height);
      RunsPush(walkStack, c, cur);
      walkStack := walkStack + [cur];
      if cur.height == height {
        ghost var u := t;
        t := MarkDirty(cur, c, t);
        Looked(c, t);
        if !goRight && cur.right != null {
          RetractedEliminate(u, part, off, index, part', off');
          t := Eliminate(cur, c, t);
          t := MarkInner(cur, c, t);
          AtPromoted(h, u, part, off, fl, index, it, height, part', off');
          part, off := part', off';
          continue;
        }
        GoDown(c, t, false);
        ChildDiffers(c, t);
        ghost var d := Down(c, t, false);
        RetractedStep(d, u, part, off, index, part', off');
        RunsDown(walkStack, c, d, t'.n);
        c := d;
        var l, r := cur.left, cur.right;
        cur := if goRight then r else l;
      }
      t, part, off := t', part', off';
      it := ShiftLeft(it, 1);
      height := height - 1;
    }
    AtEnd(h, t, part, off, fl, index, it, height);
    RetractedTip(t, |part|, index - off);
    leaf := cur;
    AtGood(h, t, part, off, fl, index, it, height);
    LeafUpToDate(h, t, part, off, fl);
    SettleLastTip(c, t);
    while walkStack != []
      invariant Attached(c, t) && MemoryOf(c, t) <= Nodes(s) && RightPath(c) && UpToDate(t)
      invariant Settle(c, t) == Retracted(s, |ls|, index)
      invariant Runs(walkStack, c, t.n)
      decreases |walkStack|
    {
      RunsPop(walkStack, c, t.n);
      Looked(c, t);
      if c.Step? {
        SettleUp(c, t);
      }
      var back := walkStack[|walkStack| - 1];
      c, t := ResizeOnPath(back, c, t);
      walkStack := walkStack[..|walkStack| - 1];
    }
    RunsPop(walkStack, c, t.n);
    SettleTop(t);
    TopAttached(t);
  }

  lemma LeafUpToDate(h: HashFunction, t: Shape, part: seq<Digest>, off: nat, fl: nat)
    requires t.Tip? && |part| == 1 && Good(h, t, part, off, fl)
    ensures UpToDate(t) && Tips(t)[|Tips(t)| - 1] == t.n
  {
  }
}
