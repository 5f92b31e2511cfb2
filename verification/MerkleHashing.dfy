/** What bringing hashes up to date does to the snapshots. */
module MerkleHashing {
  import opened Powers
  import opened MerkleSpec
  import opened MerkleNode
  import opened MerkleHeap

  /** Leaves are never dirty. */
  ghost predicate Hashable(s: Shape) {
    match s
    case Tip(_, i) => !i.dirty
    case Fork(_, _, l, r) => Hashable(l) && Hashable(r)
  }

  ghost predicate CtxHashable(c: Ctx) {
    c.Step? ==> c.i.dirty && Hashable(c.sib) && CtxHashable(c.up)
  }

  /** The tree with every hash that its dirty flags call out of date computed anew. */
  ghost function Hashed(h: HashFunction, s: Shape): (t: Shape)
    ensures t.n == s.n && Nodes(t) == Nodes(s)
    decreases s
  {
    match s
    case Tip(_, _) => s
    case Fork(n, i, l, r) =>
      if !i.dirty then s
      else
        var l', r' := Hashed(h, l), Hashed(h, r);
        Fork(n, i.(hash := h(l'.i.hash, r'.i.hash), dirty := false), l', r')
  }

  /** How many nodes that takes. */
  ghost function Pending(s: Shape): nat {
    if s.Fork? && s.i.dirty then 1 + Pending(s.l) + Pending(s.r) else 0
  }

  ghost function CtxPending(c: Ctx): nat {
    if c.Step? then 1 + Pending(c.sib) + CtxPending(c.up) else 0
  }

  /** Below dirty nodes only the hashed form of a subtree matters. */
  lemma {:induction false} HashedPlug(h: HashFunction, c: Ctx, s: Shape, t: Shape)
    requires CtxHashable(c) && Hashed(h, s) == Hashed(h, t)
    ensures Hashed(h, Plug(c, s)) == Hashed(h, Plug(c, t))
    decreases c
  {
    if c.Step? {
      HashedPlug(h, c.up, Refill(c, s), Refill(c, t));
    }
  }

  /** Hashing makes every hash right and keeps everything else. */
  lemma {:induction false} HashedGood(h: HashFunction, s: Shape, ls: seq<Digest>, off: nat, fl: nat)
    requires 1 <= |ls| && Good(h, s, ls, off, fl)
    ensures Good(h, Hashed(h, s), ls, off, fl) && Clean(Hashed(h, s)) && Tips(Hashed(h, s)) == Tips(s)
    decreases s
  {
    hide Root, Level, Pow2, Split;
    if !s.i.dirty {
      GoodClean(h, s, ls, off, fl);
    } else {
      var k := Split(|ls|);
      HashedGood(h, s.l, ls[..k], off, fl);
      HashedGood(h, s.r, ls[k..], off + k, fl);
      RootFork(h, ls);
    }
  }

  lemma RootFork(h: HashFunction, ls: seq<Digest>)
    requires 2 <= |ls|
    ensures Root(h, ls) == h(Root(h, ls[..Split(|ls|)]), Root(h, ls[Split(|ls|)..]))
  {
  }

  lemma {:induction false} GoodHashable(h: HashFunction, s: Shape, ls: seq<Digest>, off: nat, fl: nat)
    requires 1 <= |ls| && Good(h, s, ls, off, fl)
    ensures Hashable(s)
    decreases s
  {
    hide Root, Level, Pow2, Split;
    if s.Fork? {
      var k := Split(|ls|);
      GoodHashable(h, s.l, ls[..k], off, fl);
      GoodHashable(h, s.r, ls[k..], off + k, fl);
    }
  }

  /** In a tree kept by the operations the nodes counted by Pending are all the dirty ones. */
  ghost function DirtyNodes(s: Shape): set<Node> {
    (if s.i.dirty then {s.n} else {}) + (if s.Fork? then DirtyNodes(s.l) + DirtyNodes(s.r) else {})
  }

  lemma {:induction false} CleanHasNoDirtyNodes(s: Shape)
    requires Clean(s)
    ensures DirtyNodes(s) == {}
    decreases s
  {
    if s.Fork? {
      CleanHasNoDirtyNodes(s.l);
      CleanHasNoDirtyNodes(s.r);
    }
  }

  ghost predicate Distinct(s: Shape) {
    s.Fork? ==> s.n !in Nodes(s.l) && s.n !in Nodes(s.r) && Nodes(s.l) !! Nodes(s.r) && Distinct(s.l) && Distinct(s.r)
  }

  lemma {:induction false} DirtyNodesAreNodes(s: Shape)
    ensures DirtyNodes(s) <= Nodes(s)
    decreases s
  {
    if s.Fork? {
      DirtyNodesAreNodes(s.l);
      DirtyNodesAreNodes(s.r);
    }
  }

  lemma {:induction false} PendingCountsDirtyNodes(h: HashFunction, s: Shape, ls: seq<Digest>, off: nat, fl: nat)
    requires 1 <= |ls| && Good(h, s, ls, off, fl) && Distinct(s)
    ensures Pending(s) == |DirtyNodes(s)|
    decreases s
  {
    hide Root, Level, Pow2, Split;
    if !s.i.dirty {
      GoodClean(h, s, ls, off, fl);
      CleanHasNoDirtyNodes(s);
    } else {
      var k := Split(|ls|);
      PendingCountsDirtyNodes(h, s.l, ls[..k], off, fl);
      PendingCountsDirtyNodes(h, s.r, ls[k..], off + k, fl);
      DirtyNodesAreNodes(s.l);
      DirtyNodesAreNodes(s.r);
      assert DirtyNodes(s.l) !! DirtyNodes(s.r);
      assert |DirtyNodes(s.l) + DirtyNodes(s.r)| == |DirtyNodes(s.l)| + |DirtyNodes(s.r)|;
    }
  }

  lemma {:induction false} LinkedDistinct(s: Shape)
    requires Linked(s)
    ensures Distinct(s)
    decreases s
  {
    if s.Fork? {
      LinkedDistinct(s.l);
      LinkedDistinct(s.r);
    }
  }
}
