/** Tree nodes in memory, and ghost snapshots of the trees and of the half-walked paths they form. */
module MerkleNode {
  import opened Powers
  import opened MerkleSpec

  /** The scalar fields of a node. */
  datatype Info = Info(hash: Digest, size: nat, height: nat, dirty: bool)

  class Node {
    var hash: Digest
    var left: Node?
    var right: Node?
    var size: nat
    var height: nat
    var dirty: bool

    ghost function Get(): Info
      reads this
    {
      Info(hash, size, height, dirty)
    }

    constructor Leaf(hash: Digest)
      ensures Linked(Tip(this, Info(hash, 1, 1, false)))
    {
      this.hash := hash;
      left, right := null, null;
      size, height, dirty := 1, 1, false;
    }

    constructor Inner(left: Node, right: Node)
      ensures this.left == left && this.right == right
      ensures size == left.size + right.size + 1
      ensures height == Max(left.height, right.height) + 1
      ensures dirty
    {
      this.hash := Digest(seq(HASH_SIZE, _ => 0));
      this.left, this.right := left, right;
      size, height, dirty := left.size + right.size + 1, Max(left.height, right.height) + 1, true;
    }

    method UpdateSizes()
      requires left == null <==> right == null
      modifies this
      ensures hash == old(hash) && left == old(left) && right == old(right) && dirty == old(dirty)
      ensures left != null ==> size == old(left.size + right.size) + 1
      ensures left != null ==> height == old(Max(left.height, right.height)) + 1
      ensures left == null ==> size == 1 && height == 1
    {
      if left != null && right != null {
        size, height := left.size + right.size + 1, Max(left.height, right.height) + 1;
      } else {
        size, height := 1, 1;
      }
    }

    /** `1 << height` is computed in a 32-bit int. */
    predicate IsFull()
      requires height <= MAX_HEIGHT
      reads this
    {
      size == Pow2(height) - 1
    }
  }

  const MAX_HEIGHT: nat := 30

  function Max(a: nat, b: nat): nat {
    if a < b then b else a
  }

  /** A snapshot of the nodes below a node. */
  datatype Shape =
    | Tip(n: Node, i: Info)
    | Fork(n: Node, i: Info, l: Shape, r: Shape)

  ghost function Nodes(s: Shape): set<Node> {
    match s
    case Tip(n, _) => {n}
    case Fork(n, _, l, r) => {n} + Nodes(l) + Nodes(r)
  }

  /** The snapshot is what memory holds, and no node is used twice. */
  ghost predicate Linked(s: Shape)
    reads Nodes(s)
  {
    s.n.Get() == s.i &&
    match s
    case Tip(n, _) => n.left == null && n.right == null
    case Fork(n, _, l, r) =>
      n.left == l.n && n.right == r.n &&
      n !in Nodes(l) && n !in Nodes(r) && Nodes(l) !! Nodes(r) &&
      Linked(l) && Linked(r)
  }

  ghost function Tips(s: Shape): (r: seq<Node>)
    ensures 1 <= |r|
  {
    match s
    case Tip(n, _) => [n]
    case Fork(_, _, l, r) => Tips(l) + Tips(r)
  }

  ghost predicate IsTail<T>(part: seq<T>, all: seq<T>, m: int) {
    0 <= m <= |all| && part == all[|all| - m..]
  }

  /** A path from the root down to a place in the tree, with the subtrees left and right of it. */
  datatype Ctx =
    | Top
    | Step(n: Node, i: Info, left: bool, sib: Shape, up: Ctx)

  ghost function CtxNodes(c: Ctx): set<Node> {
    match c
    case Top => {}
    case Step(n, _, _, sib, up) => {n} + Nodes(sib) + CtxNodes(up)
  }

  /** Memory holds the path, up to the pointers along it. */
  ghost predicate CtxHeld(c: Ctx)
    reads CtxNodes(c)
  {
    match c
    case Top => true
    case Step(n, i, left, sib, up) =>
      n.Get() == i && (if left then n.right == sib.n else n.left == sib.n) &&
      n !in Nodes(sib) && n !in CtxNodes(up) && Nodes(sib) !! CtxNodes(up) &&
      Linked(sib) && CtxHeld(up)
  }

  /** The pointers along the path lead down to child. */
  ghost predicate CtxChain(c: Ctx, child: Node)
    reads CtxNodes(c)
  {
    match c
    case Top => true
    case Step(n, _, left, _, up) =>
      (if left then n.left == child else n.right == child) && CtxChain(up, n)
  }

  ghost function Plug(c: Ctx, s: Shape): Shape {
    match c
    case Top => s
    case Step(n, i, left, sib, up) => Plug(up, if left then Fork(n, i, s, sib) else Fork(n, i, sib, s))
  }

  lemma {:induction false} PlugNodes(c: Ctx, s: Shape)
    ensures Nodes(Plug(c, s)) == CtxNodes(c) + Nodes(s)
    decreases c
  {
    match c
    case Top =>
    case Step(n, i, left, sib, up) =>
      PlugNodes(up, if left then Fork(n, i, s, sib) else Fork(n, i, sib, s));
  }

  /** A path and the tree at its end make one tree. */
  lemma {:induction false} PlugLinked(c: Ctx, s: Shape)
    requires CtxHeld(c) && CtxChain(c, s.n) && Linked(s) && CtxNodes(c) !! Nodes(s)
    ensures Linked(Plug(c, s))
    decreases c
  {
    match c
    case Top =>
    case Step(n, i, left, sib, up) =>
      PlugLinked(up, if left then Fork(n, i, s, sib) else Fork(n, i, sib, s));
  }

  /** Number of leaves under a node whose size is up to date. */
  ghost function Count(s: Shape): nat {
    (s.i.size + 1) / 2
  }

  /** The subtree s holds the leaves ls, the first of which is leaf number off of the tree, in left-balanced
      form: sizes and heights are right, clean hashes are right, a node with a dirty child is dirty, and
      exactly the maximal subtrees left of leaf number fl are cut off below their top. */
  ghost predicate Good(h: HashFunction, s: Shape, ls: seq<Digest>, off: nat, fl: nat)
    requires 1 <= |ls|
    decreases s
  {
    s.i.size == 2 * |ls| - 1 && s.i.height == Level(|ls|) + 1 &&
    (!s.i.dirty ==> s.i.hash == Root(h, ls)) &&
    match s
    case Tip(_, i) => !i.dirty && (|ls| == 1 || off + |ls| <= fl)
    case Fork(_, i, l, r) =>
      2 <= |ls| && fl < off + |ls| && (l.i.dirty || r.i.dirty ==> i.dirty) &&
      var k := Split(|ls|);
      Good(h, l, ls[..k], off, fl) && Good(h, r, ls[k..], off + k, fl)
  }

  /** No hash below s is out of date. */
  ghost predicate Clean(s: Shape) {
    !s.i.dirty && (s.Fork? ==> Clean(s.l) && Clean(s.r))
  }

  lemma {:induction false} GoodClean(h: HashFunction, s: Shape, ls: seq<Digest>, off: nat, fl: nat)
    requires 1 <= |ls| && Good(h, s, ls, off, fl) && !s.i.dirty
    ensures Clean(s)
    decreases s
  {
    match s
    case Tip(_, _) =>
    case Fork(_, _, l, r) =>
      var k := Split(|ls|);
      GoodClean(h, l, ls[..k], off, fl);
      GoodClean(h, r, ls[k..], off + k, fl);
  }

  ghost function CtxTips(c: Ctx): seq<Node> {
    match c
    case Top => []
    case Step(_, _, _, sib, up) => CtxTips(up) + Tips(sib)
  }

  /** The path is the right edge of the tree over ls down to leaf number at: full subtrees hang off it on
      the left, and every node on it is dirty. */
  ghost predicate CtxGood(h: HashFunction, c: Ctx, at: nat, ls: seq<Digest>, fl: nat)
    requires at < |ls|
    decreases c
  {
    match c
    case Top => at == 0
    case Step(_, i, left, sib, up) =>
      var k := Count(sib);
      1 <= k <= at && IsPow2(k) && |ls| - at <= k && i.dirty && !left &&
      Good(h, sib, ls[at - k..at], at - k, fl) && CtxGood(h, up, at - k, ls, fl)
  }

  /** The node made by attaching a subtree at the end of the path c. */
  ghost function Attach(c: Ctx, s: Shape): Shape
    requires c.Step?
  {
    var l, r := if c.left then s else c.sib, if c.left then c.sib else s;
    Fork(c.n, Info(c.i.hash, l.i.size + r.i.size + 1, Max(l.i.height, r.i.height) + 1, true), l, r)
  }

  lemma AttachGood(h: HashFunction, c: Ctx, s: Shape, at: nat, ls: seq<Digest>, fl: nat)
    requires c.Step? && at < |ls| && fl < |ls|
    requires CtxGood(h, c, at, ls, fl) && Good(h, s, ls[at..], at, fl)
    ensures Good(h, Attach(c, s), ls[at - Count(c.sib)..], at - Count(c.sib), fl)
    ensures CtxGood(h, c.up, at - Count(c.sib), ls, fl)
    ensures CtxTips(c.up) + Tips(Attach(c, s)) == CtxTips(c) + Tips(s)
  {
    hide Root, Level, Pow2;
    var k := Count(c.sib);
    var part := ls[at - k..];
    SplitAfterPow2(k, |part|);
    SplitLevels(|part|);
    assert part[..k] == ls[at - k..at] && part[k..] == ls[at..];
  }

  ghost predicate Full(s: Shape) {
    s.i.size == Pow2(s.i.height) - 1
  }

  lemma FullIsPow2(h: HashFunction, s: Shape, ls: seq<Digest>, off: nat, fl: nat)
    requires 1 <= |ls| && Good(h, s, ls, off, fl)
    ensures Full(s) <==> IsPow2(|ls|)
  {
  }

  /** A node that is not full has two subtrees, and the left one is full. */
  lemma NotFull(h: HashFunction, s: Shape, ls: seq<Digest>, off: nat, fl: nat)
    requires 1 <= |ls| && off + |ls| > fl && Good(h, s, ls, off, fl) && !Full(s)
    ensures s.Fork? && 2 <= |ls| && Full(s.l) && Count(s.l) == Split(|ls|)
    ensures IsPow2(Split(|ls|)) && |ls| < 2 * Split(|ls|)
  {
    hide Root, Level;
    FullIsPow2(h, s, ls, off, fl);
    var k := Split(|ls|);
    SplitIsPow2(|ls|);
    FullIsPow2(h, s.l, ls[..k], off, fl);
    if |ls| == 2 * k {
      LevelUnique(2 * k, Level(k) + 1);
    }
  }

  /** Going down from a node that is not full leaves room on the right. */
  lemma DescendGood(h: HashFunction, c: Ctx, s: Shape, at: nat, ls: seq<Digest>, x: Digest, fl: nat)
    requires at < |ls| && fl < |ls|
    requires CtxGood(h, c, at, ls + [x], fl) && Good(h, s, ls[at..], at, fl) && !Full(s)
    ensures s.Fork? && Full(s.l)
    ensures var k := Count(s.l);
            at + k < |ls| &&
            CtxGood(h, Step(s.n, s.i.(dirty := true), false, s.l, c), at + k, ls + [x], fl) &&
            Good(h, s.r, ls[at + k..], at + k, fl)
  {
    hide Root, Level, Pow2, IsPow2, Full, Split;
    var part := ls[at..];
    NotFull(h, s, part, at, fl);
    var k := Split(|part|);
    assert part[..k] == (ls + [x])[at..at + k] && part[k..] == ls[at + k..];
  }

  /** A full subtree takes the new leaf as its right neighbour. */
  lemma ForkGood(h: HashFunction, s: Shape, leaf: Shape, f: Shape, at: nat, ls: seq<Digest>, x: Digest, fl: nat)
    requires at < |ls| && fl < |ls|
    requires Good(h, s, ls[at..], at, fl) && Full(s)
    requires leaf.Tip? && leaf.i == Info(x, 1, 1, false)
    requires f.Fork? && f.l == s && f.r == leaf
    requires f.i.dirty && f.i.size == s.i.size + 2 && f.i.height == s.i.height + 1
    ensures Good(h, f, (ls + [x])[at..], at, fl)
  {
    var part := ls[at..];
    var all := (ls + [x])[at..];
    FullIsPow2(h, s, part, at, fl);
    SplitAfterPow2(|part|, |all|);
    SplitLevels(|all|);
    assert all[..|part|] == part && all[|part|..] == [x];
  }

  /** Below a path whose end is not full there is room for one more leaf all the way up. */
  lemma {:induction false} RoomAbove(h: HashFunction, c: Ctx, at: nat, ls: seq<Digest>, x: Digest, fl: nat)
    requires at < |ls| && CtxGood(h, c, at, ls, fl)
    requires c.Step? ==> !IsPow2(|ls| - at)
    ensures CtxGood(h, c, at, ls + [x], fl)
    decreases c
  {
    hide Root, Level, Split, Good;
    match c
    case Top =>
    case Step(_, _, _, sib, up) =>
      var k := Count(sib);
      assert (ls + [x])[at - k..at] == ls[at - k..at];
      SplitAfterPow2(k, |ls| - (at - k));
      SplitLevels(|ls| - (at - k));
      RoomAbove(h, up, at - k, ls, x, fl);
  }
}
