/** The incremental tree of merklecpp.h. */
module MerkleTree {
  import opened Powers
  import opened MerkleSpec
  import opened MerkleNode
  import opened MerkleHeap
  import opened MerkleInsert
  import opened MerkleHashing
  import opened MerkleWalk
  import opened MerklePast
  import opened MerkleQueries
  import opened MerkleFlush
  import opened MerkleRetract
  import opened MerkleRebuild
  import opened MerkleBytes
  import opened MerklePath
  import opened Wrappers

  /** One suspended step of an insertion: the subtree that comes back goes to the left or right of n. */
  datatype StackElement = StackElement(n: Node, left: bool)

  ghost function Frames(c: Ctx): seq<StackElement> {
    match c
    case Top => []
    case Step(n, _, left, _, up) => Frames(up) + [StackElement(n, left)]
  }

  /** What the nodes in the tree stand for. */
  datatype View = Empty | View(c: Ctx, s: Shape)

  ghost function Memory(v: View): set<Node> {
    if v.Empty? then {} else MemoryOf(v.c, v.s)
  }

  ghost function Spine(c: Ctx): seq<Node> {
    match c
    case Top => []
    case Step(n, _, _, _, up) => Spine(up) + [n]
  }

  ghost function Hashes(q: seq<Node>): (r: seq<Digest>)
    reads q
    ensures |r| == |q| && forall i :: 0 <= i < |q| ==> r[i] == q[i].hash
  {
    if q == [] then [] else Hashes(q[..|q| - 1]) + [q[|q| - 1].hash]
  }

  ghost predicate IsLeaf(n: Node, x: Digest)
    reads n
  {
    n.Get() == Info(x, 1, 1, false) && n.left == null && n.right == null
  }

  /** The nodes in q are leaves outside the tree. */
  ghost predicate Queued(q: seq<Node>, memory: set<Node>)
    reads q
  {
    (forall i :: 0 <= i < |q| ==> q[i] !in memory && IsLeaf(q[i], q[i].hash)) &&
    (forall i, j :: 0 <= i < j < |q| ==> q[i] != q[j])
  }

  ghost function Elements<T>(q: seq<T>): set<T> {
    set n | n in q
  }

  class TreeT {
    const h: HashFunction
    var leafNodes: seq<Node>
    var uninsertedLeafNodes: seq<Node>
    var root: Node?
    var numFlushed: nat
    var insertionStack: seq<StackElement>
    var numHash: nat

    ghost var view: View          // the nodes reached from root and insertionStack
    ghost var leaves: seq<Digest> // every leaf inserted so far, flushed ones included

    /** The inserted leaves are held as a left-balanced tree, which insertionStack and root make up together. */
    ghost predicate Core()
      reads this`leafNodes, this`root, this`numFlushed, this`insertionStack, this`view, this`leaves, Memory(view)
    {
      match view
      case Empty =>
        root == null && leaves == [] && leafNodes == [] && numFlushed == 0 && insertionStack == []
      case View(c, s) =>
        root == s.n && insertionStack == Frames(c) && Attached(c, s) &&
        Waiting(h, c, s, leaves, numFlushed) &&
        IsTail(leafNodes, CtxTips(c) + Tips(s), |leaves| - numFlushed)
    }

    ghost predicate Valid()
      reads this, Memory(view), uninsertedLeafNodes
    {
      Core() && Queued(uninsertedLeafNodes, Memory(view))
    }

    /** All leaves, flushed ones and queued ones included. */
    ghost function Contents(): seq<Digest>
      reads this, uninsertedLeafNodes
    {
      leaves + Hashes(uninsertedLeafNodes)
    }

    /** Every node the tree may change. */
    ghost function Repr(): set<Node>
      reads this
    {
      Memory(view) + Elements(uninsertedLeafNodes)
    }

    constructor (h: HashFunction)
      ensures Core() && view == Empty && uninsertedLeafNodes == [] && this.h == h
    {
      this.h := h;
      leafNodes, uninsertedLeafNodes, root, numFlushed, insertionStack, numHash := [], [], null, 0, [], 0;
      view, leaves := Empty, [];
    }

    /** Goes down to the full subtree that gets a new right neighbour, and stacks the nodes on the way. */
    method ContinueInsertionStack(start: Node, newLeaf: Node, ghost c0: Ctx, ghost s0: Shape, ghost leaf: Shape)
      returns (ghost f: Shape)
      requires start == s0.n && Attached(c0, s0) && insertionStack == Frames(c0) && Insertable(s0)
      requires newLeaf == leaf.n && leaf.Tip? && Linked(leaf) && newLeaf !in MemoryOf(c0, s0)
      modifies this`insertionStack, MemoryOf(c0, s0)
      ensures var (d, t) := Descend(c0, s0);
              f.Fork? && f.l == t && f.r == leaf && f.i.dirty && f == Resized(f) &&
              Hanging(d, f) && MemoryOf(d, f) == MemoryOf(c0, s0) + {newLeaf, f.n} &&
              insertionStack == Frames(d) + [StackElement(f.n, false)]
      ensures fresh(f.n)
    {
      hide Full, Attached, Hanging, MemoryOf;
      ghost var c, s := c0, s0;
      var n := start;
      Looked(c, s);
      while !n.IsFull()
        invariant n == s.n && n.Get() == s.i && Attached(c, s) && insertionStack == Frames(c)
        invariant MemoryOf(c, s) == MemoryOf(c0, s0)
        invariant Insertable(s) && Descend(c, s) == Descend(c0, s0)
        invariant Linked(leaf)
        decreases s
      {
        Looked(c, s);
        var left := !n.left.IsFull();
        insertionStack := insertionStack + [StackElement(n, left)];
        s := MarkDirty(n, c, s);
        GoDown(c, s, left);
        n := if left then n.left else n.right;
        c, s := Down(c, s, left), Child(s, left);
        Looked(c, s);
      }
      Looked(c, s);
      assert Full(s);
      var result;
      result, f := MakeFork(n, newLeaf, c, s, leaf);
      insertionStack := insertionStack + [StackElement(result, false)];
    }

    /** Gives subtrees back to the nodes on the stack: all of them, or up to the first with room left. */
    method ProcessInsertionStack(complete: bool, ghost c0: Ctx, ghost f0: Shape)
      returns (result: Node, ghost c: Ctx, ghost s: Shape)
      requires |insertionStack| > 0 && insertionStack[|insertionStack| - 1].n == f0.n
      requires insertionStack[..|insertionStack| - 1] == Frames(c0)
      requires f0.Fork? && f0.i.dirty && Hanging(c0, f0) && Climbable(c0, Resized(f0))
      modifies this`insertionStack, MemoryOf(c0, f0)
      ensures (c, s) == Climb(c0, Resized(f0), complete)
      ensures Attached(c, s) && result == s.n && insertionStack == Frames(c)
      ensures MemoryOf(c, s) == MemoryOf(c0, f0)
    {
      hide Full, Linked, CtxHeld, CtxChain, Resized;
      result := insertionStack[|insertionStack| - 1].n;
      insertionStack := insertionStack[..|insertionStack| - 1];
      c := c0;
      s := Resize(result, c, f0);
      while insertionStack != []
        invariant Hanging(c, s) && result == s.n && insertionStack == Frames(c)
        invariant MemoryOf(c, s) == MemoryOf(c0, f0) && Climbable(c, s)
        invariant Climb(c, s, complete) == Climb(c0, Resized(f0), complete)
        decreases c
      {
        var top := insertionStack[|insertionStack| - 1];
        insertionStack := insertionStack[..|insertionStack| - 1];
        s := AttachChild(top.n, result, top.left, c, s);
        c := c.up;
        result := top.n;
        Looked(c, s);
        if !complete && !result.IsFull() {
          return;
        }
        AttachedHangs(c, s);
      }
      AttachedAtTop(s);
    }

    method InsertLeaf(n: Node, ghost x: Digest)
      requires Core() && n !in Memory(view) && Linked(Tip(n, Info(x, 1, 1, false)))
      requires |leaves| < MAX_LEAVES
      modifies this`leafNodes, this`root, this`insertionStack, this`view, this`leaves, Memory(view), n
      ensures Core() && leaves == old(leaves) + [x] && view.View?
      ensures fresh(Memory(view) - old(Memory(view)) - {n})
    {
      hide Full, Attached, Waiting, Represents, MemoryOf;
      leafNodes := leafNodes + [n];
      if insertionStack == [] && root == null {
        root := n;
        assert view == Empty;
        AttachedAtTop(Tip(n, Info(x, 1, 1, false)));
        view, leaves := View(Top, Tip(n, Info(x, 1, 1, false))), [x];
        FirstLeaf(h, view.s, x);
      } else {
        label queued:
        GrowTree(n, x);
        assert forall o | o in Memory(view) :: fresh@queued(o) ==> fresh(o);
      }
    }

    /** The general case of InsertLeaf, where root is a tree already. */
    method GrowTree(n: Node, ghost x: Digest)
      requires view.View? && root == view.s.n && insertionStack == Frames(view.c) && Attached(view.c, view.s)
      requires Waiting(h, view.c, view.s, leaves, numFlushed)
      requires IsTail(leafNodes, CtxTips(view.c) + Tips(view.s) + [n], |leaves| + 1 - numFlushed)
      requires n !in Memory(view) && Linked(Tip(n, Info(x, 1, 1, false)))
      requires |leaves| < MAX_LEAVES
      modifies this`root, this`insertionStack, this`view, this`leaves, Memory(view), n
      ensures Core() && leaves == old(leaves) + [x] && view.View?
      ensures fresh(Memory(view) - old(Memory(view)) - {n})
    {
      hide Full, Attached, Hanging, Waiting, Represents, Insertable, Climbable, Descend, Climb, Resized,
           MemoryOf, CtxTips, Tips, Linked, Frames;
      ghost var ls, c, s := leaves, view.c, view.s;
      ghost var leaf := Tip(n, Info(x, 1, 1, false));
      WaitingInsertable(h, c, s, ls, numFlushed);
      ghost var f := ContinueInsertionStack(root, n, c, s, leaf);
      InsertWaits(h, c, s, leaf, f, ls, x, numFlushed);
      ghost var e, t;
      root, e, t := ProcessInsertionStack(false, Descend(c, s).0, f);
      view, leaves := View(e, t), ls + [x];
    }

    method InsertQueued()
      requires Valid() && |leaves| + |uninsertedLeafNodes| <= MAX_LEAVES
      modifies this`leafNodes, this`root, this`insertionStack, this`view, this`leaves, Repr()
      ensures Core() && leaves == old(Contents())
      ensures fresh(Memory(view) - old(Repr()))
    {
      hide Full, Core, Memory;
      ghost var hs, ls, before := Hashes(uninsertedLeafNodes), leaves, Repr();
      var q := uninsertedLeafNodes;
      assert hs[..0] == [];
      for i := 0 to |q|
        invariant Core() && leaves == ls + hs[..i]
        invariant forall j :: i <= j < |q| ==> q[j] !in Memory(view)
        invariant forall j :: i <= j < |q| ==> IsLeaf(q[j], hs[j])
        invariant fresh(Memory(view) - before)
      {
        assert q[i] in before;
        label queued:
        InsertLeaf(q[i], hs[i]);
        assert forall o | o in Memory(view) :: fresh@queued(o) ==> fresh(o);
        assert hs[..i + 1] == hs[..i] + [hs[i]];
      }
    }

    /** Recomputes the out-of-date hashes below n, children first, each of them once. */
    method Hash(n: Node, ghost s: Shape) returns (ghost t: Shape)
      requires Linked(s) && n == s.n && s.i.dirty && Hashable(s)
      modifies this`numHash, Nodes(s)
      ensures t == Hashed(h, s) && Linked(t) && Nodes(t) == Nodes(s)
      ensures numHash == old(numHash) + Pending(s)
    {
      hide Linked, Attached, MemoryOf;
      var hashingStack := [n];
      ghost var c := Top;
      t := s;
      AttachedAtTop(s);
      while hashingStack != []
        invariant MemoryOf(c, t) == Nodes(s) && Attached(c, t)
        invariant Hashed(h, Plug(c, t)) == Hashed(h, s)
        invariant hashingStack != [] ==> hashingStack == Spine(c) + [t.n] && t.i.dirty
        invariant hashingStack == [] ==> c.Top? && !t.i.dirty
        invariant Hashable(t) && CtxHashable(c)
        invariant numHash + CtxPending(c) + Pending(t) == old(numHash) + Pending(s)
        decreases CtxPending(c) + Pending(t), t
      {
        var cur := hashingStack[|hashingStack| - 1];
        Looked(c, t);
        if cur.left != null && cur.left.dirty {
          hashingStack := hashingStack + [cur.left];
          GoDown(c, t, true);
          c, t := Down(c, t, true), t.l;
        } else if cur.right != null && cur.right.dirty {
          hashingStack := hashingStack + [cur.right];
          GoDown(c, t, false);
          c, t := Down(c, t, false), t.r;
        } else {
          ghost var u := t;
          t := SetHash(cur, h(cur.left.hash, cur.right.hash), c, t);
          numHash := numHash + 1;
          HashedPlug(h, c, u, t);
          hashingStack := hashingStack[..|hashingStack| - 1];
          if c.Step? {
            GoUp(c, t);
            c, t := c.up, Refill(c, t);
          }
        }
      }
      TopAttached(t);
    }

    /** Finishes all suspended insertions. */
    method Complete()
      requires Core() && insertionStack != [] && |leaves| <= MAX_LEAVES
      modifies this`root, this`insertionStack, this`view, Memory(view)
      ensures Core() && view.View? && view.c.Top? && Memory(view) == old(Memory(view))
    {
      hide Full, Attached, Hanging, Waiting, Represents, Climbable, Climb, MemoryOf, CtxTips, Tips;
      ghost var c, s := view.c, view.s;
      CompleteWaits(h, c, s, leaves, numFlushed);
      GoUp(c, s);
      AttachedHangs(c.up, Refill(c, s));
      ghost var d, t;
      root, d, t := ProcessInsertionStack(true, c.up, Refill(c, s));
      view := View(d, t);
    }

    method InsertLeaves(complete: bool)
      requires Valid() && |leaves| + |uninsertedLeafNodes| <= MAX_LEAVES
      modifies this`leafNodes, this`root, this`insertionStack, this`view, this`leaves, this`uninsertedLeafNodes, Repr()
      ensures Valid() && leaves == Contents() == old(Contents()) && uninsertedLeafNodes == []
      ensures complete && view.View? ==> view.c.Top?
      ensures fresh(Repr() - old(Repr()))
    {
      hide Full, Core, Memory;
      if uninsertedLeafNodes != [] {
        InsertQueued();
        uninsertedLeafNodes := [];
      }
      StackIsPath();
      if complete && insertionStack != [] {
        Complete();
      }
    }

    lemma StackIsPath()
      requires Core()
      ensures view.View? ==> (insertionStack == [] <==> view.c.Top?)
    {
    }

    function NumLeaves(): nat
      reads this
    {
      numFlushed + |leafNodes| + |uninsertedLeafNodes|
    }

    /** Every leaf is in the tree, no insertion is suspended, and no hash is out of date. */
    ghost predicate Settled()
      reads this, Memory(view), uninsertedLeafNodes
    {
      Valid() && uninsertedLeafNodes == [] && view.View? && view.c.Top? && !view.s.i.dirty
    }

    lemma SettledMeans()
      requires Settled()
      ensures view.View? && view.c.Top? && uninsertedLeafNodes == [] && insertionStack == []
      ensures Contents() == leaves && numFlushed < |leaves| == NumLeaves()
      ensures Linked(view.s) && root == view.s.n && root.Get() == view.s.i && Memory(view) == Nodes(view.s)
      ensures Good(h, view.s, leaves, 0, numFlushed) && Clean(view.s)
      ensures IsTail(leafNodes, Tips(view.s), |leaves| - numFlushed)
    {
      hide Waiting, Good, Attached, Tips, MemoryOf;
      TopWaits(h, view.s, leaves, numFlushed);
      TopAttached(view.s);
      WaitingBounds(h, view.c, view.s, leaves, numFlushed);
      GoodClean(h, view.s, leaves, 0, numFlushed);
      assert leaves + [] == leaves;
    }

    lemma SettledValid()
      requires Settled()
      ensures Valid()
    {
    }

    lemma MemoryAllocated()
      ensures forall o | o in Memory(view) :: allocated(o)
    {
      if view.View? {
        CtxAllocated(view.c);
        ShapeAllocated(view.s);
      }
    }

    lemma CountsLeaves()
      requires Valid()
      ensures NumLeaves() == |Contents()| && (view.View? <==> leaves != [])
    {
    }

    /** Brings the tree up to date; refused if there are no leaves at all. */
    method ComputeRoot() returns (ok: bool)
      requires Valid() && |Contents()| <= MAX_LEAVES
      modifies this`leafNodes, this`root, this`insertionStack, this`view, this`leaves, this`uninsertedLeafNodes,
               this`numHash, Repr()
      ensures Valid() && Contents() == old(Contents()) && uninsertedLeafNodes == []
      ensures ok <==> old(Contents()) != []
      ensures ok ==> Settled()
      ensures fresh(Repr() - old(Repr()))
    {
      hide Full, Core, Memory;
      InsertLeaves(true);
      CountsLeaves();
      if NumLeaves() == 0 {
        return false;
      }
      RootIsTop();
      if root.dirty {
        FreshenRoot();
      }
      return true;
    }

    lemma RootIsTop()
      requires Core() && view.View?
      ensures root == view.s.n && root.dirty == view.s.i.dirty
    {
    }

    method FreshenRoot()
      requires Core() && view.View? && view.c.Top? && view.s.i.dirty
      modifies this`view, this`numHash, Memory(view)
      ensures Core() && view.View? && view.c.Top? && Clean(view.s) && Memory(view) == old(Memory(view))
      ensures view.s == Hashed(h, old(view.s)) && numHash == old(numHash) + Pending(old(view.s))
    {
      hide Full, Linked, Waiting, Good, Pending, Hashed, Clean;
      ghost var s := view.s;
      TopWaits(h, s, leaves, numFlushed);
      ghost var t := Hash(root, s);
      AttachedAtTop(t);
      view := View(Top, t);
    }

    /** The hash of the root of all leaves; none for the empty tree, which the original refuses. */
    method GetRoot() returns (r: Option<Digest>)
      requires Valid() && |Contents()| <= MAX_LEAVES
      modifies this`leafNodes, this`root, this`insertionStack, this`view, this`leaves, this`uninsertedLeafNodes,
               this`numHash, Repr()
      ensures Valid() && Contents() == old(Contents()) && fresh(Repr() - old(Repr()))
      ensures r == if Contents() == [] then None else Some(Root(h, Contents()))
    {
      hide Valid, Root, Repr;
      var ok := ComputeRoot();
      if !ok {
        return None;
      }
      SettledMeans();
      TopHash(h, view.s, leaves, numFlushed);
      return Some(root.hash);
    }

    /** The node of a leaf that is in the tree. */
    lemma LeafIsThere(index: nat) returns (n: Node)
      requires Settled() && numFlushed <= index < |leaves|
      ensures index - numFlushed < |leafNodes| && n == leafNodes[index - numFlushed] && n in Repr()
      ensures n.hash == leaves[index]
      ensures IsLeafNode(n, Tips(view.s), |leaves| - index)
    {
      hide Settled, Good, Linked, Tips, Clean, Nodes, Valid;
      SettledMeans();
      n := LeafNode(h, view.s, leaves, 0, numFlushed, index);
    }

    /** The path of a leaf in the tree of all leaves; refused for leaves that are flushed or not there. */
    method GetPath(index: nat) returns (r: Option<Path>)
      requires Valid() && |Contents()| <= MAX_LEAVES
      modifies this`leafNodes, this`root, this`insertionStack, this`view, this`leaves, this`uninsertedLeafNodes,
               this`numHash, Repr()
      ensures Valid() && Contents() == old(Contents()) && fresh(Repr() - old(Repr()))
      ensures r.Some? <==> numFlushed <= index < |Contents()|
      ensures r.Some? ==> Settled() && r.value == PathOf(h, Contents(), index)
    {
      hide Valid, Settled, Root, AuditPath, Repr, Good, Linked, Clean, Tips, Nodes;
      CountsLeaves();
      if index < numFlushed || MaxIndex() < index {
        return None;
      }
      var ok := ComputeRoot();
      if !ok {
        return None;
      }
      SettledMeans();
      ghost var n := LeafIsThere(index);
      MemoryAllocated();
      var elements := WalkPath(h, root, index, view.s, leaves, numFlushed);
      return Some(Path(leafNodes[index - numFlushed].hash, index, elements, MaxIndex()));
    }

    function MaxIndex(): nat
      reads this
    {
      if NumLeaves() == 0 then 0 else NumLeaves() - 1
    }

    /** The root the tree had when leaf number index was its last. */
    method GetPastRoot(index: nat) returns (r: Option<Digest>)
      requires Valid() && |Contents()| <= MAX_LEAVES
      modifies this`leafNodes, this`root, this`insertionStack, this`view, this`leaves, this`uninsertedLeafNodes,
               this`numHash, Repr()
      ensures Valid() && Contents() == old(Contents()) && fresh(Repr() - old(Repr()))
      ensures r.Some? <==> numFlushed <= index < |Contents()|
      ensures r.Some? ==> r.value == Root(h, Contents()[..index + 1])
    {
      hide Valid, Settled, Root, Repr;
      var p := GetPath(index);
      if p == None {
        return None;
      }
      MemoryAllocated();
      var x := FoldLeftSiblings(h, p.value.leaf, p.value.elements);
      FoldLeftIsPastRoot(h, Contents(), index);
      return Some(x);
    }

    /** The path of leaf number index in the tree whose last leaf was number asOf. */
    method GetPastPath(index: nat, asOf: nat) returns (r: Option<Path>)
      requires Valid() && |Contents()| <= MAX_LEAVES
      modifies this`leafNodes, this`root, this`insertionStack, this`view, this`leaves, this`uninsertedLeafNodes,
               this`numHash, Repr()
      ensures Valid() && Contents() == old(Contents()) && fresh(Repr() - old(Repr()))
      ensures r.Some? <==> numFlushed <= index <= asOf < |Contents()|
      ensures r.Some? ==> r.value == PathOf(h, Contents()[..asOf + 1], index)
    {
      hide Valid, Settled, Root, AuditPath, Repr, Good, Linked, Clean, Tips, Nodes, Reverse, UpFold;
      CountsLeaves();
      if index < numFlushed || MaxIndex() < index || asOf < numFlushed || MaxIndex() < asOf || asOf < index {
        return None;
      }
      var ok := ComputeRoot();
      if !ok {
        return None;
      }
      SettledMeans();
      ghost var n := LeafIsThere(index);
      MemoryAllocated();
      var g := WalkPast(h, root, index, asOf, view.s, leaves, numFlushed);
      var elements := JoinSegments(h, g);
      return Some(Path(leafNodes[index - numFlushed].hash, index, elements, asOf));
    }

    /** Brings the left child of n up to date and cuts it off below its top. */
    method Conflate(n: Node, ghost c: Ctx, ghost s: Shape) returns (ghost t: Shape)
      requires Attached(c, s) && s.Fork? && n == s.n && Hashable(s.l)
      modifies this`numHash, MemoryOf(c, s)
      ensures t == Fork(s.n, s.i, Seal(Hashed(h, s.l)), s.r) && Attached(c, t) && MemoryOf(c, t) <= MemoryOf(c, s)
    {
      hide Hashed, Hashable;
      ghost var l := s.l;
      Looked(c, s);
      ShapeAllocated(s.r);
      CtxAllocated(c);
      assert s.n !in Nodes(s.l) && Linked(s.l);
      if n.left.dirty {
        l := Hash(n.left, s.l);
        assert Linked(s.r) && CtxHeld(c) && CtxChain(c, s.n) by { hide *; }
      } else {
        CleanHashed(h, s.l);
      }
      ghost var u := Fork(s.n, s.i, l, s.r);
      t := CutLeft(n, c, u);
    }

    /** The walk of flush_to: everything left of leaf number index is cut off below its topmost nodes. */
    method WalkFlush(n: Node, index: nat, ghost s: Shape, ghost ls: seq<Digest>, ghost fl: nat)
      requires fl <= index < |ls| <= MAX_LEAVES
      requires n == s.n && Linked(s) && Good(h, s, ls, 0, fl) && Clean(s)
      modifies this`numHash, Nodes(s)
      ensures Linked(Flushed(s, |ls|, index))
    {
      hide Linked, Attached, MemoryOf, Good, At, StartWord, TopBit, ShiftLeft, Root, Clean, Hashable, Hashed, Forks;
      hide Flushed, Nodes, Split;
      ghost var c, t, part := Top, s, ls;
      ghost var off: nat := 0;
      AttachedAtTop(s);
      Looked(c, t);
      AtStart(h, s, ls, fl, index);
      var cur := n;
      var it := StartWord(index, cur.height);
      var height: nat := cur.height;
      while height > 1
        invariant 1 <= height && off <= index < off + |part|
        invariant cur == t.n && Attached(c, t) && MemoryOf(c, t) <= Nodes(s)
        invariant Clean(t) && At(h, t, part, off, fl, index, it, height)
        invariant Plug(c, Flushed(t, |part|, index - off)) == Flushed(s, |ls|, index)
      {
        Looked(c, t);
        var goRight := TopBit(it);
        ghost var t', part', off' := Advance(h, t, part, off, fl, index, it, height);
        if cur.height == height {
          FlushedStep(t, part, off, index, goRight, part', off');
          if goRight && cur.left != null {
            CleanStays(h, t);
            t := Conflate(cur, c, t);
          }
          Looked(c, t);
          GoDown(c, t, !goRight);
          c := Down(c, t, !goRight);
          cur := if goRight then cur.right else cur.left;
        }
        t, part, off := t', part', off';
        it := ShiftLeft(it, 1);
        height := height - 1;
      }
      AtEnd(h, t, part, off, fl, index, it, height);
      FlushedTip(t, |part|, index - off);
      AttachedPlug(c, t);
    }

    /** Forgets the leaves before number index. What the tree answers about the others does not change: root,
        paths and past roots are functions of Contents(). Refused beyond the last leaf. */
    method FlushTo(index: nat) returns (ok: bool)
      requires Valid() && |Contents()| <= MAX_LEAVES
      modifies this`leafNodes, this`root, this`insertionStack, this`view, this`leaves, this`uninsertedLeafNodes,
               this`numHash, this`numFlushed, Repr()
      ensures Valid() && Contents() == old(Contents()) && fresh(Repr() - old(Repr()))
      ensures ok <==> index <= old(numFlushed) || index < |Contents()|
      ensures numFlushed == if ok && old(numFlushed) < index then index else old(numFlushed)
    {
      hide Valid, Settled, Repr;
      if index <= numFlushed {
        return true;
      }
      CountsLeaves();
      if MaxIndex() < index {
        return false;
      }
      ok := ComputeRoot();
      if ok {
        FlushSettled(index);
      }
    }

    method FlushSettled(index: nat)
      requires Settled() && |leaves| <= MAX_LEAVES && numFlushed < index < |leaves|
      modifies this`leafNodes, this`view, this`numHash, this`numFlushed, Repr()
      ensures Valid() && Contents() == old(Contents()) && numFlushed == index && Repr() <= old(Repr())
    {
      hide Settled, Good, Clean, Linked, Flushed, Root, Tips, Nodes, MemoryOf, Waiting, Attached, CtxTips, IsTail;
      SettledMeans();
      FlushFacts(h, view.s, leaves, numFlushed, index, leafNodes);
      WalkFlush(root, index, view.s, leaves, numFlushed);
      view := View(Top, Flushed(view.s, |leaves|, index));
      var numNewlyFlushed := index - numFlushed;
      leafNodes := leafNodes[numNewlyFlushed..];
      numFlushed := numFlushed + numNewlyFlushed;
      AttachedAtTop(view.s);
    }

    /** Forgets the leaves after number index; leaves the tree as if they had never been inserted. Nothing
        happens if there are none, and flushed leaves cannot be gone back to. */
    method RetractTo(index: nat) returns (ok: bool)
      requires Valid() && |Contents()| <= MAX_LEAVES
      modifies this`leafNodes, this`root, this`insertionStack, this`view, this`leaves, this`uninsertedLeafNodes,
               this`numHash, Repr()
      ensures Valid() && fresh(Repr() - old(Repr()))
      ensures ok <==> numFlushed <= index
      ensures Contents() ==
              if ok && index < |old(Contents())| then old(Contents())[..index + 1] else old(Contents())
    {
      hide Valid, Settled, Repr;
      CountsLeaves();
      FlushedIsSmall();
      if MaxIndex() < index {
        return true;
      }
      if index < numFlushed {
        return false;
      }
      if index >= numFlushed + |leafNodes| {
        RetractQueue(index);
        return true;
      }
      ok := ComputeRoot();
      RetractSettled(index);
    }

    /** The leaves to forget are all still queued. */
    method RetractQueue(index: nat)
      requires Valid() && numFlushed + |leafNodes| <= index <= MaxIndex()
      modifies this`uninsertedLeafNodes
      ensures Valid() && Repr() <= old(Repr())
      ensures Contents() == if old(Contents()) == [] then [] else old(Contents())[..index + 1]
    {
      hide Core, Memory, Hashes;
      CountsLeaves();
      MemoryAllocated();
      ghost var q := uninsertedLeafNodes;
      var over := index - (numFlushed + |leafNodes|) + 1;
      while |uninsertedLeafNodes| > over
        invariant over <= |q| ==> over <= |uninsertedLeafNodes|
        invariant |uninsertedLeafNodes| <= |q| && uninsertedLeafNodes == q[..|uninsertedLeafNodes|]
        invariant Queued(uninsertedLeafNodes, Memory(view))
      {
        uninsertedLeafNodes := uninsertedLeafNodes[..|uninsertedLeafNodes| - 1];
      }
      HashesPrefix(q, |uninsertedLeafNodes|);
      if q != [] {
        assert (leaves + Hashes(q))[..index + 1] == leaves + Hashes(q)[..over];
      }
    }

    method RetractSettled(index: nat)
      requires Settled() && |leaves| <= MAX_LEAVES && numFlushed <= index < |leaves|
      modifies this`leafNodes, this`view, this`leaves, Repr()
      ensures Valid() && Contents() == old(Contents())[..index + 1] && Repr() <= old(Repr())
    {
      hide Settled, Good, Clean, Linked, Retracted, Root, Tips, Nodes, MemoryOf, Waiting, Attached, CtxTips, IsTail;
      SettledMeans();
      ghost var tail := |leaves| - numFlushed;
      RetractFacts(h, view.s, leaves, numFlushed, index, leafNodes);
      var newLeafNode := WalkRetract(h, root, index, view.s, leaves, numFlushed);
      view := View(Top, Retracted(view.s, |leaves|, index));
      leafNodes := leafNodes[index - numFlushed := newLeafNode];
      var numRetracted := NumLeaves() - index - 1;
      leafNodes := if numRetracted < |leafNodes| then leafNodes[..|leafNodes| - numRetracted] else [];
      leaves := leaves[..index + 1];
      AttachedAtTop(view.s);
      assert leaves + [] == leaves;
    }

    lemma FlushedIsSmall()
      requires Valid()
      ensures numFlushed <= |Contents()| && (Contents() != [] && leaves != [] ==> numFlushed < |Contents()|)
    {
    }

    /** Queues a leaf; it joins the tree when the tree is next looked at. */
    method Insert(hash: Digest)
      requires Valid()
      modifies this`uninsertedLeafNodes
      ensures Valid() && Contents() == old(Contents()) + [hash] && fresh(Repr() - old(Repr()))
    {
      hide Core, Memory, Hashes;
      MemoryAllocated();
      ghost var q := uninsertedLeafNodes;
      var n := new Node.Leaf(hash);
      uninsertedLeafNodes := uninsertedLeafNodes + [n];
      assert forall i :: 0 <= i < |q| ==> q[i].hash == old(q[i].hash) && IsLeaf(q[i], q[i].hash);
      HashesSnoc(q, n);
    }

    /** The node of a leaf in the tree, also while insertions are suspended. */
    lemma LeafHash(index: nat)
      requires Core() && numFlushed <= index < |leaves|
      ensures index - numFlushed < |leafNodes| && leafNodes[index - numFlushed].hash == leaves[index]
    {
      hide Good, Tips, CtxTips, CtxGood, Linked, CtxHeld;
      var c, s := view.c, view.s;
      var at := |leaves| - Count(s);
      if index < at {
        var n := CtxLeafNode(h, c, at, leaves, numFlushed, index);
        CtxBounds(h, c, s, leaves, numFlushed);
      } else {
        var n := LeafNode(h, s, leaves[at..], at, numFlushed, index);
      }
    }

    lemma LeafHashes()
      requires Core()
      ensures |leafNodes| == |leaves| - numFlushed
      ensures forall i :: 0 <= i < |leafNodes| ==> leafNodes[i].hash == leaves[numFlushed + i]
    {
      CoreCounts();
      hide Core;
      forall i | 0 <= i < |leafNodes|
        ensures leafNodes[i].hash == leaves[numFlushed + i]
      {
        LeafHash(numFlushed + i);
      }
    }

    lemma CoreCounts()
      requires Core()
      ensures |leafNodes| == |leaves| - numFlushed
    {
      hide Attached, Waiting;
    }

    lemma ValidCore()
      requires Valid()
      ensures Core()
    {
      hide Core, Queued;
    }

    lemma QueueHashes()
      ensures |Contents()| == |leaves| + |uninsertedLeafNodes|
      ensures forall i :: 0 <= i < |uninsertedLeafNodes| ==> uninsertedLeafNodes[i].hash == Contents()[|leaves| + i]
      ensures forall i :: 0 <= i < |leaves| ==> leaves[i] == Contents()[i]
    {
    }

    /** The tree as bytes: all that is needed to answer about the leaves that are not flushed. */
    method Serialise() returns (bytes: seq<Byte>)
      requires Valid() && |Contents()| <= MAX_LEAVES
      modifies this`leafNodes, this`root, this`insertionStack, this`view, this`leaves, this`uninsertedLeafNodes,
               this`numHash, Repr()
      ensures Valid() && Contents() == old(Contents()) && fresh(Repr() - old(Repr()))
      ensures numFlushed <= |Contents()| && bytes == TreeBytes(h, Contents(), numFlushed)
    {
      hide Valid, Settled, Repr, Root, Memory, Flat, Word, Extras, Contents, TreeBytes;
      ghost var ls := Contents();
      CountsLeaves();
      FlushedIsSmall();
      MemoryAllocated();
      TreeBytesOf(h, ls, numFlushed);
      bytes := WriteHeader(|leafNodes| + |uninsertedLeafNodes|, numFlushed);
      bytes := WriteLive(bytes);
      if NumLeaves() != 0 {
        label live:
        var ok := ComputeRoot();
        assert forall o | o in Repr() :: fresh@live(o) ==> fresh(o);
        SettledMeans();
        bytes := WriteExtras(numFlushed, bytes);
      } else {
        ExtrasZero(h, Contents(), 0);
        FlatNone();
      }
    }

    lemma LiveLeaves() returns (live: seq<Digest>, hs: seq<Digest>)
      requires Core()
      ensures numFlushed <= |leaves| && |leaves| <= |Contents()|
      ensures live == leaves[numFlushed..] && hs == Contents()[|leaves|..] && Contents()[numFlushed..] == live + hs
    {
      CoreCounts();
      live, hs := leaves[numFlushed..], Contents()[|leaves|..];
      assert Contents()[numFlushed..] == live + hs;
    }

    method WriteLive(bytes: seq<Byte>) returns (r: seq<Byte>)
      requires Valid()
      ensures Valid() && numFlushed <= |Contents()| && r == bytes + Flat(Contents()[numFlushed..])
    {
      hide Valid, Core, Memory, Flat, Contents;
      ValidCore();
      LeafHashes();
      QueueHashes();
      MemoryAllocated();
      ghost var live, hs := LiveLeaves();
      FlatAppend(live, hs);
      r := WriteHashes(leafNodes, bytes, live);
      r := WriteHashes(uninsertedLeafNodes, r, hs);
    }

    /** Adds the blocks left of leaf number index, lowest first. */
    method WriteExtras(index: nat, bytes: seq<Byte>) returns (r: seq<Byte>)
      requires Settled() && |leaves| <= MAX_LEAVES && numFlushed <= index < |leaves|
      ensures Settled() && Valid() && Repr() == old(Repr())
      ensures index <= |Contents()| && r == bytes + Flat(Extras(h, Contents(), index, 0))
    {
      hide Settled, Valid, Good, Linked, Clean, Tips, Nodes, Root, Extras, LeftSiblings, Flat;
      SettledMeans();
      SettledValid();
      MemoryAllocated();
      var extras;
      ghost var ds;
      extras, ds := WalkExtras(h, root, index, view.s, leaves, numFlushed);
      LeftSiblingsAreExtras(h, leaves, index);
      r := WriteReversed(extras, bytes, ds);
    }

    /** The leaves from number `from` to number `to` as bytes, like a tree retracted to the one and flushed to
        the other. */
    method SerialiseSegment(from: nat, to: nat) returns (r: Option<seq<Byte>>)
      requires Valid() && |Contents()| <= MAX_LEAVES
      modifies this`leafNodes, this`root, this`insertionStack, this`view, this`leaves, this`uninsertedLeafNodes,
               this`numHash, Repr()
      ensures Valid() && Contents() == old(Contents()) && fresh(Repr() - old(Repr()))
      ensures r.Some? <==> numFlushed <= from <= to < |Contents()|
      ensures r.Some? ==> r.value == TreeBytes(h, Contents()[..to + 1], from)
    {
      hide Valid, Settled, Repr, Root, Memory, Flat, Word, Extras, Contents, TreeBytes;
      ghost var ls := Contents();
      CountsLeaves();
      if from < numFlushed || MaxIndex() < from || to < numFlushed || MaxIndex() < to || to < from {
        return None;
      }
      if NumLeaves() == 0 {
        return None;
      }
      var bytes := WriteSegment(from, to);
      label segment:
      var ok := ComputeRoot();
      assert forall o | o in Repr() :: fresh@segment(o) ==> fresh(o);
      SettledMeans();
      bytes := WriteExtras(from, bytes);
      SegmentBytes(h, ls, from, to);
      return Some(bytes);
    }

    method WriteSegment(from: nat, to: nat) returns (bytes: seq<Byte>)
      requires Valid() && numFlushed <= from <= to < |Contents()|
      ensures Valid()
      ensures bytes == Word(to + 1 - from) + Word(from) + Flat(Contents()[..to + 1][from..])
    {
      hide Valid, Memory, Flat, Word;
      MemoryAllocated();
      bytes := WriteHeader(to - from + 1, from);
      bytes := WriteLeaves(from, to, bytes);
      assert Contents()[..to + 1][from..] == Contents()[from..to + 1];
    }

    /** The hash of a leaf; refused exactly past the last one. Flushed leaves are not checked for. */
    function Leaf(index: nat): (r: Option<Digest>)
      requires Valid() && numFlushed <= index
      reads this, Memory(view), uninsertedLeafNodes, leafNodes
      ensures r == if index < |Contents()| then Some(Contents()[index]) else None
    {
      LeavesHeld();
      if numFlushed + |leafNodes| + |uninsertedLeafNodes| <= index then None
      else
        LeafHeld(index);
        if index - numFlushed >= |leafNodes| then Some(uninsertedLeafNodes[index - numFlushed - |leafNodes|].hash)
        else Some(leafNodes[index - numFlushed].hash)
    }

    lemma LeavesHeld()
      requires Valid()
      ensures |Contents()| == numFlushed + |leafNodes| + |uninsertedLeafNodes|
    {
      hide Valid, Core, Contents;
      ValidCore();
      CoreCounts();
      QueueHashes();
    }

    lemma LeafHeld(index: nat)
      requires Valid() && numFlushed <= index < |Contents()|
      ensures |leafNodes| == |leaves| - numFlushed && |Contents()| == |leaves| + |uninsertedLeafNodes|
      ensures index < |leaves| ==> leafNodes[index - numFlushed].hash == Contents()[index]
      ensures |leaves| <= index ==> uninsertedLeafNodes[index - |leaves|].hash == Contents()[index]
    {
      hide Valid, Core, Contents;
      ValidCore();
      CoreCounts();
      QueueHashes();
      if index < |leaves| {
        LeafHash(index);
      } else {
        assert uninsertedLeafNodes[index - |leaves|].hash == Contents()[|leaves| + (index - |leaves|)];
      }
    }

    method WriteLeaves(from: nat, to: nat, bytes: seq<Byte>) returns (r: seq<Byte>)
      requires Valid() && numFlushed <= from <= to < |Contents()|
      ensures r == bytes + Flat(Contents()[from..to + 1])
    {
      hide Valid, Flat;
      r := bytes;
      ghost var ls := Contents();
      FlatNone();
      MemoryAllocated();
      for i := from to to + 1
        invariant r == bytes + Flat(ls[from..i])
      {
        FlatSnoc(ls[from..i], ls[i]);
        assert ls[from..i + 1] == ls[from..i] + [ls[i]];
        r := r + Leaf(i).value.bytes;
      }
    }

    /** Replaces the tree by the one whose byte form starts at position. */
    method Deserialise(bytes: seq<Byte>, position: nat, ghost ls: seq<Digest>, ghost fl: nat) returns (next: nat)
      requires |ls| <= MAX_LEAVES && (fl < |ls| || (ls == [] && fl == 0))
      requires position + |TreeBytes(h, ls, fl)| <= |bytes|
      requires bytes[position..position + |TreeBytes(h, ls, fl)|] == TreeBytes(h, ls, fl)
      modifies this
      ensures Valid() && Contents() == ls && numFlushed == fl && uninsertedLeafNodes == []
      ensures next == position + |TreeBytes(h, ls, fl)| && fresh(Repr())
    {
      hide *;
      ghost var stop := position + |TreeBytes(h, ls, fl)|;
      SmallIsWord(|ls|);
      TreeBytesAt(h, bytes, position, ls, fl);
      HoldsStart(h, bytes, position + 2 * WORD_BYTES + HASH_SIZE * (|ls| - fl), stop, ls, fl);
      leafNodes, uninsertedLeafNodes, insertionStack, root := [], [], [], null;
      var count;
      count, next := DeserialiseWord(bytes, position);
      numFlushed, next := DeserialiseWord(bytes, next);
      leaves := ls;
      ghost var ss, all;
      var ns;
      ns, next, ss, all := MakeLeaves(bytes, next, count, ls[fl..]);
      LeavesMade(ns, ss, ls, fl);
      if numFlushed != 0 || |ns| > 0 {
        ghost var s, made;
        var top;
        top, next, s, made := Rebuild(h, bytes, next, ns, numFlushed, ss, ls, all, stop);
        leafNodes, root, view := ns, top, View(Top, s);
        Adopted();
        assert forall o | o in Nodes(s) :: o in all || o in made;
      } else {
        view := Empty;
        HoldsNothing(h, bytes, next, stop, ls, 0);
        NothingHeld();
      }
    }

    lemma Adopted()
      requires view.View? && view.c == Top && root == view.s.n && insertionStack == [] && uninsertedLeafNodes == []
      requires numFlushed < |leaves| && Linked(view.s) && Good(h, view.s, leaves, 0, numFlushed)
      requires IsTail(leafNodes, Tips(view.s), |leaves| - numFlushed)
      ensures Valid() && Contents() == leaves && Repr() == Nodes(view.s)
    {
      hide Good, Tips, Linked, Nodes, Waiting, Attached, MemoryOf;
      GoodWaits(h, view.s, leaves, numFlushed);
      AttachedAtTop(view.s);
      assert CtxTips(Top) + Tips(view.s) == Tips(view.s);
      assert leaves + [] == leaves;
    }

    lemma NothingHeld()
      requires view.Empty? && root == null && leafNodes == [] && insertionStack == [] && uninsertedLeafNodes == []
      requires leaves == [] && numFlushed == 0
      ensures Valid() && Contents() == [] && Repr() == {}
    {
    }
  }

  /** A leaf count fits a serialised word. */
  lemma SmallIsWord(n: nat)
    requires n <= MAX_LEAVES
    ensures IsWord(n)
  {
    WordBound();
    Pow2Strict(MAX_HEIGHT - 1, 64);
  }

  lemma HoldsStart(h: HashFunction, bytes: seq<Byte>, position: nat, stop: nat, ls: seq<Digest>, fl: nat)
    requires fl <= |ls| && position <= stop <= |bytes| && bytes[position..stop] == Flat(Extras(h, ls, fl, 0))
    ensures Holds(h, bytes, position, stop, ls, fl, 0)
  {
  }

  lemma LeavesMade(ns: seq<Node>, ss: seq<Shape>, ls: seq<Digest>, fl: nat)
    requires fl <= |ls| && |ns| == |ss| == |ls| - fl
    requires forall j :: 0 <= j < |ss| ==> ss[j] == Tip(ns[j], Info(ls[fl..][j], 1, 1, false))
    ensures Leaves(ns, ss, ls, fl)
  {
  }

  lemma FlatNone()
    ensures Flat([]) == []
  {
  }

  method WriteHeader(count: nat, flushed: nat) returns (r: seq<Byte>)
    ensures r == Word(count) + Word(flushed)
  {
    r := SerialiseWord(count, []);
    r := SerialiseWord(flushed, r);
  }

  method WriteHashes(ns: seq<Node>, bytes: seq<Byte>, ghost ds: seq<Digest>) returns (r: seq<Byte>)
    requires |ns| == |ds| && forall i :: 0 <= i < |ns| ==> ns[i].hash == ds[i]
    ensures r == bytes + Flat(ds)
  {
    hide Flat;
    r := bytes;
    FlatNone();
    for i := 0 to |ns|
      invariant r == bytes + Flat(ds[..i])
    {
      FlatSnoc(ds[..i], ds[i]);
      assert ds[..i + 1] == ds[..i] + [ds[i]];
      r := r + ns[i].hash.bytes;
    }
    assert ds[..|ds|] == ds;
  }

  /** Writes the hashes of ns, last first. */
  method WriteReversed(ns: seq<Node>, bytes: seq<Byte>, ghost ds: seq<Digest>) returns (r: seq<Byte>)
    requires |ns| == |ds| && forall i :: 0 <= i < |ns| ==> ns[i].hash == ds[i]
    ensures r == bytes + Flat(Reverse(ds))
  {
    hide Flat, Reverse;
    r := bytes;
    FlatNone();
    ReverseEmpty<Digest>();
    assert ds[..|ds|] == ds;
    for i := |ns| downto 0
      invariant r + Flat(Reverse(ds[..i])) == bytes + Flat(Reverse(ds))
    {
      assert ds[..i + 1] == ds[..i] + [ds[i]];
      ReverseSnoc(ds[..i], ds[i]);
      FlatAppend([ds[i]], Reverse(ds[..i]));
      FlatSnoc([], ds[i]);
      assert [] + [ds[i]] == [ds[i]];
      r := r + ns[i].hash.bytes;
    }
  }

  lemma HashesSnoc(q: seq<Node>, n: Node)
    ensures Hashes(q + [n]) == Hashes(q) + [n.hash]
  {
    assert (q + [n])[..|q|] == q;
  }

  /** Where the leaves of s begin every tip of s is a leaf. */
  lemma CtxBounds(h: HashFunction, c: Ctx, s: Shape, ls: seq<Digest>, fl: nat)
    requires Waiting(h, c, s, ls, fl) && fl <= |ls| - Count(s)
    ensures |Tips(s)| == Count(s)
  {
    var at := |ls| - Count(s);
    AllTips(h, s, ls[at..], at, fl);
  }

  lemma {:induction false} HashesPrefix(q: seq<Node>, n: nat)
    requires n <= |q|
    ensures Hashes(q[..n]) == Hashes(q)[..n]
  {
    assert forall i :: 0 <= i < n ==> Hashes(q[..n])[i] == Hashes(q)[i];
  }

  lemma RetractFacts(h: HashFunction, s: Shape, ls: seq<Digest>, fl: nat, index: nat, p: seq<Node>)
    requires fl <= index < |ls| && Good(h, s, ls, 0, fl) && IsTail(p, Tips(s), |ls| - fl)
    ensures var t := Retracted(s, |ls|, index);
            t.n == s.n && Waiting(h, Top, t, ls[..index + 1], fl) && |p| == |ls| - fl &&
            IsTail(p[index - fl := Tips(t)[|Tips(t)| - 1]][..index + 1 - fl], CtxTips(Top) + Tips(t), index + 1 - fl)
  {
    hide Good, Retracted, Tips, Nodes, Waiting;
    var t := Retracted(s, |ls|, index);
    RetractedGood(h, s, ls, 0, fl, index);
    RetractedTips(h, s, ls, 0, fl, index);
    RetractedTop(s, |ls|, index);
    GoodWaits(h, t, ls[..index + 1], fl);
    KeptTail(p, Tips(s), Tips(t), |ls| - fl, |ls| - index);
    assert CtxTips(Top) + Tips(t) == Tips(t);
  }

  lemma KeptTail<T>(p: seq<T>, a: seq<T>, b: seq<T>, m: nat, cut: nat)
    requires IsTail(p, a, m) && KeepsTips(a, b, cut) && cut <= m
    ensures |p| == m && b != []
    ensures IsTail(p[m - cut := b[|b| - 1]][..m - cut + 1], b, m - cut + 1)
  {
    var x := b[|b| - 1];
    assert p[m - cut := x][..m - cut + 1] == p[..m - cut] + [x];
    assert b[|a| - m..] == b[..|b| - 1][|a| - m..] + [x];
    assert p[..m - cut] == a[..|a| - cut][|a| - m..];
  }

  lemma GoodWaits(h: HashFunction, s: Shape, ls: seq<Digest>, fl: nat)
    requires fl < |ls| && Good(h, s, ls, 0, fl)
    ensures Waiting(h, Top, s, ls, fl)
  {
    GoodCount(h, s, ls, 0, fl);
    assert ls[0..] == ls;
  }

  lemma FlushFacts(h: HashFunction, s: Shape, ls: seq<Digest>, fl: nat, index: nat, p: seq<Node>)
    requires fl <= index < |ls| && Good(h, s, ls, 0, fl) && Clean(s) && IsTail(p, Tips(s), |ls| - fl)
    ensures var t := Flushed(s, |ls|, index);
            t.n == s.n && Nodes(t) <= Nodes(s) && Waiting(h, Top, t, ls, index) &&
            IsTail(p[index - fl..], CtxTips(Top) + Tips(t), |ls| - index)
  {
    hide Good, Clean, Flushed, Tips, Nodes, Waiting, SameTail, IsTail;
    var t := Flushed(s, |ls|, index);
    FlushedGood(h, s, ls, 0, fl, index);
    FlushedTips(h, s, ls, 0, fl, index);
    FlushedNodes(s, |ls|, index);
    GoodWaits(h, t, ls, index);
    ShorterTail(p, Tips(s), Tips(t), |ls| - fl, |ls| - index);
    assert CtxTips(Top) + Tips(t) == Tips(t);
  }

  lemma WaitingBounds(h: HashFunction, c: Ctx, s: Shape, ls: seq<Digest>, fl: nat)
    requires Waiting(h, c, s, ls, fl)
    ensures fl < |ls|
  {
  }

  lemma CleanHashed(h: HashFunction, s: Shape)
    requires !s.i.dirty
    ensures Hashed(h, s) == s
  {
  }

  lemma TopHash(h: HashFunction, s: Shape, ls: seq<Digest>, fl: nat)
    requires 1 <= |ls| && Good(h, s, ls, 0, fl) && Clean(s)
    ensures s.i.hash == Root(h, ls)
  {
  }

  /** A tree with no suspended insertions is the left-balanced tree of its leaves, and stays so when hashed. */
  lemma TopWaits(h: HashFunction, s: Shape, ls: seq<Digest>, fl: nat)
    requires Waiting(h, Top, s, ls, fl)
    ensures Good(h, s, ls, 0, fl) && Hashable(s)
    ensures Waiting(h, Top, Hashed(h, s), ls, fl) && Clean(Hashed(h, s)) && Tips(Hashed(h, s)) == Tips(s)
  {
    assert ls[0..] == ls;
    HashedGood(h, s, ls, 0, fl);
    GoodHashable(h, s, ls, 0, fl);
    GoodCount(h, Hashed(h, s), ls, 0, fl);
  }

  /** The same tree, up to where its nodes lie in memory and which hashes are still to be computed. */
  ghost predicate SameForm(s: Shape, t: Shape)
    decreases s
  {
    s.i.size == t.i.size && s.i.height == t.i.height && (!s.i.dirty && !t.i.dirty ==> s.i.hash == t.i.hash) &&
    match s
    case Tip(_, _) => t.Tip?
    case Fork(_, _, l, r) => t.Fork? && SameForm(l, t.l) && SameForm(r, t.r)
  }

  lemma {:induction false} GoodUnique(h: HashFunction, s: Shape, t: Shape, ls: seq<Digest>, off: nat, fl: nat)
    requires 1 <= |ls| && Good(h, s, ls, off, fl) && Good(h, t, ls, off, fl)
    requires s.Fork? <==> t.Fork?
    ensures SameForm(s, t)
    decreases s
  {
    hide Root, Level, Pow2;
    if s.Fork? {
      var k := Split(|ls|);
      TipOrFork(h, s.l, t.l, ls[..k], off, fl);
      TipOrFork(h, s.r, t.r, ls[k..], off + k, fl);
      GoodUnique(h, s.l, t.l, ls[..k], off, fl);
      GoodUnique(h, s.r, t.r, ls[k..], off + k, fl);
    }
  }

  lemma TipOrFork(h: HashFunction, s: Shape, t: Shape, ls: seq<Digest>, off: nat, fl: nat)
    requires 1 <= |ls| && Good(h, s, ls, off, fl) && Good(h, t, ls, off, fl)
    ensures s.Fork? <==> t.Fork?
  {
  }

  /** However two trees came to hold the same leaves and the same flush point (built, flushed, retracted or read
      from bytes), they have the same form, so they also behave alike from then on. */
  lemma SameLeavesSameForm(a: TreeT, b: TreeT)
    requires a.h == b.h && a.Valid() && b.Valid() && a.view.View? && b.view.View? && a.view.c.Top? && b.view.c.Top?
    requires a.leaves == b.leaves && a.numFlushed == b.numFlushed
    ensures SameForm(a.view.s, b.view.s)
  {
    hide Good, SameForm, Waiting;
    WaitingBounds(a.h, a.view.c, a.view.s, a.leaves, a.numFlushed);
    TopWaits(a.h, a.view.s, a.leaves, a.numFlushed);
    TopWaits(b.h, b.view.s, b.leaves, b.numFlushed);
    TipOrFork(a.h, a.view.s, b.view.s, a.leaves, 0, a.numFlushed);
    GoodUnique(a.h, a.view.s, b.view.s, a.leaves, 0, a.numFlushed);
  }
}
