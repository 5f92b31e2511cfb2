/** Single steps in memory, each with the snapshot it leaves. */
module MerkleHeap {
  import opened MerkleSpec
  import opened MerkleNode

  ghost function MemoryOf(c: Ctx, s: Shape): set<Node> {
    CtxNodes(c) + Nodes(s)
  }

  /** Memory holds the path c and, apart from it, the tree s. */
  ghost predicate Zipped(c: Ctx, s: Shape)
    reads MemoryOf(c, s)
  {
    CtxHeld(c) && Linked(s) && CtxNodes(c) !! Nodes(s)
  }

  /** The same, with the pointers along c leading down to s. */
  ghost predicate Attached(c: Ctx, s: Shape)
    reads MemoryOf(c, s)
  {
    Zipped(c, s) && CtxChain(c, s.n)
  }

  /** The same, where the last pointer of c may lead elsewhere. */
  ghost predicate Hanging(c: Ctx, s: Shape)
    reads MemoryOf(c, s)
  {
    Zipped(c, s) && (c.Step? ==> CtxChain(c.up, c.n))
  }

  ghost function SetInfo(s: Shape, i: Info): Shape {
    match s
    case Tip(n, _) => Tip(n, i)
    case Fork(n, _, l, r) => Fork(n, i, l, r)
  }

  ghost function Child(s: Shape, left: bool): Shape
    requires s.Fork?
  {
    if left then s.l else s.r
  }

  ghost function Down(c: Ctx, s: Shape, left: bool): Ctx
    requires s.Fork?
  {
    Step(s.n, s.i, left, Child(s, !left), c)
  }

  ghost function Resized(s: Shape): Shape
    requires s.Fork?
  {
    SetInfo(s, s.i.(size := s.l.i.size + s.r.i.size + 1, height := Max(s.l.i.height, s.r.i.height) + 1))
  }

  lemma GoDown(c: Ctx, s: Shape, left: bool)
    requires Attached(c, s) && s.Fork?
    ensures Attached(Down(c, s, left), Child(s, left))
    ensures MemoryOf(Down(c, s, left), Child(s, left)) == MemoryOf(c, s)
    ensures Child(s, left).n == if left then s.n.left else s.n.right
    ensures Child(s, left).i == Child(s, left).n.Get()
  {
  }

  lemma Looked(c: Ctx, s: Shape)
    requires Attached(c, s)
    ensures s.n.Get() == s.i && s.n in MemoryOf(c, s) && (c.Step? ==> c.n in MemoryOf(c, s))
    ensures s.Fork? ==> s.l.n in MemoryOf(c, s) && s.r.n in MemoryOf(c, s)
    ensures s.Fork? <==> s.n.left != null
    ensures s.Fork? <==> s.n.right != null
    ensures s.i.height <= MAX_HEIGHT ==> (s.n.IsFull() <==> Full(s))
    ensures s.Fork? && s.l.i.height <= MAX_HEIGHT ==> (s.l.n.height == s.l.i.height && (s.l.n.IsFull() <==> Full(s.l)))
    ensures s.Fork? ==> s.n.left == s.l.n && s.n.right == s.r.n && s.l.n.Get() == s.l.i && s.r.n.Get() == s.r.i
  {
    if s.Fork? {
      assert Linked(s.l) && Linked(s.r);
    }
  }

  lemma Seen(s: Shape)
    requires Linked(s)
    ensures s.n.Get() == s.i && s.n in Nodes(s)
    ensures s.Fork? ==> s.n.left == s.l.n && s.n.right == s.r.n && s.l.n.Get() == s.l.i && s.r.n.Get() == s.r.i
    ensures s.Fork? ==> Linked(s.l) && Linked(s.r) && Nodes(s.l) <= Nodes(s) && Nodes(s.r) <= Nodes(s)
    ensures s.Tip? ==> s.n.left == null && s.n.right == null
  {
    if s.Fork? {
      assert Linked(s.l) && Linked(s.r);
    }
  }

  method MarkDirty(n: Node, ghost c: Ctx, ghost s: Shape) returns (ghost t: Shape)
    requires Attached(c, s) && n == s.n
    modifies n`dirty
    ensures t == SetInfo(s, s.i.(dirty := true))
    ensures Attached(c, t) && MemoryOf(c, t) == MemoryOf(c, s)
  {
    n.dirty := true;
    t := SetInfo(s, s.i.(dirty := true));
  }

  method SetHash(n: Node, x: Digest, ghost c: Ctx, ghost s: Shape) returns (ghost t: Shape)
    requires Attached(c, s) && n == s.n
    modifies n`hash, n`dirty
    ensures t == SetInfo(s, s.i.(hash := x, dirty := false))
    ensures Attached(c, t) && MemoryOf(c, t) == MemoryOf(c, s)
  {
    n.hash, n.dirty := x, false;
    t := SetInfo(s, s.i.(hash := x, dirty := false));
  }

  /** Cuts the left child of n off below its top. */
  method CutLeft(n: Node, ghost c: Ctx, ghost s: Shape) returns (ghost t: Shape)
    requires Attached(c, s) && s.Fork? && n == s.n
    modifies s.l.n
    ensures t == Fork(s.n, s.i, Tip(s.l.n, s.l.i), s.r)
    ensures Attached(c, t)
  {
    assert s.l.n in Nodes(s.l) && Linked(s.l) && Linked(s.r) && s.n !in Nodes(s.l) && s.l.n !in Nodes(s.r);
    var child := n.left;
    child.left := null;
    child.right := null;
    assert Linked(s.r) && CtxHeld(c) && CtxChain(c, s.n) by { hide *; }
    assert n.left == child && n.Get() == s.i;
    assert Linked(Tip(child, s.l.i));
    t := Fork(s.n, s.i, Tip(child, s.l.i), s.r);
    assert Linked(t);
  }

  /** Back from a subtree to the node above it. */
  lemma GoUp(c: Ctx, s: Shape)
    requires Attached(c, s) && c.Step?
    ensures Attached(c.up, Refill(c, s)) && MemoryOf(c.up, Refill(c, s)) == MemoryOf(c, s)
  {
    assert CtxChain(c.up, c.n);
  }

  ghost function Refill(c: Ctx, s: Shape): Shape
    requires c.Step?
  {
    if c.left then Fork(c.n, c.i, s, c.sib) else Fork(c.n, c.i, c.sib, s)
  }

  lemma {:induction false} ShapeAllocated(s: Shape)
    ensures forall o | o in Nodes(s) :: allocated(o)
  {
    match s
    case Tip(_, _) =>
    case Fork(_, _, l, r) => ShapeAllocated(l); ShapeAllocated(r);
  }

  lemma {:induction false} CtxAllocated(c: Ctx)
    ensures forall o | o in CtxNodes(c) :: allocated(o)
  {
    match c
    case Top =>
    case Step(_, _, _, sib, up) => ShapeAllocated(sib); CtxAllocated(up);
  }

  method MakeFork(l: Node, r: Node, ghost c: Ctx, ghost s: Shape, ghost t: Shape) returns (n: Node, ghost f: Shape)
    requires Attached(c, s) && l == s.n && Linked(t) && r == t.n && t.Tip? && r !in MemoryOf(c, s)
    ensures f.Fork? && f.n == n && f.l == s && f.r == t && fresh(n)
    ensures f == Resized(f) && f.i.dirty && Hanging(c, f) && MemoryOf(c, f) == MemoryOf(c, s) + {n, r}
  {
    ShapeAllocated(s);
    ShapeAllocated(t);
    CtxAllocated(c);
    assert l.Get() == s.i && r.Get() == t.i && Nodes(t) == {r};
    n := new Node.Inner(l, r);
    assert Linked(s) && Linked(t) && CtxHeld(c) && CtxChain(c, s.n) by { hide *; }
    f := Fork(n, n.Get(), s, t);
  }

  /** Gives the last node of the path its subtree back, and brings its size and height up to date. */
  method AttachChild(n: Node, result: Node, left: bool, ghost c: Ctx, ghost s: Shape) returns (ghost t: Shape)
    requires Hanging(c, s) && c.Step? && n == c.n && left == c.left && result == s.n
    modifies n
    ensures t == Attach(c, s)
    ensures Attached(c.up, t) && MemoryOf(c.up, t) == MemoryOf(c, s)
  {
    ShapeAllocated(s);
    ShapeAllocated(c.sib);
    CtxAllocated(c.up);
    assert s.n in Nodes(s) && c.sib.n in Nodes(c.sib);
    n.left, n.right := if left then result else n.left, if left then n.right else result;
    n.dirty := true;
    n.UpdateSizes();
    assert Linked(s) && Linked(c.sib) && CtxHeld(c.up) && CtxChain(c.up, n) by { hide *; }
    t := Attach(c, s);
  }

  method Resize(n: Node, ghost c: Ctx, ghost s: Shape) returns (ghost t: Shape)
    requires Hanging(c, s) && s.Fork? && n == s.n
    modifies n
    ensures t == Resized(s) && t.n == n && Hanging(c, t) && Nodes(t) == Nodes(s)
  {
    ShapeAllocated(s.l);
    ShapeAllocated(s.r);
    CtxAllocated(c);
    if c.Step? {
      CtxAllocated(c.up);
    }
    assert s.l.n in Nodes(s.l) && s.r.n in Nodes(s.r);
    n.UpdateSizes();
    assert Linked(s.l) && Linked(s.r) && CtxHeld(c) by { hide *; }
    if c.Step? {
      assert CtxChain(c.up, c.n) by { hide *; }
    }
    t := Resized(s);
  }

  lemma AttachedHangs(c: Ctx, s: Shape)
    requires Attached(c, s)
    ensures Hanging(c, s)
  {
  }

  /** The content of s in the node n. */
  ghost function Moved(n: Node, s: Shape): Shape {
    match s
    case Tip(_, i) => Tip(n, i)
    case Fork(_, i, l, r) => Fork(n, i, l, r)
  }

  lemma MovedMemory(c: Ctx, s: Shape)
    requires s.Fork?
    ensures Nodes(Moved(s.n, s.l)) <= Nodes(s) && MemoryOf(c, Moved(s.n, s.l)) <= MemoryOf(c, s)
  {
  }

  lemma LinkedMoved(n: Node, l: Shape)
    requires n.Get() == l.i && n !in Nodes(l)
    requires l.Tip? ==> n.left == null && n.right == null
    requires l.Fork? ==> n.left == l.l.n && n.right == l.r.n && Linked(l.l) && Linked(l.r) && Nodes(l.l) !! Nodes(l.r)
    ensures Linked(Moved(n, l))
  {
  }

  lemma ZipTogether(c: Ctx, t: Shape)
    requires CtxHeld(c) && CtxChain(c, t.n) && CtxNodes(c) !! Nodes(t) && Linked(t)
    ensures Attached(c, t)
  {
  }

  /** Replaces a node by its left child: the child's content moves into it, and both children go. */
  method Eliminate(n: Node, ghost c: Ctx, ghost s: Shape) returns (ghost t: Shape)
    requires Attached(c, s) && s.Fork? && n == s.n
    modifies n, s.l.n
    ensures t == Moved(s.n, s.l)
    ensures Attached(c, t) && MemoryOf(c, t) <= MemoryOf(c, s)
  {
    hide MemoryOf, CtxNodes, Nodes, Linked, CtxHeld, CtxChain, Attached;
    ghost var l := s.l;
    LinkedApart(c, s);
    var oldLeft := n.left;
    n.right := null;
    n.hash, n.left, n.right, n.size, n.height, n.dirty :=
      oldLeft.hash, oldLeft.left, oldLeft.right, oldLeft.size, oldLeft.height, oldLeft.dirty;
    oldLeft.left, oldLeft.right := null, null;
    assert l.Fork? ==> Linked(l.l) && Linked(l.r) by { hide *; }
    assert CtxHeld(c) && CtxChain(c, n) by { hide *; }
    t := Moved(n, l);
    MovedMemory(c, s);
    LinkedMoved(n, l);
    ZipTogether(c, t);
  }

  lemma LinkedApart(c: Ctx, s: Shape)
    requires Attached(c, s) && s.Fork?
    ensures CtxHeld(c) && CtxChain(c, s.n) && s.l.n !in CtxNodes(c) && s.n !in CtxNodes(c)
    ensures s.n.left == s.l.n && s.l.n.Get() == s.l.i && s.l.n != s.n && s.n !in Nodes(s.l)
    ensures s.l.Tip? ==> s.l.n.left == null && s.l.n.right == null
    ensures var l := s.l;
            l.Fork? ==> l.n.left == l.l.n && l.n.right == l.r.n && Linked(l.l) && Linked(l.r) &&
                        Nodes(l.l) !! Nodes(l.r) &&
                        s.n !in Nodes(l.l) && s.n !in Nodes(l.r) && l.n !in Nodes(l.l) && l.n !in Nodes(l.r)
    ensures CtxNodes(c) !! Nodes(Moved(s.n, s.l))
  {
    assert Linked(s.l) && s.l.n in Nodes(s.l);
  }

  /** Marks a node with subtrees dirty. */
  method MarkInner(n: Node, ghost c: Ctx, ghost s: Shape) returns (ghost t: Shape)
    requires Attached(c, s) && n == s.n
    modifies n`dirty
    ensures t == if s.Fork? then SetInfo(s, s.i.(dirty := true)) else s
    ensures Attached(c, t) && MemoryOf(c, t) == MemoryOf(c, s)
  {
    t := s;
    if n.left != null && n.right != null {
      t := MarkDirty(n, c, s);
    }
  }

  ghost predicate UpToDate(s: Shape) {
    if s.Fork? then s == Resized(s) else s.i.size == 1 && s.i.height == 1
  }

  /** Updates the size and height of the node above s, or once more those of the top of s. */
  method ResizeOnPath(n: Node, ghost c: Ctx, ghost s: Shape) returns (ghost c': Ctx, ghost s': Shape)
    requires Attached(c, s) && UpToDate(s)
    requires n == s.n || (c.Step? && n == c.n && c.i.dirty)
    modifies n
    ensures if n == s.n then c' == c && s' == s else c' == c.up && s' == Attach(c, s)
    ensures Attached(c', s') && MemoryOf(c', s') == MemoryOf(c, s) && UpToDate(s')
  {
    ShapeAllocated(s);
    CtxAllocated(c);
    if s.Fork? {
      ShapeAllocated(s.l);
      ShapeAllocated(s.r);
      assert s.l.n in Nodes(s.l) && s.r.n in Nodes(s.r);
    }
    if c.Step? {
      ShapeAllocated(c.sib);
      CtxAllocated(c.up);
      assert s.n in Nodes(s) && c.sib.n in Nodes(c.sib) && CtxChain(c.up, c.n);
    }
    n.UpdateSizes();
    if n == s.n {
      assert s.Fork? ==> Linked(s.l) && Linked(s.r) by { hide *; }
      assert CtxHeld(c) && CtxChain(c, n) by { hide *; }
      c', s' := c, s;
    } else {
      assert Linked(s) && Linked(c.sib) && CtxHeld(c.up) && CtxChain(c.up, n) by { hide *; }
      c', s' := c.up, Attach(c, s);
    }
  }

  lemma AttachedPlug(c: Ctx, s: Shape)
    requires Attached(c, s)
    ensures Linked(Plug(c, s)) && Nodes(Plug(c, s)) == MemoryOf(c, s)
  {
    PlugLinked(c, s);
    PlugNodes(c, s);
  }

  lemma TopAttached(s: Shape)
    requires Attached(Top, s)
    ensures Linked(s) && MemoryOf(Top, s) == Nodes(s)
  {
  }

  lemma AttachedAtTop(s: Shape)
    requires Linked(s)
    ensures Attached(Top, s) && MemoryOf(Top, s) == Nodes(s)
  {
  }
}
