/** What an insertion does to the snapshots, and why the tree stays the left-balanced tree of its leaves. */
module MerkleInsert {
  import opened Powers
  import opened MerkleSpec
  import opened MerkleNode
  import opened MerkleHeap

  const MAX_LEAVES: nat := Pow2(MAX_HEIGHT - 1)

  /** The suspended insertions c and the subtree s at their end stand for the tree over ls of which the
      leaves before number fl are flushed. */
  ghost predicate Represents(h: HashFunction, c: Ctx, s: Shape, ls: seq<Digest>, fl: nat) {
    1 <= Count(s) <= |ls| && fl < |ls| &&
    var at := |ls| - Count(s);
    CtxGood(h, c, at, ls, fl) && Good(h, s, ls[at..], at, fl)
  }

  /** As between two insertions: insertions are suspended only below a subtree that has room left. */
  ghost predicate Waiting(h: HashFunction, c: Ctx, s: Shape, ls: seq<Digest>, fl: nat) {
    Represents(h, c, s, ls, fl) && (c.Step? ==> !Full(s))
  }

  ghost function Stale(s: Shape): Shape {
    SetInfo(s, s.i.(dirty := true))
  }

  /** Down to the full subtree that gets a new right neighbour. */
  ghost function Descend(c: Ctx, s: Shape): (Ctx, Shape)
    decreases s
  {
    if s.Tip? || Full(s) then (c, s)
    else Descend(Down(c, Stale(s), !Full(s.l)), Child(s, !Full(s.l)))
  }

  /** Back up, to the first subtree with room left, or to the root. */
  ghost function Climb(c: Ctx, s: Shape, complete: bool): (Ctx, Shape)
    decreases c
  {
    if c.Top? then (c, s)
    else
      var t := Attach(c, s);
      if !complete && !Full(t) then (c.up, t) else Climb(c.up, t, complete)
  }

  /** No node whose fullness Descend asks for is too high. */
  ghost predicate Insertable(s: Shape)
    decreases s
  {
    s.i.height <= MAX_HEIGHT &&
    (Full(s) || (s.Fork? && s.l.i.height <= MAX_HEIGHT && Insertable(Child(s, !Full(s.l)))))
  }

  ghost predicate Climbable(c: Ctx, s: Shape)
    decreases c
  {
    c.Step? ==> Attach(c, s).i.height <= MAX_HEIGHT && Climbable(c.up, Attach(c, s))
  }

  lemma GoodCount(h: HashFunction, s: Shape, ls: seq<Digest>, off: nat, fl: nat)
    requires 1 <= |ls| && Good(h, s, ls, off, fl)
    ensures Count(s) == |ls|
  {
  }

  lemma HeightBound(h: HashFunction, s: Shape, ls: seq<Digest>, off: nat, fl: nat)
    requires 1 <= |ls| <= MAX_LEAVES && Good(h, s, ls, off, fl)
    ensures s.i.height <= MAX_HEIGHT
  {
    hide Root, Split;
    if 1 < |ls| {
      Pow2Reflects(Level(|ls|) - 1, MAX_HEIGHT - 1);
    }
  }

  lemma {:induction false} GoodInsertable(h: HashFunction, s: Shape, ls: seq<Digest>, off: nat, fl: nat)
    requires 1 <= |ls| <= MAX_LEAVES && fl < off + |ls| && Good(h, s, ls, off, fl)
    ensures Insertable(s)
    decreases s
  {
    hide Root, Level, Pow2, Split, Full, IsPow2;
    HeightBound(h, s, ls, off, fl);
    if !Full(s) {
      NotFull(h, s, ls, off, fl);
      var k := Split(|ls|);
      HeightBound(h, s.l, ls[..k], off, fl);
      GoodInsertable(h, s.r, ls[k..], off + k, fl);
    }
  }

  lemma {:induction false} DescendRepresents(h: HashFunction, c: Ctx, s: Shape, ls: seq<Digest>, x: Digest, fl: nat)
    requires 1 <= Count(s) <= |ls| && fl < |ls|
    requires var at := |ls| - Count(s); CtxGood(h, c, at, ls + [x], fl) && Good(h, s, ls[at..], at, fl)
    ensures var (d, t) := Descend(c, s); var at := |ls| - Count(t);
            1 <= Count(t) <= |ls| && Full(t) &&
            CtxGood(h, d, at, ls + [x], fl) && Good(h, t, ls[at..], at, fl) &&
            CtxTips(d) + Tips(t) == CtxTips(c) + Tips(s)
    decreases s
  {
    hide Root, Level, Pow2, Split, Full, IsPow2, Good, CtxGood, Count;
    var at := |ls| - Count(s);
    if Full(s) {
    } else {
      DescendGood(h, c, s, at, ls, x, fl);
      GoodCount(h, s.r, ls[at + Count(s.l)..], at + Count(s.l), fl);
      DescendRepresents(h, Down(c, Stale(s), false), s.r, ls, x, fl);
    }
  }

  lemma {:induction false} ClimbRepresents(h: HashFunction, c: Ctx, s: Shape, ls: seq<Digest>, fl: nat, complete: bool)
    requires Represents(h, c, s, ls, fl)
    ensures var (d, t) := Climb(c, s, complete);
            Waiting(h, d, t, ls, fl) && (complete ==> d.Top?) &&
            CtxTips(d) + Tips(t) == CtxTips(c) + Tips(s)
    decreases c
  {
    hide Root, Level, Pow2, Split, Full, IsPow2;
    if c.Step? {
      AttachGood(h, c, s, |ls| - Count(s), ls, fl);
      var t := Attach(c, s);
      if complete || Full(t) {
        ClimbRepresents(h, c.up, t, ls, fl, complete);
      }
    }
  }

  lemma {:induction false} RepresentsClimbable(h: HashFunction, c: Ctx, s: Shape, ls: seq<Digest>, fl: nat)
    requires Represents(h, c, s, ls, fl) && |ls| <= MAX_LEAVES
    ensures Climbable(c, s)
    decreases c
  {
    hide Root, Level, Pow2, Split, Full, IsPow2;
    if c.Step? {
      var at := |ls| - Count(s);
      AttachGood(h, c, s, at, ls, fl);
      HeightBound(h, Attach(c, s), ls[at - Count(c.sib)..], at - Count(c.sib), fl);
      RepresentsClimbable(h, c.up, Attach(c, s), ls, fl);
    }
  }

  /** One more leaf: going down, making a fork and climbing back keep the tree left-balanced. */
  lemma InsertRepresents(h: HashFunction, c: Ctx, s: Shape, leaf: Shape, f: Shape, ls: seq<Digest>, x: Digest, fl: nat)
    requires Waiting(h, c, s, ls, fl)
    requires leaf.Tip? && leaf.i == Info(x, 1, 1, false)
    requires var t := Descend(c, s).1;
             f.Fork? && f.l == t && f.r == leaf && f.i.dirty && f == Resized(f)
    ensures Represents(h, Descend(c, s).0, f, ls + [x], fl)
    ensures CtxTips(Descend(c, s).0) + Tips(f) == CtxTips(c) + Tips(s) + [leaf.n]
  {
    hide Root, Level, Pow2, Split, Full, IsPow2, Descend, CtxGood;
    var at := |ls| - Count(s);
    if c.Step? {
      FullIsPow2(h, s, ls[at..], at, fl);
    }
    RoomAbove(h, c, at, ls, x, fl);
    DescendRepresents(h, c, s, ls, x, fl);
    var (d, t) := Descend(c, s);
    var at' := |ls| - Count(t);
    assert 1 <= t.i.height;
    ForkGood(h, t, leaf, f, at', ls, x, fl);
    assert CtxTips(d) + (Tips(t) + [leaf.n]) == CtxTips(d) + Tips(t) + [leaf.n];
  }

  /** A whole insertion: afterwards the stack and the tree wait for the next leaf again. */
  lemma InsertWaits(h: HashFunction, c: Ctx, s: Shape, leaf: Shape, f: Shape, ls: seq<Digest>, x: Digest, fl: nat)
    requires Waiting(h, c, s, ls, fl) && |ls| < MAX_LEAVES
    requires leaf.Tip? && leaf.i == Info(x, 1, 1, false)
    requires f.Fork? && f.l == Descend(c, s).1 && f.r == leaf && f.i.dirty && f == Resized(f)
    ensures var d := Descend(c, s).0; var (e, t) := Climb(d, f, false);
            Climbable(d, f) && Waiting(h, e, t, ls + [x], fl) &&
            CtxTips(e) + Tips(t) == CtxTips(c) + Tips(s) + [leaf.n]
  {
    hide Waiting, Represents, Climbable, Descend, Climb;
    InsertRepresents(h, c, s, leaf, f, ls, x, fl);
    var d := Descend(c, s).0;
    RepresentsClimbable(h, d, f, ls + [x], fl);
    ClimbRepresents(h, d, f, ls + [x], fl, false);
  }

  /** Finishing all suspended insertions. */
  lemma CompleteWaits(h: HashFunction, c: Ctx, s: Shape, ls: seq<Digest>, fl: nat)
    requires Waiting(h, c, s, ls, fl) && |ls| <= MAX_LEAVES && c.Step?
    ensures var f := Refill(c, s); var (e, t) := Climb(c.up, Resized(f), true);
            f.i.dirty && Climbable(c.up, Resized(f)) && Waiting(h, e, t, ls, fl) && e.Top? &&
            CtxTips(e) + Tips(t) == CtxTips(c) + Tips(s)
  {
    RepresentsClimbable(h, c, s, ls, fl);
    ClimbRepresents(h, c, s, ls, fl, true);
    assert Attach(c, s) == Resized(Refill(c, s));
  }

  lemma WaitingInsertable(h: HashFunction, c: Ctx, s: Shape, ls: seq<Digest>, fl: nat)
    requires Waiting(h, c, s, ls, fl) && |ls| <= MAX_LEAVES
    ensures Insertable(s)
  {
    var at := |ls| - Count(s);
    GoodInsertable(h, s, ls[at..], at, fl);
  }

  /** The first leaf is a tree by itself. */
  lemma FirstLeaf(h: HashFunction, leaf: Shape, x: Digest)
    requires leaf.Tip? && leaf.i == Info(x, 1, 1, false)
    ensures Waiting(h, Top, leaf, [x], 0)
  {
  }
}
