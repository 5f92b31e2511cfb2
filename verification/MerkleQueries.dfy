/** Walks that only read the tree. */
module MerkleQueries {
  import opened Powers
  import opened MerkleSpec
  import opened MerkleNode
  import opened MerkleHeap
  import opened MerkleInsert
  import opened MerkleWalk
  import opened MerklePast

  /** The elements collected on the walk from n down to leaf number index. */
  method WalkPath(h: HashFunction, n: Node, index: nat, ghost s: Shape, ghost ls: seq<Digest>, ghost fl: nat)
    returns (elements: seq<Element>)
    requires fl <= index < |ls| <= MAX_LEAVES
    requires n == s.n && Linked(s) && Good(h, s, ls, 0, fl) && Clean(s)
    ensures elements == AuditPath(h, ls, index)
  {
    hide Linked, Good, At, StartWord, TopBit, ShiftLeft, Root, AuditPath, Clean, Sibling, Nodes, Forks, Turns;
    ghost var t, part := s, ls;
    ghost var off: nat := 0;
    var cur := n;
    elements := [];
    Seen(s);
    AtStart(h, s, ls, fl, index);
    var it := StartWord(index, cur.height);
    var height: nat := cur.height;
    while height > 1
      invariant 1 <= height && off <= index < off + |part|
      invariant cur == t.n && Linked(t) && Clean(t) && At(h, t, part, off, fl, index, it, height)
      invariant AuditPath(h, ls, index) == AuditPath(h, part, index - off) + elements
    {
      Seen(t);
      ghost var seen := elements;
      var goRight := TopBit(it);
      ghost var t', part', off' := Advance(h, t, part, off, fl, index, it, height);
      if cur.height == height {
        elements := [Sibling(cur.left.hash, cur.right.hash, goRight)] + elements;
        cur := if goRight then cur.right else cur.left;
        AuditStep(h, t, part, off, index, goRight, part', off');
        assert AuditPath(h, part', index - off') + elements == AuditPath(h, part, index - off) + seen;
      }
      t, part, off := t', part', off';
      it := ShiftLeft(it, 1);
      height := height - 1;
    }
    AtEnd(h, t, part, off, fl, index, it, height);
  }

  /** The three segments of a past path: from the root down to where the ways to leaves index and asOf part,
      and on to the two leaves; and the hash of leaf asOf. */
  datatype Segments = Segments(forked: bool, rootToFork: seq<Element>, forkToIndex: seq<Element>,
                               forkToAsOf: seq<Element>, asOfHash: Digest)

  ghost function DropFirst<T>(s: seq<T>): seq<T> {
    if s == [] then [] else s[1..]
  }

  /** The past path that the three segments make. */
  ghost function Joined(h: HashFunction, g: Segments): seq<Element> {
    if g.forked
    then Reverse(DropFirst(g.forkToIndex))
         + [Element(UpFold(h, g.asOfHash, DropFirst(g.forkToAsOf)), PATH_RIGHT)] + Reverse(g.rootToFork)
    else Reverse(g.rootToFork)
  }

  method WalkPast(h: HashFunction, n: Node, index: nat, asOf: nat, ghost s: Shape, ghost ls: seq<Digest>, ghost fl: nat)
    returns (g: Segments)
    requires fl <= index <= asOf < |ls| <= MAX_LEAVES
    requires n == s.n && Linked(s) && Good(h, s, ls, 0, fl) && Clean(s)
    ensures Joined(h, g) == AuditPath(h, ls[..asOf + 1], index)
    ensures g.forked || g.forkToIndex == []
  {
    hide Linked, Good, At, StartWord, TopBit, ShiftLeft, Root, AuditPath, Clean, Nodes, Split,
         BeforeFork, AfterFork, Reverse, UpFold;
    ghost var tI, pI, tA, pA := s, ls, s, ls;
    ghost var oI: nat, oA: nat := 0, 0;
    var curI, curA := n, n;
    var fork: Node? := null;
    var up, toI, toA := [], [], [];
    Seen(s);
    AtStart(h, s, ls, fl, index);
    AtStart(h, s, ls, fl, asOf);
    PastStart(h, ls, index, asOf + 1);
    var itI, itA := StartWord(index, n.height), StartWord(asOf, n.height);
    var height: nat := n.height;
    while height > 1
      invariant 1 <= height && curI == tI.n && curA == tA.n
      invariant Linked(tI) && Clean(tI) && At(h, tI, pI, oI, fl, index, itI, height)
      invariant Linked(tA) && Clean(tA) && At(h, tA, pA, oA, fl, asOf, itA, height)
      invariant fork == null ==> tI == tA && pI == pA && oI == oA && toI == [] && toA == []
      invariant fork == null ==> BeforeFork(h, ls, index, asOf + 1, pI, oI, up)
      invariant fork != null ==> AfterFork(h, ls, index, asOf + 1, pI, oI, pA, oA, up, toI, toA)
    {
      Seen(tI);
      Seen(tA);
      var rightI, rightA := TopBit(itI), TopBit(itA);
      ghost var tI', pI', oI' := Advance(h, tI, pI, oI, fl, index, itI, height);
      ghost var tA', pA', oA' := Advance(h, tA, pA, oA, fl, asOf, itA, height);
      ghost var together := fork == null;
      ghost var toI0, toA0 := toI, toA;
      if fork == null && rightI != rightA {
        fork := curI;
      }
      if fork == null {
        if curI.height == height {
          var e := Sibling(curI.left.hash, curI.right.hash, rightI);
          BeforeForkRound(h, ls, index, asOf + 1, pI, oI, up, rightI, pI', oI', e);
          if rightI {
            up := up + [e];
          }
          curI := if rightI then curI.right else curI.left;
          curA := curI;
        }
      } else {
        if curI.height == height {
          var e := Sibling(curI.left.hash, curI.right.hash, rightI);
          AuditStep(h, tI, pI, oI, index, rightI, pI', oI');
          toI := toI + [e];
          curI := if rightI then curI.right else curI.left;
          if !together {
            AfterForkIndex(h, ls, index, asOf + 1, pI, oI, pA, oA, up, toI0, toA, pI', oI', e);
          }
        }
        if curA.height == height {
          var e := Sibling(curA.left.hash, curA.right.hash, rightA);
          if rightA {
            toA := toA + [e];
          }
          curA := if rightA then curA.right else curA.left;
          if !together {
            AfterForkAsOf(h, ls, index, asOf + 1, pI', oI', pA, oA, up, toI, toA0, rightA, pA', oA', e);
          }
        }
        if together {
          assert toI == [toI[0]] && toA == [toA[0]];
          TurnsApart(pI, oI, index, asOf, rightI, rightA, pI', oI', pA', oA');
          ForkRound(h, ls, index, asOf + 1, pI, oI, up, pI', oI', pA', oA', toI[0], toA[0]);
        }
      }
      tI, pI, oI, tA, pA, oA := tI', pI', oI', tA', pA', oA';
      itI, itA := ShiftLeft(itI, 1), ShiftLeft(itA, 1);
      height := height - 1;
    }
    AtEnd(h, tI, pI, oI, fl, index, itI, height);
    AtEnd(h, tA, pA, oA, fl, asOf, itA, height);
    Seen(tA);
    if fork == null {
      BeforeForkEnd(h, ls, index, asOf + 1, pI, oI, up);
    } else {
      AfterForkEnd(h, ls, index, asOf + 1, pI, oI, pA, oA, up, toI, toA);
    }
    g := Segments(fork != null, up, toI, toA, curA.hash);
  }

  method JoinSegments(h: HashFunction, g: Segments) returns (path: seq<Element>)
    requires g.forked || g.forkToIndex == []
    ensures path == Joined(h, g)
  {
    var toI := if g.forkToIndex == [] then [] else g.forkToIndex[1..];
    var toA := if g.forkToAsOf == [] then [] else g.forkToAsOf[1..];
    path := AppendReversed([], toI);
    if g.forked {
      var x := FoldReversed(h, g.asOfHash, toA);
      path := path + [Element(x, PATH_RIGHT)];
    }
    path := AppendReversed(path, g.rootToFork);
  }

  lemma LeftStep(h: HashFunction, t: Shape, part: seq<Digest>, off: nat, index: nat, right: bool,
                 part': seq<Digest>, off': nat)
    requires t.Fork? && 2 <= |part| && off <= index < off + |part|
    requires Forks(h, t, part) && Turns(part, off, index, right, part', off')
    ensures off' <= index < off' + |part'|
    ensures LeftSiblings(h, part, index - off)
         == LeftSiblings(h, part', index - off') + if right then [t.l.i.hash] else []
  {
    hide Root, Split;
  }

  lemma LeftEnd(h: HashFunction, part: seq<Digest>)
    requires |part| == 1
    ensures LeftSiblings(h, part, 0) == []
  {
  }

  /** The left siblings met on the walk down to leaf number index, topmost first. */
  method WalkExtras(h: HashFunction, n: Node, index: nat, ghost s: Shape, ghost ls: seq<Digest>, ghost fl: nat)
    returns (extras: seq<Node>, ghost ds: seq<Digest>)
    requires fl <= index < |ls| <= MAX_LEAVES
    requires n == s.n && Linked(s) && Good(h, s, ls, 0, fl) && Clean(s)
    ensures |extras| == |ds| && forall i :: 0 <= i < |ds| ==> extras[i].hash == ds[i]
    ensures Reverse(ds) == LeftSiblings(h, ls, index)
  {
    hide Linked, Good, At, StartWord, TopBit, ShiftLeft, Root, LeftSiblings, Clean, Nodes, Forks, Turns, Reverse;
    ghost var t, part := s, ls;
    ghost var off: nat := 0;
    var cur := n;
    extras, ds := [], [];
    ReverseEmpty<Digest>();
    Seen(s);
    AtStart(h, s, ls, fl, index);
    var it := StartWord(index, cur.height);
    var height: nat := cur.height;
    while height > 1
      invariant 1 <= height && off <= index < off + |part|
      invariant cur == t.n && Linked(t) && Clean(t) && At(h, t, part, off, fl, index, it, height)
      invariant |extras| == |ds| && forall i :: 0 <= i < |ds| ==> extras[i].hash == ds[i]
      invariant LeftSiblings(h, ls, index) == LeftSiblings(h, part, index - off) + Reverse(ds)
    {
      Seen(t);
      var goRight := TopBit(it);
      ghost var t', part', off' := Advance(h, t, part, off, fl, index, it, height);
      if cur.height == height {
        LeftStep(h, t, part, off, index, goRight, part', off');
        if goRight {
          ReverseSnoc(ds, t.l.i.hash);
          extras, ds := extras + [cur.left], ds + [t.l.i.hash];
        }
        cur := if goRight then cur.right else cur.left;
      }
      t, part, off := t', part', off';
      it := ShiftLeft(it, 1);
      height := height - 1;
    }
    AtEnd(h, t, part, off, fl, index, it, height);
    LeftEnd(h, part);
  }

  lemma ReverseEmpty<T>()
    ensures Reverse<T>([]) == []
  {
  }
}
