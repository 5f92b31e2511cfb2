/** Rebuilding a tree level by level from its live leaves and the roots of the flushed blocks. */
module MerkleRebuild {
  import opened Powers
  import opened MerkleSpec
  import opened MerkleNode
  import opened MerkleHeap
  import opened MerkleInsert
  import opened MerkleBytes

  /** Block j of 2^level leaves, the last of which may be shorter. */
  ghost function Part(ls: seq<Digest>, j: nat, level: nat): seq<Digest>
    requires Shl(j, level) <= |ls|
  {
    ShlAdd(j, 1, level);
    ls[Shl(j, level)..if Shl(j + 1, level) < |ls| then Shl(j + 1, level) else |ls|]
  }

  /** The blocks from number `it` on cover the leaves from there to the end. */
  ghost predicate Covers(ls: seq<Digest>, it: nat, count: nat, level: nat) {
    1 <= count && Shl(it + count - 1, level) < |ls| <= Shl(it + count, level)
  }

  ghost predicate Apart(ss: seq<Shape>) {
    forall i, j :: 0 <= i < j < |ss| ==> Nodes(ss[i]) !! Nodes(ss[j])
  }

  /** Each shape of a level holds its block. */
  ghost predicate LevelGood(h: HashFunction, ss: seq<Shape>, ls: seq<Digest>, it: nat, level: nat, fl: nat) {
    Covers(ls, it, |ss|, level) &&
    forall j :: 0 <= j < |ss| ==> BlockGood(h, ss[j], ls, it + j, level, fl)
  }

  ghost predicate BlockGood(h: HashFunction, s: Shape, ls: seq<Digest>, j: nat, level: nat, fl: nat) {
    Shl(j, level) < |ls| && Part(ls, j, level) != [] && Good(h, s, Part(ls, j, level), Shl(j, level), fl)
  }

  ghost function LevelTips(ss: seq<Shape>): seq<Node> {
    if ss == [] then [] else LevelTips(ss[..|ss| - 1]) + Tips(ss[|ss| - 1])
  }

  lemma LevelTipsSnoc(ss: seq<Shape>, s: Shape)
    ensures LevelTips(ss + [s]) == LevelTips(ss) + Tips(s)
  {
    assert (ss + [s])[..|ss|] == ss;
  }

  lemma {:induction false} LevelTipsCons(s: Shape, ss: seq<Shape>)
    ensures LevelTips([s] + ss) == Tips(s) + LevelTips(ss)
    decreases |ss|
  {
    if ss == [] {
      assert [s] + ss == [] + [s];
      LevelTipsSnoc([], s);
    } else {
      var front, last := ss[..|ss| - 1], ss[|ss| - 1];
      LevelTipsCons(s, front);
      assert ss == front + [last] && [s] + ss == ([s] + front) + [last];
      LevelTipsSnoc([s] + front, last);
      LevelTipsSnoc(front, last);
    }
  }

  /** Pairs of neighbours under new nodes, and a single last one as it is. */
  ghost predicate Paired(ss: seq<Shape>, ts: seq<Shape>, n: nat) {
    n <= |ss| && (n % 2 == 0 || n == |ss|) && |ts| == (n + 1) / 2 &&
    forall j :: 0 <= j < |ts| ==> PairOf(ss, ts[j], j)
  }

  ghost predicate PairOf(ss: seq<Shape>, t: Shape, j: nat) {
    2 * j < |ss| &&
    if 2 * j + 1 == |ss| then t == ss[2 * j]
    else t.Fork? && t.l == ss[2 * j] && t.r == ss[2 * j + 1] && t.i.dirty && t == Resized(t)
  }

  lemma PartLength(ls: seq<Digest>, j: nat, level: nat)
    requires Shl(j, level) < |ls|
    ensures 1 <= |Part(ls, j, level)| <= Pow2(level)
    ensures Shl(j + 1, level) == Shl(j, level) + Pow2(level)
    ensures Shl(j + 1, level) <= |ls| ==> |Part(ls, j, level)| == Pow2(level)
  {
    ShlAdd(j, 1, level);
    ShlTimes(1, level);
  }

  lemma DoubleShl(j: nat, level: nat)
    ensures Shl(j, level + 1) == Shl(2 * j, level)
  {
  }

  lemma PartsJoin(ls: seq<Digest>, j: nat, level: nat)
    requires Shl(j, level + 1) == Shl(2 * j, level) < Shl(2 * j + 1, level) < |ls|
    ensures Shl(2 * j + 1, level) == Shl(2 * j, level) + Pow2(level)
    ensures var p, a, b := Part(ls, j, level + 1), Part(ls, 2 * j, level), Part(ls, 2 * j + 1, level);
            p == a + b && |a| == Pow2(level) && 1 <= |b| <= |a| &&
            Shl(2 * j, level) + |p| == if Shl(2 * j + 2, level) < |ls| then Shl(2 * j + 2, level) else |ls|
  {
    hide Level, Shl;
    PartLength(ls, 2 * j, level);
    PartLength(ls, 2 * j + 1, level);
    DoubleShl(j + 1, level);
    var x, m := Shl(2 * j, level), Shl(2 * j + 1, level);
    var y := if Shl(2 * j + 2, level) < |ls| then Shl(2 * j + 2, level) else |ls|;
    assert Part(ls, j, level + 1) == ls[x..y];
    assert Part(ls, 2 * j, level) == ls[x..m];
    assert Part(ls, 2 * j + 1, level) == ls[m..y];
    assert ls[x..y] == ls[x..m] + ls[m..y];
  }

  lemma JoinedLevels(n: nat, m: nat, level: nat)
    requires n == Pow2(level) && 1 <= m <= n
    ensures Split(n + m) == n && Level(n + m) == level + 1 && Level(n) == level && Level(m) <= level
  {
    hide Level;
    SplitUnique(n + m, level);
    SplitLevels(n + m);
  }

  /** Two neighbouring blocks, the first of them full, are a block of the next level. */
  lemma PairGood(h: HashFunction, t: Shape, ls: seq<Digest>, j: nat, level: nat, fl: nat)
    requires Shl(2 * j + 1, level) < |ls| && fl < |ls|
    requires t.Fork? && t.i.dirty && t == Resized(t)
    requires BlockGood(h, t.l, ls, 2 * j, level, fl) && BlockGood(h, t.r, ls, 2 * j + 1, level, fl)
    requires fl < Shl(2 * j + 2, level)
    ensures BlockGood(h, t, ls, j, level + 1, fl)
  {
    hide Root, Level, Shl, Split, Part, Pow2;
    DoubleShl(j, level);
    ShlAdd(2 * j, 1, level);
    ShlTimes(1, level);
    PartsJoin(ls, j, level);
    var p, a, b := Part(ls, j, level + 1), Part(ls, 2 * j, level), Part(ls, 2 * j + 1, level);
    JoinedLevels(|a|, |b|, level);
    assert p[..|a|] == a && p[|a|..] == b;
  }

  lemma LastGood(h: HashFunction, t: Shape, ls: seq<Digest>, j: nat, level: nat, fl: nat)
    requires Shl(2 * j, level) < |ls| <= Shl(2 * j + 1, level)
    requires BlockGood(h, t, ls, 2 * j, level, fl)
    ensures BlockGood(h, t, ls, j, level + 1, fl)
  {
    hide Root, Level, Shl, Good;
    ShlAdd(2 * j + 1, 1, level);
    DoubleShl(j, level);
    DoubleShl(j + 1, level);
    assert Part(ls, j, level + 1) == Part(ls, 2 * j, level);
  }

  /** Pairing a level whose first block is even gives the next level. */
  lemma PairedGood(h: HashFunction, ss: seq<Shape>, ts: seq<Shape>, ls: seq<Digest>, it: nat, level: nat, fl: nat)
    requires it % 2 == 0 && fl < |ls| && fl < Shl(it + 2, level)
    requires LevelGood(h, ss, ls, it, level, fl) && Paired(ss, ts, |ss|)
    ensures LevelGood(h, ts, ls, it / 2, level + 1, fl)
  {
    hide Root, Level, Shl, Good, Part, BlockGood, Resized;
    var h2 := it / 2;
    forall j | 0 <= j < |ts|
      ensures BlockGood(h, ts[j], ls, h2 + j, level + 1, fl)
    {
      assert PairOf(ss, ts[j], j);
      assert BlockGood(h, ss[2 * j], ls, it + 2 * j, level, fl);
      if 2 * j + 1 == |ss| {
        LastGood(h, ts[j], ls, h2 + j, level, fl);
      } else {
        assert BlockGood(h, ss[2 * j + 1], ls, it + (2 * j + 1), level, fl);
        ShlMonotone(it + 2 * j + 1, it + |ss| - 1, level);
        ShlMonotone(it + 2, it + 2 * j + 2, level);
        PairGood(h, ts[j], ls, h2 + j, level, fl);
      }
    }
    CoversNext(ls, it, |ss|, level);
  }

  lemma ShlMonotone(a: nat, b: nat, k: nat)
    requires a <= b
    ensures Shl(a, k) <= Shl(b, k)
  {
    ShlAdd(a, b - a, k);
  }

  lemma CoversNext(ls: seq<Digest>, it: nat, count: nat, level: nat)
    requires it % 2 == 0 && Covers(ls, it, count, level)
    ensures Covers(ls, it / 2, (count + 1) / 2, level + 1)
  {
    hide Shl;
    var c := (count + 1) / 2;
    DoubleShl(it / 2 + c - 1, level);
    DoubleShl(it / 2 + c, level);
    ShlMonotone(2 * (it / 2 + c - 1), it + count - 1, level);
    ShlMonotone(it + count, 2 * (it / 2 + c), level);
  }

  /** A level of nodes, with its snapshots, all within the set of nodes `all`. */
  ghost predicate Within(ss: seq<Shape>, all: set<Node>) {
    forall j :: 0 <= j < |ss| ==> Nodes(ss[j]) <= all
  }

  method Join(l: Node, r: Node, ghost s: Shape, ghost t: Shape, ghost all: set<Node>) returns (n: Node, ghost f: Shape)
    requires l == s.n && r == t.n && Linked(s) && Linked(t) && Nodes(s) !! Nodes(t)
    requires Nodes(s) <= all && Nodes(t) <= all
    ensures fresh(n) && f.n == n && Linked(f) && Nodes(f) == {n} + Nodes(s) + Nodes(t)
    ensures f.Fork? && f.l == s && f.r == t && f.i.dirty && f == Resized(f)
  {
    ShapeAllocated(s);
    ShapeAllocated(t);
    assert l.Get() == s.i && r.Get() == t.i;
    n := new Node.Inner(l, r);
    assert Linked(s) && Linked(t) by { hide *; }
    f := Fork(n, n.Get(), s, t);
  }

  /** Rebuilds one level: every second node is paired with the one before it. */
  method PairUp(level: seq<Node>, ghost ss: seq<Shape>, ghost all: set<Node>)
    returns (next: seq<Node>, ghost ts: seq<Shape>, ghost made: set<Node>)
    requires |level| == |ss| && forall j :: 0 <= j < |ss| ==> level[j] == ss[j].n && Linked(ss[j])
    requires Apart(ss) && Within(ss, all)
    ensures |next| == |ts| && forall j :: 0 <= j < |ts| ==> next[j] == ts[j].n && Linked(ts[j])
    ensures Apart(ts) && Within(ts, all + made) && fresh(made)
    ensures Paired(ss, ts, |ss|) && LevelTips(ts) == LevelTips(ss)
  {
    hide Linked, LevelTips, Tips, Nodes, Resized;
    next, ts, made := [], [], {};
    var i := 0;
    while i < |level|
      invariant i <= |level| + 1 && i % 2 == 0 && |next| == |ts| == i / 2
      invariant forall j :: 0 <= j < |ts| ==> next[j] == ts[j].n && Linked(ts[j]) && PairOf(ss, ts[j], j)
      invariant forall j :: 0 <= j < |ss| ==> Linked(ss[j])
      invariant Apart(ts) && Within(ts, all + made) && fresh(made)
      invariant forall j, k :: 0 <= j < |ts| && i <= k < |ss| ==> Nodes(ts[j]) !! Nodes(ss[k])
      invariant LevelTips(ts) == LevelTips(ss[..if i <= |ss| then i else |ss|])
    {
      if i + 1 >= |level| {
        next := next + [level[i]];
        LevelTipsSnoc(ts, ss[i]);
        LevelTipsSnoc(ss[..i], ss[i]);
        assert ss[..i] + [ss[i]] == ss == ss[..|ss|];
        ts := ts + [ss[i]];
      } else {
        ghost var f;
        var n;
        n, f := Join(level[i], level[i + 1], ss[i], ss[i + 1], all);
        next := next + [n];
        made := made + {n};
        TipsOfPair(ss, ts, f, i);
        ts := ts + [f];
      }
      i := i + 2;
    }
    assert ss[..|ss|] == ss;
  }

  lemma TipsOfPair(ss: seq<Shape>, ts: seq<Shape>, f: Shape, i: nat)
    requires i + 1 < |ss| && f.Fork? && f.l == ss[i] && f.r == ss[i + 1]
    requires LevelTips(ts) == LevelTips(ss[..i])
    ensures LevelTips(ts + [f]) == LevelTips(ss[..i + 2])
  {
    LevelTipsSnoc(ts, f);
    LevelTipsSnoc(ss[..i], ss[i]);
    LevelTipsSnoc(ss[..i + 1], ss[i + 1]);
    assert ss[..i + 1] == ss[..i] + [ss[i]] && ss[..i + 2] == ss[..i + 1] + [ss[i + 1]];
  }

  /** The bytes from position to stop are the roots of the blocks that the bits of `it` name. */
  ghost predicate Holds(h: HashFunction, bytes: seq<Byte>, position: nat, stop: nat, ls: seq<Digest>, it: nat,
                        level: nat)
  {
    Shl(it, level) <= |ls| && position <= stop <= |bytes| &&
    bytes[position..stop] == Flat(Extras(h, ls, it, level))
  }

  lemma HoldsEven(h: HashFunction, bytes: seq<Byte>, position: nat, stop: nat, ls: seq<Digest>, it: nat, level: nat)
    requires Holds(h, bytes, position, stop, ls, it, level) && it % 2 == 0
    ensures Holds(h, bytes, position, stop, ls, it / 2, level + 1)
  {
    hide Root;
    HalfBound(it, level);
    if it == 0 {
      ExtrasZero(h, ls, level);
      ExtrasZero(h, ls, level + 1);
    } else {
      assert Extras(h, ls, it, level) == Extras(h, ls, it / 2, level + 1);
    }
  }

  lemma HeadOf(bytes: seq<Byte>, position: nat, stop: nat, d: Digest, rest: seq<Digest>)
    requires position <= stop <= |bytes| && bytes[position..stop] == Flat([d] + rest)
    ensures position + HASH_SIZE <= stop
    ensures bytes[position..position + HASH_SIZE] == d.bytes
    ensures bytes[position + HASH_SIZE..stop] == Flat(rest)
  {
    FlatAppend([d], rest);
    assert [d] == [] + [d];
    FlatSnoc([], d);
    var f := bytes[position..stop];
    hide Flat;
    assert bytes[position..position + HASH_SIZE] == f[..HASH_SIZE];
    assert bytes[position + HASH_SIZE..stop] == f[HASH_SIZE..];
  }

  lemma HoldsOdd(h: HashFunction, bytes: seq<Byte>, position: nat, stop: nat, ls: seq<Digest>, it: nat, level: nat)
    requires Holds(h, bytes, position, stop, ls, it, level) && it % 2 == 1
    ensures position + HASH_SIZE <= |bytes| && |Block(ls, it - 1, level)| == Pow2(level)
    ensures bytes[position..position + HASH_SIZE] == Root(h, Block(ls, it - 1, level)).bytes
    ensures Holds(h, bytes, position + HASH_SIZE, stop, ls, it / 2, level + 1)
  {
    hide Root, Block, Shl, Flat, Pow2;
    HalfBound(it, level);
    BlockLength(ls, it - 1, level);
    var d, rest := Root(h, Block(ls, it - 1, level)), Extras(h, ls, it / 2, level + 1);
    assert Extras(h, ls, it, level) == [d] + rest;
    HeadOf(bytes, position, stop, d, rest);
  }

  lemma HoldsNothing(h: HashFunction, bytes: seq<Byte>, position: nat, stop: nat, ls: seq<Digest>, level: nat)
    requires Holds(h, bytes, position, stop, ls, 0, level)
    ensures position == stop
  {
    ExtrasZero(h, ls, level);
    assert |bytes[position..stop]| == 0;
  }

  /** it << level is where the block starts that holds the first live leaf. */
  ghost predicate Reaches(it: nat, level: nat, fl: nat) {
    Shl(it, level) <= fl < Shl(it + 1, level)
  }

  lemma ReachesNext(it: nat, level: nat, fl: nat)
    requires Reaches(it, level, fl)
    ensures Reaches(it / 2, level + 1, fl)
  {
    hide Shl;
    DoubleShl(it / 2, level);
    DoubleShl(it / 2 + 1, level);
    ShlMonotone(2 * (it / 2), it, level);
    ShlMonotone(it + 1, 2 * (it / 2) + 2, level);
  }

  lemma ExtraGood(h: HashFunction, e: Shape, ls: seq<Digest>, it: nat, level: nat, fl: nat)
    requires 1 <= it && Reaches(it, level, fl) && fl < |ls|
    requires |Block(ls, it - 1, level)| == Pow2(level)
    requires e.Tip? && e.i == Info(Root(h, Block(ls, it - 1, level)), Pow2(level + 1) - 1, level + 1, false)
    ensures BlockGood(h, e, ls, it - 1, level, fl)
  {
    hide Root, Level, Shl;
    ShlAdd(it - 1, 1, level);
    ShlTimes(1, level);
    assert Part(ls, it - 1, level) == Block(ls, it - 1, level);
    LevelOfPow2(level);
  }

  lemma LevelOfPow2(d: nat)
    ensures Level(Pow2(d)) == d
  {
    if d > 0 {
      Pow2Strict(d - 1, d);
    }
    LevelUnique(Pow2(d), d);
  }

  lemma ExtraHeight(it: nat, level: nat, fl: nat)
    requires 1 <= it && Reaches(it, level, fl) && fl < MAX_LEAVES
    ensures level + 1 <= MAX_HEIGHT
  {
    hide Shl, Pow2;
    ShlMonotone(1, it, level);
    ShlTimes(1, level);
    Pow2Reflects(level, MAX_HEIGHT - 1);
  }

  lemma LevelWithExtra(h: HashFunction, e: Shape, ss: seq<Shape>, ls: seq<Digest>, it: nat, level: nat, fl: nat)
    requires 1 <= it && LevelGood(h, ss, ls, it, level, fl) && BlockGood(h, e, ls, it - 1, level, fl)
    ensures LevelGood(h, [e] + ss, ls, it - 1, level, fl)
  {
    hide BlockGood, Shl;
    forall j | 0 <= j < |[e] + ss|
      ensures BlockGood(h, ([e] + ss)[j], ls, it - 1 + j, level, fl)
    {
      if j > 0 {
        assert BlockGood(h, ss[j - 1], ls, it + (j - 1), level, fl);
      }
    }
  }

  /** A single node for the whole of ls is its tree. */
  lemma TopGood(h: HashFunction, ss: seq<Shape>, ls: seq<Digest>, level: nat, fl: nat)
    requires |ss| == 1 && LevelGood(h, ss, ls, 0, level, fl)
    ensures ls != [] && Good(h, ss[0], ls, 0, fl)
  {
    hide Root, Good;
    ShlTimes(0, level);
    assert BlockGood(h, ss[0], ls, 0 + 0, level, fl);
    assert Part(ls, 0, level) == ls;
  }

  /** Puts a flushed block in front of a level. */
  method AddExtra(level: seq<Node>, hash: Digest, height: nat, ghost ss: seq<Shape>, ghost all: set<Node>)
    returns (next: seq<Node>, ghost e: Shape, ghost n: Node)
    requires height <= MAX_HEIGHT
    requires |level| == |ss| && forall j :: 0 <= j < |ss| ==> level[j] == ss[j].n && Linked(ss[j])
    requires Apart(ss) && Within(ss, all)
    ensures fresh(n) && e == Tip(n, Info(hash, Pow2(height) - 1, height, false))
    ensures |next| == |[e] + ss| && forall j :: 0 <= j < |next| ==> next[j] == ([e] + ss)[j].n && Linked(([e] + ss)[j])
    ensures Apart([e] + ss) && Within([e] + ss, all + {n})
  {
    forall j | 0 <= j < |ss|
      ensures forall o | o in Nodes(ss[j]) :: allocated(o)
    {
      ShapeAllocated(ss[j]);
    }
    var made := new Node.Leaf(hash);
    n := made;
    made.height := height;
    made.size := Pow2(height) - 1;
    assert forall j :: 0 <= j < |ss| ==> Linked(ss[j]) by { hide *; }
    e := Tip(n, made.Get());
    next := [made] + level;
    assert Nodes(e) == {n};
    forall j | 0 <= j < |ss|
      ensures n !in Nodes(ss[j])
    {
    }
    assert Linked(e);
  }

  /** The whole of ls as a level: the leaves from number fl on. */
  ghost predicate Leaves(ns: seq<Node>, ss: seq<Shape>, ls: seq<Digest>, fl: nat)
    requires fl <= |ls|
  {
    |ns| == |ss| == |ls| - fl &&
    forall j :: 0 <= j < |ss| ==> ss[j] == Tip(ns[j], Info(ls[fl + j], 1, 1, false))
  }

  lemma LeavesGood(h: HashFunction, ns: seq<Node>, ss: seq<Shape>, ls: seq<Digest>, fl: nat)
    requires fl < |ls| && Leaves(ns, ss, ls, fl)
    ensures LevelGood(h, ss, ls, fl, 0, fl)
  {
    forall j | 0 <= j < |ss|
      ensures BlockGood(h, ss[j], ls, fl + j, 0, fl)
    {
      LowestPart(ls, fl + j);
    }
  }

  lemma LowestPart(ls: seq<Digest>, i: nat)
    requires i < |ls|
    ensures Shl(i, 0) == i && Part(ls, i, 0) == [ls[i]]
  {
    assert Shl(i, 0) == i && Shl(i + 1, 0) == i + 1;
    assert Part(ls, i, 0) == ls[i..i + 1];
  }

  lemma {:induction false} LeavesTips(ns: seq<Node>, ss: seq<Shape>, ls: seq<Digest>, fl: nat)
    requires fl <= |ls| && Leaves(ns, ss, ls, fl)
    ensures LevelTips(ss) == ns
    decreases |ns|
  {
    if ns != [] {
      var n := |ns| - 1;
      LeavesTips(ns[..n], ss[..n], ls[..|ls| - 1], fl);
      assert ns == ns[..n] + [ns[n]];
    }
  }

  /** Rebuilds a non-empty tree level by level, restoring a flushed block wherever the bits of fl ask for one. */
  method Rebuild(h: HashFunction, bytes: seq<Byte>, start: nat, leafNodes: seq<Node>, numFlushed: nat,
                 ghost leafShapes: seq<Shape>, ghost ls: seq<Digest>, ghost all: set<Node>, ghost stop: nat)
    returns (root: Node, position: nat, ghost s: Shape, ghost made: set<Node>)
    requires numFlushed < |ls| <= MAX_LEAVES && Leaves(leafNodes, leafShapes, ls, numFlushed)
    requires forall j :: 0 <= j < |leafShapes| ==> Linked(leafShapes[j])
    requires Apart(leafShapes) && Within(leafShapes, all)
    requires Holds(h, bytes, start, stop, ls, numFlushed, 0)
    ensures root == s.n && Linked(s) && Good(h, s, ls, 0, numFlushed) && IsTail(leafNodes, Tips(s), |leafNodes|)
    ensures Nodes(s) <= all + made && fresh(made) && position == stop
  {
    hide Linked, Nodes, Tips, LevelTips, Good, Root, LevelGood, BlockGood, Extras, Shl, Holds, Reaches, Paired;
    var level, it: nat, levelNo: nat := leafNodes, numFlushed, 0;
    position := start;
    ghost var ss := leafShapes;
    made := {};
    LeavesGood(h, leafNodes, ss, ls, numFlushed);
    LeavesTips(leafNodes, ss, ls, numFlushed);
    ReachesStart(numFlushed);
    while it != 0 || |level| > 1
      invariant |level| == |ss| >= 1 && forall j :: 0 <= j < |ss| ==> level[j] == ss[j].n && Linked(ss[j])
      invariant Apart(ss) && Within(ss, all + made) && fresh(made)
      invariant LevelGood(h, ss, ls, it, levelNo, numFlushed)
      invariant IsTail(leafNodes, LevelTips(ss), |leafNodes|)
      invariant Holds(h, bytes, position, stop, ls, it, levelNo) && Reaches(it, levelNo, numFlushed)
      decreases it + |level|
    {
      if it % 2 == 1 {
        HoldsOdd(h, bytes, position, stop, ls, it, levelNo);
        ExtraHeight(it, levelNo, numFlushed);
        var hash := Digest(bytes[position..position + HASH_SIZE]);
        position := position + HASH_SIZE;
        ghost var e, n;
        level, e, n := AddExtra(level, hash, levelNo + 1, ss, all + made);
        ExtraGood(h, e, ls, it, levelNo, numFlushed);
        LevelWithExtra(h, e, ss, ls, it, levelNo, numFlushed);
        LevelTipsCons(e, ss);
        made := made + {n};
        ss := [e] + ss;
      } else {
        HoldsEven(h, bytes, position, stop, ls, it, levelNo);
      }
      ghost var ts, m;
      level, ts, m := PairUp(level, ss, all + made);
      ReachesNext(it, levelNo, numFlushed);
      ReachesPair(it, levelNo, numFlushed);
      PairedGood(h, ss, ts, ls, it - it % 2, levelNo, numFlushed);
      PairedCount(ss, ts);
      made := made + m;
      ss := ts;
      it, levelNo := it / 2, levelNo + 1;
    }
    TopGood(h, ss, ls, levelNo, numFlushed);
    HoldsNothing(h, bytes, position, stop, ls, levelNo);
    OneTips(ss);
    root, s := level[0], ss[0];
  }

  lemma ReachesPair(it: nat, level: nat, fl: nat)
    requires Reaches(it, level, fl)
    ensures fl < Shl(it - it % 2 + 2, level)
  {
    hide Shl;
    ShlMonotone(it + 1, it - it % 2 + 2, level);
  }

  lemma PairedCount(ss: seq<Shape>, ts: seq<Shape>)
    requires Paired(ss, ts, |ss|)
    ensures |ts| == (|ss| + 1) / 2
  {
  }

  lemma OneTips(ss: seq<Shape>)
    requires |ss| == 1
    ensures LevelTips(ss) == Tips(ss[0])
  {
  }

  lemma ReachesStart(fl: nat)
    ensures Reaches(fl, 0, fl)
  {
  }

  /** Makes the leaves whose hashes ds the bytes from position on hold. */
  method MakeLeaves(bytes: seq<Byte>, position: nat, count: nat, ghost ds: seq<Digest>)
    returns (ns: seq<Node>, next: nat, ghost ss: seq<Shape>, ghost all: set<Node>)
    requires |ds| == count && position + HASH_SIZE * count <= |bytes|
    requires bytes[position..position + HASH_SIZE * count] == Flat(ds)
    ensures next == position + HASH_SIZE * count && |ns| == |ss| == count
    ensures forall j :: 0 <= j < count ==> ss[j] == Tip(ns[j], Info(ds[j], 1, 1, false)) && Linked(ss[j])
    ensures Apart(ss) && Within(ss, all) && fresh(all)
  {
    hide Flat;
    ns, ss, all, next := [], [], {}, position;
    for i := 0 to count
      invariant next == position + HASH_SIZE * i && |ns| == |ss| == i
      invariant forall j :: 0 <= j < i ==> ss[j] == Tip(ns[j], Info(ds[j], 1, 1, false)) && Linked(ss[j])
      invariant Apart(ss) && Within(ss, all) && fresh(all)
    {
      FlatAt(ds, i);
      SubSlice(bytes, Flat(ds), position, HASH_SIZE * i, HASH_SIZE * (i + 1));
      var n := new Node.Leaf(Digest(bytes[next..next + HASH_SIZE]));
      next := next + HASH_SIZE;
      ns, ss, all := ns + [n], ss + [Tip(n, Info(ds[i], 1, 1, false))], all + {n};
    }
  }
}
