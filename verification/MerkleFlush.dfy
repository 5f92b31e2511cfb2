/** What flushing does to the snapshots. */
module MerkleFlush {
  import opened Powers
  import opened MerkleSpec
  import opened MerkleNode
  import opened MerkleHeap
  import opened MerkleInsert
  import opened MerkleHashing
  import opened MerkleWalk
  import opened MerklePast

  /** Cuts off what is below the top of s, which keeps its hash, size and height. */
  ghost function Seal(s: Shape): Shape {
    Tip(s.n, s.i)
  }

  /** Cuts off the subtrees left of leaf number rel of n. */
  ghost function Flushed(s: Shape, n: nat, rel: nat): Shape
    decreases s
  {
    if s.Tip? || n < 2 then s
    else
      var k := Split(n);
      if k <= rel then Fork(s.n, s.i, Seal(s.l), Flushed(s.r, n - k, rel - k))
      else Fork(s.n, s.i, Flushed(s.l, k, rel), s.r)
  }

  lemma {:induction false} FlushedNodes(s: Shape, n: nat, rel: nat)
    ensures var t := Flushed(s, n, rel); t.n == s.n && t.i == s.i && Nodes(t) <= Nodes(s)
    decreases s
  {
    hide Split;
    if s.Fork? && 2 <= n {
      var k := Split(n);
      if k <= rel {
        FlushedNodes(s.r, n - k, rel - k);
      } else {
        FlushedNodes(s.l, k, rel);
      }
    }
  }

  /** A subtree right of everything flushed does not depend on how much is. */
  lemma {:induction false} GoodBeyond(h: HashFunction, s: Shape, ls: seq<Digest>, off: nat, fl: nat, fl': nat)
    requires 1 <= |ls| && Good(h, s, ls, off, fl) && fl <= off && fl' <= off
    ensures Good(h, s, ls, off, fl')
    decreases s
  {
    hide Root, Level, Pow2, Split;
    if s.Fork? {
      var k := Split(|ls|);
      GoodBeyond(h, s.l, ls[..k], off, fl, fl');
      GoodBeyond(h, s.r, ls[k..], off + k, fl, fl');
    }
  }

  /** A clean tree flushed up to leaf number index is the tree with that flush point. */
  lemma {:induction false} FlushedGood(h: HashFunction, s: Shape, ls: seq<Digest>, off: nat, fl: nat, index: nat)
    requires 1 <= |ls| && Good(h, s, ls, off, fl) && Clean(s) && fl <= index && off <= index < off + |ls|
    ensures Good(h, Flushed(s, |ls|, index - off), ls, off, index) && Clean(Flushed(s, |ls|, index - off))
    decreases s
  {
    hide Root, Level, Pow2, Split;
    if s.Fork? {
      var k := Split(|ls|);
      if off + k <= index {
        FlushedGood(h, s.r, ls[k..], off + k, fl, index);
      } else {
        FlushedGood(h, s.l, ls[..k], off, fl, index);
        GoodBeyond(h, s.r, ls[k..], off + k, fl, index);
      }
    }
  }

  ghost predicate SameTail<T>(a: seq<T>, b: seq<T>, n: int) {
    0 <= n <= |a| && n <= |b| && a[|a| - n..] == b[|b| - n..]
  }

  lemma ShorterTail<T>(p: seq<T>, a: seq<T>, b: seq<T>, m: int, n: int)
    requires IsTail(p, a, m) && SameTail(a, b, n) && n <= m
    ensures IsTail(p[m - n..], b, n)
  {
  }

  lemma SameTailPrefix<T>(a: seq<T>, b: seq<T>, a': seq<T>, b': seq<T>, n: int)
    requires SameTail(a, b, n)
    ensures SameTail(a' + a, b' + b, n)
  {
  }

  lemma SameTailSuffix<T>(a: seq<T>, b: seq<T>, c: seq<T>, n: int)
    requires SameTail(a, b, n)
    ensures SameTail(a + c, b + c, n + |c|)
  {
    assert (a + c)[|a + c| - (n + |c|)..] == a[|a| - n..] + c;
    assert (b + c)[|b + c| - (n + |c|)..] == b[|b| - n..] + c;
  }

  lemma FlushedFork(t: Shape, n: nat, rel: nat)
    requires t.Fork? && 2 <= n
    ensures var k := Split(n);
            Flushed(t, n, rel) == if k <= rel then Fork(t.n, t.i, Seal(t.l), Flushed(t.r, n - k, rel - k))
                                  else Fork(t.n, t.i, Flushed(t.l, k, rel), t.r)
  {
    hide Split, Nodes;
  }

  lemma TipTail(t: Shape, n: nat, rel: nat)
    requires t.Tip?
    ensures SameTail(Tips(t), Tips(Flushed(t, n, rel)), 1)
  {
  }

  lemma RightTail(s: Shape, t: Shape, n: int)
    requires s.Fork? && t.Fork? && SameTail(Tips(s.r), Tips(t.r), n)
    ensures SameTail(Tips(s), Tips(t), n)
  {
    SameTailPrefix(Tips(s.r), Tips(t.r), Tips(s.l), Tips(t.l), n);
  }

  lemma LeftTail(s: Shape, t: Shape, n: int)
    requires s.Fork? && t.Fork? && s.r == t.r && SameTail(Tips(s.l), Tips(t.l), n)
    ensures SameTail(Tips(s), Tips(t), n + |Tips(s.r)|)
  {
    SameTailSuffix(Tips(s.l), Tips(t.l), Tips(s.r), n);
  }

  /** Flushing keeps the nodes of the leaves from number index on. */
  lemma {:induction false} FlushedTips(h: HashFunction, s: Shape, ls: seq<Digest>, off: nat, fl: nat, index: nat)
    requires 1 <= |ls| && Good(h, s, ls, off, fl) && fl <= index && off <= index < off + |ls|
    ensures SameTail(Tips(s), Tips(Flushed(s, |ls|, index - off)), off + |ls| - index)
    decreases s
  {
    hide Root, Level, Pow2, Split, SameTail, Flushed, Tips;
    if s.Tip? {
      TipTail(s, |ls|, index - off);
    } else {
      var k := Split(|ls|);
      var t := Flushed(s, |ls|, index - off);
      FlushedFork(s, |ls|, index - off);
      if off + k <= index {
        FlushedTips(h, s.r, ls[k..], off + k, fl, index);
        RightTail(s, t, off + |ls| - index);
      } else {
        FlushedTips(h, s.l, ls[..k], off, fl, index);
        AllTips(h, s.r, ls[k..], off + k, fl);
        LeftTail(s, t, off + k - index);
      }
    }
  }

  lemma FlushedStep(t: Shape, part: seq<Digest>, off: nat, index: nat, right: bool, part': seq<Digest>, off': nat)
    requires t.Fork? && 2 <= |part| && off <= index < off + |part| && Turns(part, off, index, right, part', off')
    ensures off' <= index < off' + |part'|
    ensures Flushed(t, |part|, index - off) ==
            if right then Fork(t.n, t.i, Seal(t.l), Flushed(t.r, |part'|, index - off'))
            else Fork(t.n, t.i, Flushed(t.l, |part'|, index - off'), t.r)
  {
    hide Split, Flushed;
    FlushedFork(t, |part|, index - off);
    var k := Split(|part|);
    if right {
      assert |part'| == |part| - k && index - off' == index - off - k;
    } else {
      assert |part'| == k && index - off' == index - off;
    }
  }

  lemma FlushedTip(t: Shape, n: nat, rel: nat)
    requires t.Tip?
    ensures Flushed(t, n, rel) == t
  {
  }

  /** Nothing below a clean node needs hashing. */
  lemma CleanStays(h: HashFunction, t: Shape)
    requires t.Fork? && Clean(t)
    ensures Hashable(t.l) && Hashed(h, t.l) == t.l
  {
    CleanHashable(t.l);
  }

  lemma {:induction false} CleanHashable(t: Shape)
    requires Clean(t)
    ensures Hashable(t)
    decreases t
  {
    if t.Fork? {
      CleanHashable(t.l);
      CleanHashable(t.r);
    }
  }
}
