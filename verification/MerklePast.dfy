/** Past roots and past paths: what the hashes of a tree say about the tree of its first m leaves. */
module MerklePast {
  import opened Powers
  import opened MerkleSpec

  /** Folds the left siblings of a path only. */
  function FoldLeft(h: HashFunction, leaf: Digest, p: seq<Element>): Digest {
    if p == [] then leaf
    else
      var x, e := FoldLeft(h, leaf, p[..|p| - 1]), p[|p| - 1];
      if e.direction == PATH_LEFT then h(e.hash, x) else x
  }

  lemma FoldLeftSnoc(h: HashFunction, leaf: Digest, p: seq<Element>, e: Element)
    ensures FoldLeft(h, leaf, p + [e]) ==
            if e.direction == PATH_LEFT then h(e.hash, FoldLeft(h, leaf, p)) else FoldLeft(h, leaf, p)
  {
    assert (p + [e])[..|p|] == p;
  }

  /** The first m leaves, where m is past the fork: the left subtree is as it is now. */
  lemma PastRootFork(h: HashFunction, ls: seq<Digest>, m: nat)
    requires 2 <= |ls| && Split(|ls|) < m <= |ls|
    ensures var k := Split(|ls|); Root(h, ls[..m]) == h(Root(h, ls[..k]), Root(h, ls[k..][..m - k]))
  {
    hide Split;
    var k := Split(|ls|);
    SplitStable(|ls|, m);
    assert ls[..m][..k] == ls[..k] && ls[..m][k..] == ls[k..][..m - k];
  }

  lemma SinglePastRoot(h: HashFunction, ls: seq<Digest>)
    requires |ls| == 1
    ensures FoldLeft(h, ls[0], []) == Root(h, ls[..1])
  {
  }

  /** The left siblings of leaf i make the root of the tree in which leaf i was the last. */
  lemma {:induction false} FoldLeftIsPastRoot(h: HashFunction, ls: seq<Digest>, i: nat)
    requires i < |ls|
    ensures FoldLeft(h, ls[i], AuditPath(h, ls, i)) == Root(h, ls[..i + 1])
    decreases |ls|
  {
    hide Split, Root, FoldLeft;
    if |ls| == 1 {
      SinglePastRoot(h, ls);
    } else {
      var k := Split(|ls|);
      if i < k {
        FoldLeftIsPastRoot(h, ls[..k], i);
        FoldLeftSnoc(h, ls[i], AuditPath(h, ls[..k], i), Element(Root(h, ls[k..]), PATH_RIGHT));
        assert ls[..k][..i + 1] == ls[..i + 1];
      } else {
        FoldLeftIsPastRoot(h, ls[k..], i - k);
        FoldLeftSnoc(h, ls[i], AuditPath(h, ls[k..], i - k), Element(Root(h, ls[..k]), PATH_LEFT));
        PastRootFork(h, ls, i + 1);
      }
    }
  }

  /** Right of the fork, the past path keeps the left subtree as a sibling. */
  lemma PastPathRight(h: HashFunction, ls: seq<Digest>, i: nat, m: nat)
    requires 2 <= |ls| && Split(|ls|) <= i < m <= |ls|
    ensures var k := Split(|ls|);
            AuditPath(h, ls[..m], i) ==
            AuditPath(h, ls[k..][..m - k], i - k) + [Element(Root(h, ls[..k]), PATH_LEFT)]
  {
    hide Split, Root;
    var k := Split(|ls|);
    SplitStable(|ls|, m);
    assert ls[..m][..k] == ls[..k] && ls[..m][k..] == ls[k..][..m - k];
  }

  /** Where the leaf lies left and the past end lies right of the fork, the sibling is a past root. */
  lemma PastPathFork(h: HashFunction, ls: seq<Digest>, i: nat, m: nat)
    requires 2 <= |ls| && i < Split(|ls|) < m <= |ls|
    ensures var k := Split(|ls|);
            AuditPath(h, ls[..m], i) ==
            AuditPath(h, ls[..k], i) + [Element(Root(h, ls[k..][..m - k]), PATH_RIGHT)]
  {
    hide Split, Root;
    var k := Split(|ls|);
    SplitStable(|ls|, m);
    assert ls[..m][..k] == ls[..k] && ls[..m][k..] == ls[k..][..m - k];
  }

  function Reverse<T>(s: seq<T>): (r: seq<T>)
    ensures |r| == |s|
  {
    if s == [] then [] else Reverse(s[1..]) + [s[0]]
  }

  lemma {:induction false} ReverseSnoc<T>(s: seq<T>, x: T)
    ensures Reverse(s + [x]) == [x] + Reverse(s)
  {
    if s != [] {
      ReverseSnoc(s[1..], x);
      assert (s + [x])[1..] == s[1..] + [x];
    }
  }

  /** Folds a way down, the topmost sibling outermost. */
  function UpFold(h: HashFunction, x: Digest, seg: seq<Element>): Digest {
    if seg == [] then x else h(seg[0].hash, UpFold(h, x, seg[1..]))
  }

  lemma {:induction false} UpFoldSnoc(h: HashFunction, x: Digest, seg: seq<Element>, e: Element)
    ensures UpFold(h, x, seg + [e]) == UpFold(h, h(e.hash, x), seg)
  {
    if seg != [] {
      UpFoldSnoc(h, x, seg[1..], e);
      assert (seg + [e])[1..] == seg[1..] + [e];
    }
  }

  /** Appends seg to path, last element first. */
  method AppendReversed(path: seq<Element>, seg: seq<Element>) returns (r: seq<Element>)
    ensures r == path + Reverse(seg)
  {
    r := path;
    var i := |seg|;
    assert seg[..i] == seg;
    while i > 0
      invariant 0 <= i <= |seg|
      invariant r + Reverse(seg[..i]) == path + Reverse(seg)
    {
      i := i - 1;
      assert seg[..i + 1] == seg[..i] + [seg[i]];
      ReverseSnoc(seg[..i], seg[i]);
      r := r + [seg[i]];
    }
  }

  /** Folds seg into x, last element first. */
  method FoldReversed(h: HashFunction, x: Digest, seg: seq<Element>) returns (r: Digest)
    ensures r == UpFold(h, x, seg)
  {
    r := x;
    var i := |seg|;
    assert seg[..i] == seg;
    while i > 0
      invariant 0 <= i <= |seg|
      invariant UpFold(h, r, seg[..i]) == UpFold(h, x, seg)
    {
      i := i - 1;
      assert seg[..i + 1] == seg[..i] + [seg[i]];
      UpFoldSnoc(h, r, seg[..i], seg[i]);
      r := h(seg[i].hash, r);
    }
  }

  /** Folds the left siblings of p into leaf, in the order of the path. */
  method FoldLeftSiblings(h: HashFunction, leaf: Digest, p: seq<Element>) returns (r: Digest)
    ensures r == FoldLeft(h, leaf, p)
  {
    r := leaf;
    for i := 0 to |p|
      invariant r == FoldLeft(h, leaf, p[..i])
    {
      FoldLeftSnoc(h, leaf, p[..i], p[i]);
      assert p[..i + 1] == p[..i] + [p[i]];
      if p[i].direction == PATH_LEFT {
        r := h(p[i].hash, r);
      }
    }
    assert p[..|p|] == p;
  }

  /** From part, which starts at leaf number off, to the half that holds leaf number index. */
  ghost predicate Turns(part: seq<Digest>, off: nat, index: nat, right: bool, part': seq<Digest>, off': nat)
    requires 2 <= |part|
  {
    var k := Split(|part|);
    (right <==> off + k <= index) && off' == (if right then off + k else off) &&
    part' == if right then part[k..] else part[..k]
  }

  /** If two leaves part, the smaller goes left. */
  lemma TurnsApart(part: seq<Digest>, off: nat, i: nat, a: nat, rightI: bool, rightA: bool,
                   pI: seq<Digest>, oI: nat, pA: seq<Digest>, oA: nat)
    requires 2 <= |part| && i <= a && rightI != rightA
    requires Turns(part, off, i, rightI, pI, oI) && Turns(part, off, a, rightA, pA, oA)
    ensures !rightI && rightA
  {
  }

  /** While both leaves lie in part, which starts at leaf number off: what is left of the past path of leaf i
      in the tree of the first m leaves is the past path within part. */
  ghost predicate BeforeFork(h: HashFunction, ls: seq<Digest>, i: nat, m: nat, part: seq<Digest>, off: nat,
                             up: seq<Element>)
  {
    i < m <= |ls| && off <= i < m <= off + |part| &&
    AuditPath(h, ls[..m], i) == AuditPath(h, part[..m - off], i - off) + Reverse(up)
  }

  /** Once leaf i lies in pI, left, and the past end in pA, right of the fork: the first elements recorded for
      the two ways are those of the fork itself, and the sibling there is the past root of pA's side. */
  ghost predicate AfterFork(h: HashFunction, ls: seq<Digest>, i: nat, m: nat, pI: seq<Digest>, oI: nat,
                            pA: seq<Digest>, oA: nat, up: seq<Element>, toI: seq<Element>, toA: seq<Element>)
  {
    i < m <= |ls| && oI <= i < oI + |pI| && oA < m <= oA + |pA| && 1 <= |toI| && 1 <= |toA| &&
    AuditPath(h, ls[..m], i) ==
    AuditPath(h, pI, i - oI) + Reverse(toI[1..])
    + [Element(UpFold(h, Root(h, pA[..m - oA]), toA[1..]), PATH_RIGHT)] + Reverse(up)
  }

  lemma PastStart(h: HashFunction, ls: seq<Digest>, i: nat, m: nat)
    requires i < m <= |ls|
    ensures BeforeFork(h, ls, i, m, ls, 0, [])
  {
    hide AuditPath;
  }

  lemma BeforeForkRound(h: HashFunction, ls: seq<Digest>, i: nat, m: nat, part: seq<Digest>, off: nat, up: seq<Element>,
                        right: bool, p': seq<Digest>, o': nat, e: Element)
    requires 2 <= |part| && BeforeFork(h, ls, i, m, part, off, up)
    requires Turns(part, off, i, right, p', o') && Turns(part, off, m - 1, right, p', o')
    requires right ==> e == Element(Root(h, part[..Split(|part|)]), PATH_LEFT)
    ensures BeforeFork(h, ls, i, m, p', o', if right then up + [e] else up)
  {
    hide Split, Root, AuditPath;
    if right {
      PastPathRight(h, part, i - off, m - off);
      ReverseSnoc(up, e);
    } else {
      assert p'[..m - off] == part[..m - off];
    }
  }

  lemma ForkRound(h: HashFunction, ls: seq<Digest>, i: nat, m: nat, part: seq<Digest>, off: nat, up: seq<Element>,
                  pI: seq<Digest>, oI: nat, pA: seq<Digest>, oA: nat, e: Element, f: Element)
    requires 2 <= |part| && BeforeFork(h, ls, i, m, part, off, up)
    requires Turns(part, off, i, false, pI, oI) && Turns(part, off, m - 1, true, pA, oA)
    ensures AfterFork(h, ls, i, m, pI, oI, pA, oA, up, [e], [f])
  {
    hide Split, Root, AuditPath;
    PastPathFork(h, part, i - off, m - off);
  }

  lemma AfterForkIndex(h: HashFunction, ls: seq<Digest>, i: nat, m: nat, pI: seq<Digest>, oI: nat,
                       pA: seq<Digest>, oA: nat, up: seq<Element>, toI: seq<Element>, toA: seq<Element>,
                       p': seq<Digest>, o': nat, e: Element)
    requires AfterFork(h, ls, i, m, pI, oI, pA, oA, up, toI, toA) && o' <= i < o' + |p'|
    requires AuditPath(h, pI, i - oI) == AuditPath(h, p', i - o') + [e]
    ensures AfterFork(h, ls, i, m, p', o', pA, oA, up, toI + [e], toA)
  {
    hide Root, AuditPath, UpFold, Reverse;
    assert (toI + [e])[1..] == toI[1..] + [e];
    ReverseSnoc(toI[1..], e);
  }

  lemma AfterForkAsOf(h: HashFunction, ls: seq<Digest>, i: nat, m: nat, pI: seq<Digest>, oI: nat,
                      pA: seq<Digest>, oA: nat, up: seq<Element>, toI: seq<Element>, toA: seq<Element>,
                      right: bool, p': seq<Digest>, o': nat, e: Element)
    requires 2 <= |pA| && AfterFork(h, ls, i, m, pI, oI, pA, oA, up, toI, toA)
    requires Turns(pA, oA, m - 1, right, p', o')
    requires right ==> e == Element(Root(h, pA[..Split(|pA|)]), PATH_LEFT)
    ensures AfterFork(h, ls, i, m, pI, oI, p', o', up, toI, if right then toA + [e] else toA)
  {
    hide Split, Root, AuditPath, Reverse;
    if right {
      PastRootFork(h, pA, m - oA);
      assert (toA + [e])[1..] == toA[1..] + [e];
      UpFoldSnoc(h, Root(h, p'[..m - o']), toA[1..], e);
    } else {
      assert p'[..m - oA] == pA[..m - oA];
    }
  }

  /** At the end of both ways the segments make the past path. */
  lemma AfterForkEnd(h: HashFunction, ls: seq<Digest>, i: nat, m: nat, pI: seq<Digest>, oI: nat,
                     pA: seq<Digest>, oA: nat, up: seq<Element>, toI: seq<Element>, toA: seq<Element>)
    requires AfterFork(h, ls, i, m, pI, oI, pA, oA, up, toI, toA) && |pI| == 1 && |pA| == 1
    ensures toI != [] && toA != []
    ensures AuditPath(h, ls[..m], i) ==
            Reverse(toI[1..]) + [Element(UpFold(h, pA[0], toA[1..]), PATH_RIGHT)] + Reverse(up)
  {
    hide UpFold, Reverse, Split;
    assert pA[..m - oA] == pA;
  }

  lemma BeforeForkEnd(h: HashFunction, ls: seq<Digest>, i: nat, m: nat, part: seq<Digest>, off: nat, up: seq<Element>)
    requires BeforeFork(h, ls, i, m, part, off, up) && |part| == 1
    ensures AuditPath(h, ls[..m], i) == Reverse(up)
  {
    hide Reverse, Split;
    assert part[..m - off] == part;
  }
}
