/** What a Merkle history tree means: a function of the list of its leaves. */
module MerkleSpec {
  import opened Powers

  const HASH_SIZE: nat := 32

  type Byte = b: int | 0 <= b < 256
  type HashBytes = s: seq<Byte> | |s| == HASH_SIZE witness seq(HASH_SIZE, _ => 0)

  datatype Digest = Digest(bytes: HashBytes)
  type HashFunction = (Digest, Digest) -> Digest

  datatype Direction = PATH_LEFT | PATH_RIGHT
  datatype Element = Element(hash: Digest, direction: Direction)

  /** The root of a non-empty list of leaves, split at the largest power of two below its length
      (the tree of section 2.1 of RFC 6962, without the prefixes that RFC hashes in). */
  function Root(h: HashFunction, ls: seq<Digest>): Digest
    requires 1 <= |ls|
  {
    if |ls| == 1 then ls[0]
    else
      var k := Split(|ls|);
      h(Root(h, ls[..k]), Root(h, ls[k..]))
  }

  /** The siblings met on the way from leaf i up to the root (section 2.1.1 of RFC 6962). */
  function AuditPath(h: HashFunction, ls: seq<Digest>, i: nat): seq<Element>
    requires i < |ls|
  {
    if |ls| == 1 then []
    else
      var k := Split(|ls|);
      if i < k then AuditPath(h, ls[..k], i) + [Element(Root(h, ls[k..]), PATH_RIGHT)]
      else AuditPath(h, ls[k..], i - k) + [Element(Root(h, ls[..k]), PATH_LEFT)]
  }

  function Join(h: HashFunction, x: Digest, e: Element): Digest {
    if e.direction == PATH_LEFT then h(e.hash, x) else h(x, e.hash)
  }

  function Fold(h: HashFunction, leaf: Digest, p: seq<Element>): Digest {
    if p == [] then leaf else Join(h, Fold(h, leaf, p[..|p| - 1]), p[|p| - 1])
  }

  lemma FoldSnoc(h: HashFunction, leaf: Digest, p: seq<Element>, e: Element)
    ensures Fold(h, leaf, p + [e]) == Join(h, Fold(h, leaf, p), e)
  {
    assert (p + [e])[..|p + [e]| - 1] == p;
  }

  /** Every audit path leads from its leaf to the root. */
  lemma {:induction false} AuditPathFolds(h: HashFunction, ls: seq<Digest>, i: nat)
    requires i < |ls|
    ensures Fold(h, ls[i], AuditPath(h, ls, i)) == Root(h, ls)
    decreases |ls|
  {
    if |ls| == 1 {
    } else {
      var k := Split(|ls|);
      if i < k {
        AuditPathFolds(h, ls[..k], i);
        FoldSnoc(h, ls[i], AuditPath(h, ls[..k], i), Element(Root(h, ls[k..]), PATH_RIGHT));
      } else {
        AuditPathFolds(h, ls[k..], i - k);
        FoldSnoc(h, ls[i], AuditPath(h, ls[k..], i - k), Element(Root(h, ls[..k]), PATH_LEFT));
      }
    }
  }

  /** The pair hashed at step k of folding p from x. */
  function HashedAt(h: HashFunction, x: Digest, p: seq<Element>, k: nat): (Digest, Digest)
    requires k < |p|
  {
    var y := Fold(h, x, p[..k]);
    if p[k].direction == PATH_LEFT then (p[k].hash, y) else (y, p[k].hash)
  }

  lemma HashedInPrefix(h: HashFunction, x: Digest, p: seq<Element>, n: nat, k: nat)
    requires k < n <= |p|
    ensures HashedAt(h, x, p[..n], k) == HashedAt(h, x, p, k)
  {
    assert p[..n][..k] == p[..k];
  }

  lemma LastHashed(h: HashFunction, x: Digest, p: seq<Element>)
    requires p != []
    ensures var n := |p| - 1; var (a, b) := HashedAt(h, x, p, n);
            Fold(h, x, p) == h(a, b) &&
            if p[n].direction == PATH_LEFT then a == p[n].hash && b == Fold(h, x, p[..n])
            else a == Fold(h, x, p[..n]) && b == p[n].hash
  {
  }

  ghost predicate Collides(h: HashFunction, a: (Digest, Digest), b: (Digest, Digest)) {
    a != b && h(a.0, a.1) == h(b.0, b.1)
  }

  ghost predicate SameTurns(p: seq<Element>, q: seq<Element>) {
    |p| == |q| && forall k :: 0 <= k < |p| ==> p[k].direction == q[k].direction
  }

  /** Two paths with the same turns that reach the same root start at the same leaf and name the same
      siblings, unless at some step the two of them hash different pairs to one digest. */
  lemma {:induction false} PathsAgree(h: HashFunction, x: Digest, p: seq<Element>, y: Digest, q: seq<Element>)
    requires SameTurns(p, q) && Fold(h, x, p) == Fold(h, y, q)
    ensures (x == y && p == q) || exists k :: 0 <= k < |p| && Collides(h, HashedAt(h, x, p, k), HashedAt(h, y, q, k))
    decreases |p|
  {
    if p != [] {
      var n := |p| - 1;
      LastHashed(h, x, p);
      LastHashed(h, y, q);
      hide HashedAt, Fold;
      if HashedAt(h, x, p, n) == HashedAt(h, y, q, n) {
        PathsAgree(h, x, p[..n], y, q[..n]);
        assert p == p[..n] + [p[n]] && q == q[..n] + [q[n]];
        if !(x == y && p == q) {
          var k :| 0 <= k < n && Collides(h, HashedAt(h, x, p[..n], k), HashedAt(h, y, q[..n], k));
          HashedInPrefix(h, x, p, n, k);
          HashedInPrefix(h, y, q, n, k);
        }
      } else {
        assert Collides(h, HashedAt(h, x, p, n), HashedAt(h, y, q, n));
      }
    }
  }

  /** Block j of 2^level leaves. */
  function Block(ls: seq<Digest>, j: nat, level: nat): seq<Digest>
    requires Shl(j + 1, level) <= |ls|
  {
    ShlAdd(j, 1, level);
    ls[Shl(j, level)..Shl(j + 1, level)]
  }

  lemma BlockLength(ls: seq<Digest>, j: nat, level: nat)
    requires Shl(j + 1, level) <= |ls|
    ensures |Block(ls, j, level)| == Pow2(level)
  {
    ShlAdd(j, 1, level);
    ShlTimes(1, level);
  }

  lemma HalfBound(it: nat, level: nat)
    ensures Shl(it / 2, level + 1) <= Shl(it, level)
  {
    assert it == 2 * (it / 2) + it % 2;
    ShlAdd(2 * (it / 2), it % 2, level);
  }

  /** The root of the full block that ends where it << level starts, if bit `level` of that index is set. */
  function LowBlock(h: HashFunction, ls: seq<Digest>, it: nat, level: nat): seq<Digest>
    requires Shl(it, level) <= |ls|
  {
    if it % 2 == 1 then BlockLength(ls, it - 1, level); [Root(h, Block(ls, it - 1, level))] else []
  }

  /** Roots of the full blocks left of the leaf it << level, lowest first: bit L of a leaf index is set
      exactly if a block of 2^L leaves ends where its higher bits begin. */
  function Extras(h: HashFunction, ls: seq<Digest>, it: nat, level: nat): seq<Digest>
    requires Shl(it, level) <= |ls|
    decreases it
  {
    if it == 0 then []
    else HalfBound(it, level); LowBlock(h, ls, it, level) + Extras(h, ls, it / 2, level + 1)
  }

  /** The left siblings on the way from leaf i up to the root. */
  function LeftSiblings(h: HashFunction, ls: seq<Digest>, i: nat): seq<Digest>
    requires i < |ls|
  {
    if |ls| == 1 then []
    else
      var k := Split(|ls|);
      if i < k then LeftSiblings(h, ls[..k], i)
      else LeftSiblings(h, ls[k..], i - k) + [Root(h, ls[..k])]
  }

  lemma BlockPrefix(ls: seq<Digest>, m: nat, j: nat, level: nat)
    requires Shl(j + 1, level) <= m <= |ls|
    ensures Block(ls[..m], j, level) == Block(ls, j, level)
  {
    ShlAdd(j, 1, level);
  }

  /** The extras of i depend on the first i leaves only. */
  lemma {:induction false} ExtrasPrefix(h: HashFunction, ls: seq<Digest>, m: nat, it: nat, level: nat)
    requires Shl(it, level) <= m <= |ls|
    ensures Extras(h, ls[..m], it, level) == Extras(h, ls, it, level)
    decreases it
  {
    if it != 0 {
      HalfBound(it, level);
      ExtrasPrefix(h, ls, m, it / 2, level + 1);
      if it % 2 == 1 {
        BlockLength(ls, it - 1, level);
        BlockPrefix(ls, m, it - 1, level);
      }
    }
  }

  lemma BlockShift(ls: seq<Digest>, k: nat, q: nat, j: nat, level: nat)
    requires k == Shl(q, level) && k <= |ls|
    requires Shl(j + 1, level) <= |ls| - k
    ensures Shl(q + j + 1, level) <= |ls|
    ensures Block(ls[k..], j, level) == Block(ls, q + j, level)
  {
    ShlAdd(q, j, level);
    ShlAdd(q, j + 1, level);
    ShlAdd(j, 1, level);
  }

  lemma LowBlockShift(h: HashFunction, ls: seq<Digest>, k: nat, q: nat, j: nat, level: nat)
    requires k == Shl(2 * q, level) && k <= |ls|
    requires Shl(j, level) <= |ls| - k
    ensures Shl(2 * q + j, level) <= |ls|
    ensures LowBlock(h, ls, 2 * q + j, level) == LowBlock(h, ls[k..], j, level)
  {
    ShlAdd(2 * q, j, level);
    if j % 2 == 1 {
      BlockShift(ls, k, 2 * q, j - 1, level);
    }
  }

  lemma ExtrasZero(h: HashFunction, ls: seq<Digest>, level: nat)
    ensures Shl(0, level) == 0
    ensures Extras(h, ls, 0, level) == []
  {
    ShlTimes(0, level);
  }

  lemma LeadingBitStep(h: HashFunction, ls: seq<Digest>, k: nat, q: nat, j: nat, level: nat)
    requires k == Shl(2 * q, level) && 1 <= k <= |ls| && 1 <= q
    requires Shl(j, level) <= |ls| - k && Shl(2 * q + j, level) <= |ls|
    requires Shl(q + j / 2, level + 1) <= |ls| && Shl(j / 2, level + 1) <= |ls| - k
    requires Extras(h, ls, q + j / 2, level + 1) == Extras(h, ls[k..], j / 2, level + 1) + [Root(h, ls[..k])]
    ensures Extras(h, ls, 2 * q + j, level) == Extras(h, ls[k..], j, level) + [Root(h, ls[..k])]
  {
    assert (2 * q + j) / 2 == q + j / 2;
    LowBlockShift(h, ls, k, q, j, level);
    if j == 0 {
      ExtrasZero(h, ls[k..], level);
      ExtrasZero(h, ls[k..], level + 1);
    }
  }

  lemma HalfOfBit(e: nat, level: nat)
    requires 1 <= e
    ensures Shl(Pow2(e), level) == Shl(Pow2(e - 1), level + 1)
  {
  }

  /** A leading bit adds one extra at the end, the block it stands for. */
  lemma {:induction false} ExtrasLeadingBit(h: HashFunction, ls: seq<Digest>, k: nat, e: nat, j: nat, level: nat)
    requires k == Shl(Pow2(e), level) && 1 <= k
    requires j < Pow2(e) && Shl(Pow2(e) + j, level) <= |ls|
    ensures k <= |ls| && Shl(j, level) <= |ls| - k
    ensures Extras(h, ls, Pow2(e) + j, level) == Extras(h, ls[k..], j, level) + [Root(h, ls[..k])]
    decreases e
  {
    hide Extras, Root, Shl;
    ShlAdd(Pow2(e), j, level);
    if e == 0 {
      LeadingBitBase(h, ls, k, level);
    } else {
      HalfBound(j, level);
      HalfBound(Pow2(e) + j, level);
      assert (Pow2(e) + j) / 2 == Pow2(e - 1) + j / 2;
      HalfOfBit(e, level);
      ExtrasLeadingBit(h, ls, k, e - 1, j / 2, level + 1);
      LeadingBitStep(h, ls, k, Pow2(e - 1), j, level);
    }
  }

  lemma LeadingBitBase(h: HashFunction, ls: seq<Digest>, k: nat, level: nat)
    requires k == Shl(1, level) && 1 <= k <= |ls|
    ensures Shl(0, level) == 0
    ensures Extras(h, ls, 1, level) == Extras(h, ls[k..], 0, level) + [Root(h, ls[..k])]
  {
    ExtrasZero(h, ls[k..], level);
    ExtrasZero(h, ls, level + 1);
    assert Block(ls, 0, level) == ls[..k];
  }

  /** Walking down to leaf i meets, as left siblings, exactly the blocks named by the bits of i. */
  lemma {:induction false} LeftSiblingsAreExtras(h: HashFunction, ls: seq<Digest>, i: nat)
    requires i < |ls|
    ensures LeftSiblings(h, ls, i) == Extras(h, ls, i, 0)
    decreases |ls|
  {
    hide Root, Pow2;
    if |ls| == 1 {
      ExtrasZero(h, ls, 0);
    } else {
      hide Extras;
      var k := Split(|ls|);
      if i < k {
        LeftSiblingsAreExtras(h, ls[..k], i);
        ExtrasPrefix(h, ls, k, i, 0);
      } else {
        LeftSiblingsAreExtras(h, ls[k..], i - k);
        ExtrasLeadingBit(h, ls, k, Level(|ls|) - 1, i - k, 0);
        assert Pow2(Level(|ls|) - 1) + (i - k) == i;
      }
    }
  }
}
