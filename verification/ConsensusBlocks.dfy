/** Blocks, the chains they form, and quorums of replicas. */
module ConsensusBlocks {
  import opened Wrappers

  /** An aggregated PVSS transcript, as bytes. */
  datatype Aggregate = Aggregate(bytes: seq<nat>)

  const NO_AGGREGATE: Aggregate := Aggregate([])

  /** A certificate: the block it is for and the view its votes were cast in. */
  datatype Qc = Qc(blk: Block, view: nat)

  /** A block names its parent and the highest certificate its proposer knew; two blocks with the same contents
      have the same hash and are the same block. */
  datatype Block =
    | Genesis
    | Block(parent: Block, qc: Option<Qc>, cmds: seq<nat>, extra: Aggregate)

  function Height(b: Block): nat {
    match b
    case Genesis => 0
    case Block(parent, _, _, _) => Height(parent) + 1
  }

  /** a is b or one of its descendants. */
  predicate Extends(a: Block, b: Block)
    decreases a
  {
    a == b || (a.Block? && Extends(a.parent, b))
  }

  /** The block reached from b by following parents down to height h. */
  function Walk(b: Block, h: nat): Block
    decreases b
  {
    if Height(b) <= h then b else Walk(b.parent, h)
  }

  /** The blocks above height h on the chain up to b, lowest first. */
  function Above(b: Block, h: nat): seq<Block>
    decreases b
  {
    if Height(b) <= h then [] else Above(b.parent, h) + [b]
  }

  lemma {:induction false} ExtendsIsHigher(a: Block, b: Block)
    requires Extends(a, b)
    ensures Height(b) <= Height(a) && (Height(a) == Height(b) ==> a == b)
    decreases a
  {
    if a != b {
      ExtendsIsHigher(a.parent, b);
    }
  }

  /** Walking down to the height of another block tells whether that block is on the chain. */
  lemma {:induction false} WalkFinds(a: Block, b: Block)
    ensures Walk(a, Height(b)) == b <==> Extends(a, b)
    decreases a
  {
    if Height(a) <= Height(b) {
      if Extends(a, b) {
        ExtendsIsHigher(a, b);
      }
    } else {
      WalkFinds(a.parent, b);
    }
  }

  lemma {:induction false} ExtendsTransitive(a: Block, b: Block, c: Block)
    requires Extends(a, b) && Extends(b, c)
    ensures Extends(a, c)
    decreases a
  {
    if a != b {
      ExtendsTransitive(a.parent, b, c);
    }
  }

  lemma {:induction false} ExtendsGenesis(a: Block)
    ensures Extends(a, Genesis)
    decreases a
  {
    if a.Block? {
      ExtendsGenesis(a.parent);
    }
  }

  /** One of two blocks is on the chain of the other. */
  predicate OneChain(a: Block, b: Block) {
    Extends(a, b) || Extends(b, a)
  }

  /** Two blocks below the same block are on one chain. */
  lemma {:induction false} BelowOneChain(top: Block, a: Block, b: Block)
    requires Extends(top, a) && Extends(top, b)
    ensures OneChain(a, b)
    decreases top
  {
    if top != a && top != b {
      BelowOneChain(top.parent, a, b);
    }
  }

  /** A chain passes through every block on it. */
  lemma {:induction false} AboveSplits(a: Block, b: Block, h: nat)
    requires Extends(a, b) && h <= Height(b)
    ensures Above(a, h) == Above(b, h) + Above(a, Height(b))
    decreases a
  {
    ExtendsIsHigher(a, b);
    if a != b {
      ExtendsIsHigher(a.parent, b);
      AboveSplits(a.parent, b, h);
    }
  }

  lemma {:induction false} AboveIsChain(a: Block, h: nat, k: nat)
    requires k < |Above(a, h)|
    ensures Extends(a, Above(a, h)[k]) && Height(Above(a, h)[k]) == h + k + 1
    ensures Above(a, h)[k].Block? && (0 < k ==> Above(a, h)[k].parent == Above(a, h)[k - 1])
    ensures k == 0 ==> Above(a, h)[k].parent == Walk(a, h)
    ensures |Above(a, h)| == Height(a) - h
    decreases a
  {
    if Height(a) <= h + 1 {
      assert Above(a.parent, h) == [];
    } else {
      AboveIsChain(a.parent, h, if k == |Above(a, h)| - 1 then k - 1 else k);
    }
  }

  type Positive = x: nat | 1 <= x witness 1

  /** What HotStuffCore knows about the group it runs in. */
  datatype Config = Config(nReplicas: Positive, nMajority: Positive, nResponsive: nat)

  function ProposerOf(c: Config, view: Positive): nat {
    (view - 1) % c.nReplicas
  }

  function InitConfig(n: nat, nFaulty: nat): Config
    requires nFaulty < n
  {
    Config(n, n - nFaulty, 3 * n / 4 + 1)
  }

  /** The replicas from number lo up to number hi, exclusive. */
  function Range(lo: nat, hi: nat): (s: set<nat>)
    ensures forall r :: r in s <==> lo <= r < hi
    ensures |s| == if lo <= hi then hi - lo else 0
  {
    if hi <= lo then {} else Range(lo, hi - 1) + {hi - 1}
  }

  function Replicas(n: nat): set<nat> {
    Range(0, n)
  }

  lemma {:induction false} SubsetCount<T>(a: set<T>, b: set<T>)
    requires a <= b
    ensures |a| <= |b|
  {
    if a != {} {
      var x :| x in a;
      SubsetCount(a - {x}, b - {x});
    }
  }

  /** Any two sets of k replicas share one outside every set of f replicas, if and only if k is large enough. */
  predicate AlwaysShareHonest(n: nat, f: nat, k: nat) {
    2 * k > n + f
  }

  lemma SharedHonest(n: nat, f: nat, k: nat, faulty: set<nat>, a: set<nat>, b: set<nat>) returns (x: nat)
    requires a <= Replicas(n) && b <= Replicas(n) && k <= |a| && k <= |b| && |faulty| <= f
    requires AlwaysShareHonest(n, f, k)
    ensures x in a && x in b && x !in faulty && x < n
  {
    SubsetCount(a + b, Replicas(n));
    if a * b <= faulty {
      SubsetCount(a * b, faulty);
    }
    x :| x in a * b && x !in faulty;
  }

  /** When k is too small there are two sets of k replicas that share only faulty ones. */
  lemma TooFewShare(n: nat, f: nat, k: nat) returns (faulty: set<nat>, a: set<nat>, b: set<nat>)
    requires k <= n && f <= k && !AlwaysShareHonest(n, f, k)
    ensures a <= Replicas(n) && b <= Replicas(n) && |a| == |b| == k && |faulty| == f && a * b <= faulty
  {
    faulty, a, b := Replicas(f), Replicas(k), Replicas(f) + Range(k, 2 * k - f);
    assert Replicas(f) !! Range(k, 2 * k - f);
  }

  /** nresponsive votes are enough for up to half of the replicas being faulty. */
  lemma ResponsiveQuorums(n: nat, f: nat)
    requires 1 <= n && 2 * f <= n
    ensures AlwaysShareHonest(n, f, InitConfig(n, f).nResponsive) && f < InitConfig(n, f).nResponsive <= n
  {
  }

  /** The nmajority signatures that the certificate verifier asks for are enough only below a third. */
  lemma MajorityQuorums(n: nat, f: nat)
    requires f < n
    ensures AlwaysShareHonest(n, f, InitConfig(n, f).nMajority) <==> 3 * f < n
  {
  }
}
