/** A group of replicas, what every reachable state of it satisfies, and why that is safe. */
module ConsensusSafety {
  import opened ConsensusBlocks
  import opened ConsensusReplica

  /** n replicas, of which those in byz may do anything; there are at most nFaulty of these. */
  datatype Group = Group(n: nat, nFaulty: nat, byz: set<nat>) {
    ghost predicate Good() {
      1 <= n && 2 * nFaulty <= n && byz <= Replicas(n) && |byz| <= nFaulty
    }

    ghost predicate Honest(r: nat) {
      r < n && r !in byz
    }

    function Config(): Config
      requires nFaulty < n
    {
      InitConfig(n, nFaulty)
    }

    ghost predicate Quorum(q: set<nat>)
      requires nFaulty < n
    {
      q <= Replicas(n) && |q| >= Config().nResponsive
    }
  }

  /** A certificate that somebody has put together, and those whose votes it is made of. */
  datatype Cert = Cert(qc: Qc, voters: set<nat>)

  /** The replicas, and all certificates in the order in which they came to be. */
  datatype World = World(locals: seq<Local>, certs: seq<Cert>)

  ghost predicate HasVote(l: Local, b: Block, view: nat) {
    exists k :: 0 <= k < |l.sent.votes| && l.sent.votes[k].blk == b && l.sent.votes[k].view == view
  }

  ghost predicate HasAck(l: Local, b: Block) {
    exists k :: 0 <= k < |l.sent.acks| && l.sent.acks[k].blk == b
  }

  /** q is one of the first n certificates. */
  ghost predicate Among(certs: seq<Cert>, n: int, q: Qc) {
    exists i :: 0 <= i < n <= |certs| && certs[i].qc == q
  }

  ghost predicate Exists(certs: seq<Cert>, q: Qc) {
    Among(certs, |certs|, q)
  }

  /** One vote a view, one vote a block, always for a block that extends the highest certified block known. */
  ghost predicate VotesOk(l: Local, certs: seq<Cert>) {
    (forall k :: 0 <= k < |l.sent.votes| ==>
      var v := l.sent.votes[k];
      1 <= v.view <= l.view && v.blk in l.finished && Exists(certs, v.held) && Extends(v.blk, v.held.blk)) &&
    (forall j, k :: 0 <= j < |l.sent.votes| && 0 <= k < |l.sent.votes| ==>
      l.sent.votes[j].view == l.sent.votes[k].view || l.sent.votes[j].blk == l.sent.votes[k].blk ==>
        l.sent.votes[j] == l.sent.votes[k])
  }

  /** An acknowledged certificate was locked on: every vote in a later view was cast with it or a higher one. */
  ghost predicate Locked(l: Local, a: AckCast) {
    a.held.view <= l.hqc.view &&
    forall k :: 0 <= k < |l.sent.votes| && l.sent.votes[k].view > a.held.view ==>
      l.sent.votes[k].held.view >= a.held.view
  }

  ghost predicate AcksOk(l: Local, certs: seq<Cert>) {
    forall k :: 0 <= k < |l.sent.acks| ==>
      l.sent.acks[k].held.blk == l.sent.acks[k].blk && Exists(certs, l.sent.acks[k].held) && Locked(l, l.sent.acks[k])
  }

  /** Every ack counted for an honest replica was cast by it. */
  ghost predicate CountsOk(g: Group, w: World, l: Local) {
    forall b, x :: b in l.marks.acked && x in l.marks.acked[b] ==> AckedBy(g, w, b, x)
  }

  ghost predicate AckedBy(g: Group, w: World, b: Block, x: nat) {
    x < g.n && (x in g.byz || (x < |w.locals| && HasAck(w.locals[x], b)))
  }

  ghost predicate AckQuorum(g: Group, w: World, b: Block, q: set<nat>)
    requires g.nFaulty < g.n
  {
    g.Quorum(q) && forall x :: x in q ==> AckedBy(g, w, b, x)
  }

  /** A quorum has acknowledged b (or it is the first block). */
  ghost predicate Settled(g: Group, w: World, b: Block)
    requires g.nFaulty < g.n
  {
    b == Genesis || exists q :: AckQuorum(g, w, b, q)
  }

  ghost predicate BelowSettled(g: Group, w: World, d: Block)
    requires g.nFaulty < g.n
  {
    exists b :: Settled(g, w, b) && Extends(b, d)
  }

  /** The decided blocks are closed under parents and lie below settled blocks. */
  ghost predicate DecidedOk(g: Group, w: World, l: Local)
    requires g.nFaulty < g.n
  {
    Genesis in l.marks.decided && l.bExec in l.marks.decided && Settled(g, w, l.bExec) &&
    (forall d :: d in l.marks.decided && d.Block? ==> d.parent in l.marks.decided) &&
    (forall d :: d in l.marks.decided ==> BelowSettled(g, w, d))
  }

  ghost predicate LocalOk(g: Group, w: World, r: nat)
    requires g.nFaulty < g.n && r < |w.locals|
  {
    var l := w.locals[r];
    l.id == r && Exists(w.certs, l.hqc) && VotesOk(l, w.certs) && AcksOk(l, w.certs) && CountsOk(g, w, l) &&
    DecidedOk(g, w, l)
  }

  /** The i-th certificate is made of votes that were cast with earlier certificates. */
  ghost predicate CastBefore(l: Local, certs: seq<Cert>, i: nat)
    requires i < |certs|
  {
    exists k :: 0 <= k < |l.sent.votes| && l.sent.votes[k].blk == certs[i].qc.blk &&
                l.sent.votes[k].view == certs[i].qc.view && Among(certs, i, l.sent.votes[k].held)
  }

  ghost predicate CertOk(g: Group, w: World, i: nat)
    requires g.nFaulty < g.n && i < |w.certs| && |w.locals| == g.n
  {
    g.Quorum(w.certs[i].voters) &&
    forall x :: x in w.certs[i].voters && g.Honest(x) ==> CastBefore(w.locals[x], w.certs, i)
  }

  ghost predicate Inv(g: Group, w: World) {
    g.Good() && |w.locals| == g.n && |w.certs| >= 1 && w.certs[0].qc == Qc(Genesis, 0) &&
    (forall i :: 1 <= i < |w.certs| ==> CertOk(g, w, i)) &&
    (forall r :: 0 <= r < |w.locals| && g.Honest(r) ==> LocalOk(g, w, r))
  }

  /** A replica that is in both quorums and follows the protocol. */
  lemma SharedVoter(g: Group, p: set<nat>, q: set<nat>) returns (x: nat)
    requires g.Good() && g.Quorum(p) && g.Quorum(q)
    ensures x in p && x in q && g.Honest(x)
  {
    ResponsiveQuorums(g.n, g.nFaulty);
    x := SharedHonest(g.n, g.nFaulty, g.Config().nResponsive, g.byz, p, q);
  }

  lemma VoteBehind(g: Group, w: World, i: nat, x: nat) returns (k: nat)
    requires Inv(g, w) && 1 <= i < |w.certs| && x in w.certs[i].voters && g.Honest(x)
    ensures k < |w.locals[x].sent.votes|
    ensures w.locals[x].sent.votes[k].blk == w.certs[i].qc.blk && w.locals[x].sent.votes[k].view == w.certs[i].qc.view
    ensures Among(w.certs, i, w.locals[x].sent.votes[k].held)
    ensures LocalOk(g, w, x)
  {
    assert CertOk(g, w, i);
    assert CastBefore(w.locals[x], w.certs, i);
    k :| 0 <= k < |w.locals[x].sent.votes| && w.locals[x].sent.votes[k].blk == w.certs[i].qc.blk &&
         w.locals[x].sent.votes[k].view == w.certs[i].qc.view && Among(w.certs, i, w.locals[x].sent.votes[k].held);
  }

  /** Certificates of the same view, or for the same block other than the first, are the same certificate. */
  lemma OneCertificate(g: Group, w: World, i: nat, j: nat)
    requires Inv(g, w) && i < |w.certs| && j < |w.certs|
    requires w.certs[i].qc.view == w.certs[j].qc.view ||
             (w.certs[i].qc.blk == w.certs[j].qc.blk && w.certs[i].qc.blk != Genesis)
    ensures w.certs[i].qc == w.certs[j].qc
  {
    hide AcksOk, CountsOk, DecidedOk, Extends;
    if 1 <= i && 1 <= j {
      assert CertOk(g, w, i) && CertOk(g, w, j);
      var x := SharedVoter(g, w.certs[i].voters, w.certs[j].voters);
      var k := VoteBehind(g, w, i, x);
      var m := VoteBehind(g, w, j, x);
    } else if i != j {
      var m := if 1 <= i then i else j;
      assert CertOk(g, w, m);
      var x := SharedVoter(g, w.certs[m].voters, w.certs[m].voters);
      var k := VoteBehind(g, w, m, x);
    }
  }

  /** When a quorum has acknowledged b, certified in view v, every block certified in a later view extends b. */
  lemma {:induction false} LaterCertificatesExtend(g: Group, w: World, b: Block, q: set<nat>, v: nat, at: nat, i: nat)
    requires Inv(g, w) && AckQuorum(g, w, b, q) && b != Genesis
    requires at < |w.certs| && w.certs[at].qc == Qc(b, v)
    requires i < |w.certs| && w.certs[i].qc.view > v
    ensures Extends(w.certs[i].qc.blk, b)
    decreases i
  {
    hide CountsOk, DecidedOk, Extends;
    assert CertOk(g, w, i);
    var x := SharedVoter(g, q, w.certs[i].voters);
    assert AckedBy(g, w, b, x);
    var l := w.locals[x];
    var k := VoteBehind(g, w, i, x);
    var vote := l.sent.votes[k];
    var a :| 0 <= a < |l.sent.acks| && l.sent.acks[a].blk == b;
    var lock := l.sent.acks[a].held;
    var n :| 0 <= n < |w.certs| && w.certs[n].qc == lock;
    OneCertificate(g, w, n, at);
    assert Locked(l, l.sent.acks[a]);
    var j :| 0 <= j < i && w.certs[j].qc == vote.held;
    if vote.held.view > v {
      LaterCertificatesExtend(g, w, b, q, v, at, j);
    } else {
      OneCertificate(g, w, j, at);
    }
    ExtendsTransitive(vote.blk, vote.held.blk, b);
  }

  /** The certificate behind an acknowledged block. */
  lemma CertificateOf(g: Group, w: World, b: Block, q: set<nat>) returns (at: nat)
    requires Inv(g, w) && AckQuorum(g, w, b, q)
    ensures at < |w.certs| && w.certs[at].qc.blk == b
  {
    hide CountsOk, DecidedOk, Extends, VotesOk;
    var x := SharedVoter(g, q, q);
    assert AckedBy(g, w, b, x);
    var l := w.locals[x];
    var a :| 0 <= a < |l.sent.acks| && l.sent.acks[a].blk == b;
    assert Exists(w.certs, l.sent.acks[a].held);
    at :| 0 <= at < |w.certs| && w.certs[at].qc == l.sent.acks[a].held;
  }

  /** Settled blocks lie on one chain. */
  lemma SettledOneChain(g: Group, w: World, a: Block, b: Block)
    requires Inv(g, w) && Settled(g, w, a) && Settled(g, w, b)
    ensures OneChain(a, b)
  {
    hide AckQuorum, LocalOk, CertOk;
    if a == Genesis {
      ExtendsGenesis(b);
    } else if b == Genesis {
      ExtendsGenesis(a);
    } else {
      var p :| AckQuorum(g, w, a, p);
      var q :| AckQuorum(g, w, b, q);
      var i := CertificateOf(g, w, a, p);
      var j := CertificateOf(g, w, b, q);
      if w.certs[i].qc.view < w.certs[j].qc.view {
        LaterCertificatesExtend(g, w, a, p, w.certs[i].qc.view, i, j);
      } else if w.certs[j].qc.view < w.certs[i].qc.view {
        LaterCertificatesExtend(g, w, b, q, w.certs[j].qc.view, j, i);
      } else {
        OneCertificate(g, w, i, j);
      }
    }
  }

  /** Whatever two honest replicas have decided lies on one chain. */
  lemma DecidedOneChain(g: Group, w: World, r: nat, d: Block, s: nat, e: Block)
    requires Inv(g, w) && g.Honest(r) && g.Honest(s)
    requires d in w.locals[r].marks.decided && e in w.locals[s].marks.decided
    ensures OneChain(d, e)
  {
    hide VotesOk, AcksOk, CountsOk, Extends;
    assert LocalOk(g, w, r) && LocalOk(g, w, s);
    assert BelowSettled(g, w, d) && BelowSettled(g, w, e);
    var a :| Settled(g, w, a) && Extends(a, d);
    var b :| Settled(g, w, b) && Extends(b, e);
    SettledOneChain(g, w, a, b);
    if Extends(a, b) {
      ExtendsTransitive(a, b, e);
      BelowOneChain(a, d, e);
    } else {
      ExtendsTransitive(b, a, d);
      BelowOneChain(b, d, e);
    }
  }
}
