/** When a replica sends its share: with the commit that a quorum of acks brings. */
module ConsensusShares {
  import opened ConsensusBlocks
  import opened ConsensusGate
  import opened ConsensusReplica
  import opened ConsensusRun
  import opened ConsensusSteps

  function Acks(l: Local, b: Block): nat {
    |Get(l.marks.acked, b, {})|
  }

  ghost predicate Reaches(c: Config, l: Local, m: Local, b: Block) {
    Acks(l, b) < c.nResponsive <= Acks(m, b)
  }

  /** From l to m the acks for some block have become a quorum. */
  ghost predicate QuorumReached(c: Config, l: Local, m: Local) {
    exists b :: Reaches(c, l, m, b)
  }

  /** One share is sent if a quorum is reached and the handler has not thrown, and none if not. */
  ghost predicate SendsThen(c: Config, l: Local, o: Outcome) {
    o.l.sent.shares == if o.ok && QuorumReached(c, l, o.l) then l.sent.shares + [OwnShare(c, l)] else l.sent.shares
  }

  lemma SendsFrom(c: Config, l: Local, m: Local, o: Outcome, p: Outcome)
    requires SendsThen(c, m, o) && m.marks.acked == l.marks.acked && m.sent.shares == l.sent.shares
    requires m.view == l.view && m.pvss.aggQueue == l.pvss.aggQueue
    requires p.ok == o.ok && p.l.marks.acked == o.l.marks.acked && p.l.sent.shares == o.l.sent.shares
    ensures SendsThen(c, l, p)
  {
    hide ProposerOf;
    forall b
      ensures Reaches(c, l, p.l, b) <==> Reaches(c, m, o.l, b)
    {
    }
  }

  lemma SendsNone(c: Config, l: Local, o: Outcome)
    requires o.l.marks.acked == l.marks.acked && o.l.sent.shares == l.sent.shares
    ensures SendsThen(c, l, o)
  {
  }

  lemma AckCounted(l: Local, b: Block, voter: nat)
    requires voter !in Get(l.marks.acked, b, {})
    ensures forall x :: Acks(WithCount(l, b, voter), x) == Acks(l, x) + if x == b then 1 else 0
  {
  }

  lemma TryEnterAcked(c: Config, l: Local)
    ensures TryEnterView(c, l).marks == l.marks && TryEnterView(c, l).sent.shares == l.sent.shares
  {
    hide SharingOf, ProposerOf;
  }

  lemma BroadcastAcked(c: Config, l: Local)
    ensures BroadcastShare(c, l).l.marks == l.marks
  {
    hide ProposerOf, TryEnterView;
    var m := l.(sent := l.sent.(shares := l.sent.shares + [OwnShare(c, l)]));
    var n := m.(pvss := m.pvss.(shares := m.pvss.shares[m.view := Get(m.pvss.shares, m.view, 0) + 1]));
    TryEnterAcked(c, n.(last := n.last.(shares := m.view, beacon := m.view)));
  }

  lemma CommitAcked(l: Local, b: Block)
    ensures var m := CheckCommit(l, b).l; m.marks.acked == l.marks.acked && SameGate(l, m)
  {
    hide Walk, Above;
  }

  lemma AckSends(c: Config, l: Local, voter: nat, b: Block, view: nat)
    ensures SendsThen(c, l, OnReceiveAck(c, l, voter, b, view))
  {
    hide BroadcastShare, CheckCommit, ProposerOf;
    var got, m := Get(l.marks.acked, b, {}), WithCount(l, b, voter);
    var o := OnReceiveAck(c, l, voter, b, view);
    if view < l.view || |got| >= c.nResponsive || voter in got {
      SendsNone(c, l, o);
    } else {
      AckCounted(l, b, voter);
      CommitAcked(m, b);
      BroadcastAcked(c, CheckCommit(m, b).l);
      BroadcastQuiet(c, CheckCommit(m, b).l);
      BroadcastGate(c, CheckCommit(m, b).l);
      assert o.l.marks.acked == m.marks.acked;
      if |got| + 1 == c.nResponsive {
        assert Reaches(c, l, o.l, b);
      } else {
        forall x
          ensures !Reaches(c, l, o.l, x)
        {
          assert Acks(o.l, x) == Acks(m, x);
        }
      }
    }
  }

  lemma CastAckSends(c: Config, l: Local, q: Qc)
    ensures SendsThen(c, l, CastAck(c, l, q))
  {
    hide OnReceiveAck, SendsThen;
    var o := CastAck(c, l, q);
    AckSends(c, WithAck(l, q), l.id, q.blk, l.view);
    SendsFrom(c, l, WithAck(l, q), o, o);
  }

  lemma CertificateSends(c: Config, l: Local, q: Qc)
    ensures SendsThen(c, l, OnReceiveQc(c, l, q))
  {
    hide CastAck, SendsThen, TryEnterView;
    var m := UpdateHqc(Hold(l, q).(last := l.last.(cert := q.view)), q);
    var o, p := CastAck(c, m, q), OnReceiveQc(c, l, q);
    CastAckSends(c, m, q);
    TryEnterAcked(c, o.l);
    if q.view < l.view || l.last.cert >= l.view {
      SendsNone(c, l, p);
    } else {
      SendsFrom(c, l, m, o, p);
    }
  }

  lemma VoteSends(c: Config, l: Local, voter: nat, b: Block, view: nat)
    ensures SendsThen(c, l, OnReceiveVote(c, l, voter, b, view))
  {
    hide CastAck, SendsThen;
    var q, got := Qc(b, Get(l.marks.selfQc, b, l.view)), Get(l.marks.voted, b, {});
    var m := l.(marks := l.marks.(voted := l.marks.voted[b := got + {voter}], selfQc := l.marks.selfQc[b := q.view]));
    CastAckSends(c, UpdateHqc(m, q), q);
    var o := OnReceiveVote(c, l, voter, b, view);
    if view < l.view || |got| >= c.nResponsive || voter in got || |got| + 1 != c.nResponsive {
      SendsNone(c, l, o);
    } else {
      SendsFrom(c, l, UpdateHqc(m, q), o, o);
    }
  }

  lemma CastVoteSends(c: Config, l: Local, b: Block, dest: nat)
    ensures SendsThen(c, l, CastVote(c, l, b, dest))
  {
    hide OnReceiveVote, SendsThen;
    var m, o := WithVote(l, b, dest), CastVote(c, l, b, dest);
    VoteSends(c, m, l.id, b, l.view);
    if dest == l.id {
      SendsFrom(c, l, m, o, o);
    } else {
      SendsNone(c, l, o);
    }
  }

  lemma ProposeSends(c: Config, l: Local, cmds: seq<nat>, parent: Block)
    ensures SendsThen(c, l, OnPropose(c, l, cmds, parent))
  {
    hide CastVote, SendsThen, Height;
    var b, p := NewProposal(l, cmds, parent), OnPropose(c, l, cmds, parent);
    var m := Hold(l, Qc(b, l.view)).(vheight := Height(b), finished := l.finished + {b});
    CastVoteSends(c, m, b, l.id);
    if Height(b) <= l.vheight {
      SendsNone(c, l, p);
    } else {
      SendsFrom(c, l, m, CastVote(c, m, b, l.id), p);
    }
  }

  lemma ConsiderAcked(l: Local, b: Block)
    ensures var (m, _) := Consider(l, b); m.marks == l.marks && SameGate(l, m) && SameGate(l, Noted(m, b))
  {
    hide Walk, Height;
  }

  lemma ProposalSends(c: Config, l: Local, b: Block, proposer: nat, valid: bool)
    ensures SendsThen(c, l, OnReceiveProposal(c, l, b, proposer, valid))
  {
    hide CastVote, SendsThen, Consider;
    ConsiderAcked(l, b);
    var (m, opinion) := Consider(l, b);
    var o := OnReceiveProposal(c, l, b, proposer, valid);
    CastVoteSends(c, Noted(m, b), b, proposer);
    if b in l.finished || !valid || !opinion {
      SendsNone(c, l, o);
    } else {
      SendsFrom(c, l, Noted(m, b), o, o);
    }
  }

  /** A replica sends its share exactly with an event that makes the acks for a block a quorum and whose commit does not
      fail; it is one share, of the view it is in. */
  lemma SendsShare(c: Config, l: Local, e: Event)
    ensures SendsThen(c, l, Handle(c, l, e))
  {
    hide SendsThen, OnPropose, OnReceiveProposal, OnReceiveVote, OnReceiveQc, OnReceiveAck, OnReceiveShare;
    var o := Handle(c, l, e);
    match e
    case Propose(_, cmds, parent) => ProposeSends(c, l, cmds, parent);
    case Proposal(_, blk, proposer, valid) => ProposalSends(c, l, blk, proposer, valid);
    case Vote(_, voter, blk, view) => VoteSends(c, l, voter, blk, view);
    case Certificate(_, q) => CertificateSends(c, l, q);
    case Ack(_, voter, blk, view) => AckSends(c, l, voter, blk, view);
    case Status(_, from, view, q) => SendsNone(c, l, o);
    case SharePart(_, view, valid) => ShareAcked(c, l, view, valid); ShareGate(c, l, view, valid); SendsNone(c, l, o);
    case Transcript(_, forView, from, valid, agg) => SendsNone(c, l, o);
    case Assemble(_) => SendsNone(c, l, o);
  }

  lemma ShareAcked(c: Config, l: Local, view: nat, valid: bool)
    ensures OnReceiveShare(c, l, view, valid).l.marks == l.marks
  {
    hide TryEnterView;
    var m := l.(pvss := l.pvss.(shares := l.pvss.shares[view := Get(l.pvss.shares, view, 0) + 1]));
    TryEnterAcked(c, m.(last := m.last.(shares := l.view, beacon := l.view)));
  }
}
