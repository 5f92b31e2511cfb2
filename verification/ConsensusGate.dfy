/** What handlers do to the view: each goes through the same gate, with at most one share of the replica's own. */
module ConsensusGate {
  import opened ConsensusBlocks
  import opened ConsensusReplica
  import opened ConsensusRun
  import opened ConsensusSteps

  /** The part of a replica's state that decides when its view ends. */
  datatype Gate = Gate(view: Positive, cert: nat, shares: nat, beacon: nat, counts: map<nat, nat>)

  function GateOf(l: Local): Gate {
    Gate(l.view, l.last.cert, l.last.shares, l.last.beacon, l.pvss.shares)
  }

  function Enter(g: Gate): Gate {
    if g.cert == g.view && (g.shares == g.view || g.beacon == g.view) then g.(view := g.view + 1) else g
  }

  /** A valid share of view w, of the n that are needed. */
  function AddShare(n: nat, g: Gate, w: nat): Gate {
    var got := Get(g.counts, w, 0);
    if w < g.view || got >= n then g
    else
      var h := g.(counts := g.counts[w := got + 1]);
      if got + 1 == n then Enter(h.(shares := g.view, beacon := g.view)) else h
  }

  /** The gate after an event; `own` says whether the replica has sent a share, ok whether it has not thrown. */
  function GateAfter(n: nat, g: Gate, e: Event, own: bool, ok: bool): Gate {
    match e
    case SharePart(_, w, valid) => if valid then AddShare(n, g, w) else g
    case Certificate(_, q) =>
      if q.view < g.view || g.cert >= g.view then g
      else
        var h := g.(cert := q.view);
        var k := if own then AddShare(n, h, g.view) else h;
        if ok then Enter(k) else k
    case _ => if own then AddShare(n, g, g.view) else g
  }

  /** The share that the replica would send now. */
  function OwnShare(c: Config, l: Local): Share {
    Share(l.view, Get(l.pvss.aggQueue, ProposerOf(c, l.view), NO_AGGREGATE))
  }

  /** From l to m the replica may have sent its share, and if so has counted it. */
  ghost predicate MaySend(c: Config, l: Local, m: Local) {
    (m.sent.shares == l.sent.shares && GateOf(m) == GateOf(l)) ||
    (m.sent.shares == l.sent.shares + [OwnShare(c, l)] && GateOf(m) == AddShare(c.nMajority, GateOf(l), l.view))
  }

  /** Nothing that the gate or the share depends on has changed. */
  ghost predicate SameGate(l: Local, m: Local) {
    GateOf(m) == GateOf(l) && m.sent.shares == l.sent.shares && m.pvss.aggQueue == l.pvss.aggQueue
  }

  lemma SendFrom(c: Config, l: Local, m: Local, k: Local, o: Local)
    requires SameGate(l, m) && MaySend(c, m, k) && GateOf(o) == GateOf(k) && o.sent.shares == k.sent.shares
    ensures MaySend(c, l, o)
  {
    hide ProposerOf, AddShare;
  }

  lemma TryEnterGate(c: Config, l: Local)
    ensures GateOf(TryEnterView(c, l)) == Enter(GateOf(l)) && TryEnterView(c, l).sent.shares == l.sent.shares
  {
    hide EnterView, UpdateAggQueue;
    var l1 := UpdateAggQueue(c, l, l.view);
    EnterViewGate(c, l, l1.(view := l1.view + 1));
  }

  lemma EnterViewGate(c: Config, l: Local, k: Local)
    ensures GateOf(EnterView(c, k)) == GateOf(k) && EnterView(c, k).sent.shares == k.sent.shares
    ensures GateOf(UpdateAggQueue(c, l, l.view)) == GateOf(l) &&
            UpdateAggQueue(c, l, l.view).sent.shares == l.sent.shares
  {
    hide SharingOf, ProposerOf;
  }

  lemma ShareGate(c: Config, l: Local, w: nat, valid: bool)
    ensures var m := OnReceiveShare(c, l, w, valid).l;
            GateOf(m) == (if valid then AddShare(c.nMajority, GateOf(l), w) else GateOf(l)) &&
            m.sent.shares == l.sent.shares
  {
    hide TryEnterView, Enter;
    var m := l.(pvss := l.pvss.(shares := l.pvss.shares[w := Get(l.pvss.shares, w, 0) + 1]));
    TryEnterGate(c, m.(last := m.last.(shares := l.view, beacon := l.view)));
  }

  lemma BroadcastGate(c: Config, l: Local)
    ensures var m := BroadcastShare(c, l).l;
            GateOf(m) == AddShare(c.nMajority, GateOf(l), l.view) && m.sent.shares == l.sent.shares + [OwnShare(c, l)]
  {
    hide OnReceiveShare, ProposerOf;
    ShareGate(c, l.(sent := l.sent.(shares := l.sent.shares + [OwnShare(c, l)])), l.view, true);
  }

  lemma CommitGate(l: Local, b: Block)
    ensures SameGate(l, CheckCommit(l, b).l)
  {
    hide Walk, Above;
  }

  lemma AckGate(c: Config, l: Local, voter: nat, b: Block, view: nat)
    ensures MaySend(c, l, OnReceiveAck(c, l, voter, b, view).l)
  {
    hide BroadcastShare, CheckCommit, ProposerOf, AddShare;
    var m := WithCount(l, b, voter);
    CommitGate(m, b);
    BroadcastGate(c, CheckCommit(m, b).l);
  }

  lemma CastAckGate(c: Config, l: Local, q: Qc)
    ensures MaySend(c, l, CastAck(c, l, q).l)
  {
    hide OnReceiveAck, ProposerOf, AddShare, MaySend;
    var m, o := WithAck(l, q), CastAck(c, l, q).l;
    AckGate(c, m, l.id, q.blk, l.view);
    SendFrom(c, l, m, o, o);
  }

  lemma VoteGate(c: Config, l: Local, voter: nat, b: Block, view: nat)
    ensures MaySend(c, l, OnReceiveVote(c, l, voter, b, view).l)
  {
    hide CastAck, ProposerOf, AddShare;
    var q, got := Qc(b, Get(l.marks.selfQc, b, l.view)), Get(l.marks.voted, b, {});
    var m := l.(marks := l.marks.(voted := l.marks.voted[b := got + {voter}], selfQc := l.marks.selfQc[b := q.view]));
    CastAckGate(c, UpdateHqc(m, q), q);
    var o := CastAck(c, UpdateHqc(m, q), q).l;
    SendFrom(c, l, UpdateHqc(m, q), o, o);
  }

  lemma CastVoteGate(c: Config, l: Local, b: Block, dest: nat)
    ensures MaySend(c, l, CastVote(c, l, b, dest).l)
  {
    hide OnReceiveVote, ProposerOf, AddShare;
    var m := WithVote(l, b, dest);
    VoteGate(c, m, l.id, b, l.view);
    var o := OnReceiveVote(c, m, l.id, b, l.view).l;
    SendFrom(c, l, m, o, o);
  }

  lemma ProposeGate(c: Config, l: Local, cmds: seq<nat>, parent: Block)
    ensures MaySend(c, l, OnPropose(c, l, cmds, parent).l)
  {
    hide CastVote, ProposerOf, AddShare, Height;
    var b := NewProposal(l, cmds, parent);
    var m := Hold(l, Qc(b, l.view)).(vheight := Height(b), finished := l.finished + {b});
    CastVoteGate(c, m, b, l.id);
    var o := CastVote(c, m, b, l.id).l;
    SendFrom(c, l, m, o, o.(last := o.last.(proposed := o.view)));
  }

  lemma ConsiderGate(l: Local, b: Block)
    ensures SameGate(l, Consider(l, b).0) && SameGate(l, Noted(Consider(l, b).0, b))
  {
    hide Walk, Height;
  }

  lemma ProposalGate(c: Config, l: Local, b: Block, proposer: nat, valid: bool)
    ensures MaySend(c, l, OnReceiveProposal(c, l, b, proposer, valid).l)
  {
    hide CastVote, ProposerOf, AddShare, Consider;
    ConsiderGate(l, b);
    var m := Noted(Consider(l, b).0, b);
    CastVoteGate(c, m, b, proposer);
    var o := CastVote(c, m, b, proposer).l;
    SendFrom(c, l, m, o, o);
  }

  /** A certificate that is taken up. */
  lemma CertificateGate(c: Config, l: Local, q: Qc)
    requires q.view >= l.view && l.last.cert < l.view
    ensures var o := OnReceiveQc(c, l, q);
            exists k: Local ::
              MaySend(c, l.(last := l.last.(cert := q.view)), k) && o.l.sent.shares == k.sent.shares &&
              GateOf(o.l) == if o.ok then Enter(GateOf(k)) else GateOf(k)
  {
    hide CastAck, ProposerOf, AddShare, Enter, TryEnterView, MaySend;
    var m := UpdateHqc(Hold(l, q).(last := l.last.(cert := q.view)), q);
    CastAckGate(c, m, q);
    var o := CastAck(c, m, q);
    TryEnterGate(c, o.l);
    SendFrom(c, l.(last := l.last.(cert := q.view)), m, o.l, o.l);
  }

  /** Whether the replica has sent a share. */
  predicate Own(l: Local, m: Local) {
    |m.sent.shares| > |l.sent.shares|
  }

  /** What any event does to the gate, and which share it can send. */
  ghost predicate Passes(c: Config, l: Local, e: Event, o: Outcome) {
    GateOf(o.l) == GateAfter(c.nMajority, GateOf(l), e, Own(l, o.l), o.ok) &&
    o.l.sent.shares == (if Own(l, o.l) then l.sent.shares + [OwnShare(c, l)] else l.sent.shares) &&
    (e.SharePart? ==> !Own(l, o.l)) &&
    (e.Certificate? && Own(l, o.l) ==> e.q.view >= l.view && l.last.cert < l.view)
  }

  lemma SendPasses(c: Config, l: Local, e: Event, o: Outcome)
    requires MaySend(c, l, o.l) && !e.SharePart? && !e.Certificate?
    ensures Passes(c, l, e, o)
  {
    hide ProposerOf, AddShare;
  }

  lemma CertificatePasses(c: Config, l: Local, e: Event)
    requires e.Certificate?
    ensures Passes(c, l, e, OnReceiveQc(c, l, e.q))
  {
    hide ProposerOf, AddShare, Enter;
    if e.q.view >= l.view && l.last.cert < l.view {
      CertificateGate(c, l, e.q);
      hide OnReceiveQc;
      var o := OnReceiveQc(c, l, e.q);
      var k :| MaySend(c, l.(last := l.last.(cert := e.q.view)), k) && o.l.sent.shares == k.sent.shares &&
               GateOf(o.l) == if o.ok then Enter(GateOf(k)) else GateOf(k);
    }
  }

  /** Every event goes through the gate. */
  lemma HandlePasses(c: Config, l: Local, e: Event)
    ensures Passes(c, l, e, Handle(c, l, e))
  {
    hide Passes, MaySend, OnPropose, OnReceiveProposal, OnReceiveVote, OnReceiveQc, OnReceiveAck, OnReceiveShare,
         ProposerOf, AddShare;
    var o := Handle(c, l, e);
    match e
    case Propose(_, cmds, parent) => ProposeGate(c, l, cmds, parent); SendPasses(c, l, e, o);
    case Proposal(_, blk, proposer, valid) => ProposalGate(c, l, blk, proposer, valid); SendPasses(c, l, e, o);
    case Vote(_, voter, blk, view) => VoteGate(c, l, voter, blk, view); SendPasses(c, l, e, o);
    case Certificate(_, q) => CertificatePasses(c, l, e);
    case Ack(_, voter, blk, view) => AckGate(c, l, voter, blk, view); SendPasses(c, l, e, o);
    case Status(_, from, view, q) => NothingSent(c, l, o.l); SendPasses(c, l, e, o);
    case SharePart(_, view, valid) => ShareGate(c, l, view, valid); SharePasses(c, l, e, o);
    case Transcript(_, forView, from, valid, agg) => NothingSent(c, l, o.l); SendPasses(c, l, e, o);
    case Assemble(_) => NothingSent(c, l, o.l); SendPasses(c, l, e, o);
  }

  lemma NothingSent(c: Config, l: Local, m: Local)
    requires GateOf(m) == GateOf(l) && m.sent.shares == l.sent.shares
    ensures MaySend(c, l, m)
  {
  }

  lemma SharePasses(c: Config, l: Local, e: Event, o: Outcome)
    requires e.SharePart? && o.l.sent.shares == l.sent.shares
    requires GateOf(o.l) == if e.valid then AddShare(c.nMajority, GateOf(l), e.view) else GateOf(l)
    ensures Passes(c, l, e, o)
  {
  }
}
