/** Runs of a group of replicas, under the assumptions the protocol makes, are safe. */
module ConsensusRun {
  import opened ConsensusBlocks
  import opened ConsensusReplica
  import opened ConsensusSafety
  import opened ConsensusSteps
  import opened Wrappers

  /** A message or request handled by honest replica r, or a certificate put together from votes by anybody. */
  datatype Event =
    | Propose(r: nat, cmds: seq<nat>, parent: Block)
    | Proposal(r: nat, blk: Block, proposer: nat, valid: bool)
    | Vote(r: nat, voter: nat, blk: Block, view: nat)
    | Certificate(r: nat, q: Qc)
    | Ack(r: nat, voter: nat, blk: Block, view: nat)
    | Status(r: nat, from: nat, view: nat, q: Qc)
    | SharePart(r: nat, view: nat, valid: bool)
    | Transcript(r: nat, forView: nat, from: nat, valid: bool, agg: Aggregate)
    | Assemble(cert: Cert)

  function Handle(c: Config, l: Local, e: Event): Outcome {
    match e
    case Propose(_, cmds, parent) => OnPropose(c, l, cmds, parent)
    case Proposal(_, blk, proposer, valid) => OnReceiveProposal(c, l, blk, proposer, valid)
    case Vote(_, voter, blk, view) => OnReceiveVote(c, l, voter, blk, view)
    case Certificate(_, q) => OnReceiveQc(c, l, q)
    case Ack(_, voter, blk, view) => OnReceiveAck(c, l, voter, blk, view)
    case Status(_, from, view, q) => Outcome(OnReceiveStatus(c, l, from, view, q), true)
    case SharePart(_, view, valid) => OnReceiveShare(c, l, view, valid)
    case Transcript(_, forView, from, valid, agg) => OnReceiveTranscript(c, l, forView, from, valid, agg)
    case Assemble(_) => Outcome(l, true)
  }

  /** The certificate that a vote completes at the replica that collects it. */
  function Completes(c: Config, l: Local, voter: nat, blk: Block, view: nat): Option<Cert> {
    var got := Get(l.marks.voted, blk, {});
    if view < l.view || |got| >= c.nResponsive || voter in got || |got| + 1 != c.nResponsive then None
    else Some(Cert(Qc(blk, Get(l.marks.selfQc, blk, l.view)), got + {voter}))
  }

  /** The state in which a handler casts a vote, the block, and where the vote goes. */
  datatype Ballot = Ballot(l: Local, blk: Block, dest: nat)

  function BallotOf(l: Local, e: Event): Option<Ballot> {
    match e
    case Propose(_, cmds, parent) =>
      var blk := NewProposal(l, cmds, parent);
      if Height(blk) <= l.vheight then None
      else Some(Ballot(Hold(l, Qc(blk, l.view)).(vheight := Height(blk), finished := l.finished + {blk}), blk, l.id))
    case Proposal(_, blk, proposer, valid) =>
      var (m, opinion) := Consider(l, blk);
      if blk in l.finished || !valid || !opinion then None else Some(Ballot(Noted(m, blk), blk, proposer))
    case _ => None
  }

  /** The certificate, if any, that the handler of an event completes. */
  function Collects(c: Config, l: Local, e: Event): Option<Cert> {
    match e
    case Vote(_, voter, blk, view) => Completes(c, l, voter, blk, view)
    case Assemble(cert) => Some(cert)
    case _ => CollectsOwn(c, l, BallotOf(l, e))
  }

  /** A replica that is to collect the votes itself counts its own one at once. */
  function CollectsOwn(c: Config, l: Local, b: Option<Ballot>): Option<Cert> {
    match b
    case Some(Ballot(m, blk, dest)) =>
      if dest == l.id then Completes(c, WithVote(m, blk, l.id), l.id, blk, m.view) else None
    case None => None
  }

  function Certified(w: World, cert: Option<Cert>): World {
    if cert.Some? then AddCert(w, cert.value) else w
  }

  function Next(g: Group, w: World, e: Event): World
    requires g.nFaulty < g.n && (e.Assemble? || e.r < |w.locals|)
  {
    if e.Assemble? then AddCert(w, e.cert)
    else
      var l := w.locals[e.r];
      Put(Certified(w, Collects(g.Config(), l, e)), e.r, Handle(g.Config(), l, e).l)
  }

  /** A certificate exists only if a full quorum of replicas voted for its block in its view. */
  ghost predicate Genuine(g: Group, w: World, cert: Cert)
    requires g.nFaulty < g.n
  {
    g.Quorum(cert.voters) &&
    forall x :: x in cert.voters && g.Honest(x) ==> x < |w.locals| && HasVote(w.locals[x], cert.qc.blk, cert.qc.view)
  }

  ghost predicate NoVoteYet(l: Local) {
    forall k :: 0 <= k < |l.sent.votes| ==> l.sent.votes[k].view != l.view
  }

  ghost predicate FirstInView(b: Option<Ballot>) {
    b.Some? ==> NoVoteYet(b.value.l)
  }

  ghost predicate Backed(g: Group, w: World, cert: Option<Cert>, view: nat)
    requires g.nFaulty < g.n
  {
    cert.Some? ==> Genuine(g, w, cert.value) && cert.value.qc.view == view
  }

  /** The assumptions: messages of honest replicas are genuine, certificates are backed by full quorums of votes
      for their view, an honest replica casts one vote per view, and a proposer proposes a new block on top of the
      highest certified block it knows. */
  ghost predicate Allowed(g: Group, w: World, e: Event)
    requires g.nFaulty < g.n
  {
    match e
    case Assemble(cert) => Genuine(g, w, cert)
    case _ =>
      e.r < |w.locals| && g.Honest(e.r) &&
      var l := w.locals[e.r];
      var b := BallotOf(l, e);
      var cert := Collects(g.Config(), l, e);
      FirstInView(b) && Backed(g, Voted(w, e, b), cert, ViewOf(l, e, b)) &&
      match e
      case Propose(_, cmds, parent) => Extends(parent, l.hqc.blk) && NewProposal(l, cmds, parent) !in l.finished
      case Proposal(_, blk, _, _) => blk.Block? && blk.qc.Some? ==> Exists(w.certs, blk.qc.value)
      case Certificate(_, q) => Exists(w.certs, q)
      case Ack(_, voter, blk, _) => AckedBy(g, w, blk, voter)
      case Status(_, _, _, q) => Exists(w.certs, q)
      case _ => true
  }

  /** The group once the handler of e has cast its vote. */
  function Voted(w: World, e: Event, b: Option<Ballot>): World
    requires e.Assemble? || e.r < |w.locals|
  {
    if !e.Assemble? && b.Some? then Put(w, e.r, WithVote(b.value.l, b.value.blk, b.value.dest)) else w
  }

  /** The view of the vote that completes a certificate. */
  function ViewOf(l: Local, e: Event, b: Option<Ballot>): nat {
    if e.Vote? then e.view else if b.Some? then b.value.l.view else l.view
  }

  lemma PutTwice(w: World, r: nat, a: Local, b: Local)
    requires r < |w.locals|
    ensures Put(Put(w, r, a), r, b) == Put(w, r, b)
  {
  }

  lemma PutSame(w: World, r: nat)
    requires r < |w.locals|
    ensures Put(w, r, w.locals[r]) == w
  {
  }

  lemma PutCert(w: World, r: nat, a: Local, b: Local, cert: Cert)
    requires r < |w.locals|
    ensures Put(AddCert(Put(w, r, a), cert), r, b) == Put(AddCert(w, cert), r, b)
  {
  }

  lemma TryEnterQuiet(c: Config, l: Local)
    ensures Quiet(l, TryEnterView(c, l))
  {
  }

  lemma ShareQuiet(c: Config, l: Local, view: nat, valid: bool)
    ensures Quiet(l, OnReceiveShare(c, l, view, valid).l)
    ensures valid ==> OnReceiveShare(c, l, view, valid).ok
  {
    hide TryEnterView;
    var m := l.(pvss := l.pvss.(shares := l.pvss.shares[view := Get(l.pvss.shares, view, 0) + 1]));
    TryEnterQuiet(c, m.(last := m.last.(shares := l.view, beacon := l.view)));
  }

  lemma TranscriptQuiet(c: Config, l: Local, forView: nat, from: nat, valid: bool, agg: Aggregate)
    ensures Quiet(l, OnReceiveTranscript(c, l, forView, from, valid, agg).l)
  {
  }

  lemma BroadcastQuiet(c: Config, l: Local)
    ensures BroadcastShare(c, l).ok && Quiet(l, BroadcastShare(c, l).l)
  {
    hide OnReceiveShare;
    var source := Get(l.pvss.aggQueue, ProposerOf(c, l.view), NO_AGGREGATE);
    ShareQuiet(c, l.(sent := l.sent.(shares := l.sent.shares + [Share(l.view, source)])), l.view, true);
  }

  /** Handling an ack never breaches safety. */
  lemma AckArrives(g: Group, w: World, r: nat, voter: nat, b: Block, view: nat)
    requires Inv(g, w) && g.Honest(r) && AckedBy(g, w, b, voter)
    ensures var o := OnReceiveAck(g.Config(), w.locals[r], voter, b, view);
            o.ok && Inv(g, Put(w, r, o.l))
  {
    hide LocalOk, CertOk, AckedBy, CheckCommit, BroadcastShare, Quiet;
    var c, l := g.Config(), w.locals[r];
    var got := Get(l.marks.acked, b, {});
    if view < l.view || |got| >= c.nResponsive || voter in got {
      PutSame(w, r);
    } else {
      KeepCount(g, w, r, b, voter);
      var m := WithCount(l, b, voter);
      if |got| + 1 == c.nResponsive {
        var w1 := Put(w, r, m);
        KeepCommit(g, w1, r, b);
        var n := CheckCommit(m, b).l;
        PutTwice(w, r, m, n);
        BroadcastQuiet(c, n);
        KeepQuiet(g, Put(w, r, n), r, BroadcastShare(c, n).l);
        PutTwice(w, r, n, BroadcastShare(c, n).l);
      }
    }
  }

  lemma AckCasts(g: Group, w: World, r: nat, q: Qc)
    requires Inv(g, w) && g.Honest(r) && Exists(w.certs, q)
    requires q.view <= w.locals[r].hqc.view && w.locals[r].view <= q.view
    ensures var o := CastAck(g.Config(), w.locals[r], q);
            o.ok && Inv(g, Put(w, r, o.l))
  {
    hide CertOk, OnReceiveAck, CountsOk, DecidedOk, VotesOk, AcksOk;
    assert LocalOk(g, w, r);
    var l, m := w.locals[r], WithAck(w.locals[r], q);
    KeepAck(g, w, r, q);
    var w1 := Put(w, r, m);
    assert m.sent.acks[|l.sent.acks|].blk == q.blk;
    AckArrives(g, w1, r, r, q.blk, l.view);
    PutTwice(w, r, m, OnReceiveAck(g.Config(), m, r, q.blk, l.view).l);
  }

  lemma CertificateArrives(g: Group, w: World, r: nat, q: Qc)
    requires Inv(g, w) && g.Honest(r) && Exists(w.certs, q)
    ensures var o := OnReceiveQc(g.Config(), w.locals[r], q);
            o.ok && Inv(g, Put(w, r, o.l))
  {
    hide LocalOk, CertOk, CastAck, TryEnterView;
    var c, l := g.Config(), w.locals[r];
    if q.view < l.view || l.last.cert >= l.view {
      PutSame(w, r);
    } else {
      var m := Hold(l, q).(last := l.last.(cert := q.view));
      KeepQuiet(g, w, r, m);
      var w1 := Put(w, r, m);
      KeepHqc(g, w1, r, q);
      var n := UpdateHqc(m, q);
      PutTwice(w, r, m, n);
      AckCasts(g, Put(w, r, n), r, q);
      var o := CastAck(c, n, q);
      PutTwice(w, r, n, o.l);
      TryEnterQuiet(c, o.l);
      KeepQuiet(g, Put(w, r, o.l), r, TryEnterView(c, o.l));
      PutTwice(w, r, o.l, TryEnterView(c, o.l));
    }
  }

  lemma KeepCert(g: Group, w: World, cert: Cert)
    requires Inv(g, w) && Genuine(g, w, cert)
    ensures Inv(g, AddCert(w, cert))
  {
    hide AcksOk, CountsOk, DecidedOk, Extends;
    var v := AddCert(w, cert);
    assert Grows(w, v, 0);
    var i := |w.certs|;
    forall x | x in cert.voters && g.Honest(x)
      ensures CastBefore(v.locals[x], v.certs, i)
    {
      var l := w.locals[x];
      assert LocalOk(g, w, x);
      var k :| 0 <= k < |l.sent.votes| && l.sent.votes[k].blk == cert.qc.blk && l.sent.votes[k].view == cert.qc.view;
      var j :| 0 <= j < |w.certs| && w.certs[j].qc == l.sent.votes[k].held;
      assert v.certs[j].qc == l.sent.votes[k].held;
    }
    if g.Honest(0) {
      LocalStays(g, w, v, 0, 0);
    }
    Carry(g, w, v, 0);
  }

  lemma GenuineStays(g: Group, w: World, r: nat, m: Local, cert: Cert)
    requires g.nFaulty < g.n && r < |w.locals| && Genuine(g, w, cert) && m.sent.votes == w.locals[r].sent.votes
    ensures Genuine(g, Put(w, r, m), cert)
  {
  }

  lemma VoteArrives(g: Group, w: World, r: nat, voter: nat, b: Block, view: nat)
    requires Inv(g, w) && g.Honest(r)
    requires var cert := Completes(g.Config(), w.locals[r], voter, b, view);
             cert.Some? ==> Genuine(g, w, cert.value) && cert.value.qc.view == view
    ensures var o := OnReceiveVote(g.Config(), w.locals[r], voter, b, view);
            o.ok && Inv(g, Put(Certified(w, Completes(g.Config(), w.locals[r], voter, b, view)), r, o.l))
  {
    hide LocalOk, CertOk, CastAck, Genuine;
    var c, l := g.Config(), w.locals[r];
    var got := Get(l.marks.voted, b, {});
    if view < l.view || |got| >= c.nResponsive || voter in got {
      PutSame(w, r);
    } else {
      var q := Qc(b, Get(l.marks.selfQc, b, l.view));
      var m := l.(marks := l.marks.(voted := l.marks.voted[b := got + {voter}], selfQc := l.marks.selfQc[b := q.view]));
      KeepQuiet(g, w, r, m);
      if |got| + 1 == c.nResponsive {
        var cert := Cert(q, got + {voter});
        GenuineStays(g, w, r, m, cert);
        KeepCert(g, Put(w, r, m), cert);
        var w1 := AddCert(Put(w, r, m), cert);
        assert w1.certs[|w.certs|].qc == q;
        KeepHqc(g, w1, r, q);
        var n := UpdateHqc(m, q);
        AckCasts(g, Put(w1, r, n), r, q);
        PutTwice(w1, r, n, CastAck(c, n, q).l);
        PutCert(w, r, m, CastAck(c, n, q).l, cert);
      }
    }
  }

  /** Casting a vote, and counting it when the replica collects the votes itself. */
  lemma VoteCasts(g: Group, w: World, r: nat, b: Block, dest: nat)
    requires Inv(g, w) && g.Honest(r)
    requires b in w.locals[r].finished && FreeToVote(w.locals[r], b) && Extends(b, w.locals[r].hqc.blk)
    requires var m := WithVote(w.locals[r], b, dest);
             var cert := Completes(g.Config(), m, r, b, m.view);
             dest == r && cert.Some? ==> Genuine(g, Put(w, r, m), cert.value) && cert.value.qc.view == m.view
    ensures var m := WithVote(w.locals[r], b, dest);
            var cert := if dest == r then Completes(g.Config(), m, r, b, m.view) else None;
            var o := CastVote(g.Config(), w.locals[r], b, dest);
            o.ok && Inv(g, Put(Certified(w, cert), r, o.l))
  {
    hide CertOk, OnReceiveVote, Genuine, FreeToVote, Extends, VotesOk, AcksOk, CountsOk, DecidedOk;
    assert LocalOk(g, w, r);
    var m := WithVote(w.locals[r], b, dest);
    KeepVote(g, w, r, b, dest);
    if dest == r {
      VoteArrives(g, Put(w, r, m), r, r, b, m.view);
      PutCertified(w, r, m, OnReceiveVote(g.Config(), m, r, b, m.view).l, Completes(g.Config(), m, r, b, m.view));
    }
  }

  lemma PutCertified(w: World, r: nat, a: Local, b: Local, cert: Option<Cert>)
    requires r < |w.locals|
    ensures Put(Certified(Put(w, r, a), cert), r, b) == Put(Certified(w, cert), r, b)
  {
  }

  /** What a handler of r does before it casts a vote keeps the invariant. */
  lemma ProposalConsidered(g: Group, w: World, r: nat, b: Block)
    requires Inv(g, w) && g.Honest(r) && (b.Block? && b.qc.Some? ==> Exists(w.certs, b.qc.value))
    ensures var (m, opinion) := Consider(w.locals[r], b);
            Inv(g, Put(w, r, m)) && m.sent == w.locals[r].sent && m.finished == w.locals[r].finished && m.id == r &&
            (opinion ==> Extends(b, m.hqc.blk))
  {
    hide CertOk, VotesOk, AcksOk, CountsOk, DecidedOk, UpdateHqc, Extends, Exists;
    assert LocalOk(g, w, r);
    var l := w.locals[r];
    var l1 := if b.Block? && b.qc.Some? then UpdateHqc(l, b.qc.value) else l;
    HqcOnly(l, b);
    if b.Block? && b.qc.Some? {
      KeepHqc(g, w, r, b.qc.value);
    } else {
      PutSame(w, r);
    }
    var (m, opinion) := Consider(l, b);
    KeepQuiet(g, Put(w, r, l1), r, m);
    PutTwice(w, r, l1, m);
    WalkFinds(b, m.hqc.blk);
  }

  lemma IdKnown(g: Group, w: World, r: nat)
    requires Inv(g, w) && g.Honest(r)
    ensures w.locals[r].id == r
  {
    assert LocalOk(g, w, r);
  }

  lemma HqcOnly(l: Local, b: Block)
    ensures b.Block? && b.qc.Some? ==>
              var m := UpdateHqc(l, b.qc.value);
              m.sent == l.sent && m.finished == l.finished && m.id == l.id
  {
  }

  /** A block that was not handled before was not voted for. */
  lemma NewIsFree(g: Group, w: World, r: nat, m: Local, b: Block)
    requires Inv(g, w) && g.Honest(r) && b !in w.locals[r].finished
    requires m.sent == w.locals[r].sent && NoVoteYet(m)
    ensures FreeToVote(m, b)
  {
    hide CertOk, AcksOk, CountsOk, DecidedOk, Extends, Exists;
    assert LocalOk(g, w, r);
  }

  lemma ProposalArrives(g: Group, w: World, e: Event)
    requires Inv(g, w) && e.Proposal? && Allowed(g, w, e)
    ensures Inv(g, Next(g, w, e)) && Handle(g.Config(), w.locals[e.r], e).ok
  {
    hide LocalOk, CertOk, Extends, Exists, Consider, CastVote, Genuine, Completes, NoVoteYet, FreeToVote;
    var c, l, r, b := g.Config(), w.locals[e.r], e.r, e.blk;
    var (m, opinion) := Consider(l, b);
    IdKnown(g, w, r);
    ProposalConsidered(g, w, r, b);
    if b in l.finished {
      PutSame(w, r);
    } else if e.valid {
      var w1 := Put(w, r, m);
      KeepQuiet(g, w1, r, Noted(m, b));
      PutTwice(w, r, m, Noted(m, b));
      if opinion {
        NewIsFree(g, w, r, Noted(m, b), b);
        var w2, n := Put(w, r, Noted(m, b)), WithVote(Noted(m, b), b, e.proposer);
        PutTwice(w, r, Noted(m, b), n);
        VoteCasts(g, w2, r, b, e.proposer);
        PutCertified(w, r, Noted(m, b), CastVote(c, Noted(m, b), b, e.proposer).l, Collects(c, l, e));
      }
    }
  }

  /** on_propose throws exactly when the new block is not higher than vheight. */
  lemma ProposalMade(g: Group, w: World, e: Event)
    requires Inv(g, w) && e.Propose? && Allowed(g, w, e)
    ensures Inv(g, Next(g, w, e))
    ensures var l := w.locals[e.r];
            Handle(g.Config(), l, e).ok <==> Height(NewProposal(l, e.cmds, e.parent)) > l.vheight
  {
    hide CertOk, Exists, CastVote, Genuine, Completes, NoVoteYet, FreeToVote, VotesOk, AcksOk, CountsOk, DecidedOk,
         Height;
    assert LocalOk(g, w, e.r);
    var c, l, r := g.Config(), w.locals[e.r], e.r;
    var b := NewProposal(l, e.cmds, e.parent);
    var held := Hold(l, Qc(b, l.view));
    if Height(b) <= l.vheight {
      KeepQuiet(g, w, r, held);
    } else {
      var m := held.(vheight := Height(b), finished := l.finished + {b});
      KeepQuiet(g, w, r, m);
      NewIsFree(g, w, r, m, b);
      var w1, n := Put(w, r, m), WithVote(m, b, r);
      PutTwice(w, r, m, n);
      VoteCasts(g, w1, r, b, r);
      var o, cert := CastVote(c, m, b, r), Collects(c, l, e);
      PutCertified(w, r, m, o.l, cert);
      var p := o.l.(last := o.l.last.(proposed := o.l.view));
      KeepQuiet(g, Put(Certified(w, cert), r, o.l), r, p);
      PutTwice(Certified(w, cert), r, o.l, p);
    }
  }

  lemma StatusArrives(g: Group, w: World, r: nat, from: nat, view: nat, q: Qc)
    requires Inv(g, w) && g.Honest(r) && Exists(w.certs, q)
    ensures Inv(g, Put(w, r, OnReceiveStatus(g.Config(), w.locals[r], from, view, q)))
  {
    hide LocalOk, CertOk, Exists, UpdateHqc;
    var c, l := g.Config(), w.locals[r];
    var n := OnReceiveStatus(c, l, from, view, q);
    if n == l {
      PutSame(w, r);
    } else {
      var held := Hold(l, q);
      KeepQuiet(g, w, r, held);
      KeepHqc(g, Put(w, r, held), r, q);
      PutTwice(w, r, held, UpdateHqc(held, q));
      KeepQuiet(g, Put(w, r, UpdateHqc(held, q)), r, n);
      PutTwice(w, r, UpdateHqc(held, q), n);
    }
  }

  /** Every step that the assumptions allow keeps the invariant, and no handler finds safety breached. */
  lemma StepKeeps(g: Group, w: World, e: Event)
    requires Inv(g, w) && Allowed(g, w, e)
    ensures Inv(g, Next(g, w, e))
    ensures e.Proposal? || e.Vote? || e.Certificate? || e.Ack? ==> Handle(g.Config(), w.locals[e.r], e).ok
  {
    hide Inv, OnPropose, OnReceiveProposal, OnReceiveVote, OnReceiveQc, OnReceiveAck, OnReceiveStatus, OnReceiveShare,
         OnReceiveTranscript, Completes, Genuine, Consider, Quiet, Exists, AckedBy;
    InvShape(g, w);
    match e
    case Propose(_, _, _) => ProposalMade(g, w, e);
    case Proposal(_, _, _, _) => ProposalArrives(g, w, e);
    case Vote(r, voter, blk, view) => VoteArrives(g, w, r, voter, blk, view);
    case Certificate(r, q) => CertificateArrives(g, w, r, q);
    case Ack(r, voter, blk, view) => AckArrives(g, w, r, voter, blk, view);
    case Status(r, from, view, q) => StatusArrives(g, w, r, from, view, q);
    case SharePart(r, view, valid) =>
      ShareQuiet(g.Config(), w.locals[r], view, valid);
      KeepQuiet(g, w, r, OnReceiveShare(g.Config(), w.locals[r], view, valid).l);
    case Transcript(r, forView, from, valid, agg) =>
      TranscriptQuiet(g.Config(), w.locals[r], forView, from, valid, agg);
      KeepQuiet(g, w, r, OnReceiveTranscript(g.Config(), w.locals[r], forView, from, valid, agg).l);
    case Assemble(cert) => KeepCert(g, w, cert);
  }

  lemma InvShape(g: Group, w: World)
    requires Inv(g, w)
    ensures g.Good() && |w.locals| == g.n
  {
  }

  /** All replicas at the start; b0's certificate is there from the start. */
  function Initially(g: Group, vec: seq<Aggregate>): World
    requires g.nFaulty < g.n
  {
    World(seq(g.n, r requires 0 <= r < g.n => StartLocal(g.Config(), r, vec)), [Cert(Qc(Genesis, 0), {})])
  }

  lemma InitiallyKept(g: Group, vec: seq<Aggregate>)
    requires g.Good()
    ensures Inv(g, Initially(g, vec))
  {
    var w := Initially(g, vec);
    assert w.certs[0].qc == Qc(Genesis, 0);
    forall r | 0 <= r < |w.locals|
      ensures LocalOk(g, w, r)
    {
      assert Settled(g, w, Genesis) && Extends(Genesis, Genesis);
    }
  }

  /** The state after handling the events es, all of them allowed. */
  function After(g: Group, vec: seq<Aggregate>, es: seq<Event>): World
    requires g.nFaulty < g.n
    ensures |After(g, vec, es).locals| == g.n
  {
    if es == [] then Initially(g, vec)
    else
      var w := After(g, vec, es[..|es| - 1]);
      var e := es[|es| - 1];
      if e.Assemble? || e.r < |w.locals| then Next(g, w, e) else w
  }

  ghost predicate AllAllowed(g: Group, vec: seq<Aggregate>, es: seq<Event>)
    requires g.nFaulty < g.n
  {
    es == [] ||
    (AllAllowed(g, vec, es[..|es| - 1]) && Allowed(g, After(g, vec, es[..|es| - 1]), es[|es| - 1]))
  }

  lemma {:induction false} RunKeeps(g: Group, vec: seq<Aggregate>, es: seq<Event>)
    requires g.Good() && AllAllowed(g, vec, es)
    ensures Inv(g, After(g, vec, es))
  {
    hide Inv, Allowed, Next, Initially;
    if es == [] {
      InitiallyKept(g, vec);
    } else {
      RunKeeps(g, vec, es[..|es| - 1]);
      ReplicaKnown(g, After(g, vec, es[..|es| - 1]), es[|es| - 1]);
      StepKeeps(g, After(g, vec, es[..|es| - 1]), es[|es| - 1]);
    }
  }

  lemma ReplicaKnown(g: Group, w: World, e: Event)
    requires g.nFaulty < g.n && Allowed(g, w, e)
    ensures e.Assemble? || e.r < |w.locals|
  {
  }

  /** Safety: in every run, whatever any two honest replicas commit lies on one chain. */
  lemma Agreement(g: Group, vec: seq<Aggregate>, es: seq<Event>, r: nat, d: Block, s: nat, e: Block)
    requires g.Good() && AllAllowed(g, vec, es) && g.Honest(r) && g.Honest(s)
    requires d in After(g, vec, es).locals[r].marks.decided && e in After(g, vec, es).locals[s].marks.decided
    ensures OneChain(d, e)
  {
    hide Inv, Allowed, Next, Initially, After, AllAllowed;
    RunKeeps(g, vec, es);
    DecidedOneChain(g, After(g, vec, es), r, d, s, e);
  }
}
