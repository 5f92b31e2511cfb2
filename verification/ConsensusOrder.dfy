/** The order in which blocks are executed, and what goes wrong without the protocol's assumptions. */
module ConsensusOrder {
  import opened ConsensusBlocks
  import opened ConsensusReplica
  import opened ConsensusSafety
  import opened ConsensusSteps
  import opened ConsensusRun
  import opened Wrappers

  /** Every block up to the last executed one has been executed, once, each after its parent. */
  ghost predicate LogIsChain(l: Local) {
    l.executed == Above(l.bExec, 0)
  }

  lemma LogMeans(l: Local, k: nat)
    requires LogIsChain(l) && k < |l.executed|
    ensures l.executed[k].Block? && l.executed[k].parent == if k == 0 then Genesis else l.executed[k - 1]
    ensures forall j :: 0 <= j < |l.executed| && j != k ==> l.executed[j] != l.executed[k]
    ensures |l.executed| == Height(l.bExec)
  {
    AboveIsChain(l.bExec, 0, k);
    WalkFinds(l.bExec, Genesis);
    ExtendsGenesis(l.bExec);
    forall j | 0 <= j < |l.executed| && j != k
      ensures l.executed[j] != l.executed[k]
    {
      AboveIsChain(l.bExec, 0, j);
    }
  }

  /** check_commit keeps the log in order exactly when the committed block extends the last executed one. */
  lemma CommitKeepsOrder(l: Local, b: Block)
    requires LogIsChain(l) && CheckCommit(l, b).ok
    ensures LogIsChain(CheckCommit(l, b).l) <==> Extends(b, l.bExec)
  {
    var h := Height(l.bExec);
    if Extends(b, l.bExec) {
      AboveSplits(b, l.bExec, 0);
    } else if Height(b) <= h {
      LogLength(l.bExec);
      LogLength(b);
      if LogIsChain(CheckCommit(l, b).l) {
        LastOfLog(b);
        LastOfLog(l.bExec);
        ExtendsGenesis(b);
      }
    } else {
      WalkFinds(b, l.bExec);
      var w := Walk(b, h);
      WalkDown(b, h);
      AboveSplits(b, w, 0);
      LogLength(w);
      LogLength(l.bExec);
      if LogIsChain(CheckCommit(l, b).l) {
        assert (Above(l.bExec, 0) + Above(b, h))[..h] == (Above(w, 0) + Above(b, h))[..h];
        LastOfLog(w);
        LastOfLog(l.bExec);
        ExtendsGenesis(b);
      }
    }
  }

  lemma {:induction false} LogLength(b: Block)
    ensures |Above(b, 0)| == Height(b)
    decreases b
  {
    if b.Block? {
      LogLength(b.parent);
    }
  }

  lemma LastOfLog(b: Block)
    ensures Above(b, 0) == [] ==> b == Genesis
    ensures Above(b, 0) != [] ==> Above(b, 0)[|Above(b, 0)| - 1] == b
  {
  }

  lemma {:induction false} WalkDown(b: Block, h: nat)
    requires h <= Height(b)
    ensures Extends(b, Walk(b, h)) && Height(Walk(b, h)) == h
    decreases b
  {
    if h < Height(b) {
      WalkDown(b.parent, h);
    }
  }

  /** Committing a block below the last executed one moves b_exec back, and its descendants are executed again. */
  lemma CommitsTwice(l: Local, a: Block, b: Block)
    requires l.bExec == Genesis && l.executed == [] && l.marks.decided == {Genesis}
    requires a == Block(Genesis, None, [], NO_AGGREGATE) && b == Block(a, None, [], NO_AGGREGATE)
    ensures var l1 := CheckCommit(l, b).l;
            var l2 := CheckCommit(l1, a).l;
            var o := CheckCommit(l2, b);
            l1.executed == [a, b] && l2.bExec == a && o.ok && o.l.executed == [a, b, b]
  {
    hide CheckCommit;
    TwoBlocks(a, b);
    CommitsQueue(l, b, Genesis, [a, b]);
    var l1 := CheckCommit(l, b).l;
    CommitsQueue(l1, a, a, []);
    var l2 := CheckCommit(l1, a).l;
    CommitsQueue(l2, b, a, [b]);
  }

  lemma TwoBlocks(a: Block, b: Block)
    requires a == Block(Genesis, None, [], NO_AGGREGATE) && b == Block(a, None, [], NO_AGGREGATE)
    ensures Height(Genesis) == 0 && Height(a) == 1 && Height(b) == 2
    ensures Above(b, 0) == [a, b] && Above(b, 1) == [b] && Above(a, 2) == []
    ensures Walk(b, 0) == Genesis && Walk(b, 1) == a && Walk(a, 2) == a
  {
    assert Above(a, 0) == [a] && Walk(a, 0) == Genesis;
  }

  /** A commit of which the way down and the blocks above are known. */
  lemma CommitsQueue(l: Local, b: Block, from: Block, queue: seq<Block>)
    requires Walk(b, Height(l.bExec)) == from && Above(b, Height(l.bExec)) == queue
    requires from == l.bExec || from in l.marks.decided
    ensures CheckCommit(l, b).ok && CheckCommit(l, b).l.executed == l.executed + queue
    ensures CheckCommit(l, b).l.bExec == b
    ensures CheckCommit(l, b).l.marks.decided == l.marks.decided + Elements(queue)
  {
    hide Walk, Above, Height;
  }

  /** What a handler does to the log. */
  ghost predicate Moved(l: Local, m: Local) {
    var h := Height(l.bExec);
    m.executed == l.executed + Above(m.bExec, h) &&
    (m.bExec == l.bExec || Walk(m.bExec, h) == l.bExec || Walk(m.bExec, h) in l.marks.decided)
  }

  ghost predicate Still(l: Local, m: Local) {
    m.executed == l.executed && m.bExec == l.bExec && m.marks.decided == l.marks.decided
  }

  lemma StillMoved(l: Local, m: Local, n: Local, o: Local)
    requires Still(l, m) && Moved(m, n) && n.executed == o.executed && n.bExec == o.bExec
    ensures Moved(l, o)
  {
  }

  lemma StillIsMoved(l: Local, m: Local)
    requires Still(l, m)
    ensures Moved(l, m)
  {
  }

  lemma ShareStill(c: Config, l: Local, view: nat, valid: bool)
    ensures Still(l, OnReceiveShare(c, l, view, valid).l) && Still(l, TryEnterView(c, l))
  {
  }

  lemma AckMoves(c: Config, l: Local, voter: nat, b: Block, view: nat)
    ensures Moved(l, OnReceiveAck(c, l, voter, b, view).l)
  {
    hide OnReceiveShare, Walk;
    var m := WithCount(l, b, voter);
    var o := CheckCommit(m, b);
    var source := Get(o.l.pvss.aggQueue, ProposerOf(c, o.l.view), NO_AGGREGATE);
    ShareStill(c, o.l.(sent := o.l.sent.(shares := o.l.sent.shares + [Share(o.l.view, source)])), o.l.view, true);
  }

  lemma CastAckMoves(c: Config, l: Local, q: Qc)
    ensures Moved(l, CastAck(c, l, q).l)
  {
    hide OnReceiveAck, Walk, Above;
    AckMoves(c, WithAck(l, q), l.id, q.blk, l.view);
  }

  lemma CertificateMoves(c: Config, l: Local, q: Qc)
    ensures Moved(l, OnReceiveQc(c, l, q).l)
  {
    hide CastAck, Walk, Above, TryEnterView, Moved;
    StillIsMoved(l, l);
    var m := UpdateHqc(Hold(l, q).(last := l.last.(cert := q.view)), q);
    CastAckMoves(c, m, q);
    var o := CastAck(c, m, q);
    ShareStill(c, o.l, 0, true);
    if q.view >= l.view && l.last.cert < l.view {
      StillMoved(l, m, o.l, OnReceiveQc(c, l, q).l);
    }
  }

  lemma VoteMoves(c: Config, l: Local, voter: nat, b: Block, view: nat)
    ensures Moved(l, OnReceiveVote(c, l, voter, b, view).l)
  {
    hide CastAck, Walk, Above, Moved;
    var q, got := Qc(b, Get(l.marks.selfQc, b, l.view)), Get(l.marks.voted, b, {});
    var m := l.(marks := l.marks.(voted := l.marks.voted[b := got + {voter}], selfQc := l.marks.selfQc[b := q.view]));
    CastAckMoves(c, UpdateHqc(m, q), q);
    StillIsMoved(l, l);
    StillIsMoved(l, m);
    StillMoved(l, UpdateHqc(m, q), CastAck(c, UpdateHqc(m, q), q).l, CastAck(c, UpdateHqc(m, q), q).l);
  }

  lemma CastVoteMoves(c: Config, l: Local, b: Block, dest: nat)
    ensures Moved(l, CastVote(c, l, b, dest).l)
  {
    hide OnReceiveVote, Walk, Above, Moved;
    var m := WithVote(l, b, dest);
    VoteMoves(c, m, l.id, b, l.view);
    StillIsMoved(l, m);
    StillMoved(l, m, OnReceiveVote(c, m, l.id, b, l.view).l, OnReceiveVote(c, m, l.id, b, l.view).l);
  }

  lemma ProposeMoves(c: Config, l: Local, cmds: seq<nat>, parent: Block)
    ensures Moved(l, OnPropose(c, l, cmds, parent).l)
  {
    hide CastVote, Walk, Above, Moved;
    var b := NewProposal(l, cmds, parent);
    var held := Hold(l, Qc(b, l.view));
    StillIsMoved(l, held);
    var m := held.(vheight := Height(b), finished := l.finished + {b});
    CastVoteMoves(c, m, b, l.id);
    if Height(b) > l.vheight {
      StillMoved(l, m, CastVote(c, m, b, l.id).l, OnPropose(c, l, cmds, parent).l);
    }
  }

  lemma ConsiderStill(l: Local, b: Block)
    ensures Still(l, Consider(l, b).0) && Still(l, Noted(Consider(l, b).0, b))
  {
    hide Walk, Height;
  }

  lemma ProposalMoves(c: Config, l: Local, b: Block, proposer: nat, valid: bool)
    ensures Moved(l, OnReceiveProposal(c, l, b, proposer, valid).l)
  {
    hide CastVote, Walk, Above, Moved, Height, Consider;
    StillIsMoved(l, l);
    var (m, opinion) := Consider(l, b);
    ConsiderStill(l, b);
    StillIsMoved(l, m);
    StillIsMoved(l, Noted(m, b));
    CastVoteMoves(c, Noted(m, b), b, proposer);
    var n := CastVote(c, Noted(m, b), b, proposer).l;
    StillMoved(l, Noted(m, b), n, n);
  }

  lemma HandleMoves(c: Config, l: Local, e: Event)
    ensures Moved(l, Handle(c, l, e).l)
  {
    hide Moved, OnPropose, OnReceiveProposal, OnReceiveVote, OnReceiveQc, OnReceiveAck, OnReceiveShare;
    StillIsMoved(l, l);
    match e
    case Propose(_, cmds, parent) => ProposeMoves(c, l, cmds, parent);
    case Proposal(_, blk, proposer, valid) => ProposalMoves(c, l, blk, proposer, valid);
    case Vote(_, voter, blk, view) => VoteMoves(c, l, voter, blk, view);
    case Certificate(_, q) => CertificateMoves(c, l, q);
    case Ack(_, voter, blk, view) => AckMoves(c, l, voter, blk, view);
    case Status(_, from, view, q) => StillIsMoved(l, OnReceiveStatus(c, l, from, view, q));
    case SharePart(_, view, valid) =>
      ShareStill(c, l, view, valid);
      StillIsMoved(l, OnReceiveShare(c, l, view, valid).l);
    case Transcript(_, forView, from, valid, agg) =>
      StillIsMoved(l, OnReceiveTranscript(c, l, forView, from, valid, agg).l);
    case Assemble(_) =>
  }

  /** The step does not commit a block below the last executed one. */
  ghost predicate Forward(g: Group, w: World, e: Event)
    requires g.nFaulty < g.n
  {
    !e.Assemble? && e.r < |w.locals| ==>
      Height(Handle(g.Config(), w.locals[e.r], e).l.bExec) >= Height(w.locals[e.r].bExec)
  }

  ghost predicate LogsOk(g: Group, w: World) {
    forall r :: 0 <= r < |w.locals| && g.Honest(r) ==> LogIsChain(w.locals[r])
  }

  lemma MovedForward(g: Group, w: World, r: nat, m: Local)
    requires Inv(g, w) && g.Honest(r) && LogIsChain(w.locals[r]) && Moved(w.locals[r], m)
    requires Height(m.bExec) >= Height(w.locals[r].bExec)
    ensures LogIsChain(m)
  {
    hide Inv, Above, Walk, LocalOk;
    InvShape(g, w);
    var l := w.locals[r];
    var h := Height(l.bExec);
    WalkFinds(m.bExec, l.bExec);
    if m.bExec != l.bExec && Walk(m.bExec, h) != l.bExec {
      ExecIsDecided(g, w, r);
      DecidedOneChain(g, w, r, Walk(m.bExec, h), r, l.bExec);
      WalkDown(m.bExec, h);
      if Extends(l.bExec, Walk(m.bExec, h)) {
        ExtendsIsHigher(l.bExec, Walk(m.bExec, h));
      } else {
        ExtendsIsHigher(Walk(m.bExec, h), l.bExec);
      }
    }
    AboveSplits(m.bExec, l.bExec, 0);
  }

  lemma ExecIsDecided(g: Group, w: World, r: nat)
    requires Inv(g, w) && g.Honest(r)
    ensures w.locals[r].bExec in w.locals[r].marks.decided
  {
    assert LocalOk(g, w, r);
  }

  lemma StepInOrder(g: Group, w: World, e: Event)
    requires Inv(g, w) && Allowed(g, w, e) && Forward(g, w, e) && LogsOk(g, w)
    ensures LogsOk(g, Next(g, w, e))
  {
    hide Inv, Handle, LogIsChain, Moved, Collects, Height;
    InvShape(g, w);
    AllowedShape(g, w, e);
    hide Allowed;
    if !e.Assemble? {
      HandleMoves(g.Config(), w.locals[e.r], e);
      MovedForward(g, w, e.r, Handle(g.Config(), w.locals[e.r], e).l);
    }
  }

  lemma AllowedShape(g: Group, w: World, e: Event)
    requires g.nFaulty < g.n && Allowed(g, w, e)
    ensures !e.Assemble? ==> e.r < |w.locals| && g.Honest(e.r)
  {
  }

  ghost predicate AllForward(g: Group, vec: seq<Aggregate>, es: seq<Event>)
    requires g.nFaulty < g.n
  {
    es == [] || (AllForward(g, vec, es[..|es| - 1]) && Forward(g, After(g, vec, es[..|es| - 1]), es[|es| - 1]))
  }

  lemma {:induction false} RunInOrder(g: Group, vec: seq<Aggregate>, es: seq<Event>)
    requires g.Good() && AllAllowed(g, vec, es) && AllForward(g, vec, es)
    ensures LogsOk(g, After(g, vec, es))
  {
    hide Inv, Allowed, Next, Forward, LogIsChain;
    if es == [] {
      FreshLogs(g, vec);
    } else {
      var before := es[..|es| - 1];
      RunInOrder(g, vec, before);
      RunKeeps(g, vec, before);
      ReplicaKnown(g, After(g, vec, before), es[|es| - 1]);
      StepInOrder(g, After(g, vec, before), es[|es| - 1]);
    }
  }

  lemma FreshLogs(g: Group, vec: seq<Aggregate>)
    requires g.Good()
    ensures LogsOk(g, Initially(g, vec))
  {
  }

  /** In runs that do not commit below the last executed block, the log of one of two honest replicas is a prefix
      of the log of the other. */
  lemma SameOrder(g: Group, vec: seq<Aggregate>, es: seq<Event>, r: nat, s: nat)
    requires g.Good() && AllAllowed(g, vec, es) && AllForward(g, vec, es) && g.Honest(r) && g.Honest(s)
    ensures var w := After(g, vec, es);
            w.locals[r].executed <= w.locals[s].executed || w.locals[s].executed <= w.locals[r].executed
  {
    hide Inv, Allowed, Next, Forward, After, AllAllowed, AllForward, Above;
    RunKeeps(g, vec, es);
    RunInOrder(g, vec, es);
    var w := After(g, vec, es);
    var a, b := w.locals[r].bExec, w.locals[s].bExec;
    ExecIsDecided(g, w, r);
    ExecIsDecided(g, w, s);
    DecidedOneChain(g, w, r, a, s, b);
    if Extends(a, b) {
      AboveSplits(a, b, 0);
    } else {
      AboveSplits(b, a, 0);
    }
  }

  /** A replica votes at most once in each view. */
  ghost predicate OneVotePerView(votes: seq<VoteCast>) {
    forall j, k :: 0 <= j < k < |votes| ==> votes[j].view != votes[k].view
  }

  lemma BallotVotes(c: Config, l: Local, b: Block, dest: nat)
    ensures CastVote(c, l, b, dest).l.sent.votes == l.sent.votes + [VoteCast(b, l.view, dest, l.hqc)]
  {
    hide CheckCommit, TryEnterView;
    var m := WithVote(l, b, dest);
    if dest == l.id {
      VoteSendsNone(c, m, l.id, b, l.view);
    }
  }

  lemma VoteSendsNone(c: Config, l: Local, voter: nat, b: Block, view: nat)
    ensures OnReceiveVote(c, l, voter, b, view).l.sent.votes == l.sent.votes
  {
    hide CheckCommit, OnReceiveShare;
    var q, got := Qc(b, Get(l.marks.selfQc, b, l.view)), Get(l.marks.voted, b, {});
    var m := l.(marks := l.marks.(voted := l.marks.voted[b := got + {voter}], selfQc := l.marks.selfQc[b := q.view]));
    var n := WithCount(WithAck(UpdateHqc(m, q), q), b, l.id);
    CommitSendsNone(n, b);
    BroadcastQuiet(c, CheckCommit(n, b).l);
  }

  lemma CommitSendsNone(l: Local, b: Block)
    ensures CheckCommit(l, b).l.sent == l.sent
  {
  }

  /** A handler that casts a vote adds it to those cast before; one that does not adds none. */
  lemma BallotHandled(c: Config, l: Local, e: Event)
    requires e.Proposal? || e.Propose?
    ensures var votes := Handle(c, l, e).l.sent.votes;
            match BallotOf(l, e)
            case Some(Ballot(m, b, dest)) => votes == l.sent.votes + [VoteCast(b, l.view, dest, m.hqc)]
            case None => votes == l.sent.votes
  {
    hide CastVote, Walk, Height, Consider;
    if e.Proposal? {
      ConsiderStill(l, e.blk);
      ConsiderSendsNone(l, e.blk);
    }
    if BallotOf(l, e).Some? {
      var Ballot(m, b, dest) := BallotOf(l, e).value;
      BallotVotes(c, m, b, dest);
    }
  }

  lemma ConsiderSendsNone(l: Local, b: Block)
    ensures var m := Consider(l, b).0; m.sent == l.sent && m.view == l.view
  {
    hide Walk, Height;
  }

  /** The guards of on_propose and on_receive_proposal are per height, so a replica keeps to one vote a view exactly
      as long as it makes or votes for no proposal in a view it has voted in already. */
  lemma VotesOncePerView(c: Config, l: Local, e: Event)
    requires (e.Proposal? || e.Propose?) && OneVotePerView(l.sent.votes)
    ensures OneVotePerView(Handle(c, l, e).l.sent.votes) <==> BallotOf(l, e).None? || NoVoteYet(l)
  {
    hide Handle, BallotOf;
    BallotHandled(c, l, e);
    if BallotOf(l, e).Some? {
      var votes := Handle(c, l, e).l.sent.votes;
      assert votes[|l.sent.votes|].view == l.view;
      if !NoVoteYet(l) {
        var k :| 0 <= k < |l.sent.votes| && l.sent.votes[k].view == l.view;
        assert votes[k].view == votes[|l.sent.votes|].view;
      }
    }
  }

  /** A proposal that arrives gets a vote exactly if it is valid and new, no other block of its height has arrived, and
      it extends the highest certified block, its own certificate included. So no two blocks of one height that arrive
      both get a vote. */
  lemma VotesForFirstOnly(c: Config, l: Local, b: Block, proposer: nat, valid: bool)
    ensures var m := OnReceiveProposal(c, l, b, proposer, valid).l;
            var hqc := if b.Block? && b.qc.Some? then UpdateHqc(l, b.qc.value).hqc else l.hqc;
            |m.sent.votes| > |l.sent.votes| <==>
              valid && b !in l.finished && Get(l.proposals, Height(b), {}) <= {b} && Extends(b, hqc.blk)
    ensures var (m, opinion) := Consider(l, b);
            opinion ==> Height(b) in m.proposals && m.proposals[Height(b)] == {b}
  {
    hide CastVote, Walk, Height, Extends, Consider;
    BallotHandled(c, l, Proposal(0, b, proposer, valid));
    OpinionOf(l, b);
  }

  lemma OpinionOf(l: Local, b: Block)
    ensures var (m, opinion) := Consider(l, b); var slot := Get(l.proposals, Height(b), {});
            var hqc := if b.Block? && b.qc.Some? then UpdateHqc(l, b.qc.value).hqc else l.hqc;
            (opinion <==> slot <= {b} && Extends(b, hqc.blk)) &&
            (opinion ==> Height(b) in m.proposals && m.proposals[Height(b)] == {b})
  {
    hide Walk, Height, Extends;
    var slot := Get(l.proposals, Height(b), {});
    var hqc := if b.Block? && b.qc.Some? then UpdateHqc(l, b.qc.value).hqc else l.hqc;
    WalkFinds(b, hqc.blk);
    if slot <= {b} {
      assert slot + {b} == {b};
      SubsetCount(slot, {b});
    } else if |slot + {b}| <= 1 {
      SubsetCount({b}, slot + {b});
      OnlyElement(slot + {b}, b);
    }
  }

  lemma OnlyElement<T>(s: set<T>, x: T)
    requires |s| <= 1 && x in s
    ensures s == {x}
  {
    if y :| y in s && y != x {
      SubsetCount({x, y}, s);
    }
  }

  /** A certificate is taken up only if none was in this view: as long as the view stays, every other one is ignored. */
  lemma CertificateTakenOnce(c: Config, l: Local, q: Qc, r: Qc)
    requires l.last.cert < l.view <= q.view
    ensures var o := OnReceiveQc(c, l, q);
            o.l.last.cert == q.view &&
            (o.l.view <= q.view ==> OnReceiveQc(c, o.l, r) == Outcome(o.l, true))
  {
    hide CheckCommit, OnReceiveShare, TryEnterView, ProposerOf;
    var m := UpdateHqc(Hold(l, q).(last := l.last.(cert := q.view)), q);
    var n := WithCount(WithAck(m, q), q.blk, m.id);
    CommitKeepsLast(n, q.blk);
    var k := CheckCommit(n, q.blk).l;
    var source := Get(k.pvss.aggQueue, ProposerOf(c, k.view), NO_AGGREGATE);
    ShareKeepsCert(c, k.(sent := k.sent.(shares := k.sent.shares + [Share(k.view, source)])), k.view, true);
    TryEnterKeepsCert(c, CastAck(c, m, q).l);
  }

  lemma CommitKeepsLast(l: Local, b: Block)
    ensures CheckCommit(l, b).l.last == l.last
  {
  }

  lemma TryEnterKeepsCert(c: Config, l: Local)
    ensures TryEnterView(c, l).last == l.last
  {
    hide SharingOf, ProposerOf;
  }

  lemma ShareKeepsCert(c: Config, l: Local, view: nat, valid: bool)
    ensures OnReceiveShare(c, l, view, valid).l.last.cert == l.last.cert
  {
  }

  /** Two proposals of different heights get two votes of one replica in the same view. */
  lemma VotesTwice(c: Config, l: Local, a: Block, b: Block)
    requires c == InitConfig(4, 1) && l == StartLocal(c, 3, [])
    requires a == Block(Genesis, None, [], NO_AGGREGATE) && b == Block(a, None, [], NO_AGGREGATE)
    ensures var l1 := OnReceiveProposal(c, l, a, 0, true).l;
            var l2 := OnReceiveProposal(c, l1, b, 0, true).l;
            l2.sent.votes == [VoteCast(a, 1, 0, Qc(Genesis, 0)), VoteCast(b, 1, 0, Qc(Genesis, 0))]
  {
    hide OnReceiveVote, OnReceiveProposal, StartLocal;
    FirstVote(c, l, a);
    SecondVote(c, OnReceiveProposal(c, l, a, 0, true).l, a, b);
  }

  lemma FirstVote(c: Config, l: Local, a: Block)
    requires c == InitConfig(4, 1) && l == StartLocal(c, 3, []) && a == Block(Genesis, None, [], NO_AGGREGATE)
    ensures var m := OnReceiveProposal(c, l, a, 0, true).l;
            m.sent.votes == [VoteCast(a, 1, 0, Qc(Genesis, 0))] && m.finished == {a} && m.proposals == map[1 := {a}] &&
            m.view == 1 && m.id == 3 && m.hqc == Qc(Genesis, 0)
  {
    hide OnReceiveVote, Range, Replicas, InitConfig, Numbered;
    assert Height(a) == 1 && Walk(a, 0) == Genesis && |{} + {a}| == 1;
  }

  lemma SecondVote(c: Config, m: Local, a: Block, b: Block)
    requires a == Block(Genesis, None, [], NO_AGGREGATE) && b == Block(a, None, [], NO_AGGREGATE)
    requires m.sent.votes == [VoteCast(a, 1, 0, Qc(Genesis, 0))] && m.finished == {a} && m.proposals == map[1 := {a}]
    requires m.view == 1 && m.id == 3 && m.hqc == Qc(Genesis, 0)
    ensures OnReceiveProposal(c, m, b, 0, true).l.sent.votes
         == [VoteCast(a, 1, 0, Qc(Genesis, 0)), VoteCast(b, 1, 0, Qc(Genesis, 0))]
  {
    hide OnReceiveVote;
    assert Height(a) == 1 && Height(b) == 2 && Walk(b, 0) == Walk(a, 0) == Genesis && |{} + {b}| == 1;
  }

  /** The assumptions can be met: in a group of one, proposing a block at once certifies, acknowledges and
      executes it. */
  lemma SoleReplicaCommits(vec: seq<Aggregate>, cmds: seq<nat>)
    ensures var g, e := Group(1, 0, {}), Propose(0, cmds, Genesis);
            var w := Initially(g, vec);
            var b := NewProposal(w.locals[0], cmds, Genesis);
            g.Good() && Allowed(g, w, e) && Next(g, w, e).locals[0].executed == [b]
  {
    hide Handle, Collects, Group.Quorum, Numbered;
    var g, e := Group(1, 0, {}), Propose(0, cmds, Genesis);
    var c, w := g.Config(), Initially(g, vec);
    var l := w.locals[0];
    SoleVote(c, l, e, vec);
    var b := NewProposal(l, cmds, Genesis);
    var m := BallotOf(l, e).value.l;
    var v := WithVote(m, b, 0);
    assert Voted(w, e, BallotOf(l, e)).locals[0] == v;
    assert HasVote(v, b, 1) by { assert v.sent.votes[0].blk == b && v.sent.votes[0].view == 1; }
    SoleQuorum(g);
  }

  lemma SoleQuorum(g: Group)
    requires g == Group(1, 0, {})
    ensures g.Good() && g.Quorum({0}) && g.Config() == Config(1, 1, 1)
  {
  }

  lemma SoleVote(c: Config, l: Local, e: Event, vec: seq<Aggregate>)
    requires c == Config(1, 1, 1) && l == StartLocal(c, 0, vec) && e.Propose? && e.r == 0 && e.parent == Genesis
    ensures var b := NewProposal(l, e.cmds, Genesis);
            var m := Hold(l, Qc(b, 1)).(vheight := 1, finished := {b});
            BallotOf(l, e) == Some(Ballot(m, b, 0)) && m.view == 1 && m.sent.votes == [] && m.id == 0 &&
            Collects(c, l, e) == Some(Cert(Qc(b, 1), {0})) && Handle(c, l, e).l.executed == [b]
  {
    hide BroadcastShare, Numbered, CastAck;
    var b := NewProposal(l, e.cmds, Genesis);
    assert Height(b) == 1 && l.finished + {b} == {b};
    var m := Hold(l, Qc(b, 1)).(vheight := 1, finished := {b});
    var v := WithVote(m, b, 0);
    var q := Qc(b, 1);
    assert Completes(c, v, 0, b, 1) == Some(Cert(q, {0}));
    var u := v.(marks := v.marks.(voted := v.marks.voted[b := {0}], selfQc := v.marks.selfQc[b := 1]), hqc := q);
    assert {} + {0} == {0};
    assert OnReceiveVote(c, v, 0, b, 1) == CastAck(c, u, q);
    SoleAck(c, u, b);
  }

  lemma SoleAck(c: Config, l: Local, b: Block)
    requires c == Config(1, 1, 1) && l.id == 0 && l.view == 1 && l.executed == [] && l.marks.acked == map[]
    requires l.bExec == Genesis && b.Block? && b.parent == Genesis
    ensures CastAck(c, l, Qc(b, 1)).ok && CastAck(c, l, Qc(b, 1)).l.executed == [b]
  {
    hide BroadcastShare, CheckCommit;
    var v := l.(sent := l.sent.(acks := l.sent.acks + [AckCast(b, 1, Qc(b, 1))]));
    var w := v.(marks := v.marks.(acked := map[b := {} + {0}]));
    assert v.marks.acked[b := {} + {0}] == map[b := {} + {0}];
    SoleCommit(w, b);
    var o := CheckCommit(w, b);
    BroadcastQuiet(c, o.l);
    BroadcastStill(c, o.l);
  }

  lemma BroadcastStill(c: Config, l: Local)
    ensures Still(l, BroadcastShare(c, l).l)
  {
    hide OnReceiveShare;
    var source := Get(l.pvss.aggQueue, ProposerOf(c, l.view), NO_AGGREGATE);
    ShareStill(c, l.(sent := l.sent.(shares := l.sent.shares + [Share(l.view, source)])), l.view, true);
  }

  lemma SoleCommit(l: Local, b: Block)
    requires l.executed == [] && l.bExec == Genesis && b.Block? && b.parent == Genesis
    ensures CheckCommit(l, b).ok && CheckCommit(l, b).l.executed == [b]
  {
    assert Height(b) == 1 && Walk(b, 0) == Genesis;
    assert Above(Genesis, 0) == [];
    assert Above(b, 0) == Above(Genesis, 0) + [b];
  }
}
