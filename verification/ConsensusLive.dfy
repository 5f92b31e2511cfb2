/** The assumptions can be met: in every group of two or more there is a run in which all honest replicas execute a
    block. */
module ConsensusLive {
  import opened ConsensusBlocks
  import opened ConsensusReplica
  import opened ConsensusSafety
  import opened ConsensusSteps
  import opened ConsensusRun
  import opened Wrappers

  /** The first block, as any replica proposes it at the start. */
  function First(vec: seq<Aggregate>, cmds: seq<nat>): Block {
    Block(Genesis, Some(Qc(Genesis, 0)), cmds, Get(Numbered(vec, 1), 1, NO_AGGREGATE))
  }

  /** In view 1, with nothing executed and no certificate received. */
  ghost predicate Waits(l: Local, r: nat) {
    l.id == r && l.view == 1 && l.executed == [] && l.bExec == Genesis && l.hqc == Qc(Genesis, 0) &&
    l.last.cert == 0 && l.last.shares == 0 && l.last.beacon == 0 && l.marks.acked == map[] && l.sent.acks == []
  }

  ghost predicate Starts(l: Local, r: nat, vec: seq<Aggregate>) {
    Waits(l, r) && l.vheight == 0 && l.finished == {} && l.proposals == map[] && l.sent.votes == [] &&
    l.pvss.viewAgg == Numbered(vec, 1) && forall b :: b in l.marks.voted ==> b == Genesis
  }

  ghost predicate Voting(l: Local, r: nat, b: Block) {
    Waits(l, r) && HasVote(l, b, 1)
  }

  /** The proposer, which has the votes of these replicas. */
  ghost predicate Collecting(l: Local, r: nat, b: Block, voters: set<nat>) {
    Voting(l, r, b) && Get(l.marks.voted, b, {}) == voters && b in l.marks.selfQc && l.marks.selfQc[b] == 1
  }

  /** With an ack cast, and the acks of these replicas. */
  ghost predicate Acking(l: Local, r: nat, b: Block, voters: set<nat>) {
    l.id == r && l.view == 1 && l.executed == [] && l.bExec == Genesis && HasVote(l, b, 1) && HasAck(l, b) &&
    Get(l.marks.acked, b, {}) == voters
  }

  ghost predicate Done(c: Config, l: Local, b: Block) {
    l.executed == [b] && HasVote(l, b, 1) && HasAck(l, b) && |Get(l.marks.acked, b, {})| >= c.nResponsive
  }

  lemma StartFacts(c: Config, r: nat, vec: seq<Aggregate>)
    ensures Starts(StartLocal(c, r, vec), r, vec)
  {
    hide Numbered, Replicas, SharingOf;
  }

  lemma Proposes(c: Config, l: Local, r: nat, vec: seq<Aggregate>, cmds: seq<nat>)
    requires Starts(l, r, vec) && 2 <= c.nResponsive
    ensures var b, e := First(vec, cmds), Propose(r, cmds, Genesis);
            NewProposal(l, cmds, Genesis) == b && BallotOf(l, e).Some? && BallotOf(l, e).value.l.sent.votes == [] &&
            Collects(c, l, e).None? && Collecting(Handle(c, l, e).l, r, b, {r})
  {
    hide CastAck;
    var b := First(vec, cmds);
    assert Height(b) == 1 && b !in l.marks.voted;
    assert {} + {r} == {r};
    var v := WithVote(Hold(l, Qc(b, 1)).(vheight := 1, finished := {b}), b, r);
    assert v.sent.votes[0].blk == b && v.sent.votes[0].view == 1;
  }

  lemma AboveGenesis(b: Block)
    requires b.Block? && b.parent == Genesis
    ensures Height(b) == 1 && Walk(b, 0) == Genesis && Above(b, 0) == [b]
  {
    assert Height(Genesis) == 0 && Walk(Genesis, 0) == Genesis && Above(Genesis, 0) == [];
    assert Above(b, 0) == Above(Genesis, 0) + [b];
  }

  lemma Votes(c: Config, l: Local, r: nat, vec: seq<Aggregate>, b: Block, proposer: nat, cmds: seq<nat>)
    requires Starts(l, r, vec) && b == First(vec, cmds) && r != proposer
    ensures var e := Proposal(r, b, proposer, true);
            BallotOf(l, e).Some? && BallotOf(l, e).value.l.sent.votes == [] && Collects(c, l, e).None? &&
            Voting(Handle(c, l, e).l, r, b)
  {
    AboveGenesis(b);
    assert |{} + {b}| == 1;
    hide Walk, Height;
    var m := Handle(c, l, Proposal(r, b, proposer, true)).l;
    assert m.sent.votes == [VoteCast(b, 1, proposer, Qc(Genesis, 0))];
    assert m.sent.votes[0].blk == b && m.sent.votes[0].view == 1;
  }

  /** A vote short of the quorum, one that completes it, and one that comes late or twice. */
  lemma VoteCounts(c: Config, l: Local, r: nat, b: Block, voters: set<nat>, x: nat)
    requires Collecting(l, r, b, voters) && |voters| < c.nResponsive && 2 <= c.nResponsive
    ensures var m, cert := OnReceiveVote(c, l, x, b, 1).l, Completes(c, l, x, b, 1);
            if |voters + {x}| < c.nResponsive then cert.None? && Collecting(m, r, b, voters + {x})
            else cert == Some(Cert(Qc(b, 1), voters + {x})) && Acking(m, r, b, {r})
  {
    if x in voters {
      assert voters + {x} == voters;
    } else if |voters| + 1 == c.nResponsive {
      var v := l.(marks := l.marks.(voted := l.marks.voted[b := voters + {x}], selfQc := l.marks.selfQc[b := 1]));
      AckCast1(c, UpdateHqc(v, Qc(b, 1)), r, b);
    }
  }

  /** Acknowledging the certificate of b, in a group where one ack is no quorum. */
  lemma AckCast1(c: Config, l: Local, r: nat, b: Block)
    requires l.id == r && l.view == 1 && l.executed == [] && l.bExec == Genesis && HasVote(l, b, 1)
    requires l.marks.acked == map[] && 2 <= c.nResponsive
    ensures Acking(CastAck(c, l, Qc(b, 1)).l, r, b, {r})
    ensures CastAck(c, l, Qc(b, 1)).ok && CastAck(c, l, Qc(b, 1)).l.last == l.last
  {
    hide CheckCommit, BroadcastShare;
    var m := WithAck(l, Qc(b, 1));
    assert m.sent.acks[|l.sent.acks|].blk == b;
    assert {} + {r} == {r};
  }

  lemma CertificateCounts(c: Config, l: Local, r: nat, b: Block)
    requires Voting(l, r, b) && 2 <= c.nResponsive
    ensures Acking(OnReceiveQc(c, l, Qc(b, 1)).l, r, b, {r})
  {
    hide CastAck;
    var q := Qc(b, 1);
    AckCast1(c, UpdateHqc(Hold(l, q).(last := l.last.(cert := 1)), q), r, b);
  }

  lemma AckCounts(c: Config, l: Local, r: nat, b: Block, voters: set<nat>, x: nat)
    requires Acking(l, r, b, voters) && |voters| < c.nResponsive && b.Block? && b.parent == Genesis
    ensures var m := OnReceiveAck(c, l, x, b, 1).l;
            if |voters + {x}| < c.nResponsive then Acking(m, r, b, voters + {x}) else Done(c, m, b)
  {
    hide BroadcastShare, CheckCommit;
    if x in voters {
      assert voters + {x} == voters;
    } else if |voters| + 1 == c.nResponsive {
      var m := WithCount(l, b, x);
      CommitsFirst(m, b);
      ShareKeeps(c, CheckCommit(m, b).l);
    }
  }

  lemma CommitsFirst(l: Local, b: Block)
    requires l.executed == [] && l.bExec == Genesis && b.Block? && b.parent == Genesis
    ensures var o := CheckCommit(l, b);
            o.ok && o.l.executed == [b] && o.l.sent == l.sent && o.l.marks.acked == l.marks.acked && o.l.view == l.view
  {
    AboveGenesis(b);
  }

  lemma ShareKeeps(c: Config, l: Local)
    ensures var m := BroadcastShare(c, l).l;
            m.executed == l.executed && m.sent.votes == l.sent.votes && m.sent.acks == l.sent.acks &&
            m.marks.acked == l.marks.acked
  {
    hide SharingOf, ProposerOf;
  }

  /** One more allowed event. */
  lemma Step(g: Group, vec: seq<Aggregate>, es: seq<Event>, e: Event)
    requires g.nFaulty < g.n && AllAllowed(g, vec, es) && Allowed(g, After(g, vec, es), e)
    ensures AllAllowed(g, vec, es + [e])
    ensures (e.Assemble? || e.r < g.n) && After(g, vec, es + [e]) == Next(g, After(g, vec, es), e)
  {
    hide Allowed, Next, Initially;
    ReplicaKnown(g, After(g, vec, es), e);
    assert (es + [e])[..|es|] == es;
  }

  /** All certificates and shares are of view 1. */
  ghost predicate Early(es: seq<Event>) {
    forall i :: 0 <= i < |es| ==>
      (es[i].Certificate? ==> es[i].q.view == 1) && (es[i].SharePart? ==> es[i].view == 1)
  }

  /** The certificate of Genesis is there. */
  ghost predicate Based(w: World) {
    |w.certs| >= 1 && w.certs[0].qc == Qc(Genesis, 0)
  }

  /** All honest replicas but p that are below i have got as far as `Voting`, the others are where they started. */
  ghost predicate VotedBelow(g: Group, w: World, vec: seq<Aggregate>, p: nat, b: Block, i: nat) {
    |w.locals| == g.n && Based(w) &&
    forall x :: 0 <= x < |w.locals| && g.Honest(x) && x != p ==>
      if x < i then Voting(w.locals[x], x, b) else Starts(w.locals[x], x, vec)
  }

  lemma MakeProposal(g: Group, vec: seq<Aggregate>, p: nat, cmds: seq<nat>) returns (es: seq<Event>)
    requires g.Good() && 2 <= g.n && g.Honest(p)
    ensures var b, w := First(vec, cmds), After(g, vec, es);
            AllAllowed(g, vec, es) && Early(es) && VotedBelow(g, w, vec, p, b, 0) && Collecting(w.locals[p], p, b, {p})
  {
    hide Voting, Collecting, Starts, Handle, StartLocal;
    var w := Initially(g, vec);
    assert After(g, vec, []) == w && AllAllowed(g, vec, []);
    forall x | 0 <= x < g.n
      ensures Starts(w.locals[x], x, vec)
    {
      StartFacts(g.Config(), x, vec);
    }
    var e := Propose(p, cmds, Genesis);
    StartedToPropose(g.Config(), w.locals[p], p, vec, cmds);
    assert [] + [e] == [e];
    Step(g, vec, [], e);
    es := [e];
  }

  /** What the assumptions ask of the proposal. */
  lemma StartedToPropose(c: Config, l: Local, p: nat, vec: seq<Aggregate>, cmds: seq<nat>)
    requires Starts(l, p, vec) && 2 <= c.nResponsive
    ensures var b, e := First(vec, cmds), Propose(p, cmds, Genesis);
            FirstInView(BallotOf(l, e)) && Collects(c, l, e).None? && Collecting(Handle(c, l, e).l, p, b, {p}) &&
            Extends(Genesis, l.hqc.blk) && NewProposal(l, cmds, Genesis) !in l.finished
  {
    hide Handle, Collects, BallotOf, Collecting;
    Proposes(c, l, p, vec, cmds);
  }

  lemma TakeProposal(g: Group, w: World, vec: seq<Aggregate>, p: nat, cmds: seq<nat>, x: nat)
    requires g.Good() && 2 <= g.n && g.Honest(x) && x != p && p < g.n
    requires VotedBelow(g, w, vec, p, First(vec, cmds), x)
    ensures var b, e := First(vec, cmds), Proposal(x, First(vec, cmds), p, true);
            Allowed(g, w, e) && VotedBelow(g, Next(g, w, e), vec, p, b, x + 1) &&
            Next(g, w, e).locals[p] == w.locals[p]
  {
    hide Handle, Collects, BallotOf, Voting, Starts;
    var b := First(vec, cmds);
    var e := Proposal(x, b, p, true);
    ToldToVote(g.Config(), w.locals[x], x, vec, b, p, cmds);
    assert Exists(w.certs, b.qc.value);
  }

  lemma ToldToVote(c: Config, l: Local, x: nat, vec: seq<Aggregate>, b: Block, p: nat, cmds: seq<nat>)
    requires Starts(l, x, vec) && b == First(vec, cmds) && x != p
    ensures var e := Proposal(x, b, p, true);
            FirstInView(BallotOf(l, e)) && Collects(c, l, e).None? && Voting(Handle(c, l, e).l, x, b)
  {
    hide Handle, Collects, BallotOf, Voting;
    Votes(c, l, x, vec, b, p, cmds);
  }

  /** All honest replicas vote. */
  lemma MakeVotes(g: Group, vec: seq<Aggregate>, p: nat, cmds: seq<nat>) returns (es: seq<Event>)
    requires g.Good() && 2 <= g.n && g.Honest(p)
    ensures var b, w := First(vec, cmds), After(g, vec, es);
            AllAllowed(g, vec, es) && Early(es) && VotedBelow(g, w, vec, p, b, g.n) &&
            Collecting(w.locals[p], p, b, {p})
  {
    hide After, AllAllowed, Allowed, Next, Collecting, Voting, Starts, First;
    es := MakeProposal(g, vec, p, cmds);
    var b := First(vec, cmds);
    for x := 0 to g.n
      invariant AllAllowed(g, vec, es) && Early(es) && VotedBelow(g, After(g, vec, es), vec, p, b, x)
      invariant Collecting(After(g, vec, es).locals[p], p, b, {p})
    {
      if g.Honest(x) && x != p {
        TakeProposal(g, After(g, vec, es), vec, p, cmds, x);
        Step(g, vec, es, Proposal(x, b, p, true));
        es := es + [Proposal(x, b, p, true)];
      }
    }
  }

  /** The honest replicas but p have voted, and p too. */
  ghost predicate AllVoted(g: Group, w: World, p: nat, b: Block) {
    |w.locals| == g.n && p < g.n &&
    forall x :: 0 <= x < |w.locals| && g.Honest(x) && x != p ==> Voting(w.locals[x], x, b)
  }

  /** The certificate is made and p acknowledges it. */
  ghost predicate Certifying(g: Group, w: World, p: nat, b: Block) {
    AllVoted(g, w, p, b) && Acking(w.locals[p], p, b, {p}) && Exists(w.certs, Qc(b, 1))
  }

  lemma TakeVote(g: Group, w: World, p: nat, b: Block, voters: set<nat>, x: nat)
    requires g.Good() && 2 <= g.n && g.Honest(p) && x < g.n && AllVoted(g, w, p, b) && voters <= Replicas(g.n)
    requires Collecting(w.locals[p], p, b, voters) && |voters| < g.Config().nResponsive
    ensures var e := Vote(p, x, b, 1);
            var v := Next(g, w, e);
            Allowed(g, w, e) && AllVoted(g, v, p, b) &&
            if |voters + {x}| < g.Config().nResponsive then Collecting(v.locals[p], p, b, voters + {x})
            else Certifying(g, v, p, b)
  {
    hide OnReceiveVote, Completes, Collecting, Acking;
    var e, c := Vote(p, x, b, 1), g.Config();
    VoteCounts(c, w.locals[p], p, b, voters, x);
    var cert := Completes(c, w.locals[p], x, b, 1);
    if cert.Some? {
      CollectorVoted(w.locals[p], p, b, voters);
      forall y | y in cert.value.voters && g.Honest(y)
        ensures HasVote(w.locals[y], b, 1)
      {
        assert y == p || Voting(w.locals[y], y, b);
      }
      var v := Next(g, w, e);
      assert v.certs[|w.certs|].qc == Qc(b, 1);
    }
  }

  lemma CollectorVoted(l: Local, p: nat, b: Block, voters: set<nat>)
    requires Collecting(l, p, b, voters)
    ensures HasVote(l, b, 1)
  {
  }

  /** The proposer collects votes until it has a certificate. */
  lemma MakeCertificate(g: Group, vec: seq<Aggregate>, p: nat, cmds: seq<nat>) returns (es: seq<Event>)
    requires g.Good() && 2 <= g.n && g.Honest(p)
    ensures AllAllowed(g, vec, es) && Early(es) && Certifying(g, After(g, vec, es), p, First(vec, cmds))
  {
    hide After, AllAllowed, Allowed, Next, Collecting, VotedBelow, AllVoted, First, Certifying, Below;
    es := MakeVotes(g, vec, p, cmds);
    var b := First(vec, cmds);
    var voters: set<nat>, x: nat := {p}, 0;
    EverybodyVoted(g, After(g, vec, es), vec, p, b);
    OnlyOne(p);
    Enough(g, p, 0, voters);
    while x < g.n && |voters| < g.Config().nResponsive
      invariant x <= g.n && Below(voters, p, x) && AllAllowed(g, vec, es) && Early(es)
      invariant voters <= Replicas(g.n) && Below(voters + {x}, p, x + 1)
      invariant x == g.n ==> |voters| >= g.Config().nResponsive
      invariant AllVoted(g, After(g, vec, es), p, b)
      invariant if |voters| < g.Config().nResponsive then Collecting(After(g, vec, es).locals[p], p, b, voters)
                else Certifying(g, After(g, vec, es), p, b)
    {
      TakeVote(g, After(g, vec, es), p, b, voters, x);
      Step(g, vec, es, Vote(p, x, b, 1));
      es := es + [Vote(p, x, b, 1)];
      voters := voters + {x};
      x := x + 1;
      Enough(g, p, x, voters);
    }
  }

  lemma EverybodyVoted(g: Group, w: World, vec: seq<Aggregate>, p: nat, b: Block)
    requires VotedBelow(g, w, vec, p, b, g.n) && p < g.n
    ensures AllVoted(g, w, p, b)
  {
    hide Voting, Starts;
  }

  /** The replicas below x, and p. */
  ghost predicate Below(voters: set<nat>, p: nat, x: nat) {
    voters == Range(0, x) + {p}
  }

  /** One more of them; all of them are a quorum. */
  lemma Enough(g: Group, p: nat, x: nat, voters: set<nat>)
    requires g.Good() && p < g.n && x <= g.n && Below(voters, p, x)
    ensures voters <= Replicas(g.n) && Below(voters + {x}, p, x + 1)
    ensures x == g.n ==> |voters| >= g.Config().nResponsive
  {
    hide Range, Replicas;
    NextReplica(p, x + 1);
    WithinReplicas(g.n, p, x);
  }

  lemma OnlyOne(p: nat)
    ensures Below({p}, p, 0)
  {
    NextReplica(p, 0);
  }

  lemma NextReplica(p: nat, x: nat)
    ensures Range(0, 0) + {p} == {p} && (0 < x ==> Range(0, x) + {p} == Range(0, x - 1) + {p} + {x - 1})
  {
    if 0 < x {
      Swapped(Range(0, x - 1), {x - 1}, {p});
    }
  }

  lemma Swapped<T>(r: set<T>, s: set<T>, t: set<T>)
    ensures (r + s) + t == (r + t) + s
  {
  }

  lemma WithinReplicas(n: nat, p: nat, x: nat)
    requires p < n && x <= n
    ensures Range(0, x) + {p} <= Replicas(n) && (x == n ==> |Range(0, x) + {p}| == n)
  {
    if x == n {
      assert Range(0, x) + {p} == Range(0, x);
    }
  }

  /** All honest replicas below i, and p, acknowledge b; the others have voted for it. */
  ghost predicate AckedBelow(g: Group, w: World, p: nat, b: Block, i: nat) {
    |w.locals| == g.n && Exists(w.certs, Qc(b, 1)) &&
    forall x :: 0 <= x < |w.locals| && g.Honest(x) ==>
      if x < i || x == p then Acking(w.locals[x], x, b, {x}) else Voting(w.locals[x], x, b)
  }

  lemma TakeCertificate(g: Group, w: World, p: nat, b: Block, x: nat)
    requires g.Good() && 2 <= g.n && g.Honest(x) && x != p && AckedBelow(g, w, p, b, x)
    ensures var e := Certificate(x, Qc(b, 1)); Allowed(g, w, e) && AckedBelow(g, Next(g, w, e), p, b, x + 1)
  {
    hide OnReceiveQc, Voting, Acking, Exists;
    CertificateCounts(g.Config(), w.locals[x], x, b);
  }

  /** All honest replicas receive the certificate and acknowledge it. */
  lemma MakeAcks(g: Group, vec: seq<Aggregate>, p: nat, cmds: seq<nat>) returns (es: seq<Event>)
    requires g.Good() && 2 <= g.n && g.Honest(p)
    ensures AllAllowed(g, vec, es) && Early(es) && AckedBelow(g, After(g, vec, es), p, First(vec, cmds), g.n)
  {
    hide After, AllAllowed, Allowed, Next, Voting, Acking, First, Exists;
    es := MakeCertificate(g, vec, p, cmds);
    var b := First(vec, cmds);
    for x := 0 to g.n
      invariant AllAllowed(g, vec, es) && Early(es) && AckedBelow(g, After(g, vec, es), p, b, x)
    {
      if g.Honest(x) && x != p {
        TakeCertificate(g, After(g, vec, es), p, b, x);
        Step(g, vec, es, Certificate(x, Qc(b, 1)));
        es := es + [Certificate(x, Qc(b, 1))];
      }
    }
  }

  /** All honest replicas have acknowledged b; those below j have executed it, and j has the acks of these replicas
      or has executed it too. */
  ghost predicate DoneBelow(g: Group, w: World, b: Block, j: nat, voters: set<nat>)
    requires g.nFaulty < g.n
  {
    |w.locals| == g.n && Exists(w.certs, Qc(b, 1)) &&
    forall x :: 0 <= x < |w.locals| && g.Honest(x) ==>
      if x < j then Done(g.Config(), w.locals[x], b)
      else if x == j && |voters| >= g.Config().nResponsive then Done(g.Config(), w.locals[x], b)
      else Acking(w.locals[x], x, b, if x == j then voters else {x})
  }

  lemma TakeAck(g: Group, w: World, b: Block, j: nat, voters: set<nat>, x: nat)
    requires g.Good() && g.Honest(j) && x < g.n && DoneBelow(g, w, b, j, voters)
    requires |voters| < g.Config().nResponsive && b.Block? && b.parent == Genesis
    ensures var e := Ack(j, x, b, 1); Allowed(g, w, e) && DoneBelow(g, Next(g, w, e), b, j, voters + {x})
  {
    hide OnReceiveAck, Acking, Done, HasAck;
    AckCounts(g.Config(), w.locals[j], j, b, voters, x);
    if g.Honest(x) {
      Acknowledged(g.Config(), w.locals[x], x, b, if x == j then voters else {x});
    }
  }

  lemma Acknowledged(c: Config, l: Local, x: nat, b: Block, voters: set<nat>)
    requires Done(c, l, b) || Acking(l, x, b, voters)
    ensures HasAck(l, b)
  {
  }

  /** In every group of two or more there is a run in which all honest replicas execute the block that one of them
      proposes. */
  lemma AllCommit(g: Group, vec: seq<Aggregate>, p: nat, cmds: seq<nat>) returns (es: seq<Event>)
    requires g.Good() && 2 <= g.n && g.Honest(p)
    ensures AllAllowed(g, vec, es) && Early(es) && DoneBelow(g, After(g, vec, es), First(vec, cmds), g.n, {g.n})
    ensures forall x :: 0 <= x < g.n && g.Honest(x) ==> After(g, vec, es).locals[x].executed == [First(vec, cmds)]
  {
    hide After, AllAllowed, Allowed, Next, AckedBelow, DoneBelow, First;
    es := MakeAcks(g, vec, p, cmds);
    var b := First(vec, cmds);
    FirstIsBlock(vec, cmds);
    NoneDone(g, After(g, vec, es), p, b);
    for j := 0 to g.n
      invariant AllAllowed(g, vec, es) && Early(es) && DoneBelow(g, After(g, vec, es), b, j, {j})
    {
      if g.Honest(j) {
        es := CollectAcks(g, vec, es, b, j);
      }
      NextDone(g, After(g, vec, es), b, j, if g.Honest(j) then Replicas(g.n) else {j});
    }
    AllDone(g, After(g, vec, es), b);
  }

  lemma FirstIsBlock(vec: seq<Aggregate>, cmds: seq<nat>)
    ensures First(vec, cmds).Block? && First(vec, cmds).parent == Genesis
  {
  }

  lemma NoneDone(g: Group, w: World, p: nat, b: Block)
    requires g.Good() && 2 <= g.n && AckedBelow(g, w, p, b, g.n)
    ensures DoneBelow(g, w, b, 0, {0})
  {
    hide Acking, Voting, Done;
  }

  lemma NextDone(g: Group, w: World, b: Block, j: nat, voters: set<nat>)
    requires g.Good() && 2 <= g.n && DoneBelow(g, w, b, j, voters)
    requires g.Honest(j) ==> |voters| >= g.Config().nResponsive
    ensures DoneBelow(g, w, b, j + 1, {j + 1})
  {
    hide Acking, Done;
  }

  lemma AllDone(g: Group, w: World, b: Block)
    requires g.nFaulty < g.n && DoneBelow(g, w, b, g.n, {g.n})
    ensures forall x :: 0 <= x < |w.locals| && g.Honest(x) ==> w.locals[x].executed == [b]
  {
  }

  /** Acks from all replicas, until they are enough. */
  lemma CollectAcks(g: Group, vec: seq<Aggregate>, es0: seq<Event>, b: Block, j: nat) returns (es: seq<Event>)
    requires g.Good() && g.Honest(j) && AllAllowed(g, vec, es0) && Early(es0)
    requires DoneBelow(g, After(g, vec, es0), b, j, {j})
    requires b.Block? && b.parent == Genesis
    ensures AllAllowed(g, vec, es) && Early(es) && DoneBelow(g, After(g, vec, es), b, j, Replicas(g.n))
  {
    hide After, AllAllowed, Allowed, Next, DoneBelow, Below;
    es := es0;
    var voters: set<nat>, x: nat := {j}, 0;
    OnlyOne(j);
    Enough(g, j, 0, voters);
    while x < g.n && |voters| < g.Config().nResponsive
      invariant x <= g.n && Below(voters, j, x) && AllAllowed(g, vec, es) && Early(es)
      invariant Below(voters + {x}, j, x + 1) && (x == g.n ==> |voters| >= g.Config().nResponsive)
      invariant DoneBelow(g, After(g, vec, es), b, j, voters)
    {
      TakeAck(g, After(g, vec, es), b, j, voters, x);
      Step(g, vec, es, Ack(j, x, b, 1));
      es := es + [Ack(j, x, b, 1)];
      voters := voters + {x};
      x := x + 1;
      Enough(g, j, x, voters);
    }
    QuorumDone(g, After(g, vec, es), b, j, voters);
  }

  lemma QuorumDone(g: Group, w: World, b: Block, j: nat, voters: set<nat>)
    requires g.Good() && DoneBelow(g, w, b, j, voters) && |voters| >= g.Config().nResponsive
    ensures DoneBelow(g, w, b, j, Replicas(g.n))
  {
    hide Acking, Done;
  }
}
