/** What makes a replica propose, and what its proposals have to be higher than. */
module ConsensusProposals {
  import opened ConsensusBlocks
  import opened ConsensusOrder
  import opened ConsensusReplica
  import opened ConsensusRun
  import opened ConsensusSteps
  import opened ConsensusTranscripts

  /** The height of the last block voted for, or 0. */
  function HeightVoted(votes: seq<VoteCast>): nat {
    if votes == [] then 0 else Height(votes[|votes| - 1].blk)
  }

  /** Neither votes nor status messages. */
  ghost predicate Unvoted(l: Local, m: Local) {
    m.vheight == l.vheight && m.sent.votes == l.sent.votes && m.statusReceived == l.statusReceived
  }

  lemma TryEnterUnvoted(c: Config, l: Local)
    ensures Unvoted(l, TryEnterView(c, l))
  {
    hide SharingOf, ProposerOf;
  }

  lemma ShareUnvoted(c: Config, l: Local, view: nat, valid: bool)
    ensures Unvoted(l, OnReceiveShare(c, l, view, valid).l)
  {
    hide TryEnterView;
    var m := l.(pvss := l.pvss.(shares := l.pvss.shares[view := Get(l.pvss.shares, view, 0) + 1]));
    TryEnterUnvoted(c, m.(last := m.last.(shares := l.view, beacon := l.view)));
  }

  lemma AckUnvoted(c: Config, l: Local, voter: nat, b: Block, view: nat)
    ensures Unvoted(l, OnReceiveAck(c, l, voter, b, view).l)
  {
    hide OnReceiveShare, Walk, Above, ProposerOf;
    var m := CheckCommit(WithCount(l, b, voter), b).l;
    var source := Get(m.pvss.aggQueue, ProposerOf(c, m.view), NO_AGGREGATE);
    ShareUnvoted(c, m.(sent := m.sent.(shares := m.sent.shares + [Share(m.view, source)])), m.view, true);
  }

  lemma CertificateUnvoted(c: Config, l: Local, q: Qc)
    ensures Unvoted(l, OnReceiveQc(c, l, q).l)
  {
    hide OnReceiveAck, TryEnterView;
    var m := UpdateHqc(Hold(l, q).(last := l.last.(cert := q.view)), q);
    AckUnvoted(c, WithAck(m, q), m.id, q.blk, m.view);
    TryEnterUnvoted(c, CastAck(c, m, q).l);
  }

  lemma VoteUnvoted(c: Config, l: Local, voter: nat, b: Block, view: nat)
    ensures Unvoted(l, OnReceiveVote(c, l, voter, b, view).l)
  {
    hide OnReceiveAck;
    var q, got := Qc(b, Get(l.marks.selfQc, b, l.view)), Get(l.marks.voted, b, {});
    var m := l.(marks := l.marks.(voted := l.marks.voted[b := got + {voter}], selfQc := l.marks.selfQc[b := q.view]));
    AckUnvoted(c, WithAck(UpdateHqc(m, q), q), m.id, b, m.view);
  }

  lemma CastVoteHeight(c: Config, l: Local, b: Block, dest: nat)
    ensures CastVote(c, l, b, dest).l.vheight == l.vheight
    ensures CastVote(c, l, b, dest).l.statusReceived == l.statusReceived
  {
    hide OnReceiveVote;
    VoteUnvoted(c, WithVote(l, b, dest), l.id, b, l.view);
  }

  /** A proposal that is refused for its transcript only after the replica has made up its mind to vote for it. */
  ghost predicate RefusedLate(l: Local, e: Event) {
    e.Proposal? && !e.valid && e.blk !in l.finished && Get(l.proposals, Height(e.blk), {}) <= {e.blk} &&
    Extends(e.blk, (if e.blk.Block? && e.blk.qc.Some? then UpdateHqc(l, e.blk.qc.value) else l).hqc.blk)
  }

  /** vheight follows the votes cast, and proposals refused late; status messages are counted by their handler only. */
  lemma HandleHeight(c: Config, l: Local, e: Event)
    ensures !e.Status? ==> Handle(c, l, e).l.statusReceived == l.statusReceived
    ensures var m := Handle(c, l, e).l;
            if RefusedLate(l, e) then m.vheight == Height(e.blk) && m.sent.votes == l.sent.votes
            else if m.sent.votes == l.sent.votes then m.vheight == l.vheight
            else |m.sent.votes| == |l.sent.votes| + 1 && m.vheight == HeightVoted(m.sent.votes)
  {
    hide CastVote, OnReceiveVote, OnReceiveQc, OnReceiveAck, OnReceiveShare, Walk, Height, Extends, Consider;
    match e
    case Propose(_, cmds, parent) =>
      BallotHandled(c, l, e);
      var b := NewProposal(l, cmds, parent);
      CastVoteHeight(c, Hold(l, Qc(b, l.view)).(vheight := Height(b), finished := l.finished + {b}), b, l.id);
    case Proposal(_, blk, proposer, valid) =>
      BallotHandled(c, l, e);
      OpinionOf(l, blk);
      ConsiderHeight(l, blk);
      CastVoteHeight(c, Noted(Consider(l, blk).0, blk), blk, proposer);
    case Vote(_, voter, blk, view) => VoteUnvoted(c, l, voter, blk, view);
    case Certificate(_, q) => CertificateUnvoted(c, l, q);
    case Ack(_, voter, blk, view) => AckUnvoted(c, l, voter, blk, view);
    case Status(_, from, view, q) =>
    case SharePart(_, view, valid) => ShareUnvoted(c, l, view, valid);
    case Transcript(_, forView, from, valid, agg) =>
    case Assemble(_) =>
  }

  lemma ConsiderHeight(l: Local, b: Block)
    ensures var (m, opinion) := Consider(l, b);
            m.vheight == (if opinion then Height(b) else l.vheight) && m.sent == l.sent &&
            m.finished == l.finished && m.statusReceived == l.statusReceived
  {
    hide Walk, Height;
  }

  /** No proposal with an invalid transcript that the replica would have voted for. */
  ghost predicate NoneRefused(c: Config, id: nat, vec: seq<Aggregate>, es: seq<Event>) {
    es == [] ||
    (NoneRefused(c, id, vec, es[..|es| - 1]) && !RefusedLate(LocalAfter(c, id, vec, es[..|es| - 1]), es[|es| - 1]))
  }

  /** As long as none is refused late, vheight is the height of the last block voted for. */
  lemma {:induction false} HeightOfLastVote(c: Config, id: nat, vec: seq<Aggregate>, es: seq<Event>)
    requires NoneRefused(c, id, vec, es)
    ensures var l := LocalAfter(c, id, vec, es); l.vheight == HeightVoted(l.sent.votes)
  {
    hide Handle, RefusedLate, Numbered, SharingOf;
    if es != [] {
      HeightOfLastVote(c, id, vec, es[..|es| - 1]);
      HandleHeight(c, LocalAfter(c, id, vec, es[..|es| - 1]), es[|es| - 1]);
    }
  }

  /** From there, one event keeps that exactly if it is not refused late or does not change the height. */
  lemma HeightKept(c: Config, l: Local, e: Event)
    requires l.vheight == HeightVoted(l.sent.votes)
    ensures var m := Handle(c, l, e).l;
            m.vheight == HeightVoted(m.sent.votes) <==> !(RefusedLate(l, e) && Height(e.blk) != l.vheight)
  {
    hide Handle, RefusedLate, Height;
    HandleHeight(c, l, e);
  }

  /** Who has reported its status for view w while that counted: before w was over, and before a proposal was made. */
  function Reporters(c: Config, id: nat, vec: seq<Aggregate>, es: seq<Event>, w: nat): set<nat> {
    if es == [] then {}
    else
      var fs, e := es[..|es| - 1], es[|es| - 1];
      var l := LocalAfter(c, id, vec, fs);
      Reporters(c, id, vec, fs, w) +
      if e.Status? && e.view == w && l.view <= w && l.last.proposed < l.view then {e.from} else {}
  }

  /** Reports are counted until there are nmajority of them. */
  ghost predicate CountsReports(c: Config, id: nat, vec: seq<Aggregate>, es: seq<Event>, w: nat) {
    var got, all := Get(LocalAfter(c, id, vec, es).statusReceived, w, {}), Reporters(c, id, vec, es, w);
    got <= all && (|got| < c.nMajority ==> got == all)
  }

  lemma {:induction false} AlwaysReports(c: Config, id: nat, vec: seq<Aggregate>, es: seq<Event>, w: nat)
    ensures CountsReports(c, id, vec, es, w)
  {
    hide LocalAfter, Handle;
    if es == [] {
      NoReports(c, id, vec);
    } else {
      var fs, e := es[..|es| - 1], es[|es| - 1];
      var l := LocalAfter(c, id, vec, fs);
      AlwaysReports(c, id, vec, fs, w);
      HandleHeight(c, l, e);
      OneMoreEvent(c, id, vec, es);
      if e.Status? {
        StatusCounted(c, l, e);
      }
    }
  }

  lemma OneMoreEvent(c: Config, id: nat, vec: seq<Aggregate>, es: seq<Event>)
    requires es != []
    ensures LocalAfter(c, id, vec, es) == Handle(c, LocalAfter(c, id, vec, es[..|es| - 1]), es[|es| - 1]).l
  {
  }

  lemma NoReports(c: Config, id: nat, vec: seq<Aggregate>)
    ensures LocalAfter(c, id, vec, []).statusReceived == map[]
  {
    hide Numbered, Replicas, SharingOf;
  }

  lemma StatusCounted(c: Config, l: Local, e: Event)
    requires e.Status?
    ensures var got := Get(l.statusReceived, e.view, {});
            Handle(c, l, e).l.statusReceived ==
            if e.view >= l.view && l.last.proposed < l.view && |got| < c.nMajority
            then l.statusReceived[e.view := got + {e.from}] else l.statusReceived
  {
  }

  /** A status message makes the replica propose exactly if it is the first one of its sender and the nmajority-th that
      counts for a view that is not over, no proposal was made in the view, and the highest certificate, the reported
      one included, is that of the view before. */
  lemma ProposesWhen(c: Config, id: nat, vec: seq<Aggregate>, es: seq<Event>, from: nat, w: nat, q: Qc)
    ensures var l := LocalAfter(c, id, vec, es); var all := Reporters(c, id, vec, es, w);
            Proposes(c, l, from, w, q) <==>
              w >= l.view && l.last.proposed < l.view && from !in all && |all| + 1 == c.nMajority &&
              (if q.view > l.hqc.view then q.view else l.hqc.view) + 1 == l.view
  {
    hide LocalAfter;
    AlwaysReports(c, id, vec, es, w);
    SubsetCount(Get(LocalAfter(c, id, vec, es).statusReceived, w, {}), Reporters(c, id, vec, es, w));
  }
}
