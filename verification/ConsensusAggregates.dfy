/** Which transcripts a replica aggregates, and where those it holds for a view come from. */
module ConsensusAggregates {
  import opened ConsensusBlocks
  import opened ConsensusReplica
  import opened ConsensusRun
  import opened ConsensusSteps
  import opened ConsensusTranscripts

  /** How many transcripts for view w the replica has made for itself. */
  function Kept(id: nat, sharings: seq<Sharing>, w: nat): nat {
    if sharings == [] then 0
    else
      var s := sharings[|sharings| - 1];
      Kept(id, sharings[..|sharings| - 1], w) + if s.dest == id && s.forView == w then 1 else 0
  }

  function Noted(l: Local, w: nat): nat {
    |Get(l.pvss.transcriptIds, w, [])|
  }

  /** Only the replica's own transcripts have been noted in between, and none taken over. */
  ghost predicate OnlyOwn(l: Local, m: Local) {
    m.id == l.id && m.pvss.viewAgg == l.pvss.viewAgg &&
    forall w: nat :: Noted(m, w) >= Noted(l, w) &&
      Noted(m, w) + Kept(l.id, l.sent.sharings, w) == Noted(l, w) + Kept(m.id, m.sent.sharings, w)
  }

  lemma OwnFrom(l: Local, m: Local, k: Local)
    requires OnlyOwn(m, k) && l.id == m.id && l.pvss.viewAgg == m.pvss.viewAgg
    requires l.pvss.transcriptIds == m.pvss.transcriptIds && l.sent.sharings == m.sent.sharings
    ensures OnlyOwn(l, k)
  {
    hide Kept;
  }

  lemma TryEnterOwn(c: Config, l: Local)
    ensures OnlyOwn(l, TryEnterView(c, l))
  {
    hide SharingOf, UpdateAggQueue;
    var k := UpdateAggQueue(c, l, l.view);
    var m := k.(view := l.view + 1);
    UpdateOwn(c, l);
    EnterOwn(c, m);
    OwnFrom(l, m, EnterView(c, m));
  }

  lemma UpdateOwn(c: Config, l: Local)
    ensures var k := UpdateAggQueue(c, l, l.view);
            k.id == l.id && k.pvss.viewAgg == l.pvss.viewAgg && k.pvss.transcriptIds == l.pvss.transcriptIds &&
            k.sent == l.sent && k.view == l.view
  {
    hide ProposerOf;
  }

  lemma EnterOwn(c: Config, l: Local)
    ensures OnlyOwn(l, EnterView(c, l))
  {
    hide SharingOf;
    var s := SharingOf(c.nReplicas, l.id, l.view);
    assert (l.sent.sharings + [s])[..|l.sent.sharings|] == l.sent.sharings;
  }

  lemma ShareOwn(c: Config, l: Local, view: nat, valid: bool)
    ensures OnlyOwn(l, OnReceiveShare(c, l, view, valid).l)
  {
    hide TryEnterView, Kept;
    var m := l.(pvss := l.pvss.(shares := l.pvss.shares[view := Get(l.pvss.shares, view, 0) + 1]));
    TryEnterOwn(c, m.(last := m.last.(shares := l.view, beacon := l.view)));
  }

  lemma AckOwn(c: Config, l: Local, voter: nat, b: Block, view: nat)
    ensures OnlyOwn(l, OnReceiveAck(c, l, voter, b, view).l)
  {
    hide OnReceiveShare, Walk, Above, ProposerOf, Kept;
    var m := CheckCommit(WithCount(l, b, voter), b).l;
    var source := Get(m.pvss.aggQueue, ProposerOf(c, m.view), NO_AGGREGATE);
    ShareOwn(c, m.(sent := m.sent.(shares := m.sent.shares + [Share(m.view, source)])), m.view, true);
  }

  lemma CertificateOwn(c: Config, l: Local, q: Qc)
    ensures OnlyOwn(l, OnReceiveQc(c, l, q).l)
  {
    hide OnReceiveAck, TryEnterView, Kept;
    var m := UpdateHqc(Hold(l, q).(last := l.last.(cert := q.view)), q);
    AckOwn(c, WithAck(m, q), m.id, q.blk, m.view);
    TryEnterOwn(c, CastAck(c, m, q).l);
  }

  lemma VoteOwn(c: Config, l: Local, voter: nat, b: Block, view: nat)
    ensures OnlyOwn(l, OnReceiveVote(c, l, voter, b, view).l)
  {
    hide OnReceiveAck, Kept;
    var q, got := Qc(b, Get(l.marks.selfQc, b, l.view)), Get(l.marks.voted, b, {});
    var m := l.(marks := l.marks.(voted := l.marks.voted[b := got + {voter}], selfQc := l.marks.selfQc[b := q.view]));
    AckOwn(c, WithAck(UpdateHqc(m, q), q), m.id, b, m.view);
  }

  lemma CastVoteOwn(c: Config, l: Local, b: Block, dest: nat)
    ensures OnlyOwn(l, CastVote(c, l, b, dest).l)
  {
    hide OnReceiveVote, Kept;
    VoteOwn(c, WithVote(l, b, dest), l.id, b, l.view);
  }

  /** A block whose transcript the replica takes over. */
  ghost predicate TakesOver(l: Local, e: Event) {
    e.Proposal? && e.valid && e.blk !in l.finished
  }

  /** What is held after it. */
  ghost function Taken(l: Local, e: Event): map<nat, Aggregate> {
    if TakesOver(l, e) then l.pvss.viewAgg[l.view := ExtraOf(e.blk)] else l.pvss.viewAgg
  }

  /** Everything but a transcript: at most a block's transcript is taken over for the view. */
  lemma HandleOwn(c: Config, l: Local, e: Event)
    requires !e.Transcript?
    ensures OnlyOwn(l.(pvss := l.pvss.(viewAgg := Taken(l, e))), Handle(c, l, e).l)
  {
    hide CastVote, OnReceiveVote, OnReceiveQc, OnReceiveAck, OnReceiveShare, Walk, Height, Kept, Consider;
    match e
    case Propose(_, cmds, parent) =>
      var b := NewProposal(l, cmds, parent);
      CastVoteOwn(c, Hold(l, Qc(b, l.view)).(vheight := Height(b), finished := l.finished + {b}), b, l.id);
    case Proposal(_, blk, proposer, valid) =>
      ConsiderOwn(l, blk);
      CastVoteOwn(c, ConsensusReplica.Noted(Consider(l, blk).0, blk), blk, proposer);
    case Vote(_, voter, blk, view) => VoteOwn(c, l, voter, blk, view);
    case Certificate(_, q) => CertificateOwn(c, l, q);
    case Ack(_, voter, blk, view) => AckOwn(c, l, voter, blk, view);
    case Status(_, from, view, q) =>
    case SharePart(_, view, valid) => ShareOwn(c, l, view, valid);
    case Assemble(_) =>
  }

  lemma ConsiderOwn(l: Local, b: Block)
    ensures var m := Consider(l, b).0;
            m.id == l.id && m.view == l.view && m.sent == l.sent && m.pvss == l.pvss && m.finished == l.finished
  {
    hide Walk, Height;
  }

  /** The valid transcripts for view w among the events. */
  function Given(es: seq<Event>, w: nat): nat {
    if es == [] then 0
    else
      var e := es[|es| - 1];
      Given(es[..|es| - 1], w) + if e.Transcript? && e.forView == w && e.valid then 1 else 0
  }

  /** The transcripts for view w that have been there so far: those received, and the replica's own. */
  function Seen(c: Config, id: nat, vec: seq<Aggregate>, es: seq<Event>, w: nat): nat {
    Given(es, w) + Kept(id, LocalAfter(c, id, vec, es).sent.sharings, w)
  }

  /** As long as there are fewer than nmajority, all of them are noted. */
  ghost predicate Counts(c: Config, id: nat, vec: seq<Aggregate>, es: seq<Event>) {
    var l := LocalAfter(c, id, vec, es);
    l.id == id &&
    forall w: nat :: if Noted(l, w) < c.nMajority then Noted(l, w) == Seen(c, id, vec, es, w)
                     else Seen(c, id, vec, es, w) >= c.nMajority
  }

  lemma {:induction false} AlwaysCounts(c: Config, id: nat, vec: seq<Aggregate>, es: seq<Event>)
    ensures Counts(c, id, vec, es)
  {
    hide LocalAfter, Handle, Kept;
    if es == [] {
      CountsAtStart(c, id, vec);
    } else {
      var fs, e := es[..|es| - 1], es[|es| - 1];
      AlwaysCounts(c, id, vec, fs);
      StepCounts(c, id, vec, es);
    }
  }

  lemma CountsAtStart(c: Config, id: nat, vec: seq<Aggregate>)
    ensures Counts(c, id, vec, [])
  {
    hide Numbered, Replicas;
    EnterOwn(c, InitLocal(c, id, vec));
  }

  lemma StepCounts(c: Config, id: nat, vec: seq<Aggregate>, es: seq<Event>)
    requires es != [] && Counts(c, id, vec, es[..|es| - 1])
    ensures Counts(c, id, vec, es)
  {
    hide LocalAfter, Kept, Handle, Taken, Noted;
    var l, e := LocalAfter(c, id, vec, es[..|es| - 1]), es[|es| - 1];
    OneMore(c, id, vec, es);
    if e.Transcript? {
      TranscriptNoted(c, l, e);
    } else {
      HandleOwn(c, l, e);
      NotedOn(l, Taken(l, e), Handle(c, l, e).l);
    }
  }

  lemma NotedOn(l: Local, aggs: map<nat, Aggregate>, m: Local)
    requires OnlyOwn(l.(pvss := l.pvss.(viewAgg := aggs)), m)
    ensures m.id == l.id
    ensures forall w: nat ::
              Noted(m, w) >= Noted(l, w) &&
              Noted(m, w) + Kept(l.id, l.sent.sharings, w) == Noted(l, w) + Kept(m.id, m.sent.sharings, w)
  {
    hide Kept;
    assert forall w: nat :: Noted(l, w) == Noted(l.(pvss := l.pvss.(viewAgg := aggs)), w);
  }

  lemma TranscriptNoted(c: Config, l: Local, e: Event)
    requires e.Transcript?
    ensures Handle(c, l, e).l.id == l.id && Handle(c, l, e).l.sent == l.sent
    ensures forall w: nat :: Noted(Handle(c, l, e).l, w) ==
              Noted(l, w) + if e.valid && w == e.forView && Noted(l, w) < c.nMajority then 1 else 0
  {
  }

  /** A transcript that arrives makes an aggregate exactly if it is valid and the nmajority-th for its view, the
      replica's own counted. So none does where the replica's own one is that. */
  lemma AggregateMade(c: Config, id: nat, vec: seq<Aggregate>, es: seq<Event>, e: Event)
    requires e.Transcript?
    ensures var l, m := LocalAfter(c, id, vec, es), LocalAfter(c, id, vec, es + [e]);
            m.pvss.viewAgg == if e.valid && Seen(c, id, vec, es, e.forView) + 1 == c.nMajority
                              then l.pvss.viewAgg[e.forView := e.agg] else l.pvss.viewAgg
  {
    hide Kept;
    AlwaysCounts(c, id, vec, es);
    var l := LocalAfter(c, id, vec, es);
    assert (es + [e])[..|es|] == es;
    assert LocalAfter(c, id, vec, es + [e]) == Handle(c, l, e).l;
    hide LocalAfter;
  }

  /** Where what is held for view w comes from: from the k-th event, a transcript or a block, or from the set-up. */
  ghost predicate ComesFrom(c: Config, id: nat, vec: seq<Aggregate>, es: seq<Event>, w: nat, agg: Aggregate, k: nat) {
    if k >= |es| then 1 <= w <= |vec| && agg == vec[w - 1]
    else
      var l, e := LocalAfter(c, id, vec, es[..k]), es[k];
      (e.Transcript? && e.valid && e.forView == w && e.agg == agg && Seen(c, id, vec, es[..k], w) + 1 == c.nMajority) ||
      (TakesOver(l, e) && l.view == w && ExtraOf(e.blk) == agg)
  }

  lemma {:induction false} HeldFrom(c: Config, id: nat, vec: seq<Aggregate>, es: seq<Event>, w: nat) returns (k: nat)
    requires w in LocalAfter(c, id, vec, es).pvss.viewAgg
    ensures ComesFrom(c, id, vec, es, w, LocalAfter(c, id, vec, es).pvss.viewAgg[w], k)
  {
    hide LocalAfter, Handle, Kept, TakesOver;
    if es == [] {
      k := 0;
      HeldAtStart(c, id, vec);
    } else {
      var fs, e := es[..|es| - 1], es[|es| - 1];
      var l, m := LocalAfter(c, id, vec, fs), LocalAfter(c, id, vec, es);
      assert es == fs + [e];
      if e.Transcript? {
        AggregateMade(c, id, vec, fs, e);
      } else {
        HandleOwn(c, l, e);
        OneMore(c, id, vec, es);
      }
      if w in l.pvss.viewAgg && m.pvss.viewAgg[w] == l.pvss.viewAgg[w] {
        k := HeldFrom(c, id, vec, fs, w);
        if k < |fs| {
          assert fs[..k] == es[..k] && fs[k] == es[k];
        } else {
          k := |es|;
        }
      } else {
        k := |fs|;
      }
    }
  }

  lemma OneMore(c: Config, id: nat, vec: seq<Aggregate>, es: seq<Event>)
    requires es != []
    ensures LocalAfter(c, id, vec, es) == Handle(c, LocalAfter(c, id, vec, es[..|es| - 1]), es[|es| - 1]).l
  {
  }

  lemma HeldAtStart(c: Config, id: nat, vec: seq<Aggregate>)
    ensures LocalAfter(c, id, vec, []).pvss.viewAgg == Numbered(vec, 1)
  {
    hide Numbered, Replicas, SharingOf;
  }
}
