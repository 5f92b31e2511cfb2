/** How transcripts are spread over the views, and that each view finds its transcript in the queue. */
module ConsensusTranscripts {
  import opened Arithmetic
  import opened ConsensusBlocks
  import opened ConsensusReplica
  import opened ConsensusRun
  import opened ConsensusSteps

  /** A transcript sent in view u goes to the proposer of the view it is for, n + 1 to 3n - 1 views ahead. */
  lemma SentAhead(c: Config, id: nat, u: Positive)
    ensures var s := SharingOf(c.nReplicas, id, u); var n := c.nReplicas;
            s.dest < n && s.forView >= 1 && s.dest == ProposerOf(c, s.forView) &&
            u + n + 1 <= s.forView <= u + 3 * n - 1
  {
    var n, s := c.nReplicas, SharingOf(c.nReplicas, id, u);
    var mul := (u - 1) / n;
    assert (2 + mul) * n == 2 * n + mul * n;
    assert u - 1 == mul * n + (u - 1) % n;
    QuotientRemainder(s.forView - 1, n, 2 + mul, s.dest);
  }

  /** The view in which replica id sends its transcript for view w. */
  function SentIn(n: Positive, id: nat, w: nat): nat
    requires id < n && 2 * n < w
  {
    AtLeastTwo(n, w);
    ((w - 1) / n - 2) * n + Round(n, id, (w - 1) % n) + 1
  }

  lemma SumModulo(n: Positive, id: nat, mul: nat, s: nat)
    requires id < n && s < n
    ensures (id + mul * n + s + 1) % n == if id + s + 1 < n then id + s + 1 else id + s + 1 - n
  {
    if id + s + 1 < n {
      QuotientRemainder(id + mul * n + s + 1, n, mul, id + s + 1);
    } else {
      assert (mul + 1) * n == mul * n + n;
      QuotientRemainder(id + mul * n + s + 1, n, mul + 1, id + s + 1 - n);
    }
  }

  lemma TwoMore(q: nat, k: nat, n: nat)
    requires k == q + 2
    ensures k * n == q * n + 2 * n
  {
  }

  lemma SentInBack(n: Positive, id: nat, u: Positive, w: nat)
    requires id < n && SharingOf(n, id, u).forView == w
    ensures 2 * n < w && u == SentIn(n, id, w)
  {
    var mul, s, dest := (u - 1) / n, (u - 1) % n, (id + u) % n;
    assert u == mul * n + s + 1;
    SumModulo(n, id, mul, s);
    TwoMore(mul, 2 + mul, n);
    QuotientRemainder(w - 1, n, 2 + mul, dest);
  }

  /** How far the start of the next round brings replica id back round to d. */
  function Round(n: Positive, id: nat, d: nat): (t: nat)
    requires id < n && d < n
    ensures t < n
  {
    if id + 1 <= d then d - id - 1 else d + n - id - 1
  }

  lemma SentInFor(n: Positive, id: nat, w: nat)
    requires id < n && 2 * n < w
    ensures SentIn(n, id, w) >= 1 && SharingOf(n, id, SentIn(n, id, w)).forView == w
  {
    AtLeastTwo(n, w);
    var k, d := (w - 1) / n, (w - 1) % n;
    assert w - 1 == k * n + d;
    SharingAt(n, id, k - 2, Round(n, id, d));
  }

  lemma SharingAt(n: Positive, id: nat, mul: nat, t: nat)
    requires id < n && t < n
    ensures var d := if id + t + 1 < n then id + t + 1 else id + t + 1 - n;
            mul * n + t + 1 >= 1 && SharingOf(n, id, mul * n + t + 1) == Sharing(d, (2 + mul) * n + d + 1)
  {
    QuotientRemainder(mul * n + t, n, mul, t);
    SumModulo(n, id, mul, t);
  }

  lemma AtLeastTwo(n: Positive, w: nat)
    requires 2 * n < w
    ensures 2 <= (w - 1) / n
  {
    if (w - 1) / n < 2 {
      LessTimes((w - 1) / n, 2, n);
    }
  }

  /** Slot by slot, what the queue holds at the start of view v: what was queued for the last view of the slot's
      replica for which the time has come, or else what the set-up put there. */
  ghost predicate QueueOk(c: Config, vec: seq<Aggregate>, v: nat, q: map<nat, Aggregate>, queued: map<nat, Aggregate>) {
    (forall w: nat :: w in queued <==> 1 <= w && w + c.nMajority <= v) &&
    (forall w: nat :: w in queued && v < w + c.nReplicas + c.nMajority ==>
      w >= 1 && ProposerOf(c, w) in q && q[ProposerOf(c, w)] == queued[w]) &&
    (forall p: nat :: p < |vec| && v < p + 1 + c.nMajority ==> p in q && q[p] == vec[p])
  }

  /** One transcript has been sent in each view so far. */
  ghost predicate Shared(c: Config, id: nat, l: Local) {
    l.id == id && |l.sent.sharings| == l.view &&
    forall i: nat :: i < |l.sent.sharings| ==> l.sent.sharings[i] == SharingOf(c.nReplicas, id, i + 1)
  }

  ghost predicate Rotates(c: Config, id: nat, vec: seq<Aggregate>, l: Local) {
    QueueOk(c, vec, l.view, l.pvss.aggQueue, l.pvss.queued) && Shared(c, id, l)
  }

  /** Views less than n apart have different proposers. */
  lemma OtherProposer(c: Config, w: Positive, x: Positive)
    requires w < x < w + c.nReplicas
    ensures ProposerOf(c, w) != ProposerOf(c, x)
  {
    var n := c.nReplicas;
    if ProposerOf(c, w) == ProposerOf(c, x) {
      var a, b := (w - 1) / n, (x - 1) / n;
      assert w - 1 == a * n + ProposerOf(c, w) && x - 1 == b * n + ProposerOf(c, x);
      if a < b {
        LessTimes(a, b, n);
      } else if b < a {
        LessTimes(b, a, n);
      }
    }
  }

  lemma EarlyProposer(c: Config, v: Positive)
    requires v <= c.nReplicas
    ensures ProposerOf(c, v) == v - 1
  {
    QuotientRemainder(v - 1, c.nReplicas, 0, v - 1);
  }

  lemma QueueAdvances(c: Config, vec: seq<Aggregate>, v: Positive, q: map<nat, Aggregate>,
                      queued: map<nat, Aggregate>, agg: Aggregate)
    requires QueueOk(c, vec, v, q, queued) && |vec| <= c.nReplicas && c.nMajority <= v
    ensures var x := v - c.nMajority + 1;
            QueueOk(c, vec, v + 1, q[ProposerOf(c, x) := agg], queued[x := agg])
  {
    hide ProposerOf;
    var x := v - c.nMajority + 1;
    forall w: nat | w in queued && v + 1 < w + c.nReplicas + c.nMajority
      ensures ProposerOf(c, w) != ProposerOf(c, x)
    {
      OtherProposer(c, w, x);
    }
    var next := q[ProposerOf(c, x) := agg];
    forall p: nat | p < |vec| && v + 1 < p + 1 + c.nMajority
      ensures p in next && next[p] == vec[p]
    {
      EarlyProposer(c, p + 1);
      OtherProposer(c, x, p + 1);
    }
  }

  lemma QueueWaits(c: Config, vec: seq<Aggregate>, v: Positive, q: map<nat, Aggregate>, queued: map<nat, Aggregate>)
    requires QueueOk(c, vec, v, q, queued) && v < c.nMajority
    ensures QueueOk(c, vec, v + 1, q, queued)
  {
  }

  lemma TryEnterRotates(c: Config, id: nat, vec: seq<Aggregate>, l: Local)
    requires Rotates(c, id, vec, l) && |vec| <= c.nReplicas
    ensures Rotates(c, id, vec, TryEnterView(c, l))
  {
    hide QueueOk, SharingOf, ProposerOf;
    if l.view < c.nMajority {
      QueueWaits(c, vec, l.view, l.pvss.aggQueue, l.pvss.queued);
    } else {
      var agg := Get(l.pvss.viewAgg, l.view - c.nMajority + 1, NO_AGGREGATE);
      QueueAdvances(c, vec, l.view, l.pvss.aggQueue, l.pvss.queued, agg);
    }
  }

  lemma ShareRotates(c: Config, id: nat, vec: seq<Aggregate>, l: Local, view: nat, valid: bool)
    requires Rotates(c, id, vec, l) && |vec| <= c.nReplicas
    ensures Rotates(c, id, vec, OnReceiveShare(c, l, view, valid).l)
  {
    hide QueueOk, TryEnterView;
    var m := l.(pvss := l.pvss.(shares := l.pvss.shares[view := Get(l.pvss.shares, view, 0) + 1]));
    TryEnterRotates(c, id, vec, m.(last := m.last.(shares := l.view, beacon := l.view)));
  }

  lemma AckRotates(c: Config, id: nat, vec: seq<Aggregate>, l: Local, voter: nat, b: Block, view: nat)
    requires Rotates(c, id, vec, l) && |vec| <= c.nReplicas
    ensures Rotates(c, id, vec, OnReceiveAck(c, l, voter, b, view).l)
  {
    hide QueueOk, OnReceiveShare, Walk, Above;
    var m := CheckCommit(WithCount(l, b, voter), b).l;
    var source := Get(m.pvss.aggQueue, ProposerOf(c, m.view), NO_AGGREGATE);
    ShareRotates(c, id, vec, m.(sent := m.sent.(shares := m.sent.shares + [Share(m.view, source)])), m.view, true);
  }

  lemma CertificateRotates(c: Config, id: nat, vec: seq<Aggregate>, l: Local, q: Qc)
    requires Rotates(c, id, vec, l) && |vec| <= c.nReplicas
    ensures Rotates(c, id, vec, OnReceiveQc(c, l, q).l)
  {
    hide QueueOk, OnReceiveAck, TryEnterView;
    var m := UpdateHqc(Hold(l, q).(last := l.last.(cert := q.view)), q);
    AckRotates(c, id, vec, WithAck(m, q), m.id, q.blk, m.view);
    TryEnterRotates(c, id, vec, CastAck(c, m, q).l);
  }

  lemma VoteRotates(c: Config, id: nat, vec: seq<Aggregate>, l: Local, voter: nat, b: Block, view: nat)
    requires Rotates(c, id, vec, l) && |vec| <= c.nReplicas
    ensures Rotates(c, id, vec, OnReceiveVote(c, l, voter, b, view).l)
  {
    hide QueueOk, OnReceiveAck;
    var q, got := Qc(b, Get(l.marks.selfQc, b, l.view)), Get(l.marks.voted, b, {});
    var m := l.(marks := l.marks.(voted := l.marks.voted[b := got + {voter}], selfQc := l.marks.selfQc[b := q.view]));
    AckRotates(c, id, vec, WithAck(UpdateHqc(m, q), q), m.id, b, m.view);
  }

  lemma CastVoteRotates(c: Config, id: nat, vec: seq<Aggregate>, l: Local, b: Block, dest: nat)
    requires Rotates(c, id, vec, l) && |vec| <= c.nReplicas
    ensures Rotates(c, id, vec, CastVote(c, l, b, dest).l)
  {
    hide QueueOk, OnReceiveVote;
    VoteRotates(c, id, vec, WithVote(l, b, dest), l.id, b, l.view);
  }

  /** A step that changes neither what the queue holds nor what has been shared. */
  ghost predicate Idle(l: Local, m: Local) {
    m.id == l.id && m.view == l.view && m.sent.sharings == l.sent.sharings &&
    m.pvss.aggQueue == l.pvss.aggQueue && m.pvss.queued == l.pvss.queued
  }

  lemma IdleRotates(c: Config, id: nat, vec: seq<Aggregate>, l: Local, m: Local)
    requires Rotates(c, id, vec, l) && Idle(l, m)
    ensures Rotates(c, id, vec, m)
  {
    hide QueueOk, SharingOf;
  }

  lemma HandleRotates(c: Config, id: nat, vec: seq<Aggregate>, l: Local, e: Event)
    requires Rotates(c, id, vec, l) && |vec| <= c.nReplicas
    ensures Rotates(c, id, vec, Handle(c, l, e).l)
  {
    hide CastVote, OnReceiveVote, OnReceiveQc, OnReceiveAck, OnReceiveShare, Walk, Rotates, Height;
    IdleRotates(c, id, vec, l, l);
    match e
    case Propose(_, cmds, parent) =>
      var b := NewProposal(l, cmds, parent);
      var m := Hold(l, Qc(b, l.view));
      IdleRotates(c, id, vec, l, m);
      var n := m.(vheight := Height(b), finished := l.finished + {b});
      IdleRotates(c, id, vec, l, n);
      CastVoteRotates(c, id, vec, n, b, l.id);
      var o := CastVote(c, n, b, l.id).l;
      IdleRotates(c, id, vec, o, o.(last := o.last.(proposed := o.view)));
    case Proposal(_, blk, proposer, valid) =>
      ConsiderIdle(l, blk);
      var m := Consider(l, blk).0;
      IdleRotates(c, id, vec, l, m);
      IdleRotates(c, id, vec, l, Noted(m, blk));
      CastVoteRotates(c, id, vec, Noted(m, blk), blk, proposer);
    case Vote(_, voter, blk, view) => VoteRotates(c, id, vec, l, voter, blk, view);
    case Certificate(_, q) => CertificateRotates(c, id, vec, l, q);
    case Ack(_, voter, blk, view) => AckRotates(c, id, vec, l, voter, blk, view);
    case Status(_, from, view, q) => IdleRotates(c, id, vec, l, OnReceiveStatus(c, l, from, view, q));
    case SharePart(_, view, valid) => ShareRotates(c, id, vec, l, view, valid);
    case Transcript(_, forView, from, valid, agg) =>
      IdleRotates(c, id, vec, l, OnReceiveTranscript(c, l, forView, from, valid, agg).l);
    case Assemble(_) =>
  }

  lemma ConsiderIdle(l: Local, b: Block)
    ensures Idle(l, Consider(l, b).0) && Idle(l, Noted(Consider(l, b).0, b))
  {
    hide Walk, Height;
  }

  /** A replica after any sequence of events, whether the other replicas keep to the protocol or not. */
  function LocalAfter(c: Config, id: nat, vec: seq<Aggregate>, es: seq<Event>): Local {
    if es == [] then StartLocal(c, id, vec)
    else Handle(c, LocalAfter(c, id, vec, es[..|es| - 1]), es[|es| - 1]).l
  }

  lemma {:induction false} AlwaysRotates(c: Config, id: nat, vec: seq<Aggregate>, es: seq<Event>)
    requires |vec| <= c.nReplicas
    ensures Rotates(c, id, vec, LocalAfter(c, id, vec, es))
  {
    hide Handle;
    if es != [] {
      AlwaysRotates(c, id, vec, es[..|es| - 1]);
      HandleRotates(c, id, vec, LocalAfter(c, id, vec, es[..|es| - 1]), es[|es| - 1]);
    }
  }

  /** For every view w > 2n each replica sends exactly one transcript, in view SentIn(n, id, w), and none for views up
      to 2n; it goes to the proposer of w. */
  lemma SentOnce(c: Config, id: nat, vec: seq<Aggregate>, es: seq<Event>, w: nat, i: nat)
    requires |vec| <= c.nReplicas && id < c.nReplicas
    ensures var l := LocalAfter(c, id, vec, es);
            |l.sent.sharings| == l.view &&
            (i < l.view ==>
              (l.sent.sharings[i].forView == w <==> 2 * c.nReplicas < w && i + 1 == SentIn(c.nReplicas, id, w)) &&
              (l.sent.sharings[i].forView == w ==> w >= 1 && l.sent.sharings[i].dest == ProposerOf(c, w)))
  {
    hide QueueOk, LocalAfter, SentIn, SharingOf, ProposerOf;
    AlwaysRotates(c, id, vec, es);
    var n := c.nReplicas;
    if i < LocalAfter(c, id, vec, es).view {
      SentAhead(c, id, i + 1);
      if SharingOf(n, id, i + 1).forView == w {
        SentInBack(n, id, i + 1, w);
      }
      if 2 * n < w && i + 1 == SentIn(n, id, w) {
        SentInFor(n, id, w);
      }
    }
  }

  lemma SameProposer(c: Config, w: Positive, v: Positive)
    requires v == w + c.nReplicas
    ensures ProposerOf(c, w) == ProposerOf(c, v)
  {
    var n := c.nReplicas;
    var q := (w - 1) / n;
    Distribute(q, 1, n);
    QuotientRemainder(v - 1, n, q + 1, (w - 1) % n);
  }

  /** Throughout every view v, the queue holds for v's proposer the transcript of the set-up if v <= n, and the one
      queued for view v - n after that; it is what the share sent in v is decrypted from. */
  lemma TranscriptForView(c: Config, id: nat, vec: seq<Aggregate>, es: seq<Event>)
    requires c.nMajority <= c.nReplicas == |vec|
    ensures var l := LocalAfter(c, id, vec, es);
            var n, slot := c.nReplicas, ProposerOf(c, l.view);
            slot in l.pvss.aggQueue &&
            (l.view <= n ==> l.pvss.aggQueue[slot] == vec[l.view - 1]) &&
            (l.view > n ==> l.view - n in l.pvss.queued && l.pvss.aggQueue[slot] == l.pvss.queued[l.view - n])
  {
    AlwaysRotates(c, id, vec, es);
    var l := LocalAfter(c, id, vec, es);
    if l.view <= c.nReplicas {
      EarlyProposer(c, l.view);
    } else {
      SameProposer(c, l.view - c.nReplicas, l.view);
    }
  }

  /** From l to m the transcripts held stay, and what was queued in between for a view is what was held for it. */
  ghost predicate Queues(c: Config, l: Local, m: Local) {
    l.view <= m.view && m.pvss.viewAgg == l.pvss.viewAgg && (forall w :: w in l.pvss.queued ==> w in m.pvss.queued) &&
    forall w :: w in m.pvss.queued ==>
      (w in l.pvss.queued && m.pvss.queued[w] == l.pvss.queued[w]) ||
      (l.view < w + c.nMajority && m.pvss.queued[w] == Get(l.pvss.viewAgg, w, NO_AGGREGATE))
  }

  lemma QueuesOn(c: Config, l: Local, m: Local, n: Local)
    requires Queues(c, l, m) && Queues(c, m, n)
    ensures Queues(c, l, n)
  {
  }

  lemma TryEnterQueues(c: Config, l: Local)
    ensures Queues(c, l, TryEnterView(c, l))
  {
    hide SharingOf, ProposerOf;
  }

  lemma ShareQueues(c: Config, l: Local, view: nat, valid: bool)
    ensures Queues(c, l, OnReceiveShare(c, l, view, valid).l)
  {
    hide TryEnterView;
    var m := l.(pvss := l.pvss.(shares := l.pvss.shares[view := Get(l.pvss.shares, view, 0) + 1]));
    TryEnterQueues(c, m.(last := m.last.(shares := l.view, beacon := l.view)));
  }

  lemma AckQueues(c: Config, l: Local, voter: nat, b: Block, view: nat)
    ensures Queues(c, l, OnReceiveAck(c, l, voter, b, view).l)
  {
    hide OnReceiveShare, Walk, Above;
    var m := CheckCommit(WithCount(l, b, voter), b).l;
    var source := Get(m.pvss.aggQueue, ProposerOf(c, m.view), NO_AGGREGATE);
    ShareQueues(c, m.(sent := m.sent.(shares := m.sent.shares + [Share(m.view, source)])), m.view, true);
  }

  lemma CertificateQueues(c: Config, l: Local, q: Qc)
    ensures Queues(c, l, OnReceiveQc(c, l, q).l)
  {
    hide OnReceiveAck, TryEnterView;
    var m := UpdateHqc(Hold(l, q).(last := l.last.(cert := q.view)), q);
    AckQueues(c, WithAck(m, q), m.id, q.blk, m.view);
    TryEnterQueues(c, CastAck(c, m, q).l);
    QueuesOn(c, l, CastAck(c, m, q).l, TryEnterView(c, CastAck(c, m, q).l));
  }

  lemma VoteQueues(c: Config, l: Local, voter: nat, b: Block, view: nat)
    ensures Queues(c, l, OnReceiveVote(c, l, voter, b, view).l)
  {
    hide OnReceiveAck;
    var q, got := Qc(b, Get(l.marks.selfQc, b, l.view)), Get(l.marks.voted, b, {});
    var m := l.(marks := l.marks.(voted := l.marks.voted[b := got + {voter}], selfQc := l.marks.selfQc[b := q.view]));
    AckQueues(c, WithAck(UpdateHqc(m, q), q), m.id, b, m.view);
  }

  lemma CastVoteQueues(c: Config, l: Local, b: Block, dest: nat)
    ensures Queues(c, l, CastVote(c, l, b, dest).l)
  {
    hide OnReceiveVote;
    VoteQueues(c, WithVote(l, b, dest), l.id, b, l.view);
  }

  /** The same from a state that differs in nothing the queue depends on. */
  lemma QueuesFrom(c: Config, l: Local, l1: Local, m: Local)
    requires Queues(c, l1, m) && l1.view == l.view && l1.pvss.queued == l.pvss.queued
    ensures Queues(c, l.(pvss := l.pvss.(viewAgg := m.pvss.viewAgg)), m)
  {
  }

  lemma QueuesNone(c: Config, l: Local, m: Local)
    requires m.view == l.view && m.pvss.queued == l.pvss.queued
    ensures Queues(c, l.(pvss := l.pvss.(viewAgg := m.pvss.viewAgg)), m)
  {
  }

  lemma QueuesLast(c: Config, l: Local, m: Local)
    requires Queues(c, l, m)
    ensures Queues(c, l, m.(last := m.last.(proposed := m.view)))
  {
  }

  /** An event that queues a transcript leaves what is held for its view as it was then. */
  lemma HandleQueues(c: Config, l: Local, e: Event)
    ensures var m := Handle(c, l, e).l; Queues(c, l.(pvss := l.pvss.(viewAgg := m.pvss.viewAgg)), m)
  {
    hide CastVote, OnReceiveVote, OnReceiveQc, OnReceiveAck, OnReceiveShare, Walk, Height, Queues;
    var m := Handle(c, l, e).l;
    match e
    case Propose(_, cmds, parent) =>
      var b := NewProposal(l, cmds, parent);
      var n := Hold(l, Qc(b, l.view)).(vheight := Height(b), finished := l.finished + {b});
      CastVoteQueues(c, n, b, l.id);
      QueuesLast(c, n, CastVote(c, n, b, l.id).l);
      if Height(b) <= l.vheight {
        QueuesNone(c, l, m);
      } else {
        QueuesFrom(c, l, n, m);
      }
    case Proposal(_, blk, proposer, valid) =>
      ConsiderIdle(l, blk);
      var n := Noted(Consider(l, blk).0, blk);
      CastVoteQueues(c, n, blk, proposer);
      if blk !in l.finished && valid && Consider(l, blk).1 {
        QueuesFrom(c, l, n, m);
      } else {
        QueuesNone(c, l, m);
      }
    case Vote(_, voter, blk, view) => VoteQueues(c, l, voter, blk, view); QueuesFrom(c, l, l, m);
    case Certificate(_, q) => CertificateQueues(c, l, q); QueuesFrom(c, l, l, m);
    case Ack(_, voter, blk, view) => AckQueues(c, l, voter, blk, view); QueuesFrom(c, l, l, m);
    case Status(_, from, view, q) => QueuesNone(c, l, m);
    case SharePart(_, view, valid) => ShareQueues(c, l, view, valid); QueuesFrom(c, l, l, m);
    case Transcript(_, forView, from, valid, agg) => QueuesNone(c, l, m);
    case Assemble(_) => QueuesNone(c, l, m);
  }

  /** The event that makes the time come for the transcript of view w. */
  ghost predicate TimeComes(c: Config, id: nat, vec: seq<Aggregate>, es: seq<Event>, w: nat, k: nat) {
    k < |es| && LocalAfter(c, id, vec, es[..k]).view < w + c.nMajority <= LocalAfter(c, id, vec, es[..k + 1]).view
  }

  /** What is queued for a view is what the replica held for it when its time came. */
  lemma {:induction false} QueuedWhen(c: Config, id: nat, vec: seq<Aggregate>, es: seq<Event>, w: nat)
    returns (k: nat)
    requires |vec| <= c.nReplicas && w in LocalAfter(c, id, vec, es).pvss.queued
    ensures TimeComes(c, id, vec, es, w, k)
    ensures LocalAfter(c, id, vec, es).pvss.queued[w] ==
            Get(LocalAfter(c, id, vec, es[..k + 1]).pvss.viewAgg, w, NO_AGGREGATE)
  {
    hide Handle, Shared, Queues;
    AlwaysRotates(c, id, vec, es);
    if es != [] {
      var fs, e := es[..|es| - 1], es[|es| - 1];
      var l, m := LocalAfter(c, id, vec, fs), LocalAfter(c, id, vec, es);
      AlwaysRotates(c, id, vec, fs);
      HandleQueues(c, l, e);
      QueuedThen(c, vec, l, m, w);
      if w in l.pvss.queued {
        k := QueuedWhen(c, id, vec, fs, w);
        assert fs[..k] == es[..k] && fs[..k + 1] == es[..k + 1];
      } else {
        k := |es| - 1;
        assert es[..k + 1] == es;
      }
    }
  }

  lemma QueuedThen(c: Config, vec: seq<Aggregate>, l: Local, m: Local, w: nat)
    requires Queues(c, l.(pvss := l.pvss.(viewAgg := m.pvss.viewAgg)), m)
    requires QueueOk(c, vec, l.view, l.pvss.aggQueue, l.pvss.queued)
    requires QueueOk(c, vec, m.view, m.pvss.aggQueue, m.pvss.queued) && w in m.pvss.queued
    ensures w in l.pvss.queued ==> m.pvss.queued[w] == l.pvss.queued[w]
    ensures w !in l.pvss.queued ==> l.view < w + c.nMajority <= m.view &&
                                    m.pvss.queued[w] == Get(m.pvss.viewAgg, w, NO_AGGREGATE)
  {
  }

  /** In every view v > n the queue holds for v's proposer what the replica held for view v - n when its time came. */
  lemma TranscriptHeld(c: Config, id: nat, vec: seq<Aggregate>, es: seq<Event>) returns (k: nat)
    requires c.nMajority <= c.nReplicas == |vec| < LocalAfter(c, id, vec, es).view
    ensures var l := LocalAfter(c, id, vec, es); var w := l.view - c.nReplicas;
            TimeComes(c, id, vec, es, w, k) && ProposerOf(c, l.view) in l.pvss.aggQueue &&
            l.pvss.aggQueue[ProposerOf(c, l.view)] ==
            Get(LocalAfter(c, id, vec, es[..k + 1]).pvss.viewAgg, w, NO_AGGREGATE)
  {
    hide LocalAfter, ProposerOf;
    TranscriptForView(c, id, vec, es);
    k := QueuedWhen(c, id, vec, es, LocalAfter(c, id, vec, es).view - c.nReplicas);
  }
}
