/** What one replica knows, and how each handler changes it. */
module ConsensusReplica {
  import opened ConsensusBlocks
  import opened Wrappers

  /** A vote this replica cast, with the highest certificate it held when it did. */
  datatype VoteCast = VoteCast(blk: Block, view: nat, dest: nat, held: Qc)

  /** An ack this replica cast, with the certificate it acknowledges. */
  datatype AckCast = AckCast(blk: Block, view: nat, held: Qc)

  /** A secret share sent in a view, decrypted from this transcript. */
  datatype Share = Share(view: nat, source: Aggregate)

  /** A transcript sent to dest, for use in view forView. */
  datatype Sharing = Sharing(dest: nat, forView: nat)

  /** Everything this replica has sent that others act on. */
  datatype Sent = Sent(votes: seq<VoteCast>, acks: seq<AckCast>, shares: seq<Share>, sharings: seq<Sharing>)

  /** The last views with a proposal made, a certificate received, shares reconstructed, and a beacon. */
  datatype Last = Last(proposed: nat, cert: nat, shares: nat, beacon: nat)

  /** What this replica notes on its copies of the blocks: who voted for them, who acknowledged them, the view of
      the certificate it collects or holds for them, and whether they are decided. */
  datatype Marks = Marks(voted: map<Block, set<nat>>, acked: map<Block, set<nat>>, selfQc: map<Block, nat>,
                         decided: set<Block>)

  /** The number of shares received for each view, the aggregated transcript for each view, the one queued for each
      replica, who sent transcripts for each view, and a record of what was queued for each view. */
  datatype Pvss = Pvss(shares: map<nat, nat>, viewAgg: map<nat, Aggregate>, aggQueue: map<nat, Aggregate>,
                       transcriptIds: map<nat, seq<nat>>, queued: map<nat, Aggregate>)

  datatype Local = Local(
    id: nat,
    view: Positive,
    hqc: Qc,
    bExec: Block,
    vheight: nat,
    proposals: map<nat, set<Block>>,
    finished: set<Block>,
    marks: Marks,
    executed: seq<Block>,
    last: Last,
    statusReceived: map<nat, set<nat>>,
    pvss: Pvss,
    sent: Sent)

  function Get<K, V>(m: map<K, V>, k: K, default: V): V {
    if k in m then m[k] else default
  }

  /** The state after a handler, and whether the handler returned without throwing. */
  datatype Outcome = Outcome(l: Local, ok: bool)

  /** The state after on_init, where `vec` is the set-up file's transcript for each replica. */
  function InitLocal(c: Config, id: nat, vec: seq<Aggregate>): Local {
    Local(id, 1, Qc(Genesis, 0), Genesis, 0, map[], {},
          Marks(map[Genesis := Replicas(c.nReplicas)], map[], map[Genesis := 0], {Genesis}), [], Last(0, 0, 0, 0),
          map[], Pvss(map[], Numbered(vec, 1), Numbered(vec, 0), map[], map[]), Sent([], [], [], []))
  }

  /** The elements of s under consecutive numbers from `from` on. */
  function Numbered<T>(s: seq<T>, from: nat): (m: map<nat, T>)
    ensures forall k :: k in m <==> from <= k < from + |s|
    ensures forall k :: from <= k < from + |s| ==> m[k] == s[k - from]
  {
    if s == [] then map[] else Numbered(s[..|s| - 1], from)[from + |s| - 1 := s[|s| - 1]]
  }

  function UpdateHqc(l: Local, q: Qc): Local {
    if q.view > l.hqc.view then l.(hqc := q) else l
  }

  /** Makes q the certificate of its block. */
  function Hold(l: Local, q: Qc): Local {
    l.(marks := l.marks.(selfQc := l.marks.selfQc[q.blk := q.view]))
  }

  function CheckCommit(l: Local, blk: Block): Outcome {
    var b := Walk(blk, Height(l.bExec));
    if b != l.bExec && b !in l.marks.decided then
      Outcome(l, false)
    else
      var queue := Above(blk, Height(l.bExec));
      Outcome(l.(marks := l.marks.(decided := l.marks.decided + Elements(queue)),
                 executed := l.executed + queue, bExec := blk), true)
  }

  function Elements<T>(s: seq<T>): set<T> {
    set x | x in s
  }

  function UpdateAggQueue(c: Config, l: Local, view: nat): Local {
    if view < c.nMajority then
      l
    else
      var toUpdate := view - c.nMajority + 1;
      var agg := Get(l.pvss.viewAgg, toUpdate, NO_AGGREGATE);
      l.(pvss := l.pvss.(aggQueue := l.pvss.aggQueue[ProposerOf(c, toUpdate) := agg],
                         queued := l.pvss.queued[toUpdate := agg]))
  }

  /** Where the transcript goes that a replica makes at the start of a view. */
  function SharingOf(n: Positive, id: nat, view: Positive): Sharing {
    var dest := (id + view) % n;
    Sharing(dest, (2 + (view - 1) / n) * n + dest + 1)
  }

  function EnterView(c: Config, l: Local): Local {
    var s := SharingOf(c.nReplicas, l.id, l.view);
    var l1 := l.(sent := l.sent.(sharings := l.sent.sharings + [s]));
    if s.dest == l.id then NoteTranscript(l1, s.forView, l.id) else l1
  }

  /** A replica at the start of a run, which enters view 1. */
  function StartLocal(c: Config, id: nat, vec: seq<Aggregate>): Local {
    EnterView(c, InitLocal(c, id, vec))
  }

  function NoteTranscript(l: Local, forView: nat, from: nat): Local {
    var ids := Get(l.pvss.transcriptIds, forView, []) + [from];
    l.(pvss := l.pvss.(transcriptIds := l.pvss.transcriptIds[forView := ids]))
  }

  /** `valid` says whether the transcript passes verification, agg is the aggregate of those for the view. */
  function OnReceiveTranscript(c: Config, l: Local, forView: nat, from: nat, valid: bool, agg: Aggregate): Outcome {
    var qsize := |Get(l.pvss.transcriptIds, forView, [])|;
    if qsize >= c.nMajority then
      Outcome(l, true)
    else if !valid then
      Outcome(l, false)
    else
      var l1 := NoteTranscript(l, forView, from);
      if qsize + 1 == c.nMajority then Outcome(l1.(pvss := l1.pvss.(viewAgg := l1.pvss.viewAgg[forView := agg])), true)
      else Outcome(l1, true)
  }

  function TryEnterView(c: Config, l: Local): Local {
    if l.last.cert == l.view && (l.last.shares == l.view || l.last.beacon == l.view) then
      var l1 := UpdateAggQueue(c, l, l.view);
      EnterView(c, l1.(view := l1.view + 1))
    else
      l
  }

  /** `valid` says whether the share passes verification. */
  function OnReceiveShare(c: Config, l: Local, view: nat, valid: bool): Outcome {
    var got := Get(l.pvss.shares, view, 0);
    if view < l.view || got >= c.nMajority then
      Outcome(l, true)
    else if !valid then
      Outcome(l, false)
    else
      var l1 := l.(pvss := l.pvss.(shares := l.pvss.shares[view := got + 1]));
      if got + 1 == c.nMajority then
        Outcome(TryEnterView(c, l1.(last := l.last.(shares := l.view, beacon := l.view))), true)
      else
        Outcome(l1, true)
  }

  function BroadcastShare(c: Config, l: Local): Outcome {
    var source := Get(l.pvss.aggQueue, ProposerOf(c, l.view), NO_AGGREGATE);
    OnReceiveShare(c, l.(sent := l.sent.(shares := l.sent.shares + [Share(l.view, source)])), l.view, true)
  }

  function OnReceiveAck(c: Config, l: Local, voter: nat, blk: Block, view: nat): Outcome {
    var got := Get(l.marks.acked, blk, {});
    if view < l.view || |got| >= c.nResponsive || voter in got then
      Outcome(l, true)
    else
      var l1 := l.(marks := l.marks.(acked := l.marks.acked[blk := got + {voter}]));
      if |got| + 1 == c.nResponsive then
        var o := CheckCommit(l1, blk);
        if o.ok then BroadcastShare(c, o.l) else o
      else
        Outcome(l1, true)
  }

  /** Acknowledges the block of certificate q. */
  function CastAck(c: Config, l: Local, q: Qc): Outcome {
    OnReceiveAck(c, l.(sent := l.sent.(acks := l.sent.acks + [AckCast(q.blk, l.view, q)])), l.id, q.blk, l.view)
  }

  function OnReceiveQc(c: Config, l: Local, q: Qc): Outcome {
    if q.view < l.view || l.last.cert >= l.view then
      Outcome(l, true)
    else
      var o := CastAck(c, UpdateHqc(Hold(l, q).(last := l.last.(cert := q.view)), q), q);
      if o.ok then Outcome(TryEnterView(c, o.l), true) else o
  }

  function OnReceiveVote(c: Config, l: Local, voter: nat, blk: Block, view: nat): Outcome {
    var got := Get(l.marks.voted, blk, {});
    if view < l.view || |got| >= c.nResponsive || voter in got then
      Outcome(l, true)
    else
      var q := Qc(blk, Get(l.marks.selfQc, blk, l.view));
      var l1 := l.(marks := l.marks.(voted := l.marks.voted[blk := got + {voter}],
                                     selfQc := l.marks.selfQc[blk := q.view]));
      if |got| + 1 == c.nResponsive then CastAck(c, UpdateHqc(l1, q), q) else Outcome(l1, true)
  }

  function CastVote(c: Config, l: Local, blk: Block, proposer: nat): Outcome {
    var l1 := l.(sent := l.sent.(votes := l.sent.votes + [VoteCast(blk, l.view, proposer, l.hqc)]));
    if proposer == l.id then OnReceiveVote(c, l1, l.id, blk, l.view) else Outcome(l1, true)
  }

  function NewProposal(l: Local, cmds: seq<nat>, parent: Block): Block {
    Block(parent, Some(l.hqc), cmds, Get(l.pvss.viewAgg, l.view, NO_AGGREGATE))
  }

  function OnPropose(c: Config, l: Local, cmds: seq<nat>, parent: Block): Outcome {
    var blk := NewProposal(l, cmds, parent);
    var l1 := Hold(l, Qc(blk, l.view));
    if Height(blk) <= l.vheight then
      Outcome(l1, false)
    else
      var o := CastVote(c, l1.(vheight := Height(blk), finished := l1.finished + {blk}), blk, l.id);
      if o.ok then Outcome(o.l.(last := o.l.last.(proposed := o.l.view)), true) else o
  }

  /** What on_receive_proposal learns before it checks the transcript: the certificate in the block, and whether
      this is the first proposal at its height and extends the highest certified block. */
  function Consider(l: Local, blk: Block): (Local, bool) {
    var l1 := if blk.Block? && blk.qc.Some? then UpdateHqc(l, blk.qc.value) else l;
    var slot := Get(l1.proposals, Height(blk), {});
    var l2 := if |slot| <= 1 then l1.(proposals := l1.proposals[Height(blk) := slot + {blk}]) else l1;
    var first := |slot| <= 1 && |slot + {blk}| <= 1;
    if first && Walk(blk, Height(l2.hqc.blk)) == l2.hqc.blk then (l2.(vheight := Height(blk)), true) else (l2, false)
  }

  function ExtraOf(blk: Block): Aggregate {
    if blk.Block? then blk.extra else NO_AGGREGATE
  }

  /** Takes over the transcript of a block, and marks the block as handled. */
  function Noted(l: Local, blk: Block): Local {
    l.(pvss := l.pvss.(viewAgg := l.pvss.viewAgg[l.view := ExtraOf(blk)]), finished := l.finished + {blk})
  }

  /** `valid` says whether the block's transcript passes verification. */
  function OnReceiveProposal(c: Config, l: Local, blk: Block, proposer: nat, valid: bool): Outcome {
    if blk in l.finished then
      Outcome(l, true)
    else
      var (l1, opinion) := Consider(l, blk);
      if !valid then
        Outcome(l1, true)
      else
        if opinion then CastVote(c, Noted(l1, blk), blk, proposer) else Outcome(Noted(l1, blk), true)
  }

  function OnReceiveStatus(c: Config, l: Local, from: nat, view: nat, q: Qc): Local {
    var got := Get(l.statusReceived, view, {});
    if view < l.view || l.last.proposed >= l.view || |got| >= c.nMajority then
      l
    else
      var l1 := UpdateHqc(Hold(l, q), q);
      l1.(statusReceived := l1.statusReceived[view := got + {from}])
  }

  /** Whether a status message makes the proposer propose. */
  predicate Proposes(c: Config, l: Local, from: nat, view: nat, q: Qc) {
    var got := Get(l.statusReceived, view, {});
    view >= l.view && l.last.proposed < l.view && |got| < c.nMajority && from !in got &&
    |got| + 1 == c.nMajority && UpdateHqc(l, q).hqc.view + 1 == l.view
  }
}
