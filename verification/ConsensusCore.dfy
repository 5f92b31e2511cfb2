/** The replica of consensus.cpp: its fields, and the handlers that update them in place. */
module ConsensusCore {
  import opened ConsensusBlocks
  import opened ConsensusReplica
  import opened Wrappers

  class HotStuffCore {
    const config: Config
    const id: nat
    var view: Positive
    var hqc: Qc
    var bExec: Block
    var vheight: nat
    var proposals: map<nat, set<Block>>
    var finished: set<Block>
    var marks: Marks
    var executed: seq<Block>
    var last: Last
    var statusReceived: map<nat, set<nat>>
    var pvss: Pvss
    var sent: Sent

    ghost function State(): Local
      reads this
    {
      Local(id, view, hqc, bExec, vheight, proposals, finished, marks, executed, last, statusReceived, pvss, sent)
    }

    constructor (id: nat, nReplicas: nat, nFaulty: nat, vec: seq<Aggregate>)
      requires id < nReplicas && nFaulty < nReplicas
      ensures config == InitConfig(nReplicas, nFaulty)
      ensures State() == InitLocal(config, id, vec)
    {
      config := InitConfig(nReplicas, nFaulty);
      this.id := id;
      view, hqc, bExec, vheight := 1, Qc(Genesis, 0), Genesis, 0;
      proposals, finished, statusReceived := map[], {}, map[];
      marks := Marks(map[Genesis := Replicas(nReplicas)], map[], map[Genesis := 0], {Genesis});
      executed, last, sent := [], Last(0, 0, 0, 0), Sent([], [], [], []);
      pvss := Pvss(map[], map[], map[], map[], map[]);
      new;
      var aggQueue, viewAgg := map[], map[];
      ghost var s := State();
      for i := 0 to |vec|
        invariant aggQueue == Numbered(vec[..i], 0) && viewAgg == Numbered(vec[..i], 1)
        invariant State() == s
      {
        assert vec[..i + 1][..i] == vec[..i];
        aggQueue := aggQueue[i := vec[i]];
        viewAgg := viewAgg[i + 1 := vec[i]];
      }
      assert vec[..|vec|] == vec;
      pvss := pvss.(viewAgg := viewAgg, aggQueue := aggQueue);
    }

    method UpdateHqc(q: Qc)
      modifies this`hqc
      ensures State() == ConsensusReplica.UpdateHqc(old(State()), q)
    {
      if q.view > hqc.view {
        hqc := q;
      }
    }

    method CheckCommit(blk: Block) returns (ok: bool)
      modifies this`marks, this`executed, this`bExec
      ensures Outcome(State(), ok) == ConsensusReplica.CheckCommit(old(State()), blk)
    {
      var commitQueue: seq<Block>, b := [], blk;
      while Height(b) > Height(bExec)
        invariant Walk(b, Height(bExec)) == Walk(blk, Height(bExec))
        invariant Above(blk, Height(bExec)) == Above(b, Height(bExec)) + Reverse(commitQueue)
        decreases b
      {
        commitQueue := commitQueue + [b];
        b := b.parent;
      }
      if b != bExec && b !in marks.decided {
        return false;
      }
      Commit(commitQueue);
      bExec := blk;
      ok := true;
    }

    /** Decides and executes the blocks of a queue, last first. */
    method Commit(commitQueue: seq<Block>)
      modifies this`marks, this`executed
      ensures marks == old(marks.(decided := marks.decided + Elements(Reverse(commitQueue))))
      ensures executed == old(executed) + Reverse(commitQueue)
    {
      ghost var q := Reverse(commitQueue);
      for i := |commitQueue| downto 0
        invariant marks == old(marks.(decided := marks.decided + Elements(q[..|commitQueue| - i])))
        invariant executed == old(executed) + q[..|commitQueue| - i]
      {
        ghost var k := |commitQueue| - i - 1;
        ReverseAt(commitQueue, k);
        assert q[..k + 1] == q[..k] + [commitQueue[i]];
        marks := marks.(decided := marks.decided + {commitQueue[i]});
        executed := executed + [commitQueue[i]];
      }
      assert q[..|commitQueue|] == q;
    }

    method UpdateAggQueue(v: nat)
      modifies this`pvss
      ensures State() == ConsensusReplica.UpdateAggQueue(config, old(State()), v)
    {
      if v < config.nMajority {
        return;
      }
      var toUpdateView := v - config.nMajority + 1;
      var toUpdateProposer := ProposerOf(config, toUpdateView);
      var agg := Get(pvss.viewAgg, toUpdateView, NO_AGGREGATE);
      pvss := pvss.(aggQueue := pvss.aggQueue[toUpdateProposer := agg], queued := pvss.queued[toUpdateView := agg]);
    }

    method OnEnterView(v: nat)
      requires v == view
      modifies this`sent, this`pvss
      ensures State() == EnterView(config, old(State()))
    {
      var n := config.nReplicas;
      var dest := (id + v) % n;
      var mul := (v - 1) / n;
      var forView := (2 + mul) * n + dest + 1;
      sent := sent.(sharings := sent.sharings + [Sharing(dest, forView)]);
      if dest == id {
        var ids := Get(pvss.transcriptIds, forView, []) + [id];
        pvss := pvss.(transcriptIds := pvss.transcriptIds[forView := ids]);
      }
    }

    method OnReceiveTranscript(forView: nat, from: nat, valid: bool, agg: Aggregate) returns (ok: bool)
      modifies this`pvss
      ensures Outcome(State(), ok)
           == ConsensusReplica.OnReceiveTranscript(config, old(State()), forView, from, valid, agg)
    {
      var qsize := |Get(pvss.transcriptIds, forView, [])|;
      if qsize >= config.nMajority {
        return true;
      }
      if !valid {
        return false;
      }
      var ids := Get(pvss.transcriptIds, forView, []) + [from];
      pvss := pvss.(transcriptIds := pvss.transcriptIds[forView := ids]);
      if qsize + 1 == config.nMajority {
        pvss := pvss.(viewAgg := pvss.viewAgg[forView := agg]);
      }
      ok := true;
    }

    method TryEnterView()
      modifies this`pvss, this`view, this`sent
      ensures State() == ConsensusReplica.TryEnterView(config, old(State()))
    {
      if last.cert == view && (last.shares == view || last.beacon == view) {
        UpdateAggQueue(view);
        view := view + 1;
        OnEnterView(view);
      }
    }

    method OnReceiveShare(v: nat, valid: bool) returns (ok: bool)
      modifies this`pvss, this`last, this`view, this`sent
      ensures Outcome(State(), ok) == ConsensusReplica.OnReceiveShare(config, old(State()), v, valid)
    {
      hide ConsensusReplica.TryEnterView;
      var qsize := Get(pvss.shares, v, 0);
      if v < view || qsize >= config.nMajority {
        return true;
      }
      if !valid {
        return false;
      }
      pvss := pvss.(shares := pvss.shares[v := qsize + 1]);
      if qsize + 1 == config.nMajority {
        last := last.(shares := view, beacon := view);
        TryEnterView();
      }
      ok := true;
    }

    method BroadcastShare() returns (ok: bool)
      modifies this`pvss, this`last, this`view, this`sent
      ensures Outcome(State(), ok) == ConsensusReplica.BroadcastShare(config, old(State()))
    {
      hide ConsensusReplica.OnReceiveShare;
      var source := Get(pvss.aggQueue, ProposerOf(config, view), NO_AGGREGATE);
      sent := sent.(shares := sent.shares + [Share(view, source)]);
      ok := OnReceiveShare(view, true);
    }

    method OnReceiveAck(voter: nat, blk: Block, v: nat) returns (ok: bool)
      modifies this
      ensures Outcome(State(), ok) == ConsensusReplica.OnReceiveAck(config, old(State()), voter, blk, v)
    {
      hide ConsensusReplica.CheckCommit, ConsensusReplica.BroadcastShare;
      if v < view {
        return true;
      }
      var got := Get(marks.acked, blk, {});
      if |got| >= config.nResponsive || voter in got {
        return true;
      }
      marks := marks.(acked := marks.acked[blk := got + {voter}]);
      if |got| + 1 == config.nResponsive {
        ok := CheckCommit(blk);
        if ok {
          ok := BroadcastShare();
        }
      } else {
        ok := true;
      }
    }

    /** Acknowledges the block of certificate q. */
    method Ack(q: Qc) returns (ok: bool)
      modifies this
      ensures Outcome(State(), ok) == CastAck(config, old(State()), q)
    {
      hide ConsensusReplica.OnReceiveAck;
      sent := sent.(acks := sent.acks + [AckCast(q.blk, view, q)]);
      ok := OnReceiveAck(id, q.blk, view);
    }

    method OnReceiveQc(q: Qc) returns (ok: bool)
      modifies this
      ensures Outcome(State(), ok) == ConsensusReplica.OnReceiveQc(config, old(State()), q)
    {
      hide CastAck, ConsensusReplica.TryEnterView, ConsensusReplica.UpdateHqc;
      if q.view < view || last.cert >= view {
        return true;
      }
      last := last.(cert := q.view);
      marks := marks.(selfQc := marks.selfQc[q.blk := q.view]);
      UpdateHqc(q);
      ok := Ack(q);
      if ok {
        TryEnterView();
      }
    }

    method OnReceiveVote(voter: nat, blk: Block, v: nat) returns (ok: bool)
      modifies this
      ensures Outcome(State(), ok) == ConsensusReplica.OnReceiveVote(config, old(State()), voter, blk, v)
    {
      hide CastAck, ConsensusReplica.UpdateHqc;
      if v < view {
        return true;
      }
      var got := Get(marks.voted, blk, {});
      if |got| >= config.nResponsive || voter in got {
        return true;
      }
      var q := Qc(blk, Get(marks.selfQc, blk, view));
      marks := marks.(voted := marks.voted[blk := got + {voter}], selfQc := marks.selfQc[blk := q.view]);
      if |got| + 1 == config.nResponsive {
        UpdateHqc(q);
        ok := Ack(q);
      } else {
        ok := true;
      }
    }

    method Vote(blk: Block, proposer: nat) returns (ok: bool)
      modifies this
      ensures Outcome(State(), ok) == CastVote(config, old(State()), blk, proposer)
    {
      hide ConsensusReplica.OnReceiveVote;
      sent := sent.(votes := sent.votes + [VoteCast(blk, view, proposer, hqc)]);
      if proposer == id {
        ok := OnReceiveVote(id, blk, view);
      } else {
        ok := true;
      }
    }

    method OnPropose(cmds: seq<nat>, parent: Block) returns (ok: bool)
      modifies this
      ensures Outcome(State(), ok) == ConsensusReplica.OnPropose(config, old(State()), cmds, parent)
    {
      hide CastVote, Height;
      var bnew := Block(parent, Some(hqc), cmds, Get(pvss.viewAgg, view, NO_AGGREGATE));
      marks := marks.(selfQc := marks.selfQc[bnew := view]);
      if Height(bnew) <= vheight {
        return false;
      }
      vheight := Height(bnew);
      finished := finished + {bnew};
      ok := Vote(bnew, id);
      if ok {
        last := last.(proposed := view);
      }
    }

    /** Notes a proposal, and tells whether it is the first at its height and extends the highest certified block. */
    method Consider(bnew: Block) returns (opinion: bool)
      modifies this`hqc, this`proposals, this`vheight
      ensures (State(), opinion) == ConsensusReplica.Consider(old(State()), bnew)
    {
      hide ConsensusReplica.UpdateHqc;
      if bnew.Block? && bnew.qc.Some? {
        UpdateHqc(bnew.qc.value);
      }
      opinion := false;
      var slot := Get(proposals, Height(bnew), {});
      if |slot| <= 1 {
        slot := slot + {bnew};
        proposals := proposals[Height(bnew) := slot];
        opinion := |slot| <= 1;
      }
      if opinion {
        var pref, b := hqc.blk, bnew;
        while Height(b) > Height(pref)
          invariant Walk(b, Height(pref)) == Walk(bnew, Height(pref))
          decreases b
        {
          b := b.parent;
        }
        if b == pref {
          vheight := Height(bnew);
        } else {
          opinion := false;
        }
      }
    }

    method OnReceiveProposal(bnew: Block, proposer: nat, valid: bool) returns (ok: bool)
      modifies this
      ensures Outcome(State(), ok) == ConsensusReplica.OnReceiveProposal(config, old(State()), bnew, proposer, valid)
    {
      hide CastVote, ConsensusReplica.Consider;
      if bnew in finished {
        return true;
      }
      var opinion := Consider(bnew);
      if !valid {
        return true;
      }
      pvss := pvss.(viewAgg := pvss.viewAgg[view := ExtraOf(bnew)]);
      finished := finished + {bnew};
      if opinion {
        ok := Vote(bnew, proposer);
      } else {
        ok := true;
      }
    }

    method OnReceiveStatus(from: nat, v: nat, q: Qc) returns (propose: bool)
      modifies this`marks, this`hqc, this`statusReceived
      ensures State() == ConsensusReplica.OnReceiveStatus(config, old(State()), from, v, q)
      ensures propose == Proposes(config, old(State()), from, v, q)
    {
      if v < view || last.proposed >= view {
        return false;
      }
      var got := Get(statusReceived, v, {});
      if |got| >= config.nMajority {
        return false;
      }
      marks := marks.(selfQc := marks.selfQc[q.blk := q.view]);
      UpdateHqc(q);
      if from in got {
        assert got + {from} == got && statusReceived[v := got] == statusReceived;
        return false;
      }
      statusReceived := statusReceived[v := got + {from}];
      propose := |got| + 1 == config.nMajority && hqc.view + 1 == view;
    }
  }

  function Reverse<T>(s: seq<T>): (r: seq<T>)
    ensures |r| == |s|
  {
    if s == [] then [] else [s[|s| - 1]] + Reverse(s[..|s| - 1])
  }

  lemma {:induction false} ReverseAt<T>(s: seq<T>, k: nat)
    requires k < |s|
    ensures Reverse(s)[k] == s[|s| - 1 - k]
  {
    if k > 0 {
      ReverseAt(s[..|s| - 1], k - 1);
    }
  }
}
