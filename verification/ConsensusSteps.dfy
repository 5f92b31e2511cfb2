/** Every elementary change of a replica's state keeps the invariant of the group. */
module ConsensusSteps {
  import opened ConsensusBlocks
  import opened ConsensusReplica
  import opened ConsensusSafety
  import opened Wrappers

  function Put(w: World, r: nat, l: Local): World
    requires r < |w.locals|
  {
    w.(locals := w.locals[r := l])
  }

  function AddCert(w: World, cert: Cert): World {
    w.(certs := w.certs + [cert])
  }

  ghost predicate Adds(l: Local, m: Local) {
    l.sent.votes <= m.sent.votes && l.sent.acks <= m.sent.acks
  }

  /** Only replica r has changed, and nothing that was sent or certified is gone. */
  ghost predicate Grows(w: World, v: World, r: nat) {
    |w.locals| == |v.locals| && w.certs <= v.certs && r < |w.locals| && Adds(w.locals[r], v.locals[r]) &&
    forall x :: 0 <= x < |w.locals| && x != r ==> v.locals[x] == w.locals[x]
  }

  lemma AckedByStays(g: Group, w: World, v: World, r: nat, b: Block, x: nat)
    requires Grows(w, v, r) && AckedBy(g, w, b, x)
    ensures AckedBy(g, v, b, x)
  {
    if x !in g.byz && x == r {
      var k :| 0 <= k < |w.locals[r].sent.acks| && w.locals[r].sent.acks[k].blk == b;
      assert v.locals[r].sent.acks[k].blk == b;
    }
  }

  lemma SettledStays(g: Group, w: World, v: World, r: nat, b: Block)
    requires g.nFaulty < g.n && Grows(w, v, r) && Settled(g, w, b)
    ensures Settled(g, v, b)
  {
    hide AckedBy, Grows;
    if b != Genesis {
      var q :| AckQuorum(g, w, b, q);
      forall x | x in q
        ensures AckedBy(g, v, b, x)
      {
        AckedByStays(g, w, v, r, b, x);
      }
      assert AckQuorum(g, v, b, q);
    }
  }

  lemma BelowSettledStays(g: Group, w: World, v: World, r: nat, d: Block)
    requires g.nFaulty < g.n && Grows(w, v, r) && BelowSettled(g, w, d)
    ensures BelowSettled(g, v, d)
  {
    hide Settled, Grows;
    var b :| Settled(g, w, b) && Extends(b, d);
    SettledStays(g, w, v, r, b);
  }

  lemma ExistsStays(certs: seq<Cert>, more: seq<Cert>, q: Qc)
    requires certs <= more && Exists(certs, q)
    ensures Exists(more, q)
  {
    var i :| 0 <= i < |certs| && certs[i].qc == q;
    assert more[i].qc == q;
  }

  lemma AllExistStay(certs: seq<Cert>, more: seq<Cert>)
    requires certs <= more
    ensures forall q :: Exists(certs, q) ==> Exists(more, q)
  {
    forall q | Exists(certs, q)
      ensures Exists(more, q)
    {
      ExistsStays(certs, more, q);
    }
  }

  lemma CountsStay(g: Group, w: World, v: World, r: nat, l: Local)
    requires Grows(w, v, r) && CountsOk(g, w, l)
    ensures CountsOk(g, v, l)
  {
    hide AckedBy, Grows;
    forall b, x | b in l.marks.acked && x in l.marks.acked[b]
      ensures AckedBy(g, v, b, x)
    {
      AckedByStays(g, w, v, r, b, x);
    }
  }

  lemma DecidedStays(g: Group, w: World, v: World, r: nat, l: Local)
    requires g.nFaulty < g.n && Grows(w, v, r) && DecidedOk(g, w, l)
    ensures DecidedOk(g, v, l)
  {
    hide BelowSettled, Grows, Settled;
    SettledStays(g, w, v, r, l.bExec);
    forall d | d in l.marks.decided
      ensures BelowSettled(g, v, d)
    {
      BelowSettledStays(g, w, v, r, d);
    }
  }

  lemma LocalStays(g: Group, w: World, v: World, r: nat, x: nat)
    requires g.nFaulty < g.n && Grows(w, v, r) && x < |w.locals| && v.locals[x] == w.locals[x] && LocalOk(g, w, x)
    ensures LocalOk(g, v, x)
  {
    hide CountsOk, DecidedOk, Locked, Extends, Exists;
    AllExistStay(w.certs, v.certs);
    CountsStay(g, w, v, r, w.locals[x]);
    DecidedStays(g, w, v, r, w.locals[x]);
  }

  lemma CastBeforeStays(l: Local, m: Local, certs: seq<Cert>, more: seq<Cert>, i: nat)
    requires i < |certs| && certs <= more && Adds(l, m) && CastBefore(l, certs, i)
    ensures CastBefore(m, more, i)
  {
    var k :| 0 <= k < |l.sent.votes| && l.sent.votes[k].blk == certs[i].qc.blk &&
             l.sent.votes[k].view == certs[i].qc.view && Among(certs, i, l.sent.votes[k].held);
    var j :| 0 <= j < i && certs[j].qc == l.sent.votes[k].held;
    assert m.sent.votes[k] == l.sent.votes[k] && more[j].qc == certs[j].qc;
  }

  lemma CertStays(g: Group, w: World, v: World, r: nat, i: nat)
    requires g.nFaulty < g.n == |w.locals| && Grows(w, v, r) && i < |w.certs| && CertOk(g, w, i)
    ensures CertOk(g, v, i)
  {
    hide CastBefore;
    forall x | x in v.certs[i].voters && g.Honest(x)
      ensures CastBefore(v.locals[x], v.certs, i)
    {
      CastBeforeStays(w.locals[x], v.locals[x], w.certs, v.certs, i);
    }
  }

  /** What has to be checked after a step of replica r. */
  lemma Carry(g: Group, w: World, v: World, r: nat)
    requires Inv(g, w) && Grows(w, v, r) && (g.Honest(r) ==> LocalOk(g, v, r))
    requires forall i :: |w.certs| <= i < |v.certs| ==> CertOk(g, v, i)
    ensures Inv(g, v)
  {
    hide LocalOk, CertOk, Adds;
    forall i | 1 <= i < |v.certs|
      ensures CertOk(g, v, i)
    {
      if i < |w.certs| {
        CertStays(g, w, v, r, i);
      }
    }
    forall x | 0 <= x < |v.locals| && g.Honest(x)
      ensures LocalOk(g, v, x)
    {
      if x != r {
        LocalStays(g, w, v, r, x);
      }
    }
  }

  /** Changes that no other replica can see and that do not touch what has been promised. */
  ghost predicate Quiet(l: Local, m: Local) {
    m.id == l.id && l.view <= m.view && m.hqc == l.hqc && m.bExec == l.bExec && l.finished <= m.finished &&
    m.marks.acked == l.marks.acked && m.marks.decided == l.marks.decided &&
    m.sent.votes == l.sent.votes && m.sent.acks == l.sent.acks
  }

  lemma KeepQuiet(g: Group, w: World, r: nat, m: Local)
    requires Inv(g, w) && g.Honest(r) && Quiet(w.locals[r], m)
    ensures Inv(g, Put(w, r, m))
  {
    hide CertOk, Settled, BelowSettled, Extends, Exists, AckedBy;
    var l, v := w.locals[r], Put(w, r, m);
    assert LocalOk(g, w, r);
    assert Grows(w, v, r);
    CountsStay(g, w, v, r, l);
    DecidedStays(g, w, v, r, l);
    Carry(g, w, v, r);
  }

  lemma KeepHqc(g: Group, w: World, r: nat, q: Qc)
    requires Inv(g, w) && g.Honest(r) && Exists(w.certs, q)
    ensures Inv(g, Put(w, r, UpdateHqc(w.locals[r], q)))
  {
    hide CertOk, Settled, BelowSettled, Extends, Exists, AckedBy;
    var l, m := w.locals[r], UpdateHqc(w.locals[r], q);
    var v := Put(w, r, m);
    assert LocalOk(g, w, r);
    assert Grows(w, v, r);
    CountsStay(g, w, v, r, l);
    DecidedStays(g, w, v, r, l);
    Carry(g, w, v, r);
  }

  function WithVote(l: Local, b: Block, dest: nat): Local {
    l.(sent := l.sent.(votes := l.sent.votes + [VoteCast(b, l.view, dest, l.hqc)]))
  }

  function WithAck(l: Local, q: Qc): Local {
    l.(sent := l.sent.(acks := l.sent.acks + [AckCast(q.blk, l.view, q)]))
  }

  ghost predicate FreeToVote(l: Local, b: Block) {
    forall k :: 0 <= k < |l.sent.votes| ==> l.sent.votes[k].view != l.view && l.sent.votes[k].blk != b
  }

  lemma KeepVote(g: Group, w: World, r: nat, b: Block, dest: nat)
    requires Inv(g, w) && g.Honest(r)
    requires b in w.locals[r].finished && FreeToVote(w.locals[r], b) && Extends(b, w.locals[r].hqc.blk)
    ensures Inv(g, Put(w, r, WithVote(w.locals[r], b, dest)))
  {
    hide CertOk, Settled, BelowSettled, Extends, Exists, AckedBy;
    var l, m := w.locals[r], WithVote(w.locals[r], b, dest);
    var v := Put(w, r, m);
    assert LocalOk(g, w, r);
    assert Grows(w, v, r);
    CountsStay(g, w, v, r, l);
    DecidedStays(g, w, v, r, l);
    assert AcksOk(m, v.certs) by {
      forall k | 0 <= k < |m.sent.acks|
        ensures m.sent.acks[k].held.blk == m.sent.acks[k].blk && Exists(v.certs, m.sent.acks[k].held)
        ensures Locked(m, m.sent.acks[k])
      {
        assert Locked(l, l.sent.acks[k]);
      }
    }
    Carry(g, w, v, r);
  }

  lemma KeepAck(g: Group, w: World, r: nat, q: Qc)
    requires Inv(g, w) && g.Honest(r) && Exists(w.certs, q)
    requires q.view <= w.locals[r].hqc.view && w.locals[r].view <= q.view
    ensures Inv(g, Put(w, r, WithAck(w.locals[r], q)))
  {
    hide CertOk, Settled, BelowSettled, Extends, Exists, AckedBy;
    var l, m := w.locals[r], WithAck(w.locals[r], q);
    var v := Put(w, r, m);
    assert LocalOk(g, w, r);
    assert Grows(w, v, r);
    CountsStay(g, w, v, r, l);
    DecidedStays(g, w, v, r, l);
    assert AcksOk(m, v.certs) by {
      forall k | 0 <= k < |m.sent.acks|
        ensures m.sent.acks[k].held.blk == m.sent.acks[k].blk && Exists(v.certs, m.sent.acks[k].held)
        ensures Locked(m, m.sent.acks[k])
      {
        assert k < |l.sent.acks| ==> Locked(l, l.sent.acks[k]);
      }
    }
    Carry(g, w, v, r);
  }

  function WithCount(l: Local, b: Block, x: nat): Local {
    l.(marks := l.marks.(acked := l.marks.acked[b := Get(l.marks.acked, b, {}) + {x}]))
  }

  lemma KeepCount(g: Group, w: World, r: nat, b: Block, x: nat)
    requires Inv(g, w) && g.Honest(r) && AckedBy(g, w, b, x)
    ensures Inv(g, Put(w, r, WithCount(w.locals[r], b, x)))
  {
    hide CertOk, Settled, BelowSettled, Extends, Exists, AckedBy;
    var l, m := w.locals[r], WithCount(w.locals[r], b, x);
    var v := Put(w, r, m);
    assert LocalOk(g, w, r);
    assert Grows(w, v, r);
    DecidedStays(g, w, v, r, l);
    CountsStay(g, w, v, r, l);
    AckedByStays(g, w, v, r, b, x);
    Carry(g, w, v, r);
  }

  /** With a full quorum of acks the block is on one chain with the last executed block, so it can be committed. */
  lemma KeepCommit(g: Group, w: World, r: nat, b: Block)
    requires Inv(g, w) && g.Honest(r) && b in w.locals[r].marks.acked
    requires |w.locals[r].marks.acked[b]| >= g.Config().nResponsive
    ensures CheckCommit(w.locals[r], b).ok && Inv(g, Put(w, r, CheckCommit(w.locals[r], b).l))
  {
    hide CertOk, Extends, Exists, AckedBy, BelowSettled, Walk, Above;
    var l := w.locals[r];
    assert LocalOk(g, w, r);
    var q := l.marks.acked[b];
    assert q <= Replicas(g.n) by {
      forall x | x in q
        ensures x < g.n
      {
        assert AckedBy(g, w, b, x);
        AckedByBound(g, w, b, x);
      }
    }
    assert AckQuorum(g, w, b, q);
    SettledOneChain(g, w, b, l.bExec);
    CommitSucceeds(l, b);
    var m := CheckCommit(l, b).l;
    var v := Put(w, r, m);
    assert Grows(w, v, r);
    CountsStay(g, w, v, r, l);
    SettledStays(g, w, v, r, b);
    forall d | d in m.marks.decided
      ensures BelowSettled(g, v, d)
    {
      if d in l.marks.decided {
        BelowSettledStays(g, w, v, r, d);
      } else {
        QueueBelow(b, Height(l.bExec), d);
        SettledBelow(g, v, b, d);
      }
    }
    Carry(g, w, v, r);
  }

  lemma SettledBelow(g: Group, w: World, b: Block, d: Block)
    requires g.nFaulty < g.n && Settled(g, w, b) && Extends(b, d)
    ensures BelowSettled(g, w, d)
  {
  }

  lemma AckedByBound(g: Group, w: World, b: Block, x: nat)
    requires AckedBy(g, w, b, x)
    ensures x < g.n
  {
  }

  lemma QueueBelow(b: Block, h: nat, d: Block)
    requires d in Above(b, h)
    ensures Extends(b, d)
  {
    var k :| 0 <= k < |Above(b, h)| && Above(b, h)[k] == d;
    AboveIsChain(b, h, k);
  }

  /** A block on one chain with the last executed one can be committed: everything on the way down to it is new,
      and everything below it is decided. */
  lemma CommitSucceeds(l: Local, b: Block)
    requires OneChain(b, l.bExec) && l.bExec in l.marks.decided
    requires forall d :: d in l.marks.decided && d.Block? ==> d.parent in l.marks.decided
    ensures var o := CheckCommit(l, b);
            o.ok && o.l.bExec == b && b in o.l.marks.decided && l.marks.decided <= o.l.marks.decided &&
            (forall d :: d in o.l.marks.decided && d.Block? ==> d.parent in o.l.marks.decided) &&
            (forall d :: d in o.l.marks.decided ==> d in l.marks.decided || d in Above(b, Height(l.bExec)))
  {
    hide Above, Walk, Extends;
    var h, o := Height(l.bExec), CheckCommit(l, b);
    TopOfQueue(b, h, l.bExec);
    if Above(b, h) == [] {
      BelowDecided(l, l.bExec, b);
      NoneAbove(b, l.bExec);
    }
    forall d | d in Above(b, h)
      ensures d.Block? && d.parent in o.l.marks.decided
    {
      var k :| 0 <= k < |Above(b, h)| && Above(b, h)[k] == d;
      AboveIsChain(b, h, k);
      if k > 0 {
        assert Above(b, h)[k - 1] in Above(b, h);
      }
    }
  }

  lemma {:induction false} BelowDecided(l: Local, a: Block, b: Block)
    requires a in l.marks.decided && Extends(a, b)
    requires forall d :: d in l.marks.decided && d.Block? ==> d.parent in l.marks.decided
    ensures b in l.marks.decided
    decreases a
  {
    if a != b {
      BelowDecided(l, a.parent, b);
    }
  }

  lemma NoneAbove(b: Block, a: Block)
    requires Extends(a, b)
    ensures Height(b) <= Height(a) && Walk(b, Height(a)) == b && Above(b, Height(a)) == []
  {
    ExtendsIsHigher(a, b);
  }

  lemma TopOfQueue(b: Block, h: nat, a: Block)
    requires h == Height(a) && OneChain(b, a)
    ensures Above(b, h) == [] ==> Extends(a, b)
    ensures Above(b, h) != [] ==> b in Above(b, h) && Walk(b, h) == a
  {
    if Height(b) <= h {
      if Extends(b, a) {
        ExtendsIsHigher(b, a);
      }
    } else {
      if Extends(a, b) {
        ExtendsIsHigher(a, b);
      }
      WalkFinds(b, a);
    }
  }
}
