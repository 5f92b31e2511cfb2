/** Views in runs of a whole group. */
module ConsensusProgress {
  import opened ConsensusBlocks
  import opened ConsensusLive
  import opened ConsensusReplica
  import opened ConsensusRun
  import opened ConsensusSafety
  import opened ConsensusTranscripts
  import V = ConsensusViews

  /** What replica r handles. */
  function OwnEvents(es: seq<Event>, r: nat): seq<Event> {
    if es == [] then []
    else
      var e := es[|es| - 1];
      var own := OwnEvents(es[..|es| - 1], r);
      if !e.Assemble? && e.r == r then own + [e] else own
  }

  lemma OwnMore(es: seq<Event>, e: Event, r: nat)
    ensures OwnEvents(es + [e], r) == if !e.Assemble? && e.r == r then OwnEvents(es, r) + [e] else OwnEvents(es, r)
  {
    assert (es + [e])[..|es|] == es;
  }

  /** A replica of the group is where its own events bring it. */
  lemma {:induction false} Projects(g: Group, vec: seq<Aggregate>, es: seq<Event>, r: nat)
    requires g.nFaulty < g.n && r < g.n
    ensures After(g, vec, es).locals[r] == LocalAfter(g.Config(), r, vec, OwnEvents(es, r))
  {
    hide Handle, StartLocal, Collects;
    if es != [] {
      var fs, e := es[..|es| - 1], es[|es| - 1];
      Projects(g, vec, fs, r);
      if !e.Assemble? && e.r == r {
        assert OwnEvents(es, r)[..|OwnEvents(fs, r)|] == OwnEvents(fs, r);
      }
    }
  }

  /** In an allowed run no handler of a certificate finds safety breached. */
  lemma {:induction false} NeverBreached(g: Group, vec: seq<Aggregate>, es: seq<Event>, r: nat)
    requires g.Good() && AllAllowed(g, vec, es) && r < g.n && g.Honest(r)
    ensures V.NoBreach(g.Config(), r, vec, OwnEvents(es, r))
  {
    hide Handle, StartLocal, LocalAfter, After, Inv, Allowed;
    if es != [] {
      var fs, e := es[..|es| - 1], es[|es| - 1];
      NeverBreached(g, vec, fs, r);
      if !e.Assemble? && e.r == r {
        var own := OwnEvents(fs, r);
        assert OwnEvents(es, r)[..|own|] == own;
        Projects(g, vec, fs, r);
        RunKeeps(g, vec, fs);
        StepKeeps(g, After(g, vec, fs), e);
      }
    }
  }

  /** In an allowed run in which an honest replica handles no early messages, its view is the first one of which it has
      no certificate or not enough shares. */
  lemma ViewInRun(g: Group, vec: seq<Aggregate>, es: seq<Event>, r: nat, v: nat)
    requires g.Good() && AllAllowed(g, vec, es) && r < g.n && g.Honest(r)
    requires V.Timely(g.Config(), r, vec, OwnEvents(es, r))
    ensures var c, own := g.Config(), OwnEvents(es, r);
            After(g, vec, es).locals[r].view == v <==>
              1 <= v && !(V.HasCert(own, v) && V.Enough(c, r, vec, own, v)) &&
              forall u: nat :: 1 <= u < v ==> V.HasCert(own, u) && V.Enough(c, r, vec, own, u)
  {
    hide After, LocalAfter, V.HasCert, V.Enough, V.Timely, V.NoBreach;
    Projects(g, vec, es, r);
    NeverBreached(g, vec, es, r);
    V.ViewIs(g.Config(), r, vec, OwnEvents(es, r), v);
  }

  lemma {:induction false} EarlyIsTimely(c: Config, r: nat, vec: seq<Aggregate>, es: seq<Event>)
    requires Early(es)
    ensures V.Timely(c, r, vec, es)
  {
    hide LocalAfter;
    if es != [] {
      EarlyIsTimely(c, r, vec, es[..|es| - 1]);
    }
  }

  lemma {:induction false} OwnEarly(es: seq<Event>, r: nat)
    requires Early(es)
    ensures Early(OwnEvents(es, r))
  {
    if es != [] {
      OwnEarly(es[..|es| - 1], r);
    }
  }

  /** Replica r has the certificate of view 1 and this many shares of it. */
  ghost predicate Supplied(es: seq<Event>, r: nat, n: nat) {
    V.HasCert(OwnEvents(es, r), 1) && V.Parts(OwnEvents(es, r), 1) >= n
  }

  lemma SuppliedMore(es: seq<Event>, e: Event, r: nat, n: nat)
    requires Supplied(es, r, n) || (n == 0 && e.Certificate? && e.r == r && e.q.view == 1)
    ensures Supplied(es + [e], r, n)
    ensures e.SharePart? && e.r == r && e.valid && e.view == 1 && Supplied(es, r, n) ==> Supplied(es + [e], r, n + 1)
  {
    OwnMore(es, e, r);
    var own, all := OwnEvents(es, r), OwnEvents(es + [e], r);
    if !e.Assemble? && e.r == r {
      assert all[..|own|] == own;
      V.HasCertMore(all, 1);
    }
  }

  /** With all messages of view 1 and none of later views, a replica is in view 2. */
  lemma SuppliedAdvances(g: Group, vec: seq<Aggregate>, es: seq<Event>, r: nat)
    requires g.Good() && AllAllowed(g, vec, es) && Early(es) && r < g.n && g.Honest(r)
    requires Supplied(es, r, g.Config().nMajority)
    ensures After(g, vec, es).locals[r].view == 2
  {
    hide After, LocalAfter;
    var own := OwnEvents(es, r);
    OwnEarly(es, r);
    EarlyIsTimely(g.Config(), r, vec, own);
    ViewInRun(g, vec, es, r, 2);
  }

  /** One replica gets what it needs to end view 1. */
  lemma Supply(g: Group, vec: seq<Aggregate>, es0: seq<Event>, b: Block, x: nat, more: nat) returns (es: seq<Event>)
    requires g.Good() && AllAllowed(g, vec, es0) && Early(es0) && x < g.n && g.Honest(x)
    requires Exists(After(g, vec, es0).certs, Qc(b, 1))
    ensures AllAllowed(g, vec, es) && Early(es) && Exists(After(g, vec, es).certs, Qc(b, 1)) && Supplied(es, x, more)
    ensures forall y, n: nat :: Supplied(es0, y, n) ==> Supplied(es, y, n)
    decreases more
  {
    hide After, AllAllowed, Next, Supplied, Handle;
    var e := if more == 0 then Certificate(x, Qc(b, 1)) else SharePart(x, 1, true);
    es := es0;
    if more > 0 {
      es := Supply(g, vec, es0, b, x, more - 1);
    }
    MayHandle(g, After(g, vec, es), b, x, e);
    Step(g, vec, es, e);
    if more > 0 {
      SuppliedMore(es, e, x, more - 1);
    } else {
      SuppliedMore(es, e, x, 0);
    }
    forall y, n: nat | Supplied(es0, y, n)
      ensures Supplied(es + [e], y, n)
    {
      SuppliedMore(es, e, y, n);
    }
    es := es + [e];
  }

  lemma MayHandle(g: Group, w: World, b: Block, x: nat, e: Event)
    requires g.Good() && |w.locals| == g.n && x < g.n && g.Honest(x) && Exists(w.certs, Qc(b, 1))
    requires e == Certificate(x, Qc(b, 1)) || e == SharePart(x, 1, true)
    ensures Allowed(g, w, e) && Exists(Next(g, w, e).certs, Qc(b, 1))
  {
    hide Handle;
  }

  /** In every group of two or more there is an allowed run in which every honest replica ends view 1. */
  lemma AllAdvance(g: Group, vec: seq<Aggregate>, p: nat, cmds: seq<nat>) returns (es: seq<Event>)
    requires g.Good() && 2 <= g.n && g.Honest(p)
    ensures AllAllowed(g, vec, es)
    ensures forall x :: 0 <= x < g.n && g.Honest(x) ==> After(g, vec, es).locals[x].view == 2
  {
    hide After, AllAllowed, Done, Acking, Supplied;
    var b, n := First(vec, cmds), g.Config().nMajority;
    es := AllCommit(g, vec, p, cmds);
    for x := 0 to g.n
      invariant AllAllowed(g, vec, es) && Early(es) && Exists(After(g, vec, es).certs, Qc(b, 1))
      invariant forall y :: 0 <= y < x && g.Honest(y) ==> Supplied(es, y, n)
    {
      if g.Honest(x) {
        es := Supply(g, vec, es, b, x, n);
      }
    }
    forall x | 0 <= x < g.n && g.Honest(x)
      ensures After(g, vec, es).locals[x].view == 2
    {
      SuppliedAdvances(g, vec, es, x);
    }
  }
}
