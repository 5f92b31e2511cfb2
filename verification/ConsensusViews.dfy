/** When a replica ends its view, told from the messages it has handled. */
module ConsensusViews {
  import opened ConsensusBlocks
  import opened ConsensusGate
  import opened ConsensusReplica
  import opened ConsensusRun
  import opened ConsensusTranscripts
  import opened Wrappers

  /** The valid shares of view w that were handled before w was over. */
  function Received(c: Config, id: nat, vec: seq<Aggregate>, es: seq<Event>, w: nat): nat {
    if es == [] then 0
    else
      var fs, e := es[..|es| - 1], es[|es| - 1];
      Received(c, id, vec, fs, w) +
      if e.SharePart? && e.view == w && e.valid && LocalAfter(c, id, vec, fs).view <= w then 1 else 0
  }

  /** The shares sent for view w. */
  function SentFor(shares: seq<Share>, w: nat): nat {
    if shares == [] then 0
    else SentFor(shares[..|shares| - 1], w) + if shares[|shares| - 1].view == w then 1 else 0
  }

  /** The shares of view w that the replica has, its own included. */
  function Has(c: Config, id: nat, vec: seq<Aggregate>, es: seq<Event>, w: nat): nat {
    Received(c, id, vec, es, w) + SentFor(LocalAfter(c, id, vec, es).sent.shares, w)
  }

  ghost predicate Complete(c: Config, id: nat, vec: seq<Aggregate>, es: seq<Event>, w: nat) {
    Has(c, id, vec, es, w) >= c.nMajority
  }

  /** The last event has brought the last share that view w needs. */
  ghost predicate Fills(c: Config, id: nat, vec: seq<Aggregate>, es: seq<Event>, w: nat) {
    es != [] && !Complete(c, id, vec, es[..|es| - 1], w) && Complete(c, id, vec, es, w)
  }

  /** Some event in view v has brought the last share for v or a later view. */
  ghost predicate SharesIn(c: Config, id: nat, vec: seq<Aggregate>, es: seq<Event>, v: nat) {
    es != [] &&
    (SharesIn(c, id, vec, es[..|es| - 1], v) ||
     (LocalAfter(c, id, vec, es[..|es| - 1]).view == v && exists w: nat :: w >= v && Fills(c, id, vec, es, w)))
  }

  /** The view of the first certificate that is handled in view v and is not out of date. */
  function FirstCert(c: Config, id: nat, vec: seq<Aggregate>, es: seq<Event>, v: nat): (first: Option<nat>)
    ensures first.Some? ==> first.value >= v
  {
    if es == [] then None
    else
      var fs, e := es[..|es| - 1], es[|es| - 1];
      var first := FirstCert(c, id, vec, fs, v);
      if first.None? && e.Certificate? && LocalAfter(c, id, vec, fs).view == v && e.q.view >= v then Some(e.q.view)
      else first
  }

  /** No handler of a certificate has found safety breached. */
  ghost predicate NoBreach(c: Config, id: nat, vec: seq<Aggregate>, es: seq<Event>) {
    es == [] ||
    (NoBreach(c, id, vec, es[..|es| - 1]) &&
     (es[|es| - 1].Certificate? ==> Handle(c, LocalAfter(c, id, vec, es[..|es| - 1]), es[|es| - 1]).ok))
  }

  function Least(a: nat, b: nat): nat {
    if a <= b then a else b
  }

  /** The gate knows what has been handled. */
  ghost predicate Knows(c: Config, id: nat, vec: seq<Aggregate>, es: seq<Event>) {
    var g := GateOf(LocalAfter(c, id, vec, es));
    (forall w: nat :: w >= g.view ==> Get(g.counts, w, 0) == Least(c.nMajority, Has(c, id, vec, es, w))) &&
    (match FirstCert(c, id, vec, es, g.view) case Some(x) => g.cert == x case None => g.cert < g.view) &&
    (g.shares == g.view <==> SharesIn(c, id, vec, es, g.view)) && g.beacon == g.shares <= g.view &&
    !(g.cert == g.view && g.shares == g.view) &&
    forall v: nat :: v > g.view ==> FirstCert(c, id, vec, es, v).None? && !SharesIn(c, id, vec, es, v)
  }

  /** The view whose shares an event adds to, if any. */
  function Added(g: Gate, e: Event, own: bool): Option<nat> {
    if e.SharePart? && e.valid && e.view >= g.view then Some(e.view) else if own then Some(g.view) else None
  }

  /** The event brings the last share of a view. */
  predicate Last(n: nat, g: Gate, e: Event, own: bool) {
    var w := Added(g, e, own);
    w.Some? && Get(g.counts, w.value, 0) + 1 == n
  }

  function CertAfter(g: Gate, e: Event): nat {
    if e.Certificate? && e.q.view >= g.view && g.cert < g.view then e.q.view else g.cert
  }

  /** One event at the gate. */
  lemma GateMeans(n: Positive, g: Gate, e: Event, own: bool)
    requires g.beacon == g.shares && !(g.cert == g.view && g.shares == g.view)
    requires forall w: nat :: w >= g.view ==> Get(g.counts, w, 0) <= n
    requires (e.SharePart? ==> !own) && (e.Certificate? && own ==> e.q.view >= g.view && g.cert < g.view)
    ensures var h := GateAfter(n, g, e, own, true);
            (forall w: nat :: w >= g.view ==>
              Get(h.counts, w, 0) == if Added(g, e, own) == Some(w) then Least(n, Get(g.counts, w, 0) + 1)
                                     else Get(g.counts, w, 0)) &&
            h.cert == CertAfter(g, e) && h.beacon == h.shares == (if Last(n, g, e, own) then g.view else g.shares) &&
            h.view == if h.cert == g.view && h.shares == g.view then g.view + 1 else g.view
  {
    var k := g.(cert := CertAfter(g, e));
    var w := Added(g, e, own);
    if w.Some? {
      AddShareMeans(n, k, w.value);
    }
    hide AddShare;
  }

  /** One valid share. */
  lemma AddShareMeans(n: Positive, g: Gate, w: nat)
    requires w >= g.view && Get(g.counts, w, 0) <= n && g.beacon == g.shares
    ensures var h, got := AddShare(n, g, w), Get(g.counts, w, 0);
            (forall x: nat :: Get(h.counts, x, 0) == if x == w then Least(n, got + 1) else Get(g.counts, x, 0)) &&
            h.cert == g.cert && h.beacon == h.shares == (if got + 1 == n then g.view else g.shares) &&
            h.view == if got + 1 == n && g.cert == g.view then g.view + 1 else g.view
  {
  }

  /** What an event adds to the shares of a view. */
  lemma HasMore(c: Config, id: nat, vec: seq<Aggregate>, es: seq<Event>, w: nat)
    requires es != []
    ensures var fs, e := es[..|es| - 1], es[|es| - 1];
            var l, m := LocalAfter(c, id, vec, fs), LocalAfter(c, id, vec, es);
            w >= l.view ==>
              Has(c, id, vec, es, w) ==
              Has(c, id, vec, fs, w) + if Added(GateOf(l), e, Own(l, m)) == Some(w) then 1 else 0
  {
    hide Handle, ProposerOf, AddShare, GateAfter;
    var fs, e := es[..|es| - 1], es[|es| - 1];
    var l := LocalAfter(c, id, vec, fs);
    HandlePasses(c, l, e);
    var all := LocalAfter(c, id, vec, es).sent.shares;
    if Own(l, LocalAfter(c, id, vec, es)) {
      assert all[..|all| - 1] == l.sent.shares;
    }
  }

  /** One event: the view stays or is followed by the next. */
  lemma StepKnows(c: Config, id: nat, vec: seq<Aggregate>, es: seq<Event>)
    requires es != [] && NoBreach(c, id, vec, es) && Knows(c, id, vec, es[..|es| - 1])
    ensures Knows(c, id, vec, es)
    ensures var l, m := LocalAfter(c, id, vec, es[..|es| - 1]), LocalAfter(c, id, vec, es);
            m.view == if FirstCert(c, id, vec, es, l.view) == Some(l.view) && SharesIn(c, id, vec, es, l.view)
                      then l.view + 1 else l.view
    ensures var v := LocalAfter(c, id, vec, es[..|es| - 1]).view + 1;
            FirstCert(c, id, vec, es, v).None? && !SharesIn(c, id, vec, es, v)
  {
    hide LocalAfter, Has, SharesIn, FirstCert, NoBreach;
    var fs := es[..|es| - 1];
    GateStepped(c, id, vec, es);
    CertStepped(c, id, vec, es);
    forall v: nat | v > LocalAfter(c, id, vec, fs).view
      ensures FirstCert(c, id, vec, es, v).None? && !SharesIn(c, id, vec, es, v)
    {
      LaterUntouched(c, id, vec, es, v);
    }
  }

  /** The gate after one event. */
  lemma GateStepped(c: Config, id: nat, vec: seq<Aggregate>, es: seq<Event>)
    requires es != [] && NoBreach(c, id, vec, es) && Knows(c, id, vec, es[..|es| - 1])
    ensures var fs, e := es[..|es| - 1], es[|es| - 1];
            var g, h := GateOf(LocalAfter(c, id, vec, fs)), GateOf(LocalAfter(c, id, vec, es));
            (forall w: nat :: w >= g.view ==> Get(h.counts, w, 0) == Least(c.nMajority, Has(c, id, vec, es, w))) &&
            h.cert == CertAfter(g, e) && h.beacon == h.shares <= g.view &&
            (h.shares == g.view <==> SharesIn(c, id, vec, es, g.view)) &&
            h.view == if h.cert == g.view && h.shares == g.view then g.view + 1 else g.view
  {
    hide Handle, ProposerOf, AddShare, Has, LocalAfter, SharesIn, FirstCert;
    var fs, e := es[..|es| - 1], es[|es| - 1];
    var l, m := LocalAfter(c, id, vec, fs), LocalAfter(c, id, vec, es);
    After(c, id, vec, es);
    HandlePasses(c, l, e);
    var g, own := GateOf(l), Own(l, m);
    forall w: nat | w >= g.view
      ensures Get(g.counts, w, 0) <= c.nMajority
    {
      assert Get(g.counts, w, 0) == Least(c.nMajority, Has(c, id, vec, fs, w));
    }
    GateMeans(c.nMajority, g, e, own);
    forall w: nat | w >= l.view
      ensures Has(c, id, vec, es, w) ==
              Has(c, id, vec, fs, w) + if Added(g, e, own) == Some(w) then 1 else 0
    {
      HasMore(c, id, vec, es, w);
    }
    SharesMore(c, id, vec, es);
    assert GateOf(m) == GateAfter(c.nMajority, g, e, own, true);
  }

  lemma CertStepped(c: Config, id: nat, vec: seq<Aggregate>, es: seq<Event>)
    requires es != [] && Knows(c, id, vec, es[..|es| - 1])
    ensures var g := GateOf(LocalAfter(c, id, vec, es[..|es| - 1]));
            match FirstCert(c, id, vec, es, g.view)
            case Some(x) => CertAfter(g, es[|es| - 1]) == x
            case None => CertAfter(g, es[|es| - 1]) < g.view
  {
    hide LocalAfter, Has, SharesIn;
  }

  lemma LaterUntouched(c: Config, id: nat, vec: seq<Aggregate>, es: seq<Event>, v: nat)
    requires es != [] && Knows(c, id, vec, es[..|es| - 1]) && v > LocalAfter(c, id, vec, es[..|es| - 1]).view
    ensures FirstCert(c, id, vec, es, v).None? && !SharesIn(c, id, vec, es, v)
  {
    hide LocalAfter, Has;
  }

  /** Shares of the view or a later one become complete exactly if the event brings the last of them. */
  lemma SharesMore(c: Config, id: nat, vec: seq<Aggregate>, es: seq<Event>)
    requires es != [] && Knows(c, id, vec, es[..|es| - 1])
    ensures var fs, e := es[..|es| - 1], es[|es| - 1];
            var l, m := LocalAfter(c, id, vec, fs), LocalAfter(c, id, vec, es);
            SharesIn(c, id, vec, es, l.view) <==>
              SharesIn(c, id, vec, fs, l.view) || Last(c.nMajority, GateOf(l), e, Own(l, m))
  {
    hide LocalAfter, Has;
    var fs, e := es[..|es| - 1], es[|es| - 1];
    var l, m := LocalAfter(c, id, vec, fs), LocalAfter(c, id, vec, es);
    var g := GateOf(l);
    forall w: nat | w >= l.view
      ensures Fills(c, id, vec, es, w) <==>
              Added(g, e, Own(l, m)) == Some(w) && Get(g.counts, w, 0) + 1 == c.nMajority
    {
      HasMore(c, id, vec, es, w);
      assert Get(g.counts, w, 0) == Least(c.nMajority, Has(c, id, vec, fs, w));
    }
  }

  lemma After(c: Config, id: nat, vec: seq<Aggregate>, es: seq<Event>)
    requires es != []
    ensures LocalAfter(c, id, vec, es) == Handle(c, LocalAfter(c, id, vec, es[..|es| - 1]), es[|es| - 1]).l
  {
  }

  lemma {:induction false} AlwaysKnows(c: Config, id: nat, vec: seq<Aggregate>, es: seq<Event>)
    requires NoBreach(c, id, vec, es)
    ensures Knows(c, id, vec, es)
  {
    hide LocalAfter, Knows;
    if es == [] {
      KnowsAtStart(c, id, vec);
    } else {
      AlwaysKnows(c, id, vec, es[..|es| - 1]);
      StepKnows(c, id, vec, es);
    }
  }

  lemma KnowsAtStart(c: Config, id: nat, vec: seq<Aggregate>)
    ensures Knows(c, id, vec, [])
  {
    hide Numbered, Replicas, SharingOf;
  }

  /** After any event a replica is in the view it was in or in the next, and in the next exactly if the first
      certificate that was not out of date in the view is for it, and an event in the view has brought the last share
      that it or a later one needs. */
  lemma ViewAdvances(c: Config, id: nat, vec: seq<Aggregate>, es: seq<Event>, e: Event)
    requires NoBreach(c, id, vec, es + [e])
    ensures var v := LocalAfter(c, id, vec, es).view;
            LocalAfter(c, id, vec, es + [e]).view ==
            if FirstCert(c, id, vec, es + [e], v) == Some(v) && SharesIn(c, id, vec, es + [e], v) then v + 1 else v
  {
    hide LocalAfter, Knows;
    assert (es + [e])[..|es|] == es;
    AlwaysKnows(c, id, vec, es);
    StepKnows(c, id, vec, es + [e]);
  }

  /** A certificate of a later view that is taken up keeps a replica in its view for good, whatever follows. */
  lemma {:induction false} StuckInView(c: Config, id: nat, vec: seq<Aggregate>, es: seq<Event>, more: seq<Event>)
    requires NoBreach(c, id, vec, es + more)
    requires var v := LocalAfter(c, id, vec, es).view; var first := FirstCert(c, id, vec, es, v);
             first.Some? && first.value > v
    ensures var v := LocalAfter(c, id, vec, es).view;
            LocalAfter(c, id, vec, es + more).view == v &&
            FirstCert(c, id, vec, es + more, v) == FirstCert(c, id, vec, es, v)
    decreases |more|
  {
    hide LocalAfter;
    if more == [] {
      assert es + more == es;
    } else {
      var some, e := more[..|more| - 1], more[|more| - 1];
      assert es + more == (es + some) + [e] && (es + more)[..|es + some|] == es + some;
      StuckInView(c, id, vec, es, some);
      ViewAdvances(c, id, vec, es + some, e);
    }
  }

  /** No certificate or share is handled before its view. The handler of share messages waits for the view, that of
      certificate messages does not. */
  ghost predicate Timely(c: Config, id: nat, vec: seq<Aggregate>, es: seq<Event>) {
    es == [] ||
    (Timely(c, id, vec, es[..|es| - 1]) &&
     var e, v := es[|es| - 1], LocalAfter(c, id, vec, es[..|es| - 1]).view;
     (e.Certificate? ==> e.q.view <= v) && (e.SharePart? ==> e.view <= v))
  }

  ghost predicate HasCert(es: seq<Event>, v: nat) {
    exists i :: 0 <= i < |es| && es[i].Certificate? && es[i].q.view == v
  }

  /** The valid shares of view v among the events. */
  function Parts(es: seq<Event>, v: nat): nat {
    if es == [] then 0
    else
      var e := es[|es| - 1];
      Parts(es[..|es| - 1], v) + if e.SharePart? && e.view == v && e.valid then 1 else 0
  }

  lemma HasCertMore(es: seq<Event>, v: nat)
    requires es != []
    ensures var e := es[|es| - 1]; HasCert(es, v) <==> HasCert(es[..|es| - 1], v) || (e.Certificate? && e.q.view == v)
  {
    var fs := es[..|es| - 1];
    if HasCert(fs, v) {
      var i :| 0 <= i < |fs| && fs[i].Certificate? && fs[i].q.view == v;
      assert es[i] == fs[i];
    }
    if HasCert(es, v) {
      var i :| 0 <= i < |es| && es[i].Certificate? && es[i].q.view == v;
      assert i < |fs| ==> fs[i] == es[i];
    }
  }

  /** The shares that make view v complete: received from others, and its own. */
  ghost predicate Enough(c: Config, id: nat, vec: seq<Aggregate>, es: seq<Event>, v: nat) {
    Parts(es, v) + SentFor(LocalAfter(c, id, vec, es).sent.shares, v) >= c.nMajority
  }

  /** In a run without early messages only those of view v itself count for it, and all earlier views had theirs. */
  ghost predicate Plain(c: Config, id: nat, vec: seq<Aggregate>, es: seq<Event>, v: nat) {
    FirstCert(c, id, vec, es, v) == (if HasCert(es, v) then Some(v) else None) &&
    (SharesIn(c, id, vec, es, v) <==> Enough(c, id, vec, es, v)) && Received(c, id, vec, es, v) == Parts(es, v) &&
    (forall x: nat :: x > v ==> !HasCert(es, x) && Parts(es, x) == 0 && Has(c, id, vec, es, x) == 0) &&
    forall u: nat :: 1 <= u < v ==> HasCert(es, u) && Enough(c, id, vec, es, u)
  }

  /** What an event does to them while the view stays. */
  lemma PlainMore(c: Config, id: nat, vec: seq<Aggregate>, es: seq<Event>)
    requires es != [] && Timely(c, id, vec, es)
    requires Plain(c, id, vec, es[..|es| - 1], LocalAfter(c, id, vec, es[..|es| - 1]).view)
    ensures Plain(c, id, vec, es, LocalAfter(c, id, vec, es[..|es| - 1]).view)
  {
    var v := LocalAfter(c, id, vec, es[..|es| - 1]).view;
    CertMore(c, id, vec, es);
    SharesPlain(c, id, vec, es);
    forall x: nat | x > v
      ensures !HasCert(es, x) && Parts(es, x) == 0 && Has(c, id, vec, es, x) == 0
    {
      LaterNone(c, id, vec, es, x);
    }
    forall u: nat | 1 <= u < v
      ensures HasCert(es, u) && Enough(c, id, vec, es, u)
    {
      HasCertMore(es, u);
      EnoughStays(c, id, vec, es, u);
    }
    hide LocalAfter, HasCert, Has, FirstCert, SharesIn, Received, Parts, Enough, Timely;
  }

  lemma CertMore(c: Config, id: nat, vec: seq<Aggregate>, es: seq<Event>)
    requires es != [] && Timely(c, id, vec, es)
    requires Plain(c, id, vec, es[..|es| - 1], LocalAfter(c, id, vec, es[..|es| - 1]).view)
    ensures var v := LocalAfter(c, id, vec, es[..|es| - 1]).view;
            FirstCert(c, id, vec, es, v) == if HasCert(es, v) then Some(v) else None
  {
    hide LocalAfter, HasCert, SharesIn, Has, Received, Parts, Enough;
    HasCertMore(es, LocalAfter(c, id, vec, es[..|es| - 1]).view);
  }

  lemma LaterNone(c: Config, id: nat, vec: seq<Aggregate>, es: seq<Event>, x: nat)
    requires es != [] && Timely(c, id, vec, es) && x > LocalAfter(c, id, vec, es[..|es| - 1]).view
    requires Plain(c, id, vec, es[..|es| - 1], LocalAfter(c, id, vec, es[..|es| - 1]).view)
    ensures !HasCert(es, x) && Parts(es, x) == 0 && Has(c, id, vec, es, x) == 0
  {
    hide LocalAfter, HasCert, SharesIn, Has, FirstCert, Received, Enough;
    HasCertMore(es, x);
    HasMore(c, id, vec, es, x);
  }

  lemma EnoughStays(c: Config, id: nat, vec: seq<Aggregate>, es: seq<Event>, u: nat)
    requires es != [] && Enough(c, id, vec, es[..|es| - 1], u)
    ensures Enough(c, id, vec, es, u)
  {
    SentForGrows(c, id, vec, es, u);
    hide LocalAfter, SentFor;
  }

  lemma SentForGrows(c: Config, id: nat, vec: seq<Aggregate>, es: seq<Event>, w: nat)
    requires es != []
    ensures SentFor(LocalAfter(c, id, vec, es).sent.shares, w) >=
            SentFor(LocalAfter(c, id, vec, es[..|es| - 1]).sent.shares, w)
  {
    hide LocalAfter, Handle, OwnShare;
    var l, m := LocalAfter(c, id, vec, es[..|es| - 1]), LocalAfter(c, id, vec, es);
    After(c, id, vec, es);
    HandlePasses(c, l, es[|es| - 1]);
    if Own(l, m) {
      assert m.sent.shares[..|m.sent.shares| - 1] == l.sent.shares;
    }
  }

  lemma SharesPlain(c: Config, id: nat, vec: seq<Aggregate>, es: seq<Event>)
    requires es != [] && Timely(c, id, vec, es)
    requires Plain(c, id, vec, es[..|es| - 1], LocalAfter(c, id, vec, es[..|es| - 1]).view)
    ensures var v := LocalAfter(c, id, vec, es[..|es| - 1]).view;
            Received(c, id, vec, es, v) == Parts(es, v) &&
            (SharesIn(c, id, vec, es, v) <==> Enough(c, id, vec, es, v))
  {
    hide LocalAfter, HasCert, FirstCert, SentFor;
    var v := LocalAfter(c, id, vec, es[..|es| - 1]).view;
    forall w: nat | w > v
      ensures !Fills(c, id, vec, es, w)
    {
      LaterNone(c, id, vec, es, w);
    }
    SentForGrows(c, id, vec, es, v);
    if Enough(c, id, vec, es, v) && !Enough(c, id, vec, es[..|es| - 1], v) {
      assert Fills(c, id, vec, es, v);
    }
  }

  /** The same in the next view. */
  lemma PlainNext(c: Config, id: nat, vec: seq<Aggregate>, es: seq<Event>, v: nat)
    requires Plain(c, id, vec, es, v) && HasCert(es, v) && Enough(c, id, vec, es, v)
    requires FirstCert(c, id, vec, es, v + 1).None? && !SharesIn(c, id, vec, es, v + 1)
    ensures Plain(c, id, vec, es, v + 1)
  {
    hide LocalAfter, HasCert, FirstCert, SharesIn, SentFor, Received, Parts;
    assert Has(c, id, vec, es, v + 1) == 0;
  }

  lemma {:induction false} AlwaysPlain(c: Config, id: nat, vec: seq<Aggregate>, es: seq<Event>)
    requires NoBreach(c, id, vec, es) && Timely(c, id, vec, es)
    ensures Plain(c, id, vec, es, LocalAfter(c, id, vec, es).view)
  {
    hide LocalAfter, Plain, HasCert, FirstCert, SharesIn, Enough;
    if es == [] {
      PlainAtStart(c, id, vec);
    } else {
      var fs := es[..|es| - 1];
      AlwaysPlain(c, id, vec, fs);
      PlainMore(c, id, vec, es);
      AlwaysKnows(c, id, vec, fs);
      StepKnows(c, id, vec, es);
      var v, w := LocalAfter(c, id, vec, fs).view, LocalAfter(c, id, vec, es).view;
      if w == v + 1 {
        AlwaysKnows(c, id, vec, es);
        PlainMeans(c, id, vec, es, v);
        PlainNext(c, id, vec, es, v);
      }
    }
  }

  lemma PlainMeans(c: Config, id: nat, vec: seq<Aggregate>, es: seq<Event>, v: nat)
    requires Plain(c, id, vec, es, v)
    ensures FirstCert(c, id, vec, es, v) == (if HasCert(es, v) then Some(v) else None)
    ensures SharesIn(c, id, vec, es, v) <==> Enough(c, id, vec, es, v)
  {
    hide LocalAfter, HasCert, FirstCert, SharesIn, Enough;
  }

  lemma PlainAtStart(c: Config, id: nat, vec: seq<Aggregate>)
    ensures Plain(c, id, vec, [], LocalAfter(c, id, vec, []).view)
  {
    hide Numbered, Replicas, SharingOf;
  }

  /** In a run without early messages the view ends exactly if a certificate of it and nmajority valid shares of it,
      the replica's own included, have been received by then. */
  lemma ViewEnds(c: Config, id: nat, vec: seq<Aggregate>, es: seq<Event>, e: Event)
    requires NoBreach(c, id, vec, es + [e]) && Timely(c, id, vec, es + [e])
    ensures var v := LocalAfter(c, id, vec, es).view;
            LocalAfter(c, id, vec, es + [e]).view ==
            if HasCert(es + [e], v) && Enough(c, id, vec, es + [e], v) then v + 1 else v
  {
    hide LocalAfter, Plain, HasCert, FirstCert, SharesIn, Enough;
    assert (es + [e])[..|es|] == es;
    AlwaysPlain(c, id, vec, es);
    PlainMore(c, id, vec, es + [e]);
    PlainMeans(c, id, vec, es + [e], LocalAfter(c, id, vec, es).view);
    ViewAdvances(c, id, vec, es, e);
  }

  /** In such a run the view is the first one that has no certificate or not enough shares. */
  lemma ViewIs(c: Config, id: nat, vec: seq<Aggregate>, es: seq<Event>, v: nat)
    requires NoBreach(c, id, vec, es) && Timely(c, id, vec, es)
    ensures LocalAfter(c, id, vec, es).view == v <==>
              1 <= v && !(HasCert(es, v) && Enough(c, id, vec, es, v)) &&
              forall u: nat :: 1 <= u < v ==> HasCert(es, u) && Enough(c, id, vec, es, u)
  {
    hide LocalAfter, HasCert, FirstCert, SharesIn, Enough;
    AlwaysPlain(c, id, vec, es);
    AlwaysKnows(c, id, vec, es);
    var w := LocalAfter(c, id, vec, es).view;
    assert !(HasCert(es, w) && Enough(c, id, vec, es, w));
  }

  /** What a share of view v has to be decrypted from: the set-up transcript of v's proposer in the first n views, and
      after that what the replica held for view v - n when, by the k-th event, its time came. */
  ghost predicate Sourced(c: Config, id: nat, vec: seq<Aggregate>, es: seq<Event>, s: Share, k: nat)
    requires c.nReplicas == |vec|
  {
    1 <= s.view &&
    if s.view <= |vec| then s.source == vec[s.view - 1]
    else TimeComes(c, id, vec, es, s.view - |vec|, k) &&
         s.source == Get(LocalAfter(c, id, vec, es[..k + 1]).pvss.viewAgg, s.view - |vec|, NO_AGGREGATE)
  }

  /** Whatever happens, every share that a replica has sent is decrypted from the right transcript. */
  lemma {:induction false} SharesSourced(c: Config, id: nat, vec: seq<Aggregate>, es: seq<Event>, i: nat)
    returns (k: nat)
    requires c.nMajority <= c.nReplicas == |vec| && i < |LocalAfter(c, id, vec, es).sent.shares|
    ensures Sourced(c, id, vec, es, LocalAfter(c, id, vec, es).sent.shares[i], k)
  {
    hide LocalAfter, Handle, ProposerOf;
    k := 0;
    if es == [] {
      NoShareYet(c, id, vec);
    } else {
      var fs, e := es[..|es| - 1], es[|es| - 1];
      var l := LocalAfter(c, id, vec, fs);
      After(c, id, vec, es);
      HandlePasses(c, l, e);
      if i < |l.sent.shares| {
        k := SharesSourced(c, id, vec, fs, i);
        if k < |fs| {
          assert fs[..k] == es[..k] && fs[..k + 1] == es[..k + 1];
        }
      } else {
        TranscriptForView(c, id, vec, fs);
        if l.view > |vec| {
          k := TranscriptHeld(c, id, vec, fs);
          assert fs[..k] == es[..k] && fs[..k + 1] == es[..k + 1];
        }
      }
    }
  }

  lemma NoShareYet(c: Config, id: nat, vec: seq<Aggregate>)
    ensures LocalAfter(c, id, vec, []).sent.shares == []
  {
    hide Numbered, Replicas, SharingOf;
  }

  /** A replica of a group of four at a gate, having sent no share. */
  ghost predicate AtGate(vec: seq<Aggregate>, es: seq<Event>, g: Gate) {
    var l := LocalAfter(InitConfig(4, 1), 0, vec, es);
    GateOf(l) == g && l.sent.shares == []
  }

  lemma StartsAtGate(vec: seq<Aggregate>)
    ensures AtGate(vec, [], Gate(1, 0, 0, 0, map[]))
    ensures LocalAfter(InitConfig(4, 1), 0, vec, []).marks.acked == map[]
  {
    hide Numbered, Replicas, SharingOf;
  }

  lemma ShareAtGate(vec: seq<Aggregate>, es: seq<Event>, g: Gate, w: nat)
    requires AtGate(vec, es, g)
    ensures AtGate(vec, es + [SharePart(0, w, true)], AddShare(3, g, w))
    ensures LocalAfter(InitConfig(4, 1), 0, vec, es + [SharePart(0, w, true)]).marks
         == LocalAfter(InitConfig(4, 1), 0, vec, es).marks
  {
    hide LocalAfter, AddShare, TryEnterView;
    var c, e := InitConfig(4, 1), SharePart(0, w, true);
    assert (es + [e])[..|es|] == es;
    var l := LocalAfter(c, 0, vec, es);
    After(c, 0, vec, es + [e]);
    ShareGate(c, l, w, true);
    ShareMarks(c, l, w);
  }

  lemma ShareMarks(c: Config, l: Local, w: nat)
    ensures OnReceiveShare(c, l, w, true).l.marks == l.marks
  {
    hide SharingOf, ProposerOf;
  }

  lemma CertificateAtGate(vec: seq<Aggregate>, es: seq<Event>, g: Gate, q: Qc)
    requires AtGate(vec, es, g) && g.cert < g.view <= q.view
    requires LocalAfter(InitConfig(4, 1), 0, vec, es).marks.acked == map[]
    ensures Handle(InitConfig(4, 1), LocalAfter(InitConfig(4, 1), 0, vec, es), Certificate(0, q)).ok
    ensures AtGate(vec, es + [Certificate(0, q)], Enter(g.(cert := q.view)))
  {
    var c, e := InitConfig(4, 1), Certificate(0, q);
    assert (es + [e])[..|es|] == es;
    var l := LocalAfter(c, 0, vec, es);
    hide LocalAfter, Enter, OnReceiveQc;
    After(c, 0, vec, es + [e]);
    FirstTaken(c, l, q);
  }

  lemma FirstTaken(c: Config, l: Local, q: Qc)
    requires c == InitConfig(4, 1) && l.marks.acked == map[] && l.last.cert < l.view <= q.view
    ensures var o := OnReceiveQc(c, l, q);
            o.ok && GateOf(o.l) == Enter(GateOf(l).(cert := q.view)) && o.l.sent.shares == l.sent.shares
  {
    hide Enter, TryEnterView, CastAck;
    var m := UpdateHqc(Hold(l, q).(last := l.last.(cert := q.view)), q);
    FirstAck(c, m, q);
    TryEnterGate(c, CastAck(c, m, q).l);
  }

  lemma FirstAck(c: Config, l: Local, q: Qc)
    requires c == InitConfig(4, 1) && l.marks.acked == map[]
    ensures CastAck(c, l, q).ok && GateOf(CastAck(c, l, q).l) == GateOf(l)
    ensures CastAck(c, l, q).l.sent.shares == l.sent.shares
  {
    hide CheckCommit, BroadcastShare;
  }

  /** A certificate after one that was taken up. */
  lemma IgnoredAtGate(vec: seq<Aggregate>, es: seq<Event>, g: Gate, q: Qc)
    requires AtGate(vec, es, g) && g.cert >= g.view
    ensures Handle(InitConfig(4, 1), LocalAfter(InitConfig(4, 1), 0, vec, es), Certificate(0, q)).ok
    ensures AtGate(vec, es + [Certificate(0, q)], g)
  {
    assert (es + [Certificate(0, q)])[..|es|] == es;
    hide LocalAfter;
    After(InitConfig(4, 1), 0, vec, es + [Certificate(0, q)]);
  }

  /** The messages of the next two lemmas: three shares of view 2 before a certificate of view 1, and a certificate of
      view 2 before one of view 1 and three shares of view 1. */
  function SharesEarly(b: Block): seq<Event> {
    var s := SharePart(0, 2, true);
    [s] + [s] + [s] + [Certificate(0, Qc(b, 1))]
  }

  function CertificateEarly(b: Block): seq<Event> {
    var s := SharePart(0, 1, true);
    [Certificate(0, Qc(b, 2))] + [Certificate(0, Qc(b, 1))] + [s] + [s] + [s]
  }

  lemma Prefixes(a: Event, b: Event, c: Event, d: Event, e: Event)
    ensures ([a] + [b] + [c] + [d] + [e])[..4] == [a] + [b] + [c] + [d]
    ensures ([a] + [b] + [c] + [d])[..3] == [a] + [b] + [c] && ([a] + [b] + [c])[..2] == [a] + [b]
    ensures ([a] + [b])[..1] == [a] && [a][..0] == [] && [] + [a] == [a]
  {
  }

  /** Shares of a later view that are handled early end the view, which has none of its own. */
  lemma EarlySharesCount(vec: seq<Aggregate>, b: Block)
    ensures var c, es := InitConfig(4, 1), SharesEarly(b);
            NoBreach(c, 0, vec, es) && LocalAfter(c, 0, vec, es).view == 2 && !Enough(c, 0, vec, es, 1)
  {
    hide LocalAfter, Handle;
    var c, s, e := InitConfig(4, 1), SharePart(0, 2, true), Certificate(0, Qc(b, 1));
    Prefixes(s, s, s, e, e);
    StartsAtGate(vec);
    var g := Gate(1, 0, 0, 0, map[]);
    ShareAtGate(vec, [], g, 2);
    var g1 := AddShare(3, g, 2);
    ShareAtGate(vec, [s], g1, 2);
    var g2 := AddShare(3, g1, 2);
    ShareAtGate(vec, [s] + [s], g2, 2);
    CertificateAtGate(vec, [s] + [s] + [s], AddShare(3, g2, 2), Qc(b, 1));
    assert NoBreach(c, 0, vec, []) && NoBreach(c, 0, vec, [s]) && NoBreach(c, 0, vec, [s] + [s]);
    assert NoBreach(c, 0, vec, [s] + [s] + [s]);
    assert Parts([], 1) == 0 && Parts([s], 1) == 0 && Parts([s] + [s], 1) == 0 && Parts([s] + [s] + [s], 1) == 0;
    assert Parts(SharesEarly(b), 1) == 0;
  }

  /** A certificate of a later view that is handled early keeps the view from ending, with all it needs there. */
  lemma EarlyCertificateBlocks(vec: seq<Aggregate>, b: Block)
    ensures var c, es := InitConfig(4, 1), CertificateEarly(b);
            NoBreach(c, 0, vec, es) && LocalAfter(c, 0, vec, es).view == 1 && HasCert(es, 1) && Enough(c, 0, vec, es, 1)
  {
    hide LocalAfter, Handle;
    var c, s := InitConfig(4, 1), SharePart(0, 1, true);
    var d, e := Certificate(0, Qc(b, 2)), Certificate(0, Qc(b, 1));
    Prefixes(d, e, s, s, s);
    StartsAtGate(vec);
    CertificateAtGate(vec, [], Gate(1, 0, 0, 0, map[]), Qc(b, 2));
    var g := Gate(1, 2, 0, 0, map[]);
    IgnoredAtGate(vec, [d], g, Qc(b, 1));
    ShareAtGate(vec, [d] + [e], g, 1);
    var g1 := AddShare(3, g, 1);
    ShareAtGate(vec, [d] + [e] + [s], g1, 1);
    var g2 := AddShare(3, g1, 1);
    ShareAtGate(vec, [d] + [e] + [s] + [s], g2, 1);
    assert NoBreach(c, 0, vec, []) && NoBreach(c, 0, vec, [d]) && NoBreach(c, 0, vec, [d] + [e]);
    assert NoBreach(c, 0, vec, [d] + [e] + [s]) && NoBreach(c, 0, vec, [d] + [e] + [s] + [s]);
    assert CertificateEarly(b)[1] == e;
    assert Parts([], 1) == 0 && Parts([d], 1) == 0 && Parts([d] + [e], 1) == 0;
    assert Parts([d] + [e] + [s], 1) == 1 && Parts([d] + [e] + [s] + [s], 1) == 2;
    assert Parts(CertificateEarly(b), 1) == 3;
  }
}
