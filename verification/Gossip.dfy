/**
 Manifest gossip between nodes over UDP. Messages ever sent stay deliverable, so a
 run may lose, repeat and reorder them at will. The application callback, which
 verifies a received manifest, either drops it or installs exactly the received
 pair, at any later time.

 One channel is modelled. The content channel takes all steps; the control-manifest
 channel is the same machine without Report steps and without the peer index.
 */
module Gossip {
  import opened GossipNode

  /**
   A Want carries no version on the wire. `cause` remembers the advertised version
   that started the exchange; no handler looks at it.
   */
  datatype Msg =
    | Have(src: Addr, dst: Addr, ts: int, complete: bool)
    | Want(src: Addr, dst: Addr, cause: int)
    | Data(src: Addr, dst: Addr, raw: Raw, ts: int, cause: int)

  /** A manifest handed to the callback. */
  datatype Offer = Offer(raw: Raw, ts: int, cause: int)

  datatype Site = Site(chan: Channel, peers: map<Addr, Peer>, offers: set<Offer>)

  datatype Net = Net(sites: map<Addr, Site>, sent: set<Msg>, published: set<(Raw, int)>, now: int)

  datatype Step =
    | Publish(at: Addr, raw: Raw, ts: int)
    | Advertise(at: Addr, peer: Addr)
    | Deliver(m: Msg)
    | Accept(at: Addr, offer: Offer)
    | Report(at: Addr, ts: int, flag: bool)
    | Tick(d: nat)

  function Update(s: Net, a: Addr, site: Site, out: set<Msg>): Net {
    s.(sites := s.sites[a := site], sent := s.sent + out)
  }

  function Receive(s: Net, m: Msg): Net
    requires m.dst in s.sites
  {
    var site := s.sites[m.dst];
    match m
    case Have(src, dst, ts, complete) =>
      Update(s, dst, site.(peers := site.peers[src := Peer(ts, complete, s.now)]),
             if site.chan.Wants(ts) then {Want(dst, src, ts)} else {})
    case Want(src, dst, cause) =>
      Update(s, dst, site,
             if site.chan.Served().Some? then {Data(dst, src, site.chan.raw, site.chan.ts, cause)} else {})
    case Data(src, dst, raw, ts, cause) =>
      Update(s, dst, if site.chan.Wants(ts) then site.(offers := site.offers + {Offer(raw, ts, cause)}) else site, {})
  }

  /** A step that is not possible changes nothing. */
  function Next(s: Net, st: Step): Net {
    match st
    case Publish(a, raw, ts) =>
      if a !in s.sites then s
      else Update(s, a, s.sites[a].(chan := s.sites[a].chan.Set(raw, ts)), {}).(published := s.published + {(raw, ts)})
    case Advertise(a, peer) =>
      if a !in s.sites || !s.sites[a].chan.Advertises() then s
      else s.(sent := s.sent + {Have(a, peer, s.sites[a].chan.ts, s.sites[a].chan.complete)})
    case Deliver(m) =>
      if m !in s.sent || m.dst !in s.sites then s else Receive(s, m)
    case Accept(a, o) =>
      if a !in s.sites || o !in s.sites[a].offers then s
      else Update(s, a, s.sites[a].(chan := s.sites[a].chan.Set(o.raw, o.ts)), {})
    case Report(a, ts, flag) =>
      if a !in s.sites then s
      else Update(s, a, s.sites[a].(chan := s.sites[a].chan.SetComplete(ts, flag)), {})
    case Tick(d) => s.(now := s.now + d)
  }

  function Start(addrs: set<Addr>): Net {
    Net(map a | a in addrs :: Site(NOTHING, map[], {}), {}, {}, 0)
  }

  function After(addrs: set<Addr>, steps: seq<Step>): Net {
    if steps == [] then Start(addrs) else Next(After(addrs, steps[..|steps| - 1]), steps[|steps| - 1])
  }

  /** What node `a` holds. */
  function Held(s: Net, a: Addr): Channel {
    if a in s.sites then s.sites[a].chan else NOTHING
  }

  // ---- Nothing goes backwards ----------------------------------------------------------

  ghost predicate Grown(s: Net, t: Net) {
    && t.sites.Keys == s.sites.Keys && s.sent <= t.sent && s.published <= t.published && s.now <= t.now
    && forall a :: a in s.sites ==> GrownSite(s.sites[a], t.sites[a])
  }

  ghost predicate GrownSite(x: Site, y: Site) {
    && x.chan.ts <= y.chan.ts && (x.chan.ts == y.chan.ts ==> x.chan.raw == y.chan.raw)
    && x.offers <= y.offers
  }

  lemma NextGrows(s: Net, st: Step)
    ensures Grown(s, Next(s, st))
  {
  }

  lemma GrownTransitive(s: Net, t: Net, u: Net)
    requires Grown(s, t) && Grown(t, u)
    ensures Grown(s, u)
  {
  }

  /** In every run, versions, messages and publications only grow. */
  lemma {:induction false} RunGrows(addrs: set<Addr>, steps: seq<Step>, more: seq<Step>)
    ensures Grown(After(addrs, steps), After(addrs, steps + more))
    decreases |more|
  {
    hide Next, Grown;
    if more == [] {
      assert steps + more == steps;
      GrownSelf(After(addrs, steps));
    } else {
      var n := |more| - 1;
      var all := steps + more;
      assert all[..|all| - 1] == steps + more[..n] && all[|all| - 1] == more[n];
      RunGrows(addrs, steps, more[..n]);
      NextGrows(After(addrs, steps + more[..n]), more[n]);
      GrownTransitive(After(addrs, steps), After(addrs, steps + more[..n]), After(addrs, all));
    }
  }

  lemma GrownSelf(s: Net)
    ensures Grown(s, s)
  {
  }

  lemma {:induction false} SitesFixed(addrs: set<Addr>, steps: seq<Step>)
    ensures After(addrs, steps).sites.Keys == addrs
  {
    assert [] + steps == steps;
    RunGrows(addrs, [], steps);
  }

  // ---- Everything held or in flight was published -----------------------------------------

  ghost predicate ChannelOk(s: Net, c: Channel) {
    c.ts >= 0 && (if c.ts == 0 then c.raw == "" else (c.raw, c.ts) in s.published)
  }

  ghost predicate OfferOk(s: Net, o: Offer) {
    o.ts > 0 && o.ts >= o.cause && (o.raw, o.ts) in s.published
  }

  ghost predicate SiteOk(s: Net, x: Site) {
    ChannelOk(s, x.chan) && forall o :: o in x.offers ==> OfferOk(s, o)
  }

  ghost predicate MsgOk(s: Net, m: Msg) {
    match m
    case Have(src, _, ts, _) => src in s.sites && 0 < ts <= s.sites[src].chan.ts
    case Want(_, dst, cause) => dst in s.sites && cause <= s.sites[dst].chan.ts
    case Data(_, _, raw, ts, cause) => ts > 0 && ts >= cause && (raw, ts) in s.published
  }

  ghost predicate NetOk(s: Net) {
    && (forall a :: a in s.sites ==> SiteOk(s, s.sites[a]))
    && (forall m :: m in s.sent ==> MsgOk(s, m))
  }

  lemma OkGrows(s: Net, t: Net, x: Site, m: Msg)
    requires Grown(s, t)
    ensures SiteOk(s, x) ==> SiteOk(t, x)
    ensures MsgOk(s, m) ==> MsgOk(t, m)
  {
  }

  /** What a step adds is sound: the changed site, and each new message. */
  lemma NewPartsOk(s: Net, st: Step)
    requires NetOk(s)
    ensures var t := Next(s, st);
            && (forall a :: a in s.sites && t.sites[a] != s.sites[a] ==> SiteOk(t, t.sites[a]))
            && (forall m :: m in t.sent && m !in s.sent ==> MsgOk(t, m))
  {
    match st
    case Publish(a, raw, ts) => if a in s.sites { assert SiteOk(s, s.sites[a]); }
    case Advertise(a, peer) => if a in s.sites { assert SiteOk(s, s.sites[a]); }
    case Deliver(m) =>
      if m in s.sent && m.dst in s.sites {
        assert SiteOk(s, s.sites[m.dst]) && MsgOk(s, m);
      }
    case Accept(a, o) =>
      if a in s.sites && o in s.sites[a].offers {
        assert SiteOk(s, s.sites[a]);
        assert OfferOk(s, o);
      }
    case Report(a, ts, flag) => if a in s.sites { assert SiteOk(s, s.sites[a]); }
    case Tick(d) =>
  }

  lemma NextOk(s: Net, st: Step)
    requires NetOk(s)
    ensures NetOk(Next(s, st))
  {
    hide Next, SiteOk, MsgOk;
    var t := Next(s, st);
    NextGrows(s, st);
    NewPartsOk(s, st);
    forall a | a in t.sites
      ensures SiteOk(t, t.sites[a])
    {
      OkGrows(s, t, s.sites[a], Want("", "", 0));
    }
    forall m | m in t.sent
      ensures MsgOk(t, m)
    {
      OkGrows(s, t, Site(NOTHING, map[], {}), m);
    }
  }

  /** Invariant of every run. */
  lemma {:induction false} RunOk(addrs: set<Addr>, steps: seq<Step>)
    ensures NetOk(After(addrs, steps))
  {
    hide Next;
    if steps != [] {
      RunOk(addrs, steps[..|steps| - 1]);
      NextOk(After(addrs, steps[..|steps| - 1]), steps[|steps| - 1]);
    }
  }

  /** Every manifest a node holds, offers or sends was published by some origin. */
  lemma OnlyPublished(addrs: set<Addr>, steps: seq<Step>, a: Addr, m: Msg, o: Offer)
    ensures var s := After(addrs, steps);
            && (a in s.sites && s.sites[a].chan.ts != 0 ==> (s.sites[a].chan.raw, s.sites[a].chan.ts) in s.published)
            && (a in s.sites && o in s.sites[a].offers ==> (o.raw, o.ts) in s.published)
            && (m in s.sent && m.Data? ==> (m.raw, m.ts) in s.published)
  {
    hide After;
    RunOk(addrs, steps);
    var s := After(addrs, steps);
    if a in s.sites {
      assert SiteOk(s, s.sites[a]);
    }
    if m in s.sent {
      assert MsgOk(s, m);
    }
  }

  ghost predicate NoReuse(published: set<(Raw, int)>) {
    forall p, q :: p in published && q in published && p.1 == q.1 ==> p == q
  }

  /** Nodes at the same version hold the same bytes, if origins never reuse a version. */
  lemma Agreement(addrs: set<Addr>, steps: seq<Step>, a: Addr, b: Addr)
    requires NoReuse(After(addrs, steps).published)
    requires Held(After(addrs, steps), a).ts == Held(After(addrs, steps), b).ts
    ensures Held(After(addrs, steps), a).raw == Held(After(addrs, steps), b).raw
  {
    hide After;
    RunOk(addrs, steps);
    var s := After(addrs, steps);
    assert a in s.sites ==> SiteOk(s, s.sites[a]);
    assert b in s.sites ==> SiteOk(s, s.sites[b]);
  }

  // ---- An exchange that runs to its end ----------------------------------------------------

  function Version(s: Net, a: Addr): int {
    Held(s, a).ts
  }

  lemma HaveIsAnswered(s: Net, a: Addr, b: Addr, ts: int, complete: bool)
    requires Have(a, b, ts, complete) in s.sent && b in s.sites
    ensures var t := Next(s, Deliver(Have(a, b, ts, complete)));
            Want(b, a, ts) in t.sent || Version(t, b) >= ts
  {
  }

  lemma WantIsAnswered(s: Net, a: Addr, b: Addr, ts: int)
    requires NetOk(s) && Want(b, a, ts) in s.sent && a in s.sites && s.sites[a].chan.raw != ""
    ensures var t := Next(s, Deliver(Want(b, a, ts)));
            var c := s.sites[a].chan;
            Data(a, b, c.raw, c.ts, ts) in t.sent && c.ts >= ts
  {
    assert MsgOk(s, Want(b, a, ts));
  }

  lemma DataIsOffered(s: Net, a: Addr, b: Addr, raw: Raw, ts: int, cause: int)
    requires NetOk(s) && Data(a, b, raw, ts, cause) in s.sent && b in s.sites
    ensures var t := Next(s, Deliver(Data(a, b, raw, ts, cause)));
            Version(t, b) >= cause || Offer(raw, ts, cause) in t.sites[b].offers
  {
    assert MsgOk(s, Data(a, b, raw, ts, cause));
  }

  lemma OfferIsInstalled(s: Net, b: Addr, o: Offer)
    requires NetOk(s) && b in s.sites && o in s.sites[b].offers
    ensures Version(Next(s, Accept(b, o)), b) >= o.cause
  {
    assert SiteOk(s, s.sites[b]);
    assert OfferOk(s, o);
  }

  lemma {:induction false} AfterConcat(addrs: set<Addr>, p: seq<Step>, st: Step, q: seq<Step>)
    ensures Grown(Next(After(addrs, p), st), After(addrs, p + [st] + q))
  {
    hide Next;
    assert (p + [st])[..|p|] == p;
    RunGrows(addrs, p + [st], q);
  }

  /**
   Have, Want, Data and an accepting callback, with any other steps in between, leave
   the receiver at least at the advertised version. The sender must have bytes to serve.
   */
  lemma ExchangeCompletes(addrs: set<Addr>, p1: seq<Step>, p2: seq<Step>, p3: seq<Step>, p4: seq<Step>, p5: seq<Step>,
                          a: Addr, b: Addr, ts: int, complete: bool, raw: Raw, version: int)
    requires a in addrs && b in addrs
    requires Have(a, b, ts, complete) in After(addrs, p1).sent
    requires raw != ""
    requires var c := Held(After(addrs, p1 + [Deliver(Have(a, b, ts, complete))] + p2), a);
             c.raw == raw && c.ts == version
    ensures var r2 := p1 + [Deliver(Have(a, b, ts, complete))] + p2;
            var r3 := r2 + [Deliver(Want(b, a, ts))] + p3;
            var r4 := r3 + [Deliver(Data(a, b, raw, version, ts))] + p4;
            var r5 := r4 + [Accept(b, Offer(raw, version, ts))] + p5;
            Version(After(addrs, r5), b) >= ts
  {
    hide Next, After, NetOk;
    var r2 := p1 + [Deliver(Have(a, b, ts, complete))] + p2;
    var r3 := r2 + [Deliver(Want(b, a, ts))] + p3;
    var r4 := r3 + [Deliver(Data(a, b, raw, version, ts))] + p4;
    var r5 := r4 + [Accept(b, Offer(raw, version, ts))] + p5;
    SitesFixed(addrs, p1);
    SitesFixed(addrs, r2);
    HaveIsAnswered(After(addrs, p1), a, b, ts, complete);
    AfterConcat(addrs, p1, Deliver(Have(a, b, ts, complete)), p2);
    StaysAtLeast(addrs, r2, r3, r4, r5, b, ts, p3, p4, p5, Deliver(Want(b, a, ts)),
                 Deliver(Data(a, b, raw, version, ts)), Accept(b, Offer(raw, version, ts)));
    if Version(After(addrs, r2), b) < ts {
      RunOk(addrs, r2);
      WantIsAnswered(After(addrs, r2), a, b, ts);
      AfterConcat(addrs, r2, Deliver(Want(b, a, ts)), p3);
      RunOk(addrs, r3);
      SitesFixed(addrs, r3);
      DataIsOffered(After(addrs, r3), a, b, raw, version, ts);
      AfterConcat(addrs, r3, Deliver(Data(a, b, raw, version, ts)), p4);
      SitesFixed(addrs, r4);
      if Version(After(addrs, r4), b) < ts {
        RunOk(addrs, r4);
        OfferIsInstalled(After(addrs, r4), b, Offer(raw, version, ts));
        AfterConcat(addrs, r4, Accept(b, Offer(raw, version, ts)), p5);
      }
    }
  }

  /** Versions along the four cut points of an exchange only grow. */
  lemma StaysAtLeast(addrs: set<Addr>, r2: seq<Step>, r3: seq<Step>, r4: seq<Step>, r5: seq<Step>, b: Addr, ts: int,
                     p3: seq<Step>, p4: seq<Step>, p5: seq<Step>, s3: Step, s4: Step, s5: Step)
    requires r3 == r2 + [s3] + p3 && r4 == r3 + [s4] + p4 && r5 == r4 + [s5] + p5
    ensures Version(After(addrs, r2), b) <= Version(After(addrs, r5), b)
    ensures Version(After(addrs, r4), b) <= Version(After(addrs, r5), b)
  {
    hide After;
    assert r3 == r2 + ([s3] + p3) && r4 == r3 + ([s4] + p4) && r5 == r4 + ([s5] + p5);
    RunGrows(addrs, r2, [s3] + p3);
    RunGrows(addrs, r3, [s4] + p4);
    RunGrows(addrs, r4, [s5] + p5);
  }
}
