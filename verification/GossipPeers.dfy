/**
 The index of complete peers, and every message and offer of the gossip, told from the
 steps of a run.
 */
module GossipPeers {
  import opened GossipNode
  import opened Gossip
  import opened GossipComplete

  // ---- Who is listed ---------------------------------------------------------------------

  /** The time that has passed. */
  function Elapsed(steps: seq<Step>): nat {
    if steps == [] then 0
    else Elapsed(steps[..|steps| - 1]) + if steps[|steps| - 1].Tick? then steps[|steps| - 1].d else 0
  }

  lemma {:induction false} ClockIsElapsed(addrs: set<Addr>, steps: seq<Step>)
    ensures After(addrs, steps).now == Elapsed(steps)
  {
    if steps != [] {
      ClockIsElapsed(addrs, steps[..|steps| - 1]);
    }
  }

  /** Step `i` of the run delivers a Have that `a` sent to `b`. */
  ghost predicate Hears(addrs: set<Addr>, steps: seq<Step>, i: nat, a: Addr, b: Addr) {
    && i < |steps| && steps[i].Deliver? && steps[i].m.Have? && steps[i].m.src == a && steps[i].m.dst == b
    && steps[i].m in After(addrs, steps[..i]).sent
  }

  /** Step `i` delivers the last Have of the run from `a` to `b`. */
  ghost predicate HeardLast(addrs: set<Addr>, steps: seq<Step>, i: nat, a: Addr, b: Addr) {
    Hears(addrs, steps, i, a, b) && forall j: nat :: i < j < |steps| ==> !Hears(addrs, steps, j, a, b)
  }

  lemma HearsPrefix(addrs: set<Addr>, steps: seq<Step>, st: Step, i: nat, a: Addr, b: Addr)
    requires i < |steps|
    ensures Hears(addrs, steps + [st], i, a, b) <==> Hears(addrs, steps, i, a, b)
  {
    hide After;
    assert (steps + [st])[..i] == steps[..i] && (steps + [st])[i] == steps[i];
  }

  lemma HeardLonger(addrs: set<Addr>, steps: seq<Step>, st: Step, i: nat, a: Addr, b: Addr)
    requires i < |steps|
    ensures HeardLast(addrs, steps + [st], i, a, b)
            <==> HeardLast(addrs, steps, i, a, b) && !Hears(addrs, steps + [st], |steps|, a, b)
  {
    hide Hears;
    var longer := steps + [st];
    forall j: nat | j < |steps|
      ensures Hears(addrs, longer, j, a, b) <==> Hears(addrs, steps, j, a, b)
    {
      HearsPrefix(addrs, steps, st, j, a, b);
    }
    if HeardLast(addrs, longer, i, a, b) {
      assert !Hears(addrs, longer, |steps|, a, b);
    }
    if HeardLast(addrs, steps, i, a, b) && !Hears(addrs, longer, |steps|, a, b) {
      forall j: nat | i < j < |longer|
        ensures !Hears(addrs, longer, j, a, b)
      {
        if j < |steps| {
          assert !Hears(addrs, steps, j, a, b);
        }
      }
    }
  }

  /** What one step does to the row of `a` at `b`. */
  lemma RowStep(s: Net, st: Step, a: Addr, b: Addr)
    requires b in s.sites
    ensures b in Next(s, st).sites
    ensures var p, q := s.sites[b].peers, Next(s, st).sites[b].peers;
            if st.Deliver? && st.m.Have? && st.m.src == a && st.m.dst == b && st.m in s.sent
            then a in q && q[a] == Peer(st.m.ts, st.m.complete, s.now)
            else (a in q <==> a in p) && (a in p ==> q[a] == p[a])
  {
  }

  /** The row of `a` at `b` is what the last delivered Have said, with the time of its delivery. */
  ghost predicate RowIsHeard(addrs: set<Addr>, steps: seq<Step>, a: Addr, b: Addr) {
    && b in After(addrs, steps).sites
    && var p := After(addrs, steps).sites[b].peers;
       && (a in p <==> exists i: nat :: HeardLast(addrs, steps, i, a, b))
       && (forall i: nat :: HeardLast(addrs, steps, i, a, b) ==>
             i < |steps| && steps[i].Deliver? && steps[i].m.Have? && a in p
             && p[a] == Peer(steps[i].m.ts, steps[i].m.complete, Elapsed(steps[..i])))
  }

  lemma {:induction false} RowsAreHeard(addrs: set<Addr>, steps: seq<Step>, a: Addr, b: Addr)
    requires b in addrs
    ensures RowIsHeard(addrs, steps, a, b)
  {
    SitesStay(addrs, steps);
    if steps == [] {
      NobodyHeard(addrs, a, b);
    } else {
      var n := |steps| - 1;
      var before, st := steps[..n], steps[n];
      assert steps == before + [st];
      SitesStay(addrs, before);
      RowsAreHeard(addrs, before, a, b);
      ClockIsElapsed(addrs, before);
      RowStep(After(addrs, before), st, a, b);
      assert After(addrs, steps) == Next(After(addrs, before), st);
      HeardStep(addrs, before, st, a, b);
    }
  }

  lemma NobodyHeard(addrs: set<Addr>, a: Addr, b: Addr)
    requires b in addrs
    ensures RowIsHeard(addrs, [], a, b)
  {
  }

  lemma HeardNow(addrs: set<Addr>, before: seq<Step>, st: Step, a: Addr, b: Addr)
    ensures Hears(addrs, before + [st], |before|, a, b)
            <==> st.Deliver? && st.m.Have? && st.m.src == a && st.m.dst == b && st.m in After(addrs, before).sent
    ensures HeardLast(addrs, before + [st], |before|, a, b) <==> Hears(addrs, before + [st], |before|, a, b)
  {
    hide After;
    assert (before + [st])[..|before|] == before;
  }

  lemma HeardWithin(addrs: set<Addr>, steps: seq<Step>, i: nat, a: Addr, b: Addr)
    requires HeardLast(addrs, steps, i, a, b)
    ensures i < |steps|
  {
    hide After;
  }

  lemma HeardStep(addrs: set<Addr>, before: seq<Step>, st: Step, a: Addr, b: Addr)
    requires RowIsHeard(addrs, before, a, b)
    requires After(addrs, before + [st]) == Next(After(addrs, before), st) && b in Next(After(addrs, before), st).sites
    requires After(addrs, before).now == Elapsed(before)
    requires var p, q := After(addrs, before).sites[b].peers, Next(After(addrs, before), st).sites[b].peers;
             if st.Deliver? && st.m.Have? && st.m.src == a && st.m.dst == b && st.m in After(addrs, before).sent
             then a in q && q[a] == Peer(st.m.ts, st.m.complete, After(addrs, before).now)
             else (a in q <==> a in p) && (a in p ==> q[a] == p[a])
    ensures RowIsHeard(addrs, before + [st], a, b)
  {
    hide After, Next, Hears, HeardLast, Elapsed;
    var steps, n := before + [st], |before|;
    HeardNow(addrs, before, st, a, b);
    forall i: nat
      ensures HeardLast(addrs, steps, i, a, b) ==> i <= n
      ensures i < n ==> (HeardLast(addrs, steps, i, a, b)
                         <==> HeardLast(addrs, before, i, a, b) && !Hears(addrs, steps, n, a, b))
      ensures HeardLast(addrs, before, i, a, b) ==> i < n
      ensures i < n ==> steps[i] == before[i] && steps[..i] == before[..i]
    {
      if HeardLast(addrs, steps, i, a, b) {
        HeardWithin(addrs, steps, i, a, b);
      }
      if HeardLast(addrs, before, i, a, b) {
        HeardWithin(addrs, before, i, a, b);
      }
      if i < n {
        HeardLonger(addrs, before, st, i, a, b);
      }
    }
    assert steps[n] == st && steps[..n] == before;
  }

  /**
   In every run, CompletePeers of `b` lists `a` for a version exactly when the last Have
   delivered from `a` to `b` said complete for that version, less than 120 seconds ago.
   */
  lemma ListedExactly(addrs: set<Addr>, steps: seq<Step>, a: Addr, b: Addr, ts: int)
    requires b in addrs
    ensures b in After(addrs, steps).sites
    ensures a in ListedComplete(After(addrs, steps).sites[b].peers, ts, After(addrs, steps).now)
            <==> exists i: nat ::
                   && HeardLast(addrs, steps, i, a, b) && i < |steps| && steps[i] == Deliver(Have(a, b, ts, true))
                   && Elapsed(steps) - Elapsed(steps[..i]) < 120
  {
    hide After, Elapsed, HeardLast;
    RowsAreHeard(addrs, steps, a, b);
    ClockIsElapsed(addrs, steps);
    var p, now := After(addrs, steps).sites[b].peers, After(addrs, steps).now;
    forall i: nat | HeardLast(addrs, steps, i, a, b)
      ensures i < |steps| && steps[i].Deliver? && steps[i].m.Have? && steps[i].m.src == a && steps[i].m.dst == b
    {
      HeardFrom(addrs, steps, i, a, b);
    }
    if a in ListedComplete(p, ts, now) {
      var i: nat :| HeardLast(addrs, steps, i, a, b);
      assert steps[i] == Deliver(Have(a, b, ts, true));
    }
  }

  lemma HeardFrom(addrs: set<Addr>, steps: seq<Step>, i: nat, a: Addr, b: Addr)
    requires HeardLast(addrs, steps, i, a, b)
    ensures i < |steps| && steps[i].Deliver? && steps[i].m.Have? && steps[i].m.src == a && steps[i].m.dst == b
  {
    hide After;
  }

  // ---- Every message and offer -------------------------------------------------------------

  /** Why a step sends a message: an advertisement, a request for something newer, an answer with bytes. */
  ghost predicate Sends(s: Net, st: Step, m: Msg) {
    match m
    case Have(a, b, ts, complete) =>
      st == Advertise(a, b) && a in s.sites && ts != 0
      && s.sites[a].chan.ts == ts && s.sites[a].chan.complete == complete
    case Want(b, a, cause) =>
      && b in s.sites && s.sites[b].chan.ts < cause && st.Deliver? && st.m in s.sent
      && st.m.Have? && st.m.src == a && st.m.dst == b && st.m.ts == cause
    case Data(a, b, raw, ts, cause) =>
      && st == Deliver(Want(b, a, cause)) && st.m in s.sent && a in s.sites
      && raw != "" && s.sites[a].chan.raw == raw && s.sites[a].chan.ts == ts
  }

  /** A step sends exactly the messages it has reason to. */
  lemma SendsExactly(s: Net, st: Step, m: Msg)
    ensures m in Next(s, st).sent <==> m in s.sent || Sends(s, st, m)
  {
  }

  /** A step offers a manifest to the callback exactly when it delivers a newer one. */
  lemma OffersExactly(s: Net, st: Step, a: Addr, o: Offer)
    requires a in s.sites
    ensures a in Next(s, st).sites
    ensures o in Next(s, st).sites[a].offers
            <==> || o in s.sites[a].offers
                 || (&& st.Deliver? && st.m in s.sent && st.m.Data? && st.m.dst == a && o.ts > s.sites[a].chan.ts
                     && st.m.raw == o.raw && st.m.ts == o.ts && st.m.cause == o.cause)
  {
  }

  /** A step changes what a node holds exactly by installing something newer, or by a report. */
  lemma HoldsExactly(s: Net, st: Step, a: Addr)
    requires a in s.sites
    ensures a in Next(s, st).sites
    ensures var c, d := s.sites[a].chan, Next(s, st).sites[a].chan;
            match st
            case Publish(x, raw, ts) => d == if x == a && ts > c.ts then Channel(raw, ts, false) else c
            case Accept(x, o) =>
              d == if x == a && o in s.sites[a].offers && o.ts > c.ts then Channel(o.raw, o.ts, false) else c
            case Report(x, ts, flag) => d == if x == a && ts == c.ts then Channel(c.raw, c.ts, flag) else c
            case _ => d == c
  {
  }
}
