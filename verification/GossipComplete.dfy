/** Completed downloads: when a node counts as complete, and what the index of complete peers proves. */
module GossipComplete {
  import opened GossipNode
  import opened Gossip

  /** Step `i` of the run brought version `ts` to node `a`. */
  ghost predicate Installs(addrs: set<Addr>, steps: seq<Step>, i: nat, a: Addr, ts: int) {
    && i < |steps|
    && Version(After(addrs, steps[..i]), a) < ts
    && Version(After(addrs, steps[..i + 1]), a) == ts
  }

  /** Version `ts` was installed, and later reported complete. */
  ghost predicate Earned(addrs: set<Addr>, steps: seq<Step>, i: nat, j: nat, a: Addr, ts: int) {
    i < j < |steps| && Installs(addrs, steps, i, a, ts) && steps[j] == Report(a, ts, true)
  }

  lemma InstallsLonger(addrs: set<Addr>, steps: seq<Step>, st: Step, i: nat, a: Addr, ts: int)
    requires Installs(addrs, steps, i, a, ts)
    ensures Installs(addrs, steps + [st], i, a, ts)
  {
    hide After;
    assert (steps + [st])[..i] == steps[..i] && (steps + [st])[..i + 1] == steps[..i + 1];
  }

  lemma {:induction false} HeldWasInstalled(addrs: set<Addr>, steps: seq<Step>, a: Addr)
    requires Version(After(addrs, steps), a) > 0
    ensures exists i: nat :: Installs(addrs, steps, i, a, Version(After(addrs, steps), a))
  {
    hide Next;
    if steps == [] {
      assert false;
    } else {
      var n := |steps| - 1;
      var before := steps[..n];
      var ts := Version(After(addrs, steps), a);
      assert steps == before + [steps[n]] && steps[..n + 1] == steps;
      NextGrows(After(addrs, before), steps[n]);
      if Version(After(addrs, before), a) == ts {
        HeldWasInstalled(addrs, before, a);
        var i: nat :| Installs(addrs, before, i, a, ts);
        InstallsLonger(addrs, before, steps[n], i, a, ts);
      } else {
        assert Installs(addrs, steps, n, a, ts);
      }
    }
  }

  /** How a step can leave a node complete. */
  lemma CompleteStep(s: Net, st: Step, a: Addr)
    requires Held(Next(s, st), a).complete
    ensures || (Held(s, a).complete && Version(Next(s, st), a) == Version(s, a))
            || (st == Report(a, Version(s, a), true) && Version(Next(s, st), a) == Version(s, a))
  {
  }

  lemma {:induction false} CompleteIsEarned(addrs: set<Addr>, steps: seq<Step>, a: Addr)
    requires Held(After(addrs, steps), a).complete && Version(After(addrs, steps), a) > 0
    ensures exists i: nat, j: nat :: Earned(addrs, steps, i, j, a, Version(After(addrs, steps), a))
  {
    hide Next;
    if steps == [] {
      assert false;
    } else {
      var n := |steps| - 1;
      var before, st := steps[..n], steps[n];
      var ts := Version(After(addrs, steps), a);
      assert steps == before + [st];
      CompleteStep(After(addrs, before), st, a);
      if Held(After(addrs, before), a).complete {
        CompleteIsEarned(addrs, before, a);
        var i: nat, j: nat :| Earned(addrs, before, i, j, a, ts);
        InstallsLonger(addrs, before, st, i, a, ts);
        assert Earned(addrs, steps, i, j, a, ts);
      } else {
        HeldWasInstalled(addrs, before, a);
        var i: nat :| Installs(addrs, before, i, a, ts);
        InstallsLonger(addrs, before, st, i, a, ts);
        assert Earned(addrs, steps, i, n, a, ts);
      }
    }
  }

  /**
   In every run, the completeness of a node was earned, by a report after its version was
   installed, exactly when that version is above 0.
   */
  lemma CompleteWasEarned(addrs: set<Addr>, steps: seq<Step>, a: Addr)
    requires Held(After(addrs, steps), a).complete
    ensures (exists i: nat, j: nat :: Earned(addrs, steps, i, j, a, Version(After(addrs, steps), a)))
            <==> Version(After(addrs, steps), a) > 0
  {
    hide After, Next;
    var ts := Version(After(addrs, steps), a);
    if ts > 0 {
      CompleteIsEarned(addrs, steps, a);
    } else if i: nat, j: nat :| Earned(addrs, steps, i, j, a, ts) {
      NeverBelowZero(addrs, steps[..i], a);
    }
  }

  lemma NeverBelowZero(addrs: set<Addr>, steps: seq<Step>, a: Addr)
    ensures Version(After(addrs, steps), a) >= 0
  {
    hide After;
    RunOk(addrs, steps);
  }

  /** What a step does to the completeness of a node. */
  lemma CompleteNext(s: Net, st: Step, a: Addr)
    requires a in s.sites
    ensures a in Next(s, st).sites && Version(s, a) <= Version(Next(s, st), a)
    ensures Held(Next(s, st), a).complete <==>
            if st.Report? && st.at == a && st.ts == Version(s, a) then st.flag
            else Held(s, a).complete && Version(Next(s, st), a) == Version(s, a)
    ensures st.Report? ==> Version(Next(s, st), a) == Version(s, a)
  {
  }

  /** Step `j` reported version `ts` complete while it was held, and no later step reported the contrary. */
  ghost predicate ReportedSince(addrs: set<Addr>, steps: seq<Step>, j: nat, a: Addr, ts: int) {
    && j < |steps| && steps[j] == Report(a, ts, true) && Version(After(addrs, steps[..j]), a) == ts
    && forall i :: j < i < |steps| ==> steps[i] != Report(a, ts, false)
  }

  lemma ReportedLonger(addrs: set<Addr>, steps: seq<Step>, st: Step, j: nat, a: Addr, ts: int)
    requires j < |steps|
    ensures ReportedSince(addrs, steps + [st], j, a, ts)
            <==> ReportedSince(addrs, steps, j, a, ts) && st != Report(a, ts, false)
  {
    hide After;
    var longer := steps + [st];
    assert longer[..j] == steps[..j] && longer[|steps|] == st;
    assert forall i :: 0 <= i < |steps| ==> longer[i] == steps[i];
  }

  lemma ReportedNow(addrs: set<Addr>, steps: seq<Step>, st: Step, a: Addr, ts: int)
    ensures ReportedSince(addrs, steps + [st], |steps|, a, ts)
            <==> st == Report(a, ts, true) && Version(After(addrs, steps), a) == ts
  {
    hide After;
    assert (steps + [st])[..|steps|] == steps;
  }

  /** A version above the present one was held at no earlier time. */
  lemma NotYetReported(addrs: set<Addr>, steps: seq<Step>, j: nat, a: Addr, ts: int)
    requires a in addrs && Version(After(addrs, steps), a) < ts
    ensures !ReportedSince(addrs, steps, j, a, ts)
  {
    hide After;
    if j < |steps| {
      SitesStay(addrs, steps[..j]);
      RunGrows(addrs, steps[..j], steps[j..]);
      assert steps[..j] + steps[j..] == steps;
    }
  }

  lemma {:induction false} SitesStay(addrs: set<Addr>, steps: seq<Step>)
    ensures After(addrs, steps).sites.Keys == addrs
  {
    hide Next;
    if steps == [] {
      assert Start(addrs).sites.Keys == addrs;
    } else {
      SitesStay(addrs, steps[..|steps| - 1]);
      NextGrows(After(addrs, steps[..|steps| - 1]), steps[|steps| - 1]);
    }
  }

  /**
   In every run, a node is complete exactly when some step reported the version it holds
   complete while it held it, and no later step reported the contrary.
   */
  lemma {:induction false} CompleteExactly(addrs: set<Addr>, steps: seq<Step>, a: Addr)
    requires a in addrs
    ensures Held(After(addrs, steps), a).complete
            <==> exists j: nat :: ReportedSince(addrs, steps, j, a, Version(After(addrs, steps), a))
  {
    if steps == [] {
      NothingAtFirst(addrs, a);
    } else {
      var n := |steps| - 1;
      var before, st := steps[..n], steps[n];
      assert steps == before + [st];
      CompleteExactly(addrs, before, a);
      SitesStay(addrs, before);
      CompleteNext(After(addrs, before), st, a);
      var ts := Version(After(addrs, steps), a);
      hide After, Next, ReportedSince;
      ReportedNow(addrs, before, st, a, ts);
      ReportedStep(addrs, before, st, a, ts);
    }
  }

  lemma NothingAtFirst(addrs: set<Addr>, a: Addr)
    ensures !Held(After(addrs, []), a).complete
  {
  }

  lemma ReportedStep(addrs: set<Addr>, before: seq<Step>, st: Step, a: Addr, ts: int)
    requires a in addrs && Version(After(addrs, before), a) <= ts
    ensures (exists j: nat :: ReportedSince(addrs, before + [st], j, a, ts))
            <==> || (st == Report(a, ts, true) && Version(After(addrs, before), a) == ts)
                 || (&& Version(After(addrs, before), a) == ts && st != Report(a, ts, false)
                     && exists j: nat :: ReportedSince(addrs, before, j, a, ts))
  {
    hide After, ReportedSince;
    var steps, n := before + [st], |before|;
    ReportedNow(addrs, before, st, a, ts);
    forall j: nat
      ensures ReportedSince(addrs, steps, j, a, ts) ==> j <= n
      ensures j < n ==> (ReportedSince(addrs, steps, j, a, ts)
                         <==> ReportedSince(addrs, before, j, a, ts) && st != Report(a, ts, false))
      ensures ReportedSince(addrs, before, j, a, ts) ==> j < n && Version(After(addrs, before), a) == ts
    {
      ReportedWithin(addrs, steps, j, a, ts);
      ReportedWithin(addrs, before, j, a, ts);
      if j < n {
        ReportedLonger(addrs, before, st, j, a, ts);
      }
      if Version(After(addrs, before), a) < ts {
        NotYetReported(addrs, before, j, a, ts);
      }
    }
  }

  lemma ReportedWithin(addrs: set<Addr>, steps: seq<Step>, j: nat, a: Addr, ts: int)
    ensures ReportedSince(addrs, steps, j, a, ts) ==> j < |steps|
  {
    hide After;
  }

  /**
   A version above 0 is needed: before any manifest is installed, a report for version 0 is
   taken at its word.
   */
  lemma CompleteWithoutContent(a: Addr)
    ensures var c := Held(After({a}, [Report(a, 0, true)]), a);
            c.complete && c.ts == 0 && c.raw == ""
  {
    var steps := [Report(a, 0, true)];
    assert steps[..0] == [];
    assert After({a}, []) == Start({a});
  }

  /** Such a node never advertises itself. */
  lemma NothingAdvertisedUninstalled(addrs: set<Addr>, steps: seq<Step>, m: Msg)
    requires m in After(addrs, steps).sent && m.Have?
    ensures m.ts > 0
  {
    hide After;
    RunOk(addrs, steps);
    assert MsgOk(After(addrs, steps), m);
  }

  // ---- The index of complete peers -----------------------------------------------------------

  /** Step `i` sent this Have, and it told the truth about its sender. */
  ghost predicate SentTruly(addrs: set<Addr>, steps: seq<Step>, i: nat, m: Msg) {
    && m.Have? && i < |steps| && steps[i] == Advertise(m.src, m.dst)
    && Held(After(addrs, steps[..i]), m.src).ts == m.ts
    && Held(After(addrs, steps[..i]), m.src).complete == m.complete
  }

  lemma NewHave(s: Net, st: Step, m: Msg)
    requires m in Next(s, st).sent && m !in s.sent && m.Have?
    ensures st == Advertise(m.src, m.dst) && Held(s, m.src).ts == m.ts && Held(s, m.src).complete == m.complete
  {
  }

  lemma {:induction false} HavesAreTrue(addrs: set<Addr>, steps: seq<Step>, m: Msg)
    requires m in After(addrs, steps).sent && m.Have?
    ensures exists i: nat :: SentTruly(addrs, steps, i, m)
  {
    hide Next;
    if steps == [] {
      assert false;
    } else {
      var n := |steps| - 1;
      var before := steps[..n];
      if m in After(addrs, before).sent {
        HavesAreTrue(addrs, before, m);
        var i: nat :| SentTruly(addrs, before, i, m);
        assert before[..i] == steps[..i];
        assert SentTruly(addrs, steps, i, m);
      } else {
        NewHave(After(addrs, before), steps[n], m);
        assert SentTruly(addrs, steps, n, m);
      }
    }
  }

  ghost predicate PeersHeard(s: Net) {
    forall b, a :: b in s.sites && a in s.sites[b].peers ==>
      Have(a, b, s.sites[b].peers[a].ts, s.sites[b].peers[a].complete) in s.sent
  }

  lemma NextHears(s: Net, st: Step)
    requires PeersHeard(s)
    ensures PeersHeard(Next(s, st))
  {
  }

  lemma {:induction false} RunHears(addrs: set<Addr>, steps: seq<Step>)
    ensures PeersHeard(After(addrs, steps))
  {
    hide Next;
    if steps != [] {
      RunHears(addrs, steps[..|steps| - 1]);
      NextHears(After(addrs, steps[..|steps| - 1]), steps[|steps| - 1]);
    }
  }

  /**
   Every address CompletePeers lists belongs to a node that, when it sent the Have, held
   exactly that version and was complete.
   */
  lemma ListedWasComplete(addrs: set<Addr>, steps: seq<Step>, b: Addr, a: Addr, ts: int)
    requires b in After(addrs, steps).sites
    requires a in ListedComplete(After(addrs, steps).sites[b].peers, ts, After(addrs, steps).now)
    ensures exists i: nat :: i < |steps| && steps[i] == Advertise(a, b)
                             && Held(After(addrs, steps[..i]), a).ts == ts && Held(After(addrs, steps[..i]), a).complete
  {
    hide After;
    RunHears(addrs, steps);
    var s := After(addrs, steps);
    var m := Have(a, b, s.sites[b].peers[a].ts, s.sites[b].peers[a].complete);
    assert m in s.sent;
    HavesAreTrue(addrs, steps, m);
    var i: nat :| SentTruly(addrs, steps, i, m);
  }
}
