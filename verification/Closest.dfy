/**
 RoutingTable.Closest sorts by the leading 64 bits of the XOR distance. What that
 guarantees, and when it agrees with the full distance.
 */
module Closest {
  import opened NodeIds
  import opened Routing

  function Dist(c: Contact, target: ID): nat {
    Distance64(c.id, target)
  }

  ghost predicate Sorted(s: seq<Contact>, target: ID) {
    forall i, j :: 0 <= i < j < |s| ==> Dist(s[i], target) <= Dist(s[j], target)
  }

  /** Any result the standard library's unstable sort may leave. */
  ghost predicate SortOf(p: seq<Contact>, all: seq<Contact>, target: ID) {
    multiset(p) == multiset(all) && Sorted(p, target)
  }

  function Trim(p: seq<Contact>, n: nat): seq<Contact> {
    if |p| > n then p[..n] else p
  }

  // ---- The code -----------------------------------------------------------------------

  function NonSuspect(s: seq<Contact>): seq<Contact> {
    if s == [] then []
    else NonSuspect(s[..|s| - 1]) + if s[|s| - 1].suspect then [] else [s[|s| - 1]]
  }

  function Gathered(t: seq<seq<Contact>>): seq<Contact> {
    if t == [] then [] else Gathered(t[..|t| - 1]) + NonSuspect(t[|t| - 1])
  }

  /** One insertion of the sort. */
  function Insert(s: seq<Contact>, c: Contact, target: ID): seq<Contact> {
    if s == [] || Dist(s[|s| - 1], target) <= Dist(c, target) then s + [c]
    else Insert(s[..|s| - 1], c, target) + [s[|s| - 1]]
  }

  function Sort(s: seq<Contact>, target: ID): seq<Contact> {
    if s == [] then [] else Insert(Sort(s[..|s| - 1], target), s[|s| - 1], target)
  }

  lemma {:induction false} InsertSorts(s: seq<Contact>, c: Contact, target: ID)
    requires Sorted(s, target)
    ensures SortOf(Insert(s, c, target), s + [c], target)
    decreases |s|
  {
    hide Dist, Sorted;
    if s == [] || Dist(s[|s| - 1], target) <= Dist(c, target) {
      AppendSorted(s, c, target);
    } else {
      var n := |s| - 1;
      var r, z := s[..n], s[n];
      var u := Insert(r, c, target);
      PrefixSorted(s, target);
      InsertSorts(r, c, target);
      LastIsFarthest(s, target);
      Bounded(u, r + [c], target, Dist(z, target));
      AppendSorted(u, z, target);
      assert s == r + [z];
      assert multiset(u + [z]) == multiset(u) + multiset{z} == multiset(r + [c]) + multiset{z} == multiset(s + [c]);
    }
  }

  lemma AppendSorted(s: seq<Contact>, c: Contact, target: ID)
    requires Sorted(s, target) && (s != [] ==> Dist(s[|s| - 1], target) <= Dist(c, target))
    ensures Sorted(s + [c], target)
  {
    hide Dist;
    assert forall i :: 0 <= i < |s| - 1 ==> Dist(s[i], target) <= Dist(s[|s| - 1], target);
  }

  lemma PrefixSorted(s: seq<Contact>, target: ID)
    requires Sorted(s, target) && s != []
    ensures Sorted(s[..|s| - 1], target)
  {
    hide Dist;
  }

  lemma LastIsFarthest(s: seq<Contact>, target: ID)
    requires Sorted(s, target) && s != []
    ensures forall c :: c in s ==> Dist(c, target) <= Dist(s[|s| - 1], target)
  {
    hide Dist;
  }

  lemma Bounded(u: seq<Contact>, s: seq<Contact>, target: ID, d: int)
    requires multiset(u) == multiset(s) && forall c :: c in s ==> Dist(c, target) <= d
    ensures u != [] ==> Dist(u[|u| - 1], target) <= d
  {
    hide Dist;
    if u != [] {
      assert u[|u| - 1] in multiset(s);
    }
  }

  lemma {:induction false} SortSorts(s: seq<Contact>, target: ID)
    ensures SortOf(Sort(s, target), s, target)
  {
    hide Dist, Insert;
    if s != [] {
      var n := |s| - 1;
      SortSorts(s[..n], target);
      InsertSorts(Sort(s[..n], target), s[n], target);
      assert s == s[..n] + [s[n]];
    }
  }

  /** Closest, with insertion sort standing in for sort.Slice. */
  method Closest(rt: RoutingTable, target: ID, n: nat) returns (r: seq<Contact>)
    requires rt.Valid()
    ensures exists p :: SortOf(p, Gathered(rt.Value()), target) && r == Trim(p, n)
    ensures r == Trim(Sort(Gathered(rt.Value()), target), n)
  {
    hide SortOf, NonSuspect, Sort;
    var all := [];
    ghost var t := rt.Value();
    for i := 0 to ID_BITS
      invariant all == Gathered(t[..i])
    {
      var contacts := rt.buckets[i].contacts;
      var live := Filter(contacts);
      all := all + live;
      assert t[..i + 1][..i] == t[..i] && t[..i + 1][i] == contacts;
    }
    assert t[..ID_BITS] == t;
    SortSorts(all, target);
    r := Sort(all, target);
    ghost var p := r;
    if |r| > n {
      r := r[..n];
    }
    assert SortOf(p, Gathered(t), target) && r == Trim(p, n);
  }

  method Filter(contacts: seq<Contact>) returns (live: seq<Contact>)
    ensures live == NonSuspect(contacts)
  {
    live := [];
    for i := 0 to |contacts|
      invariant live == NonSuspect(contacts[..i])
    {
      if !contacts[i].suspect {
        live := live + [contacts[i]];
      }
      assert contacts[..i + 1][..i] == contacts[..i];
    }
    assert contacts[..|contacts|] == contacts;
  }

  // ---- What a caller may rely on -------------------------------------------------------

  /** The gathered contacts are exactly the non-suspect ones of the table. */
  lemma {:induction false} GatheredExactly(t: seq<seq<Contact>>, c: Contact)
    ensures c in Gathered(t) <==> !c.suspect && exists i :: 0 <= i < |t| && c in t[i]
  {
    hide NonSuspect;
    if t != [] {
      var n := |t| - 1;
      GatheredExactly(t[..n], c);
      NonSuspectExactly(t[n], c);
      if !c.suspect && c in t[n] {
        assert c in t[n];
      }
      if c in Gathered(t[..n]) {
        var i :| 0 <= i < n && c in t[..n][i];
        assert c in t[i];
      }
      if i :| 0 <= i < |t| && c in t[i] && i < n {
        assert c in t[..n][i];
      }
    }
  }

  lemma {:induction false} NonSuspectExactly(s: seq<Contact>, c: Contact)
    ensures c in NonSuspect(s) <==> !c.suspect && c in s
  {
    if s != [] {
      var n := |s| - 1;
      NonSuspectExactly(s[..n], c);
      assert s == s[..n] + [s[n]];
    }
  }

  lemma {:induction false} NonSuspectDistinct(s: seq<Contact>)
    requires DistinctIds(s)
    ensures DistinctIds(NonSuspect(s))
  {
    if s != [] {
      var n := |s| - 1;
      NonSuspectDistinct(s[..n]);
      forall c | c in NonSuspect(s[..n])
        ensures c.id != s[n].id
      {
        NonSuspectExactly(s[..n], c);
      }
    }
  }

  lemma {:induction false} GatheredDistinct(self: ID, t: Table, n: nat)
    requires TableOk(self, t) && n <= ID_BITS
    ensures DistinctIds(Gathered(t[..n]))
    ensures forall c :: c in Gathered(t[..n]) ==> BucketOf(self, c.id) < n
    decreases n
  {
    hide NonSuspect, BucketOf;
    if n > 0 {
      var m := n - 1;
      GatheredDistinct(self, t, m);
      assert t[..n][..m] == t[..m];
      assert BucketOk(self, m, t[m]);
      NonSuspectDistinct(t[m]);
      forall c | c in NonSuspect(t[m])
        ensures BucketOf(self, c.id) == m
      {
        NonSuspectExactly(t[m], c);
        var i :| 0 <= i < |t[m]| && t[m][i] == c;
        assert ContactOk(self, m, t[m][i]);
      }
      ConcatDistinct(Gathered(t[..m]), NonSuspect(t[m]));
    }
  }

  lemma ConcatDistinct(s: seq<Contact>, u: seq<Contact>)
    requires DistinctIds(s) && DistinctIds(u)
    requires forall c, d :: c in s && d in u ==> c.id != d.id
    ensures DistinctIds(s + u)
  {
  }

  /** What Closest sorts never holds an identifier twice, in any run. */
  lemma RunGathersDistinct(self: ID, ops: seq<Op>)
    requires FreshAdds(ops)
    ensures DistinctIds(Gathered(After(self, ops)))
  {
    hide TableOk, Gathered;
    RunKeeps(self, ops);
    var t := After(self, ops);
    GatheredDistinct(self, t, ID_BITS);
    assert t[..ID_BITS] == t;
  }

  /** What Closest leaves out. */
  function Omitted(p: seq<Contact>, n: nat): seq<Contact> {
    if |p| > n then p[n..] else []
  }

  /** The result has the size asked for, is sorted, and leaves out nothing nearer than what it holds. */
  lemma ClosestGuarantee(p: seq<Contact>, all: seq<Contact>, target: ID, n: nat)
    requires SortOf(p, all, target)
    ensures |Trim(p, n)| == if |all| < n then |all| else n
    ensures Sorted(Trim(p, n), target)
    ensures multiset(Trim(p, n)) + multiset(Omitted(p, n)) == multiset(all)
    ensures forall c, o :: c in Trim(p, n) && o in Omitted(p, n) ==> Dist(c, target) <= Dist(o, target)
    ensures forall c, o :: c in Trim(p, n) && o in Omitted(p, n) ==>
              Closer(c.id, o.id, target) || c.id[..8] == o.id[..8]
  {
    hide Dist, Trim, Omitted, Sorted, Closer;
    assert |multiset(p)| == |multiset(all)|;
    TrimSplits(p, n);
    assert multiset(p) == multiset(Trim(p, n) + Omitted(p, n));
    TrimSorted(p, target, n);
    NothingNearerOmitted(p, target, n);
    forall c, o | c in Trim(p, n) && o in Omitted(p, n)
      ensures Closer(c.id, o.id, target) || c.id[..8] == o.id[..8]
    {
      NotFarther(c, o, target);
    }
  }

  lemma NotFarther(c: Contact, o: Contact, target: ID)
    requires Dist(c, target) <= Dist(o, target)
    ensures Closer(c.id, o.id, target) || c.id[..8] == o.id[..8]
  {
    hide Distance64, Closer;
    TieExactly(c.id, o.id, target);
    if Dist(c, target) < Dist(o, target) {
      Distance64Closer(c.id, o.id, target);
    }
  }

  lemma TrimSplits(p: seq<Contact>, n: nat)
    ensures p == Trim(p, n) + Omitted(p, n) && |Trim(p, n)| == if |p| < n then |p| else n
  {
  }

  lemma TrimSorted(p: seq<Contact>, target: ID, n: nat)
    requires Sorted(p, target)
    ensures Sorted(Trim(p, n), target)
  {
    hide Dist;
  }

  /** A returned contact stands before an omitted one. */
  lemma Positions(p: seq<Contact>, n: nat, c: Contact, o: Contact) returns (i: nat, j: nat)
    requires c in Trim(p, n) && o in Omitted(p, n)
    ensures i < n <= j < |p| && p[i] == c && p[j] == o
  {
    i :| 0 <= i < |Trim(p, n)| && Trim(p, n)[i] == c;
    var k :| 0 <= k < |Omitted(p, n)| && Omitted(p, n)[k] == o;
    j := n + k;
  }

  lemma SortedAt(p: seq<Contact>, target: ID, i: nat, j: nat)
    requires Sorted(p, target) && i <= j < |p|
    ensures Dist(p[i], target) <= Dist(p[j], target)
  {
    hide Dist;
  }

  lemma NothingNearerOmitted(p: seq<Contact>, target: ID, n: nat)
    requires Sorted(p, target)
    ensures forall c, o :: c in Trim(p, n) && o in Omitted(p, n) ==> Dist(c, target) <= Dist(o, target)
  {
    hide Dist, Trim, Omitted, Sorted;
    forall c, o | c in Trim(p, n) && o in Omitted(p, n)
      ensures Dist(c, target) <= Dist(o, target)
    {
      var i, j := Positions(p, n, c, o);
      SortedAt(p, target, i, j);
    }
  }

  ghost predicate DistinctDistances(s: seq<Contact>, target: ID) {
    forall i, j :: 0 <= i < j < |s| ==> Dist(s[i], target) != Dist(s[j], target)
  }

  ghost predicate CloserSorted(s: seq<Contact>, target: ID) {
    forall i, j :: 0 <= i < j < |s| ==> Closer(s[i].id, s[j].id, target)
  }

  lemma AgreesWhenDistinct(p: seq<Contact>, target: ID)
    requires Sorted(p, target) && DistinctDistances(p, target)
    ensures CloserSorted(p, target)
  {
    hide Closer, Distance64;
    forall i, j | 0 <= i < j < |p|
      ensures Closer(p[i].id, p[j].id, target)
    {
      assert Dist(p[i], target) < Dist(p[j], target);
      Distance64Closer(p[i].id, p[j].id, target);
    }
  }

  /** Exchanging two tied neighbours gives another legal sort result. */
  lemma TieSwaps(p: seq<Contact>, i: nat, target: ID) returns (q: seq<Contact>)
    requires Sorted(p, target) && i + 1 < |p| && Dist(p[i], target) == Dist(p[i + 1], target)
    ensures SortOf(q, p, target) && q == p[i := p[i + 1]][i + 1 := p[i]]
  {
    hide Dist;
    q := p[i := p[i + 1]][i + 1 := p[i]];
    assert p == p[..i] + [p[i], p[i + 1]] + p[i + 2..];
    assert q == p[..i] + [p[i + 1], p[i]] + p[i + 2..];
    assert multiset([p[i], p[i + 1]]) == multiset([p[i + 1], p[i]]);
  }

  lemma TieMisorders(p: seq<Contact>, i: nat, target: ID)
    requires Sorted(p, target) && i + 1 < |p| && Dist(p[i], target) == Dist(p[i + 1], target)
    ensures exists q :: SortOf(q, p, target) && !CloserSorted(q, target)
  {
    hide Dist, Closer, SortOf;
    var q := TieSwaps(p, i, target);
    CloserIsStrictTotalOrder(p[i].id, p[i + 1].id, p[i].id, target);
    assert SortOf(p, p, target) by { SortOfSelf(p, target); }
    if CloserSorted(q, target) {
      assert Closer(q[i].id, q[i + 1].id, target);
      assert !CloserSorted(p, target);
    }
  }

  lemma SortOfSelf(p: seq<Contact>, target: ID)
    requires Sorted(p, target)
    ensures SortOf(p, p, target)
  {
  }

  lemma {:induction false} OnceEach(s: seq<Contact>, c: Contact)
    requires DistinctIds(s)
    ensures multiset(s)[c] <= 1
  {
    if s != [] {
      var n := |s| - 1;
      OnceEach(s[..n], c);
      assert s == s[..n] + [s[n]];
      if s[n] == c && c in s[..n] {
        assert false;
      }
    }
  }

  lemma Twice(s: seq<Contact>, i: nat, j: nat)
    requires i < j < |s| && s[i] == s[j]
    ensures multiset(s)[s[i]] >= 2
  {
    assert s == s[..j] + [s[j]] + s[j + 1..];
    assert s[i] in s[..j];
  }

  /** Permuting contacts with distinct identifiers neither makes nor removes a tie. */
  lemma TiePermutes(p: seq<Contact>, q: seq<Contact>, target: ID)
    requires multiset(p) == multiset(q) && DistinctIds(q) && !DistinctDistances(p, target)
    ensures !DistinctDistances(q, target)
  {
    hide Dist;
    var i, j :| 0 <= i < j < |p| && Dist(p[i], target) == Dist(p[j], target);
    assert p[i] in multiset(q) && p[j] in multiset(q);
    var k :| 0 <= k < |q| && q[k] == p[i];
    var l :| 0 <= l < |q| && q[l] == p[j];
    if k == l {
      Twice(p, i, j);
      OnceEach(q, q[k]);
      assert false;
    }
  }

  lemma DistinctPermutes(p: seq<Contact>, q: seq<Contact>)
    requires multiset(p) == multiset(q) && DistinctIds(q)
    ensures DistinctIds(p)
  {
    forall i, j | 0 <= i < j < |p|
      ensures p[i].id != p[j].id
    {
      assert p[i] in multiset(q) && p[j] in multiset(q);
      var k :| 0 <= k < |q| && q[k] == p[i];
      var l :| 0 <= l < |q| && q[l] == p[j];
      if k == l {
        Twice(p, i, j);
        OnceEach(q, q[k]);
      }
    }
  }

  /**
   Sorting by 64 bits orders the contacts by true distance, whatever the library's sort
   does with ties, exactly when no two of them share the first eight bytes of their
   identifiers.
   */
  lemma AgreesExactly(all: seq<Contact>, target: ID)
    requires DistinctIds(all)
    ensures (forall p :: SortOf(p, all, target) ==> CloserSorted(p, target))
            <==> forall i, j :: 0 <= i < j < |all| ==> all[i].id[..8] != all[j].id[..8]
  {
    hide *;
    AgreesWithoutTies(all, target);
    PrefixesDecide(all, target);
  }

  lemma PrefixesDecide(all: seq<Contact>, target: ID)
    ensures DistinctDistances(all, target)
            <==> forall i, j :: 0 <= i < j < |all| ==> all[i].id[..8] != all[j].id[..8]
  {
    hide Distance64;
    forall i, j | 0 <= i < j < |all|
      ensures Dist(all[i], target) != Dist(all[j], target) <==> all[i].id[..8] != all[j].id[..8]
    {
      TieExactly(all[i].id, all[j].id, target);
    }
  }

  lemma AgreesWithoutTies(all: seq<Contact>, target: ID)
    requires DistinctIds(all)
    ensures (forall p :: SortOf(p, all, target) ==> CloserSorted(p, target))
            <==> DistinctDistances(all, target)
  {
    hide Dist, CloserSorted, DistinctDistances;
    if DistinctDistances(all, target) {
      forall p | SortOf(p, all, target)
        ensures CloserSorted(p, target)
      {
        if !DistinctDistances(p, target) {
          TiePermutes(p, all, target);
        }
        AgreesWhenDistinct(p, target);
      }
    } else {
      SortSorts(all, target);
      var p := Sort(all, target);
      DistinctPermutes(p, all);
      TiePermutes(all, p, target);
      var i := TiedNeighbours(p, target);
      TieMisorders(p, i, target);
      var q :| SortOf(q, p, target) && !CloserSorted(q, target);
      assert SortOf(q, all, target);
    }
  }

  lemma TiedNeighbours(p: seq<Contact>, target: ID) returns (i: nat)
    requires Sorted(p, target) && !DistinctDistances(p, target)
    ensures i + 1 < |p| && Dist(p[i], target) == Dist(p[i + 1], target)
  {
    hide Dist;
    var k, j :| 0 <= k < j < |p| && Dist(p[k], target) == Dist(p[j], target);
    i := k;
    assert Dist(p[i], target) <= Dist(p[i + 1], target);
    assert i + 1 < j ==> Dist(p[i + 1], target) <= Dist(p[j], target);
  }
}
