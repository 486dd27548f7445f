/**
 The bucketed traffic statistics read from node_traffic: per-node and network-wide
 ten-minute deltas of bytes_cum, and how their sum relates to the window totals.
 */
module TrafficStats {
  import opened Traffic
  import opened Sums

  /** (ts/600)*600 with SQL's division, which truncates toward zero. */
  function Bucket(ts: int): int {
    if ts >= 0 then ts / 600 * 600 else -(-ts / 600 * 600)
  }

  lemma BucketMonotone(s: int, t: int)
    requires s <= t
    ensures Bucket(s) <= Bucket(t)
  {
  }

  // ---- Queries ---------------------------------------------------------------------

  /** WHERE node_type = kind. */
  function OfKind(s: seq<Sample>, kind: string): seq<Sample> {
    if s == [] then []
    else OfKind(s[..|s| - 1], kind) + if s[|s| - 1].kind == kind then [s[|s| - 1]] else []
  }

  /** WHERE ts >= cutoff. */
  function Since(s: seq<Sample>, cutoff: int): seq<Sample> {
    if s == [] then []
    else Since(s[..|s| - 1], cutoff) + if s[|s| - 1].ts >= cutoff then [s[|s| - 1]] else []
  }

  /** WHERE node_type = kind AND ts >= cutoff. */
  function Select(s: seq<Sample>, kind: string, cutoff: int): seq<Sample> {
    Since(OfKind(s, kind), cutoff)
  }

  function OfNode(s: seq<Sample>, node: int): seq<Sample> {
    if s == [] then []
    else OfNode(s[..|s| - 1], node) + if s[|s| - 1].node == node then [s[|s| - 1]] else []
  }

  function InBucket(s: seq<Sample>, b: int): seq<Sample> {
    if s == [] then []
    else InBucket(s[..|s| - 1], b) + if Bucket(s[|s| - 1].ts) == b then [s[|s| - 1]] else []
  }

  function MaxCum(s: seq<Sample>): int
    requires s != []
  {
    var x := s[|s| - 1].cum;
    if |s| == 1 || MaxCum(s[..|s| - 1]) < x then x else MaxCum(s[..|s| - 1])
  }

  function MinCum(s: seq<Sample>): int
    requires s != []
  {
    var x := s[|s| - 1].cum;
    if |s| == 1 || MinCum(s[..|s| - 1]) > x then x else MinCum(s[..|s| - 1])
  }

  /** MAX(bytes_cum) - MIN(bytes_cum), zero over no rows. */
  function Delta(s: seq<Sample>): int {
    if s == [] then 0 else MaxCum(s) - MinCum(s)
  }

  /** The groups of GROUP BY node_id, bucket. */
  function Pairs(s: seq<Sample>): set<(int, int)> {
    if s == [] then {} else Pairs(s[..|s| - 1]) + {(s[|s| - 1].node, Bucket(s[|s| - 1].ts))}
  }

  /** The rows of one group. */
  function Group(s: seq<Sample>, p: (int, int)): seq<Sample> {
    InBucket(OfNode(s, p.0), p.1)
  }

  /** The inner query: one delta per node and bucket. */
  function Cells(s: seq<Sample>): map<(int, int), int> {
    map p | p in Pairs(s) :: Delta(Group(s, p))
  }

  function BucketKey(p: (int, int)): int { p.1 }

  /** The outer query: SUM(delta) per bucket. */
  ghost function BucketRows(s: seq<Sample>): map<int, int> {
    GroupSum(Cells(s), BucketKey)
  }

  function Nodes(s: seq<Sample>): set<int> {
    if s == [] then {} else Nodes(s[..|s| - 1]) + {s[|s| - 1].node}
  }

  /** The per-node window totals that nodeStatsRange reports. */
  function WindowTotals(s: seq<Sample>): map<int, int> {
    map n | n in Nodes(s) :: Delta(OfNode(s, n))
  }

  // ---- One node --------------------------------------------------------------------

  /** Samples in time order with the running total never falling. */
  predicate Ordered(s: seq<Sample>) {
    |s| < 2 ||
    (Ordered(s[..|s| - 1]) && s[|s| - 2].ts <= s[|s| - 1].ts && s[|s| - 2].cum <= s[|s| - 1].cum)
  }

  /** Growth between neighbouring samples that fall into different buckets. */
  function Gaps(s: seq<Sample>): int {
    if |s| < 2 then 0
    else
      var x, y := s[|s| - 2], s[|s| - 1];
      Gaps(s[..|s| - 1]) + if Bucket(x.ts) == Bucket(y.ts) then 0 else y.cum - x.cum
  }

  predicate SameBucketOrTotal(x: Sample, y: Sample) {
    Bucket(x.ts) == Bucket(y.ts) || x.cum == y.cum
  }

  ghost predicate NoGrowthBetweenBuckets(s: seq<Sample>) {
    forall i, j :: 0 <= i && j == i + 1 && j < |s| ==> SameBucketOrTotal(s[i], s[j])
  }

  lemma {:induction false} GapsZero(s: seq<Sample>)
    requires Ordered(s)
    ensures Gaps(s) >= 0
    ensures Gaps(s) == 0 <==> NoGrowthBetweenBuckets(s)
  {
    hide Bucket;
    if |s| >= 2 {
      var n := |s| - 1;
      GapsZero(s[..n]);
      assert NoGrowthBetweenBuckets(s) <==> NoGrowthBetweenBuckets(s[..n]) && SameBucketOrTotal(s[n - 1], s[n]) by {
        hide SameBucketOrTotal;
      }
    }
  }

  lemma {:induction false} LastIsMax(s: seq<Sample>)
    requires Ordered(s) && s != []
    ensures MinCum(s) <= MaxCum(s) == s[|s| - 1].cum
  {
    if |s| > 1 {
      LastIsMax(s[..|s| - 1]);
    }
  }

  /** A sample at least as large as all others widens the range by its lead. */
  lemma DeltaSnoc(s: seq<Sample>, x: Sample)
    requires s != [] ==> MinCum(s) <= MaxCum(s) <= x.cum
    ensures Delta(s + [x]) == if s == [] then 0 else Delta(s) + x.cum - MaxCum(s)
  {
    assert (s + [x])[..|s|] == s;
  }

  lemma {:induction false} InBucketTail(s: seq<Sample>, b: int)
    requires Ordered(s) && s != []
    ensures b > Bucket(s[|s| - 1].ts) ==> InBucket(s, b) == []
    ensures b == Bucket(s[|s| - 1].ts) ==>
              InBucket(s, b) != [] && MinCum(InBucket(s, b)) <= MaxCum(InBucket(s, b)) == s[|s| - 1].cum
  {
    hide Bucket;
    var n := |s| - 1;
    if n == 0 {
      assert s[..0] == [];
    } else {
      BucketMonotone(s[n - 1].ts, s[n].ts);
      InBucketTail(s[..n], b);
      var u := InBucket(s[..n], b);
      assert (u + [s[n]])[..|u|] == u;
    }
  }

  // ---- All nodes --------------------------------------------------------------------

  ghost predicate TimeOrdered(s: seq<Sample>) {
    forall i, j :: 0 <= i < j < |s| && s[i].node == s[j].node ==> s[i].ts <= s[j].ts
  }

  lemma {:induction false} OfKindKeeps(s: seq<Sample>, kind: string)
    requires TimeOrdered(s) && Rising(s)
    ensures TimeOrdered(OfKind(s, kind)) && Rising(OfKind(s, kind))
  {
    if s != [] {
      var n := |s| - 1;
      OfKindKeeps(s[..n], kind);
      forall x | x in OfKind(s[..n], kind)
        ensures x in s[..n]
      {
        OfKindRows(s[..n], kind, x);
      }
      KeptBefore(s, OfKind(s[..n], kind));
    }
  }

  lemma {:induction false} OfKindRows(s: seq<Sample>, kind: string, x: Sample)
    ensures x in OfKind(s, kind) <==> x in s && x.kind == kind
  {
    if s != [] {
      var n := |s| - 1;
      OfKindRows(s[..n], kind, x);
      assert s == s[..n] + [s[n]];
    }
  }

  lemma {:induction false} SinceKeeps(s: seq<Sample>, cutoff: int)
    requires TimeOrdered(s) && Rising(s)
    ensures TimeOrdered(Since(s, cutoff)) && Rising(Since(s, cutoff))
    ensures forall x :: x in Since(s, cutoff) <==> x in s && x.ts >= cutoff
  {
    if s != [] {
      var n := |s| - 1;
      SinceKeeps(s[..n], cutoff);
      assert s == s[..n] + [s[n]];
      KeptBefore(s, Since(s[..n], cutoff));
    }
  }

  /** Rows kept from before the last one do not follow it. */
  lemma KeptBefore(s: seq<Sample>, u: seq<Sample>)
    requires TimeOrdered(s) && Rising(s) && s != [] && forall x :: x in u ==> x in s[..|s| - 1]
    ensures forall i :: 0 <= i < |u| && u[i].node == s[|s| - 1].node ==>
              u[i].ts <= s[|s| - 1].ts && u[i].cum <= s[|s| - 1].cum
  {
    var n := |s| - 1;
    forall i | 0 <= i < |u| && u[i].node == s[n].node
      ensures u[i].ts <= s[n].ts && u[i].cum <= s[n].cum
    {
      assert u[i] in u && u[i] in s[..n];
      var k :| 0 <= k < n && s[k] == u[i];
    }
  }

  lemma SelectKeeps(s: seq<Sample>, kind: string, cutoff: int)
    requires TimeOrdered(s) && Rising(s)
    ensures TimeOrdered(Select(s, kind, cutoff)) && Rising(Select(s, kind, cutoff))
    ensures forall x :: x in Select(s, kind, cutoff) <==> x in s && x.kind == kind && x.ts >= cutoff
  {
    hide TimeOrdered, Rising, OfKind, Since;
    OfKindKeeps(s, kind);
    SinceKeeps(OfKind(s, kind), cutoff);
    forall x
      ensures x in OfKind(s, kind) <==> x in s && x.kind == kind
    {
      OfKindRows(s, kind, x);
    }
  }

  lemma PrefixKeeps(s: seq<Sample>, n: nat)
    requires TimeOrdered(s) && Rising(s) && n <= |s|
    ensures TimeOrdered(s[..n]) && Rising(s[..n])
  {
  }

  lemma Precedes(s: seq<Sample>, x: Sample, n: nat)
    requires TimeOrdered(s) && Rising(s) && n < |s| && x in s[..n] && x.node == s[n].node
    ensures x.ts <= s[n].ts && x.cum <= s[n].cum
  {
    var k :| 0 <= k < n && s[k] == x;
  }

  lemma {:induction false} OfNodeOrdered(s: seq<Sample>, node: int)
    requires TimeOrdered(s) && Rising(s)
    ensures Ordered(OfNode(s, node))
    ensures forall x :: x in OfNode(s, node) ==> x in s && x.node == node
  {
    hide TimeOrdered, Rising, Ordered;
    if s == [] {
      NothingOrdered();
    } else {
      var n := |s| - 1;
      PrefixKeeps(s, n);
      OfNodeOrdered(s[..n], node);
      var u, x := OfNode(s[..n], node), s[n];
      if x.node == node {
        if u != [] {
          assert u[|u| - 1] in u;
          Precedes(s, u[|u| - 1], n);
        }
        OrderedSnoc(u, x);
      } else {
        assert u + [] == u;
      }
    }
  }

  lemma NothingOrdered()
    ensures Ordered([])
  {
  }

  lemma OrderedSnoc(u: seq<Sample>, x: Sample)
    requires Ordered(u) && (u != [] ==> u[|u| - 1].ts <= x.ts && u[|u| - 1].cum <= x.cum)
    ensures Ordered(u + [x])
  {
    assert (u + [x])[..|u|] == u;
  }

  lemma {:induction false} PairsAreGroups(s: seq<Sample>, p: (int, int))
    ensures p in Pairs(s) <==> Group(s, p) != []
  {
    hide Bucket;
    if s != [] {
      var n := |s| - 1;
      PairsAreGroups(s[..n], p);
      GroupSnoc(s[..n], s[n], p);
      assert s == s[..n] + [s[n]];
    }
  }

  lemma GroupSnoc(s: seq<Sample>, x: Sample, p: (int, int))
    ensures OfNode(s + [x], p.0) == OfNode(s, p.0) + if x.node == p.0 then [x] else []
    ensures Group(s + [x], p) == Group(s, p) + if p == (x.node, Bucket(x.ts)) then [x] else []
  {
    hide Bucket;
    assert (s + [x])[..|s|] == s;
    var u := OfNode(s, p.0);
    assert (u + [x])[..|u|] == u;
    assert OfNode(s + [x], p.0) == if x.node == p.0 then u + [x] else u;
  }

  /** Adding a row changes one cell. */
  lemma CellsSnoc(s: seq<Sample>, x: Sample)
    ensures var p := (x.node, Bucket(x.ts));
            Cells(s + [x]) == Cells(s)[p := Delta(Group(s, p) + [x])]
  {
    hide Bucket, Delta, Group;
    var t, q := s + [x], (x.node, Bucket(x.ts));
    assert t[..|s|] == s;
    assert Pairs(t) == Pairs(s) + {q};
    forall p | p in Pairs(t)
      ensures Group(t, p) == if p == q then Group(s, p) + [x] else Group(s, p)
    {
      GroupSnoc(s, x, p);
    }
  }

  lemma WindowSnoc(s: seq<Sample>, x: Sample)
    ensures WindowTotals(s + [x]) == WindowTotals(s)[x.node := Delta(OfNode(s, x.node) + [x])]
  {
    hide Delta;
    var t := s + [x];
    assert t[..|s|] == s;
    assert Nodes(t) == Nodes(s) + {x.node};
    forall n | n in Nodes(t)
      ensures OfNode(t, n) == if n == x.node then OfNode(s, n) + [x] else OfNode(s, n)
    {
      GroupSnoc(s, x, (n, 0));
    }
  }

  function GapTotals(s: seq<Sample>): map<int, int> {
    map n | n in Nodes(s) :: Gaps(OfNode(s, n))
  }

  lemma GapSnoc(s: seq<Sample>, x: Sample)
    ensures GapTotals(s + [x]) == GapTotals(s)[x.node := Gaps(OfNode(s, x.node) + [x])]
  {
    hide Gaps;
    var t := s + [x];
    assert t[..|s|] == s;
    assert Nodes(t) == Nodes(s) + {x.node};
    forall n | n in Nodes(t)
      ensures OfNode(t, n) == if n == x.node then OfNode(s, n) + [x] else OfNode(s, n)
    {
      GroupSnoc(s, x, (n, 0));
    }
  }

  lemma {:induction false} NodesAreOwners(s: seq<Sample>, node: int)
    ensures node in Nodes(s) <==> OfNode(s, node) != []
  {
    if s != [] {
      NodesAreOwners(s[..|s| - 1], node);
    }
  }

  /** How one more sample of a node moves its cell, its window total and its gaps. */
  lemma StepBalances(u: seq<Sample>, x: Sample)
    requires Ordered(u + [x])
    ensures var b := Bucket(x.ts);
            var cell := Delta(InBucket(u, b) + [x]) - Delta(InBucket(u, b));
            cell == Delta(u + [x]) - Delta(u) - (Gaps(u + [x]) - Gaps(u))
  {
    hide Bucket, InBucket;
    var t, b := u + [x], Bucket(x.ts);
    assert t[..|u|] == u;
    if u == [] {
      assert InBucket(u, b) == [] by { NothingInBucket(b); }
      DeltaSnoc(u, x);
    } else {
      BucketMonotone(u[|u| - 1].ts, x.ts);
      InBucketTail(u, b);
      LastIsMax(u);
      DeltaSnoc(u, x);
      DeltaSnoc(InBucket(u, b), x);
    }
  }

  lemma NothingInBucket(b: int)
    ensures InBucket([], b) == []
  {
  }

  /** All cells together fall short of all window totals by exactly the gaps. */
  lemma {:induction false} CellsAddUp(s: seq<Sample>)
    requires TimeOrdered(s) && Rising(s)
    ensures Sum(Cells(s)) == Sum(WindowTotals(s)) - Sum(GapTotals(s))
  {
    hide Bucket, InBucket, OfNode, Gaps, Delta, Sum, Cells, WindowTotals, GapTotals, Ordered;
    if s == [] {
      NothingToSum();
    } else {
      var n := |s| - 1;
      var r, x := s[..n], s[n];
      assert s == r + [x];
      CellsAddUp(r);
      var p, u := (x.node, Bucket(x.ts)), OfNode(r, x.node);
      CellsSnoc(r, x);
      WindowSnoc(r, x);
      GapSnoc(r, x);
      SumSet(Cells(r), p, Delta(Group(r, p) + [x]));
      SumSet(WindowTotals(r), x.node, Delta(u + [x]));
      SumSet(GapTotals(r), x.node, Gaps(u + [x]));
      OldValues(r, x.node, p.1);
      OfNodeOrdered(s, x.node);
      GroupSnoc(r, x, p);
      StepBalances(u, x);
    }
  }

  lemma OldValues(s: seq<Sample>, node: int, b: int)
    ensures Delta(Group(s, (node, b))) == if (node, b) in Cells(s) then Cells(s)[(node, b)] else 0
    ensures Delta(OfNode(s, node)) == if node in WindowTotals(s) then WindowTotals(s)[node] else 0
    ensures Gaps(OfNode(s, node)) == if node in GapTotals(s) then GapTotals(s)[node] else 0
  {
    hide InBucket, OfNode, Group;
    PairsAreGroups(s, (node, b));
    NodesAreOwners(s, node);
  }

  lemma NothingToSum()
    ensures Sum(Cells([])) == Sum(WindowTotals([])) == Sum(GapTotals([])) == 0
  {
    assert Cells([]) == map[] && WindowTotals([]) == map[] && GapTotals([]) == map[];
  }

  /**
   Summed over all buckets, the network statistics never exceed the sum of the nodes'
   window totals, and reach it exactly when no node's total grew between two
   consecutive buckets of its own.
   */
  lemma NetworkBucketsAddUp(s: seq<Sample>)
    requires TimeOrdered(s) && Rising(s)
    ensures Sum(BucketRows(s)) <= Sum(WindowTotals(s))
    ensures Sum(BucketRows(s)) == Sum(WindowTotals(s))
            <==> forall n :: n in Nodes(s) ==> NoGrowthBetweenBuckets(OfNode(s, n))
  {
    hide OfNode, Gaps, Sum, Cells, WindowTotals, NoGrowthBetweenBuckets, Nodes;
    GroupSumTotal(Cells(s), BucketKey);
    CellsAddUp(s);
    var g := GapTotals(s);
    forall n | n in Nodes(s)
      ensures g[n] >= 0 && (g[n] == 0 <==> NoGrowthBetweenBuckets(OfNode(s, n)))
    {
      OfNodeOrdered(s, n);
      GapsZero(OfNode(s, n));
    }
    assert g.Keys == Nodes(s);
    SumZero(g);
    assert (forall n :: n in g ==> g[n] == 0) <==> forall n :: n in Nodes(s) ==> NoGrowthBetweenBuckets(OfNode(s, n));
  }

  ghost predicate ReportsInOrder(rs: seq<Report>) {
    forall i, j :: 0 <= i < j < |rs| && rs[i].node == rs[j].node ==> rs[i].ts <= rs[j].ts
  }

  /** The same for the samples of any run of reports, whatever the restarts, for every query window. */
  lemma RunStatistics(rs: seq<Report>, kind: string, cutoff: int)
    requires NonNegative(rs) && ReportsInOrder(rs)
    ensures var s := Select(Recorded(rs).samples, kind, cutoff);
            && Sum(BucketRows(s)) <= Sum(WindowTotals(s))
            && (Sum(BucketRows(s)) == Sum(WindowTotals(s))
                <==> forall n :: n in Nodes(s) ==> NoGrowthBetweenBuckets(OfNode(s, n)))
  {
    hide Recorded, Select, BucketRows, WindowTotals, Sum, Nodes, OfNode, NoGrowthBetweenBuckets;
    CumNeverDecreases(rs);
    SamplesMirrorReports(rs);
    SelectKeeps(Recorded(rs).samples, kind, cutoff);
    NetworkBucketsAddUp(Select(Recorded(rs).samples, kind, cutoff));
  }
}
