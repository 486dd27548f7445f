/**
 The totals of the statistics queries against the lifetime totals their comments promise,
 and the lifetime total of the network against the bytes really moved.
 */
module TrafficTotals {
  import opened Common
  import opened Sums
  import opened Traffic
  import opened TrafficStats

  /** MAX(bytes_cum) of a node's rows, zero over none. */
  function Latest(s: seq<Sample>, node: int): int {
    if OfNode(s, node) == [] then 0 else MaxCum(OfNode(s, node))
  }

  /** What networkBytesTotal sums: the latest total of every node among the rows. */
  function LatestTotals(s: seq<Sample>): map<int, int> {
    map n | n in Nodes(s) :: Latest(s, n)
  }

  lemma LatestAt(s: seq<Sample>, node: int)
    ensures At(LatestTotals(s), node) == Latest(s, node)
    ensures node in LatestTotals(s) <==> node in Nodes(s)
  {
    hide OfNode, MaxCum;
    NodesAreOwners(s, node);
  }

  // ---- The part of one node's total that a window shows --------------------------------------

  lemma {:induction false} FirstIsMin(s: seq<Sample>)
    requires Ordered(s) && s != []
    ensures MinCum(s) == s[0].cum <= s[|s| - 1].cum
  {
    if |s| > 1 {
      FirstIsMin(s[..|s| - 1]);
    }
  }

  /** A window that shows a node at all shows its latest row. */
  lemma {:induction false} SinceShowsLast(u: seq<Sample>, cutoff: int)
    requires Ordered(u) && Since(u, cutoff) != []
    ensures var w := Since(u, cutoff);
            w[|w| - 1] == u[|u| - 1] && u[|u| - 1].ts >= cutoff
  {
    var n := |u| - 1;
    if u[n].ts < cutoff {
      SinceShowsLast(u[..n], cutoff);
      assert false;
    }
  }

  lemma {:induction false} OfNodeSince(s: seq<Sample>, node: int, cutoff: int)
    ensures OfNode(Since(s, cutoff), node) == Since(OfNode(s, node), cutoff)
  {
    if s != [] {
      var n := |s| - 1;
      var r, x := s[..n], s[n];
      OfNodeSince(r, node, cutoff);
      FilterSnoc(Since(r, cutoff), x, node, cutoff);
      FilterSnoc(OfNode(r, node), x, node, cutoff);
      assert Since(r, cutoff) + [] == Since(r, cutoff) && OfNode(r, node) + [] == OfNode(r, node);
    }
  }

  lemma FilterSnoc(s: seq<Sample>, x: Sample, node: int, cutoff: int)
    ensures OfNode(s + [x], node) == OfNode(s, node) + if x.node == node then [x] else []
    ensures Since(s + [x], cutoff) == Since(s, cutoff) + if x.ts >= cutoff then [x] else []
  {
    assert (s + [x])[..|s|] == s;
  }

  ghost predicate NoneNegative(s: seq<Sample>) {
    forall x :: x in s ==> x.cum >= 0
  }

  /** How far the range of a window falls short of the latest total. */
  lemma WindowShare(u: seq<Sample>, cutoff: int)
    requires Ordered(u) && u != [] && Ordered(Since(u, cutoff)) && Since(u, cutoff) != []
    ensures var w := Since(u, cutoff);
            Delta(w) == MaxCum(u) - w[0].cum
  {
    hide MaxCum, MinCum, Since, Ordered;
    var w := Since(u, cutoff);
    SinceShowsLast(u, cutoff);
    LastIsMax(u);
    LastIsMax(w);
    FirstIsMin(w);
  }

  /** The window shows all of a node's lifetime total. */
  ghost predicate ShownInFull(k: seq<Sample>, cutoff: int, node: int) {
    var w := OfNode(Since(k, cutoff), node);
    if w == [] then Latest(k, node) == 0 else w[0].cum == 0 && NoGrowthBetweenBuckets(w)
  }

  /** What one node adds to the sum of the bucket deltas. */
  function Share(s: seq<Sample>, node: int): int {
    Delta(OfNode(s, node)) - Gaps(OfNode(s, node))
  }

  lemma WindowFacts(k: seq<Sample>, cutoff: int, node: int)
    requires TimeOrdered(k) && Rising(k) && NoneNegative(k)
    ensures var u, w := OfNode(k, node), OfNode(Since(k, cutoff), node);
            && Ordered(u) && Ordered(w) && w == Since(u, cutoff)
            && (u != [] ==> MaxCum(u) >= 0)
            && (w != [] ==> u != [] && w[0].cum >= 0)
  {
    hide TimeOrdered, Rising, Ordered, MaxCum, OfNode;
    SinceKeeps(k, cutoff);
    OfNodeOrdered(k, node);
    OfNodeOrdered(Since(k, cutoff), node);
    OfNodeSince(k, node, cutoff);
    var u, w := OfNode(k, node), OfNode(Since(k, cutoff), node);
    if u != [] {
      LastIsMax(u);
      assert u[|u| - 1] in u;
    }
    if w != [] {
      assert w[0] in w;
    }
  }

  lemma NodeShare(k: seq<Sample>, cutoff: int, node: int)
    requires TimeOrdered(k) && Rising(k) && NoneNegative(k)
    ensures Share(Since(k, cutoff), node) <= Latest(k, node)
    ensures Share(Since(k, cutoff), node) == Latest(k, node) <==> ShownInFull(k, cutoff, node)
  {
    hide TimeOrdered, Rising, NoneNegative, Ordered, MaxCum, MinCum, OfNode, Since, NoGrowthBetweenBuckets;
    WindowFacts(k, cutoff, node);
    var u, w := OfNode(k, node), OfNode(Since(k, cutoff), node);
    if w != [] {
      WindowShare(u, cutoff);
      GapsZero(w);
    }
  }

  // ---- The network ----------------------------------------------------------------------------

  function Shares(s: seq<Sample>): map<int, int> {
    map n | n in Nodes(s) :: Share(s, n)
  }

  lemma SharesAt(s: seq<Sample>, node: int)
    ensures At(Shares(s), node) == Share(s, node)
    ensures node in Shares(s) <==> node in Nodes(s)
  {
    hide OfNode;
    NodesAreOwners(s, node);
  }

  lemma SharesAddUp(s: seq<Sample>)
    requires TimeOrdered(s) && Rising(s)
    ensures Sum(BucketRows(s)) == Sum(Shares(s))
  {
    hide Sum, Cells, Nodes, Delta, Gaps, OfNode;
    GroupSumTotal(Cells(s), BucketKey);
    CellsAddUp(s);
    SumPlus(Shares(s), GapTotals(s), WindowTotals(s));
  }

  /**
   The total of networkStatsRange never exceeds the sum of the latest lifetime totals of all
   nodes of the type, and is that sum if and only if the window shows every one of them in
   full: from a row with total zero on, and without growth between buckets. A node without a
   row in the window must have nothing to show.
   */
  lemma NetworkTotalExactly(k: seq<Sample>, cutoff: int)
    requires TimeOrdered(k) && Rising(k) && NoneNegative(k)
    ensures Sum(BucketRows(Since(k, cutoff))) <= Sum(LatestTotals(k))
    ensures Sum(BucketRows(Since(k, cutoff))) == Sum(LatestTotals(k))
            <==> forall n :: n in Nodes(k) ==> ShownInFull(k, cutoff, n)
  {
    hide TimeOrdered, Rising, NoneNegative, Sum, BucketRows, LatestTotals, Shares, Share, Latest, ShownInFull, Nodes, Since, At;
    var s := Since(k, cutoff);
    var a, b := Shares(s), LatestTotals(k);
    SinceKeeps(k, cutoff);
    SharesAddUp(s);
    forall n | n in a || n in b
      ensures At(a, n) <= At(b, n)
    {
      ShareAndLatest(k, cutoff, n);
    }
    SumAtMost(a, b);
    if forall n :: n in Nodes(k) ==> ShownInFull(k, cutoff, n) {
      forall n | n in a || n in b
        ensures At(a, n) == At(b, n)
      {
        ShareAndLatest(k, cutoff, n);
      }
    } else {
      var n :| n in Nodes(k) && !ShownInFull(k, cutoff, n);
      ShareAndLatest(k, cutoff, n);
      assert At(a, n) != At(b, n);
    }
  }

  lemma ShareAndLatest(k: seq<Sample>, cutoff: int, n: int)
    requires TimeOrdered(k) && Rising(k) && NoneNegative(k)
    ensures var a, b := Shares(Since(k, cutoff)), LatestTotals(k);
            && At(a, n) <= At(b, n) && (At(a, n) == At(b, n) <==> ShownInFull(k, cutoff, n))
            && (n in a || n in b <==> n in Nodes(k)) && (n in b <==> n in Nodes(k))
  {
    hide *;
    NodeShare(k, cutoff, n);
    SharesAt(Since(k, cutoff), n);
    LatestAt(k, n);
    ShownAreKnown(k, cutoff, n);
  }

  lemma ShownAreKnown(k: seq<Sample>, cutoff: int, node: int)
    ensures node in Nodes(Since(k, cutoff)) ==> node in Nodes(k)
  {
    hide Nodes, OfNode, Since;
    NodesAreOwners(k, node);
    NodesAreOwners(Since(k, cutoff), node);
    OfNodeSince(k, node, cutoff);
    NothingSince(cutoff);
  }

  lemma NothingSince(cutoff: int)
    ensures Since([], cutoff) == []
  {
  }

  lemma RecordedRows(rs: seq<Report>)
    requires NonNegative(rs) && ReportsInOrder(rs)
    ensures var s := Recorded(rs).samples;
            TimeOrdered(s) && Rising(s) && NoneNegative(s)
  {
    hide Recorded;
    CumNeverDecreases(rs);
    SamplesMirrorReports(rs);
  }

  /** The same for the samples of every run of reports, every node type and every window. */
  lemma RunTotalExactly(rs: seq<Report>, kind: string, cutoff: int)
    requires NonNegative(rs) && ReportsInOrder(rs)
    ensures var k := OfKind(Recorded(rs).samples, kind);
            var total := Sum(BucketRows(Select(Recorded(rs).samples, kind, cutoff)));
            && total <= Sum(LatestTotals(k))
            && (total == Sum(LatestTotals(k)) <==> forall n :: n in Nodes(k) ==> ShownInFull(k, cutoff, n))
  {
    hide Recorded, OfKind, Since, TimeOrdered, Rising, BucketRows, LatestTotals, Sum, Nodes, ShownInFull;
    RecordedRows(rs);
    OfKindKeeps(Recorded(rs).samples, kind);
    forall x | x in OfKind(Recorded(rs).samples, kind)
      ensures x.cum >= 0
    {
      OfKindRows(Recorded(rs).samples, kind, x);
    }
    NetworkTotalExactly(OfKind(Recorded(rs).samples, kind), cutoff);
  }

  /**
   The total of nodeStatsRange, a range over the window, is the node's lifetime total if and
   only if the window begins with a row of total zero, or shows nothing of nothing.
   */
  lemma NodeTotalExactly(rs: seq<Report>, node: int, cutoff: int)
    requires NonNegative(rs) && ReportsInOrder(rs)
    ensures var s := Recorded(rs).samples;
            var w := OfNode(Since(s, cutoff), node);
            && Delta(w) <= Latest(s, node)
            && (Delta(w) == Latest(s, node) <==> if w == [] then Latest(s, node) == 0 else w[0].cum == 0)
  {
    hide Recorded, OfNode, Since, TimeOrdered, Rising, NoneNegative, MaxCum, MinCum, Ordered;
    RecordedRows(rs);
    var s := Recorded(rs).samples;
    WindowFacts(s, cutoff, node);
    if OfNode(Since(s, cutoff), node) != [] {
      WindowShare(OfNode(s, node), cutoff);
    }
  }

  /** One report, inside the window: both totals are zero, the lifetime total is not. */
  lemma FirstReportUncounted(r: Report, cutoff: int)
    requires r.raw > 0 && r.ts >= cutoff
    ensures var k := OfKind(Recorded([r]).samples, r.kind);
            && Sum(BucketRows(Since(k, cutoff))) == 0 && Delta(OfNode(Since(k, cutoff), r.node)) == 0
            && Sum(LatestTotals(k)) == r.raw
  {
    hide Recorded, OfKind, Since, OfNode, BucketRows, LatestTotals, Sum;
    var x := Sample(r.node, r.ts, r.raw, r.raw, r.kind);
    RecordedOne(r);
    SelectedOne(x, cutoff);
    OneRow(x);
  }

  lemma RecordedOne(r: Report)
    ensures Recorded([r]).samples == [Sample(r.node, r.ts, r.raw, r.raw, r.kind)]
  {
    assert [r][..0] == [];
  }

  lemma SelectedOne(x: Sample, cutoff: int)
    requires x.ts >= cutoff
    ensures OfKind([x], x.kind) == [x] && Since([x], cutoff) == [x] && OfNode([x], x.node) == [x]
  {
    assert [x][..0] == [];
  }

  lemma OneRow(x: Sample)
    requires x.cum >= 0
    ensures Sum(BucketRows([x])) == 0 && Sum(LatestTotals([x])) == x.cum
  {
    hide Bucket, Sum, BucketRows;
    var p := (x.node, Bucket(x.ts));
    assert [x][..0] == [] && [] + [x] == [x];
    SharesAddUp([x]);
    assert OfNode([x], x.node) == [x];
    assert Share([x], x.node) == 0 && Latest([x], x.node) == x.cum;
    OnlyNode(x);
    SingleSum(Shares([x]), x.node);
    SingleSum(LatestTotals([x]), x.node);
  }

  lemma OnlyNode(x: Sample)
    ensures forall n :: n in Nodes([x]) <==> n == x.node
  {
    assert [x][..0] == [];
  }

  lemma SingleSum<X>(m: map<X, int>, x: X)
    requires forall y :: y in m <==> y == x
    ensures Sum(m) == m[x]
  {
    SumPick(m, x);
    assert m - {x} == map[];
  }

  // ---- The lifetime total against the bytes moved ---------------------------------------------

  lemma {:induction false} MaxCumBounds(s: seq<Sample>, x: Sample)
    requires x in s
    ensures x.cum <= MaxCum(s)
    ensures exists y :: y in s && y.cum == MaxCum(s)
  {
    var n := |s| - 1;
    assert s == s[..n] + [s[n]];
    if n > 0 {
      MaxCumBounds(s[..n], if x in s[..n] then x else s[0]);
    }
  }

  /** Every node keeps the type it first reported. */
  ghost predicate KeepsKind(rs: seq<Report>) {
    forall i, j :: 0 <= i < j < |rs| && rs[i].node == rs[j].node ==> rs[i].kind == rs[j].kind
  }

  /** The lifetime total of a node after these reports, from its own reports alone. */
  function TotalOf(rs: seq<Report>, node: int): int {
    match FoldAll(RawsOf(rs, node))
    case None => 0
    case Some(c) => c.Cum()
  }

  /** Sample `i` carries the total after report `i`. */
  lemma {:induction false} SampleCarries(rs: seq<Report>, i: nat)
    requires i < |rs|
    ensures |Recorded(rs).samples| == |rs| && Recorded(rs).samples[i].cum == TotalOf(rs[..i + 1], rs[i].node)
  {
    var n := |rs| - 1;
    var before := rs[..n];
    SamplesMirrorReports(before);
    if i < n {
      SampleCarries(before, i);
      assert before[..i + 1] == rs[..i + 1];
    } else {
      NodesIndependent(rs, rs[n].node);
      assert rs[..i + 1] == rs;
    }
  }

  lemma {:induction false} OfNodeRows(s: seq<Sample>, node: int, x: Sample)
    ensures x in OfNode(s, node) <==> x in s && x.node == node
  {
    if s != [] {
      var n := |s| - 1;
      OfNodeRows(s[..n], node, x);
      assert s == s[..n] + [s[n]];
    }
  }

  lemma RowsOf(s: seq<Sample>, kind: string, node: int, x: Sample)
    ensures x in OfNode(OfKind(s, kind), node) <==> x in s && x.kind == kind && x.node == node
  {
    hide OfNode, OfKind;
    OfKindRows(s, kind, x);
    OfNodeRows(OfKind(s, kind), node, x);
  }

  /** Report `i` is the last one of this node under this type. */
  ghost predicate LastOfKind(rs: seq<Report>, i: nat, kind: string, node: int) {
    && i < |rs| && rs[i].node == node && rs[i].kind == kind
    && forall j :: i < j < |rs| ==> !(rs[j].node == node && rs[j].kind == kind)
  }

  lemma {:induction false} FindLastOfKind(rs: seq<Report>, j: nat, kind: string, node: int) returns (i: nat)
    requires j < |rs| && rs[j].node == node && rs[j].kind == kind
    ensures LastOfKind(rs, i, kind, node)
    decreases |rs| - j
  {
    if k :| j < k < |rs| && rs[k].node == node && rs[k].kind == kind {
      i := FindLastOfKind(rs, k, kind, node);
    } else {
      i := j;
    }
  }

  /** A node's latest total among the rows of a type is its total after its last report under that type. */
  lemma LatestOfKind(rs: seq<Report>, kind: string, node: int) returns (i: nat)
    requires NonNegative(rs) && node in Nodes(OfKind(Recorded(rs).samples, kind))
    ensures LastOfKind(rs, i, kind, node)
    ensures Latest(OfKind(Recorded(rs).samples, kind), node) == TotalOf(rs[..i + 1], node)
  {
    hide Recorded, OfKind, OfNode, Nodes, MaxCum, TotalOf;
    var rows := Recorded(rs).samples;
    var u := OfNode(OfKind(rows, kind), node);
    NodesAreOwners(OfKind(rows, kind), node);
    CumNeverDecreases(rs);
    SamplesMirrorReports(rs);
    assert u[0] in u;
    MaxCumBounds(u, u[0]);
    var y :| y in u && y.cum == MaxCum(u);
    RowsOf(rows, kind, node, y);
    var j :| 0 <= j < |rows| && rows[j] == y;
    i := FindLastOfKind(rs, j, kind, node);
    SampleCarries(rs, i);
    RowsOf(rows, kind, node, rows[i]);
    MaxCumBounds(u, rows[i]);
    assert j <= i;
  }

  /** The node's total did not grow after its last report under this type. */
  ghost predicate UpToDate(rs: seq<Report>, kind: string, node: int) {
    forall i: nat :: LastOfKind(rs, i, kind, node) ==> TotalOf(rs[..i + 1], node) == TotalOf(rs, node)
  }

  lemma LastIsUnique(rs: seq<Report>, i: nat, j: nat, kind: string, node: int)
    requires LastOfKind(rs, i, kind, node) && LastOfKind(rs, j, kind, node)
    ensures i == j
  {
  }

  lemma {:induction false} QuietAfter(rs: seq<Report>, i: nat, node: int)
    requires i < |rs| && forall j :: i < j < |rs| ==> rs[j].node != node
    ensures RawsOf(rs, node) == RawsOf(rs[..i + 1], node)
    decreases |rs|
  {
    var n := |rs| - 1;
    if i == n {
      assert rs[..i + 1] == rs;
    } else {
      QuietAfter(rs[..n], i, node);
      assert rs[..n][..i + 1] == rs[..i + 1];
    }
  }

  lemma KeptKindIsUpToDate(rs: seq<Report>, kind: string, node: int)
    requires KeepsKind(rs)
    ensures UpToDate(rs, kind, node)
  {
    hide RawsOf, FoldAll;
    forall i: nat | LastOfKind(rs, i, kind, node)
      ensures TotalOf(rs[..i + 1], node) == TotalOf(rs, node)
    {
      QuietAfter(rs, i, node);
    }
  }

  /**
   A node's latest total among the rows of a type never exceeds its counter, and is the
   counter if and only if the total did not grow after the last report under that type.
   */
  lemma LatestIsCounter(rs: seq<Report>, kind: string, node: int)
    requires NonNegative(rs) && node in Nodes(OfKind(Recorded(rs).samples, kind))
    ensures node in Recorded(rs).counters
    ensures Latest(OfKind(Recorded(rs).samples, kind), node) <= Recorded(rs).counters[node].Cum()
    ensures Latest(OfKind(Recorded(rs).samples, kind), node) == Recorded(rs).counters[node].Cum()
            <==> UpToDate(rs, kind, node)
  {
    hide Recorded, OfKind, Nodes, Latest, RawsOf, FoldAll, LastOfKind;
    var i := LatestOfKind(rs, kind, node);
    SampleOf(rs, i, kind, node);
    CumNeverDecreases(rs);
    NodesIndependent(rs, node);
    forall j: nat | LastOfKind(rs, j, kind, node)
      ensures j == i
    {
      LastIsUnique(rs, i, j, kind, node);
    }
  }

  lemma SampleOf(rs: seq<Report>, i: nat, kind: string, node: int)
    requires LastOfKind(rs, i, kind, node)
    ensures |Recorded(rs).samples| == |rs| && i < |rs| && Recorded(rs).samples[i].node == node
    ensures Recorded(rs).samples[i].cum == TotalOf(rs[..i + 1], node)
  {
    hide Recorded, TotalOf;
    SamplesMirrorReports(rs);
    SampleCarries(rs, i);
  }

  /** What each node lived through: the reports in the database are the ones it sent. */
  ghost predicate Lives(rs: seq<Report>, nodes: set<int>, lives: map<int, seq<Event>>) {
    forall n :: n in nodes ==>
      && n in lives && lives[n] != [] && lives[n][|lives[n]| - 1].Send? && RawsOf(rs, n) == Sent(lives[n])
  }

  function MovedBytes(nodes: set<int>, lives: map<int, seq<Event>>): map<int, int>
    requires forall n :: n in nodes ==> n in lives
  {
    map n | n in nodes :: Lived(lives[n]).moved
  }

  lemma LatestAgainstMoved(rs: seq<Report>, kind: string, n: int, es: seq<Event>)
    requires NonNegative(rs) && n in Nodes(OfKind(Recorded(rs).samples, kind))
    requires es != [] && es[|es| - 1].Send? && RawsOf(rs, n) == Sent(es)
    ensures var latest := Latest(OfKind(Recorded(rs).samples, kind), n);
            && latest <= Lived(es).moved
            && (latest == Lived(es).moved <==> Lived(es).clean && UpToDate(rs, kind, n))
    ensures KeepsKind(rs) ==> UpToDate(rs, kind, n)
  {
    hide Recorded, OfKind, Nodes, Latest, Lived, RawsOf, Sent, KeepsKind, UpToDate;
    LatestIsCounter(rs, kind, n);
    RecordedTotalExactly(rs, n, es);
    if KeepsKind(rs) {
      KeptKindIsUpToDate(rs, kind, n);
    }
  }

  /**
   The total of networkBytesTotal never exceeds the bytes that the nodes of the type moved,
   and is their sum if and only if every report was clean and no node's total grew after its
   last report under the type, as it cannot when no node changes its type.
   */
  lemma NetworkLifetimeExactly(rs: seq<Report>, kind: string, lives: map<int, seq<Event>>)
    requires NonNegative(rs) && Lives(rs, Nodes(OfKind(Recorded(rs).samples, kind)), lives)
    ensures var k := OfKind(Recorded(rs).samples, kind);
            && Sum(LatestTotals(k)) <= Sum(MovedBytes(Nodes(k), lives))
            && (Sum(LatestTotals(k)) == Sum(MovedBytes(Nodes(k), lives))
                <==> forall n :: n in Nodes(k) ==> Lived(lives[n]).clean && UpToDate(rs, kind, n))
            && (KeepsKind(rs) ==> forall n :: n in Nodes(k) ==> UpToDate(rs, kind, n))
  {
    hide Recorded, OfKind, Nodes, Latest, Lived, Sum, RawsOf, Sent, KeepsKind, UpToDate;
    var k := OfKind(Recorded(rs).samples, kind);
    var a, b := LatestTotals(k), MovedBytes(Nodes(k), lives);
    forall n | n in Nodes(k)
      ensures At(a, n) <= At(b, n)
      ensures At(a, n) == At(b, n) <==> Lived(lives[n]).clean && UpToDate(rs, kind, n)
      ensures KeepsKind(rs) ==> UpToDate(rs, kind, n)
    {
      LatestAgainstMoved(rs, kind, n, lives[n]);
    }
    SumAtMost(a, b);
    if forall n :: n in Nodes(k) ==> Lived(lives[n]).clean && UpToDate(rs, kind, n) {
      assert forall n :: n in a || n in b ==> At(a, n) == At(b, n);
    } else {
      var n :| n in Nodes(k) && !(Lived(lives[n]).clean && UpToDate(rs, kind, n));
      assert At(a, n) != At(b, n);
    }
  }
}
