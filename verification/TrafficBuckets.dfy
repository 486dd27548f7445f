/** What the statistics queries answer for each ten-minute bucket. */
module TrafficBuckets {
  import opened Sums
  import opened Traffic
  import opened TrafficStats
  import opened TrafficTotals

  /** The timestamps of bucket `b`; division toward zero makes bucket 0 twice as wide. */
  predicate InSpan(b: int, ts: int) {
    && b % 600 == 0
    && if b > 0 then b <= ts < b + 600 else if b == 0 then -600 < ts < 600 else b - 600 < ts <= b
  }

  lemma SpanExactly(b: int, ts: int)
    ensures Bucket(ts) == b <==> InSpan(b, ts)
  {
    if ts >= 0 {
      FloorExactly(b, ts);
    } else {
      FloorExactly(-b, -ts);
    }
  }

  lemma FloorExactly(b: int, t: nat)
    ensures t / 600 * 600 == b <==> b % 600 == 0 && b <= t < b + 600
  {
    var q := t / 600;
    assert t == 600 * q + t % 600;
    if b % 600 == 0 && b <= t < b + 600 {
      var r := b / 600;
      assert b == 600 * r;
    }
  }

  /** The rows of bucket `b`, by their timestamps. */
  function Span(s: seq<Sample>, b: int): seq<Sample> {
    if s == [] then []
    else Span(s[..|s| - 1], b) + if InSpan(b, s[|s| - 1].ts) then [s[|s| - 1]] else []
  }

  /** Last total minus first total. */
  function Growth(s: seq<Sample>): int {
    if s == [] then 0 else s[|s| - 1].cum - s[0].cum
  }

  /** How much each node's total grew inside the bucket. */
  function Growths(s: seq<Sample>, b: int): map<int, int> {
    map n | n in Nodes(Span(s, b)) :: Growth(OfNode(Span(s, b), n))
  }

  /** The rows of a group, whichever condition is applied first. */
  lemma {:induction false} GroupIsSpan(s: seq<Sample>, node: int, b: int)
    ensures Group(s, (node, b)) == OfNode(Span(s, b), node)
  {
    hide Bucket, InSpan;
    if s != [] {
      var n := |s| - 1;
      var r, x := s[..n], s[n];
      GroupIsSpan(r, node, b);
      assert s == r + [x];
      GroupSnoc(r, x, (node, b));
      SpanExactly(b, x.ts);
      FilterSnoc(Span(r, b), x, node, 0);
      assert Span(r, b) + [] == Span(r, b);
    }
  }

  lemma {:induction false} SpanKeeps(s: seq<Sample>, b: int)
    requires TimeOrdered(s) && Rising(s)
    ensures TimeOrdered(Span(s, b)) && Rising(Span(s, b))
  {
    hide InSpan;
    if s != [] {
      var n := |s| - 1;
      SpanKeeps(s[..n], b);
      forall x | x in Span(s[..n], b)
        ensures x in s[..n]
      {
        SpanRows(s[..n], b, x);
      }
      KeptBefore(s, Span(s[..n], b));
    }
  }

  lemma {:induction false} SpanRows(s: seq<Sample>, b: int, x: Sample)
    ensures x in Span(s, b) <==> x in s && InSpan(b, x.ts)
  {
    hide InSpan;
    if s != [] {
      var n := |s| - 1;
      SpanRows(s[..n], b, x);
      assert s == s[..n] + [s[n]];
    }
  }

  lemma CellIsGrowth(s: seq<Sample>, node: int, b: int)
    requires TimeOrdered(s) && Rising(s)
    ensures Delta(Group(s, (node, b))) == Growth(OfNode(Span(s, b), node))
  {
    hide TimeOrdered, Rising, OfNode, Span, MaxCum, MinCum, Ordered, Group;
    GroupIsSpan(s, node, b);
    SpanKeeps(s, b);
    OfNodeOrdered(Span(s, b), node);
    var g := OfNode(Span(s, b), node);
    if g != [] {
      LastIsMax(g);
      FirstIsMin(g);
    }
  }

  function NodeKey(p: (int, int)): int { p.0 }

  /** The cells of one bucket, by node. */
  lemma BucketCells(s: seq<Sample>, b: int)
    requires TimeOrdered(s) && Rising(s)
    ensures GroupSum(Where(Cells(s), BucketKey, b), NodeKey) == Growths(s, b)
  {
    hide TimeOrdered, Rising, Sum, Cells, Span, Group, Growth, OfNode, Nodes;
    var cells := Where(Cells(s), BucketKey, b);
    var a, g := GroupSum(cells, NodeKey), Growths(s, b);
    forall n
      ensures n in a <==> n in g
      ensures n in a ==> a[n] == g[n]
    {
      OneCell(s, n, b);
    }
    SameMap(a, g);
  }

  lemma OneCell(s: seq<Sample>, n: int, b: int)
    requires TimeOrdered(s) && Rising(s)
    ensures var a, g := GroupSum(Where(Cells(s), BucketKey, b), NodeKey), Growths(s, b);
            (n in a <==> n in g) && (n in a ==> a[n] == g[n])
  {
    hide TimeOrdered, Rising, Sum, Span, Group, Growth, OfNode, Nodes, Pairs, Delta;
    var cells, p := Where(Cells(s), BucketKey, b), (n, b);
    PairsAreGroups(s, p);
    GroupIsSpan(s, n, b);
    NodesAreOwners(Span(s, b), n);
    assert p in cells <==> n in Nodes(Span(s, b));
    if x :| x in cells && NodeKey(x) == n {
      assert x == p;
    }
    if p in cells {
      assert NodeKey(p) == n;
      CellIsGrowth(s, n, b);
      var one := Where(cells, NodeKey, n);
      forall x
        ensures x in one <==> x == p
      {
      }
      SingleSum(one, p);
    }
  }

  /**
   The byte query answers for exactly the buckets that have a row, and for each with the
   sum over the nodes of last total minus first total among the node's rows of these ten
   minutes.
   */
  lemma BucketAnswer(s: seq<Sample>, b: int)
    requires TimeOrdered(s) && Rising(s)
    ensures b in BucketRows(s) <==> Span(s, b) != []
    ensures b in BucketRows(s) ==> BucketRows(s)[b] == Sum(Growths(s, b))
  {
    hide TimeOrdered, Rising, Sum, Cells, Span, Growths, Pairs;
    var cells := Where(Cells(s), BucketKey, b);
    BucketHasRow(s, b);
    GroupSumTotal(cells, NodeKey);
    BucketCells(s, b);
  }

  lemma BucketHasRow(s: seq<Sample>, b: int)
    ensures b in BucketRows(s) <==> Span(s, b) != []
  {
    hide Sum, Span, Group, Delta, Pairs, OfNode;
    if b in BucketRows(s) {
      var p :| p in Cells(s) && BucketKey(p) == b;
      PairsAreGroups(s, p);
      GroupIsSpan(s, p.0, b);
      NoRows(p.0);
    }
    if Span(s, b) != [] {
      var x := Span(s, b)[0];
      assert x in Span(s, b);
      OfNodeRows(Span(s, b), x.node, x);
      GroupIsSpan(s, x.node, b);
      PairsAreGroups(s, (x.node, b));
      assert (x.node, b) in Cells(s) && BucketKey((x.node, b)) == b;
    }
  }

  lemma NoRows(node: int)
    ensures OfNode([], node) == []
  {
  }

  /** The same for the samples of every run of reports, every node type and every window. */
  lemma RunBucketAnswer(rs: seq<Report>, kind: string, cutoff: int, b: int)
    requires NonNegative(rs) && ReportsInOrder(rs)
    ensures var s := Select(Recorded(rs).samples, kind, cutoff);
            && (b in BucketRows(s) <==> Span(s, b) != [])
            && (b in BucketRows(s) ==> BucketRows(s)[b] == Sum(Growths(s, b)))
  {
    hide Recorded, Select, TimeOrdered, Rising, BucketRows, Sum, Span, Growths;
    RecordedRows(rs);
    SelectKeeps(Recorded(rs).samples, kind, cutoff);
    BucketAnswer(Select(Recorded(rs).samples, kind, cutoff), b);
  }

  /** The bucket query of nodeStatsRange: one row per bucket of the node, with its growth. */
  lemma NodeBucketAnswer(rs: seq<Report>, node: int, cutoff: int, b: int)
    requires NonNegative(rs) && ReportsInOrder(rs)
    ensures var s := Since(Recorded(rs).samples, cutoff);
            Delta(InBucket(OfNode(s, node), b)) == Growth(OfNode(Span(s, b), node))
  {
    hide Recorded, Since, TimeOrdered, Rising, Span, OfNode, Delta, Growth, InBucket;
    RecordedRows(rs);
    SinceKeeps(Recorded(rs).samples, cutoff);
    CellIsGrowth(Since(Recorded(rs).samples, cutoff), node, b);
  }
}
