/**
 How networkStatsRange merges its two queries. They are separate statements, so the
 samples they see, `s1` and `s2`, may differ.
 */
module TrafficMerge {
  import opened Sums
  import opened Traffic
  import opened TrafficStats

  /** The groups of GROUP BY bucket. */
  function Buckets(s: seq<Sample>): set<int> {
    if s == [] then {} else Buckets(s[..|s| - 1]) + {Bucket(s[|s| - 1].ts)}
  }

  lemma {:induction false} BucketsArePairs(s: seq<Sample>, b: int)
    ensures b in Buckets(s) <==> exists p :: p in Pairs(s) && p.1 == b
  {
    hide Bucket;
    if s != [] {
      var n := |s| - 1;
      BucketsArePairs(s[..n], b);
      assert (s[n].node, Bucket(s[n].ts)) in Pairs(s);
    }
  }

  /** On the same samples both queries see the same buckets. */
  lemma SameBuckets(s: seq<Sample>)
    ensures BucketRows(s).Keys == Buckets(s)
  {
    hide Buckets, Pairs, Delta, Group, Sum;
    forall b
      ensures b in BucketRows(s) <==> b in Buckets(s)
    {
      BucketsArePairs(s, b);
      if b in Buckets(s) {
        var p :| p in Pairs(s) && p.1 == b;
        assert p in Cells(s) && BucketKey(p) == b;
      }
    }
  }

  ghost predicate Lists(rows: seq<(int, int)>, m: map<int, int>) {
    && (forall i, j :: 0 <= i < j < |rows| ==> rows[i].0 != rows[j].0)
    && (forall i :: 0 <= i < |rows| ==> rows[i].0 in m && m[rows[i].0] == rows[i].1)
    && forall b :: b in m ==> exists i :: 0 <= i < |rows| && rows[i].0 == b
  }

  ghost predicate ListsKeys(order: seq<int>, keys: set<int>) {
    && (forall i, j :: 0 <= i < j < |order| ==> order[i] != order[j])
    && (forall b :: b in order <==> b in keys)
  }

  /** The bytes that reach the answer: the buckets of the first query, with the bytes of the second. */
  ghost function KeptRows(s1: seq<Sample>, s2: seq<Sample>): map<int, int> {
    map b | b in Buckets(s1) :: At(BucketRows(s2), b)
  }

  /**
   The loops of networkStatsRange, given the rows of its two queries: every bucket of the
   first gets its bytes from the second, and the total is the sum over those buckets.
   */
  method Merge(order: seq<int>, byteRows: seq<(int, int)>, ghost s1: seq<Sample>, ghost s2: seq<Sample>)
    returns (out: seq<(int, int)>, total: int)
    requires ListsKeys(order, Buckets(s1)) && Lists(byteRows, BucketRows(s2))
    ensures |out| == |order|
    ensures forall i :: 0 <= i < |out| ==> out[i] == (order[i], At(BucketRows(s2), order[i]))
    ensures total == Sum(KeptRows(s1, s2))
  {
    hide BucketRows, Buckets, Sum;
    ghost var rows := BucketRows(s2);
    var buckets := FillBytes(order, byteRows, rows);
    out, total := [], 0;
    ghost var seen: map<int, int> := map[];
    assert Sum(seen) == 0 by { SumNothing(); }
    for i := 0 to |order|
      invariant |out| == i
      invariant forall k :: 0 <= k < i ==> out[k] == (order[k], At(rows, order[k]))
      invariant forall b :: b in seen <==> b in order[..i]
      invariant forall b :: b in seen ==> seen[b] == At(rows, b)
      invariant total == Sum(seen)
    {
      var b := order[i];
      SumSet(seen, b, buckets[b]);
      seen := seen[b := buckets[b]];
      out := out + [(b, buckets[b])];
      total := total + buckets[b];
      assert order[..i + 1] == order[..i] + [b];
    }
    assert order[..|order|] == order;
    forall b
      ensures b in seen <==> b in KeptRows(s1, s2)
      ensures b in seen ==> seen[b] == KeptRows(s1, s2)[b]
    {
      KeptAt(s1, s2, b);
    }
    SameMap(seen, KeptRows(s1, s2));
  }

  /** The first two loops: buckets from the first query, bytes from the second where it has the bucket. */
  method FillBytes(order: seq<int>, byteRows: seq<(int, int)>, ghost rows: map<int, int>)
    returns (buckets: map<int, int>)
    requires Lists(byteRows, rows)
    ensures forall b :: b in buckets <==> b in order
    ensures forall b :: b in buckets ==> buckets[b] == At(rows, b)
  {
    buckets := map b | b in order :: 0;
    for i := 0 to |byteRows|
      invariant forall b :: b in buckets <==> b in order
      invariant forall k :: 0 <= k < i && byteRows[k].0 in buckets ==> buckets[byteRows[k].0] == byteRows[k].1
      invariant forall b :: b in buckets && (forall k :: 0 <= k < i ==> byteRows[k].0 != b) ==> buckets[b] == 0
    {
      var (ts, sum) := byteRows[i];
      if ts in buckets {
        buckets := buckets[ts := sum];
      }
    }
    forall b | b in buckets
      ensures buckets[b] == At(rows, b)
    {
      if b in rows {
        var i :| 0 <= i < |byteRows| && byteRows[i].0 == b;
      }
    }
  }

  lemma KeptAt(s1: seq<Sample>, s2: seq<Sample>, b: int)
    ensures b in KeptRows(s1, s2) <==> b in Buckets(s1)
    ensures b in Buckets(s1) ==> KeptRows(s1, s2)[b] == At(BucketRows(s2), b)
  {
    hide BucketRows, Buckets;
  }

  lemma SumNothing()
    ensures Sum<int>(map[]) == 0
  {
  }

  // ---- What is dropped -------------------------------------------------------------------

  lemma {:induction false} MinBelowMax(s: seq<Sample>)
    requires s != []
    ensures MinCum(s) <= MaxCum(s)
  {
    if |s| > 1 {
      MinBelowMax(s[..|s| - 1]);
    }
  }

  lemma BytesNonNegative(s: seq<Sample>, b: int)
    requires b in BucketRows(s)
    ensures BucketRows(s)[b] >= 0
  {
    hide Pairs, Group, MaxCum, MinCum;
    var m := Where(Cells(s), BucketKey, b);
    forall p | p in m
      ensures m[p] >= 0
    {
      var g := Group(s, p);
      if g != [] {
        MinBelowMax(g);
      }
    }
    SumZero(m);
  }

  /**
   Whatever samples the two queries see, the merged total never exceeds the bytes of the
   second, and falls short exactly when a bucket the first did not return has bytes.
   */
  lemma DroppedExactly(s1: seq<Sample>, s2: seq<Sample>)
    ensures Sum(KeptRows(s1, s2)) <= Sum(BucketRows(s2))
    ensures Sum(KeptRows(s1, s2)) == Sum(BucketRows(s2))
            <==> forall b :: b in BucketRows(s2) && b !in Buckets(s1) ==> BucketRows(s2)[b] == 0
  {
    hide BucketRows, Buckets, Sum, KeptRows;
    var kept, rows := KeptRows(s1, s2), BucketRows(s2);
    forall b | b in kept || b in rows
      ensures At(kept, b) <= At(rows, b)
      ensures At(kept, b) == At(rows, b) <==> (b in rows && b !in Buckets(s1) ==> rows[b] == 0)
    {
      KeptAt(s1, s2, b);
      if b in rows {
        BytesNonNegative(s2, b);
      }
    }
    SumAtMost(kept, rows);
    if forall b :: b in rows && b !in Buckets(s1) ==> rows[b] == 0 {
      forall b | b in kept || b in rows
        ensures At(kept, b) == At(rows, b)
      {
        assert b in rows && b !in Buckets(s1) ==> rows[b] == 0;
      }
    } else {
      var b :| b in rows && b !in Buckets(s1) && rows[b] != 0;
      assert At(kept, b) != At(rows, b);
    }
  }

  /** On the same samples nothing is dropped. */
  lemma NothingDropped(s: seq<Sample>)
    ensures KeptRows(s, s) == BucketRows(s)
  {
    hide BucketRows, Buckets, KeptRows;
    SameBuckets(s);
    forall b
      ensures b in KeptRows(s, s) <==> b in BucketRows(s)
      ensures b in BucketRows(s) ==> KeptRows(s, s)[b] == BucketRows(s)[b]
    {
      KeptAt(s, s, b);
      assert b in BucketRows(s).Keys <==> b in Buckets(s);
    }
    SameMap(KeptRows(s, s), BucketRows(s));
  }

  /**
   Two reports of a node that reach an empty table between the queries: the bytes the second
   one adds are in the answer of the second query only.
   */
  lemma LateReportsDropped(r1: Report, r2: Report, cutoff: int)
    requires r1.node == r2.node && r1.kind == r2.kind && Bucket(r1.ts) == Bucket(r2.ts)
    requires r1.ts >= cutoff && r2.ts >= cutoff && r1.raw >= 0 && r2.raw > 0 && r1.raw != r2.raw
    ensures var s1 := Select(Recorded([]).samples, r1.kind, cutoff);
            var s2 := Select(Recorded([r1, r2]).samples, r1.kind, cutoff);
            && Sum(KeptRows(s1, s2)) == 0
            && Sum(BucketRows(s2)) == if r2.raw < r1.raw then r2.raw else r2.raw - r1.raw
  {
    hide Bucket, BucketRows, KeptRows, Sum;
    var c2 := if r2.raw < r1.raw then r1.raw + r2.raw else r2.raw;
    var x, y := Sample(r1.node, r1.ts, r1.raw, r1.raw, r1.kind), Sample(r2.node, r2.ts, r2.raw, c2, r2.kind);
    assert [r1, r2][..1] == [r1] && [r1][..0] == [];
    assert Recorded([r1]) == Db(map[r1.node := Counter(0, r1.raw)], [x]);
    assert Recorded([r1, r2]).samples == [x, y];
    SelectPair(x, y, r1.kind, cutoff);
    LateBucketDropped(x, y);
  }

  lemma SelectPair(x: Sample, y: Sample, kind: string, cutoff: int)
    requires x.kind == y.kind == kind && x.ts >= cutoff && y.ts >= cutoff
    ensures Select([x, y], kind, cutoff) == [x, y] && Select([], kind, cutoff) == []
  {
    assert [x, y][..1] == [x] && [x][..0] == [];
    assert OfKind([x], kind) == [x] && Since([x], cutoff) == [x];
  }

  lemma LateBucketDropped(x: Sample, y: Sample)
    requires x.node == y.node && Bucket(x.ts) == Bucket(y.ts) && x.cum < y.cum
    ensures Sum(KeptRows([], [x, y])) == 0 && Sum(BucketRows([x, y])) == y.cum - x.cum
  {
    hide Bucket, BucketRows, Delta, Group, Sum;
    var p := (x.node, Bucket(x.ts));
    assert [] + [x] == [x] && [x] + [y] == [x, y];
    CellsSnoc([], x);
    CellsSnoc([x], y);
    GroupSnoc([], x, p);
    NoGroup(p);
    assert Group([x], p) == [x];
    DeltaSnoc([], x);
    DeltaSnoc([x], y);
    assert Cells([x, y]) == Cells([x])[p := y.cum - x.cum];
    assert Cells([x]) == map[p := Delta([x])];
    BucketSum([x, y], p, y.cum - x.cum);
    assert Sum(KeptRows([], [x, y])) == 0 by { NothingKept([x, y]); }
  }

  lemma NoGroup(p: (int, int))
    ensures Group([], p) == [] && Cells([]) == map[]
  {
  }

  lemma NothingKept(s: seq<Sample>)
    ensures Sum(KeptRows([], s)) == 0
  {
    hide BucketRows;
    forall b
      ensures b !in KeptRows([], s)
    {
      KeptAt([], s, b);
    }
    SameMap(KeptRows([], s), map[]);
  }

  lemma BucketSum(s: seq<Sample>, p: (int, int), v: int)
    requires Cells(s) == map[p := v]
    ensures Sum(BucketRows(s)) == v
  {
    hide Cells;
    GroupSumTotal(Cells(s), BucketKey);
    SumPick(Cells(s), p);
    assert Cells(s) - {p} == map[];
  }
}
