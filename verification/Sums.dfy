/** Sums over finite maps, and their independence of grouping. */
module Sums {
  ghost function Sum<X>(m: map<X, int>): int {
    if m == map[] then 0
    else
      var x :| x in m;
      m[x] + Sum(m - {x})
  }

  lemma {:induction false} SumPick<X>(m: map<X, int>, x: X)
    requires x in m
    ensures Sum(m) == m[x] + Sum(m - {x})
    decreases |m|
  {
    assert m != map[];
    var y :| y in m && Sum(m) == m[y] + Sum(m - {y});
    if y != x {
      assert m.Keys - {y} < m.Keys && m.Keys - {x} < m.Keys;
      SumPick(m - {y}, x);
      SumPick(m - {x}, y);
      assert m - {y} - {x} == m - {x} - {y};
    }
  }

  lemma SumSet<X>(m: map<X, int>, x: X, v: int)
    ensures Sum(m[x := v]) == Sum(m) + v - if x in m then m[x] else 0
  {
    SumPick(m[x := v], x);
    assert m[x := v] - {x} == m - {x};
    if x in m {
      SumPick(m, x);
    } else {
      assert m - {x} == m;
    }
  }

  /** The entries whose key falls into group `g`. */
  ghost function Where<X, G>(m: map<X, int>, key: X -> G, g: G): map<X, int> {
    map x | x in m && key(x) == g :: m[x]
  }

  /** GROUP BY with SUM. */
  ghost function GroupSum<X, G>(m: map<X, int>, key: X -> G): map<G, int> {
    map g | g in (set x | x in m :: key(x)) :: Sum(Where(m, key, g))
  }

  lemma GroupSumStep<X, G>(m: map<X, int>, key: X -> G, x: X)
    requires x in m
    ensures GroupSum(m, key) == GroupSum(m - {x}, key)[key(x) := Sum(Where(m, key, key(x)))]
  {
    hide Sum;
    var rest, g := m - {x}, key(x);
    var whole, part := GroupSum(m, key), GroupSum(rest, key);
    forall h | h != g
      ensures Where(m, key, h) == Where(rest, key, h)
      ensures h in whole <==> h in part
    {
      if y :| y in m && key(y) == h {
        assert y in rest;
      }
    }
    assert g in whole;
    var next := part[g := Sum(Where(m, key, g))];
    assert whole.Keys == next.Keys;
    forall h | h in whole
      ensures whole[h] == next[h]
    {
      assert whole[h] == Sum(Where(m, key, h));
      if h != g {
        assert part[h] == Sum(Where(rest, key, h));
      }
    }
  }

  /** Grouping loses nothing. */
  lemma {:induction false} GroupSumTotal<X, G>(m: map<X, int>, key: X -> G)
    ensures Sum(GroupSum(m, key)) == Sum(m)
    decreases |m|
  {
    if m == map[] {
      assert GroupSum(m, key) == map[];
    } else {
      var x :| x in m;
      var rest, g := m - {x}, key(x);
      assert rest.Keys < m.Keys;
      GroupSumTotal(rest, key);
      GroupSumStep(m, key, x);
      SumPick(m, x);
      SumPick(Where(m, key, g), x);
      assert Where(m, key, g) - {x} == Where(rest, key, g);
      var part := GroupSum(rest, key);
      SumSet(part, g, Sum(Where(m, key, g)));
      if g !in part {
        assert Where(rest, key, g) == map[];
      }
    }
  }

  lemma SameMap<X, Y>(a: map<X, Y>, b: map<X, Y>)
    requires forall x :: x in a <==> x in b
    requires forall x :: x in a ==> a[x] == b[x]
    ensures a == b
  {
    assert a.Keys == b.Keys;
  }

  /** The entry of `x`, zero if there is none. */
  function At<X(==)>(m: map<X, int>, x: X): int {
    if x in m then m[x] else 0
  }

  lemma SumWithout<X>(m: map<X, int>, x: X)
    ensures Sum(m) == At(m, x) + Sum(m - {x})
  {
    if x in m {
      SumPick(m, x);
    } else {
      assert m - {x} == m;
    }
  }

  /** Entrywise smaller maps have smaller sums, and equal sums only if all entries agree. */
  lemma {:induction false} SumAtMost<X>(a: map<X, int>, b: map<X, int>)
    requires forall x :: x in a || x in b ==> At(a, x) <= At(b, x)
    ensures Sum(a) <= Sum(b)
    ensures Sum(a) == Sum(b) <==> forall x :: x in a || x in b ==> At(a, x) == At(b, x)
    decreases |a| + |b|
  {
    if a == map[] && b == map[] {
    } else {
      hide Sum, At;
      var x :| x in a || x in b;
      var c, d := a - {x}, b - {x};
      Shrinks(a, x);
      Shrinks(b, x);
      SumWithout(a, x);
      SumWithout(b, x);
      forall y
        ensures y != x ==> At(c, y) == At(a, y) && At(d, y) == At(b, y)
      {
        AtWithout(a, x, y);
        AtWithout(b, x, y);
      }
      SumAtMost(c, d);
    }
  }

  lemma AtWithout<X>(m: map<X, int>, x: X, y: X)
    ensures y != x ==> At(m - {x}, y) == At(m, y)
  {
  }

  lemma Shrinks<X>(m: map<X, int>, x: X)
    ensures |m - {x}| <= |m|
    ensures x in m ==> |m - {x}| < |m|
  {
    if x in m {
      assert (m - {x}).Keys == m.Keys - {x};
    } else {
      assert m - {x} == m;
    }
  }

  /** Sums add up entry by entry. */
  lemma {:induction false} SumPlus<X>(a: map<X, int>, b: map<X, int>, c: map<X, int>)
    requires a.Keys == b.Keys == c.Keys && forall x :: x in c ==> c[x] == a[x] + b[x]
    ensures Sum(c) == Sum(a) + Sum(b)
    decreases |c|
  {
    if c != map[] {
      var x :| x in c;
      Shrinks(c, x);
      SumWithout(a, x);
      SumWithout(b, x);
      SumWithout(c, x);
      SumPlus(a - {x}, b - {x}, c - {x});
    } else {
      assert a == map[] && b == map[];
    }
  }

  lemma {:induction false} SumZero<X>(m: map<X, int>)
    requires forall x :: x in m ==> m[x] >= 0
    ensures Sum(m) >= 0
    ensures Sum(m) == 0 <==> forall x :: x in m ==> m[x] == 0
    decreases |m|
  {
    if m != map[] {
      var x :| x in m;
      assert m.Keys - {x} < m.Keys;
      SumZero(m - {x});
      SumPick(m, x);
      assert forall y :: y in m ==> y == x || (y in m - {x} && (m - {x})[y] == m[y]);
    }
  }
}
