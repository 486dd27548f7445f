/** When the contacts that RoutingTable.Closest returns are the nearest ones by full distance. */
module Nearest {
  import opened Bytes
  import opened NodeIds
  import opened Routing
  import opened Closest

  /** Every returned contact is closer to the target than every omitted one. */
  ghost predicate HoldsNearest(p: seq<Contact>, target: ID, n: nat) {
    forall c, o :: c in Trim(p, n) && o in Omitted(p, n) ==> Closer(c.id, o.id, target)
  }

  /** The cut after `n` contacts does not separate two that tie in the leading 64 bits. */
  ghost predicate CutIsClear(p: seq<Contact>, target: ID, n: nat) {
    n == 0 || n >= |p| || Dist(p[n - 1], target) < Dist(p[n], target)
  }

  /** The same, on the identifiers. */
  predicate CutSplitsNoPrefix(p: seq<Contact>, n: nat) {
    n == 0 || n >= |p| || p[n - 1].id[..8] != p[n].id[..8]
  }

  lemma CutOnIdentifiers(p: seq<Contact>, target: ID, n: nat)
    requires Sorted(p, target)
    ensures CutIsClear(p, target, n) <==> CutSplitsNoPrefix(p, n)
  {
    hide Distance64;
    if 0 < n < |p| {
      TieExactly(p[n - 1].id, p[n].id, target);
    }
  }

  lemma SubMultiset(a: multiset<Contact>, b: multiset<Contact>)
    requires a <= b
    ensures |a| <= |b|
  {
    assert b == a + (b - a);
  }

  /** Contacts of `p` that lie on one side of a distance fit among those of `q` on that side. */
  lemma FitsAmong(a: seq<Contact>, a1: seq<Contact>, b: seq<Contact>, b1: seq<Contact>, target: ID, d: int, near: bool)
    requires multiset(a + a1) == multiset(b + b1)
    requires forall c :: c in a ==> (Dist(c, target) < d) == near
    requires forall c :: c in b1 ==> (Dist(c, target) < d) != near
    ensures |a| <= |b|
  {
    hide Dist;
    forall c
      ensures multiset(a)[c] <= multiset(b)[c]
    {
      if c in a {
        assert c !in b1;
        assert multiset(a + a1)[c] == multiset(a)[c] + multiset(a1)[c];
        assert multiset(b + b1)[c] == multiset(b)[c] + multiset(b1)[c];
      } else {
        assert multiset(a)[c] == 0;
      }
    }
    SubMultiset(multiset(a), multiset(b));
  }

  lemma SidesOf(p: seq<Contact>, target: ID, n: nat, d: int)
    requires Sorted(p, target) && n < |p|
    ensures Dist(p[n], target) < d ==> forall c :: c in p[..n + 1] ==> Dist(c, target) < d
    ensures Dist(p[n], target) >= d ==> forall c :: c in p[n..] ==> Dist(c, target) >= d
  {
    hide Dist;
  }

  /** If `q` has only `n` contacts nearer than `d`, so has every other sort result. */
  lemma NotMoreNear(p: seq<Contact>, q: seq<Contact>, target: ID, n: nat, d: int)
    requires multiset(p) == multiset(q) && Sorted(p, target) && n < |p| && n <= |q|
    requires forall c :: c in q[n..] ==> Dist(c, target) >= d
    ensures Dist(p[n], target) >= d
  {
    hide Dist, Sorted;
    if Dist(p[n], target) < d {
      SidesOf(p, target, n, d);
      assert p == p[..n + 1] + p[n + 1..] && q == q[..n] + q[n..];
      FitsAmong(p[..n + 1], p[n + 1..], q[..n], q[n..], target, d, true);
      assert false;
    }
  }

  /** If `q` has `n` contacts nearer than `d`, so has every other sort result. */
  lemma NotMoreFar(p: seq<Contact>, q: seq<Contact>, target: ID, n: nat, d: int)
    requires multiset(p) == multiset(q) && Sorted(p, target) && 0 < n <= |p| == |q|
    requires forall c :: c in q[..n] ==> Dist(c, target) < d
    ensures Dist(p[n - 1], target) < d
  {
    hide Dist, Sorted;
    if Dist(p[n - 1], target) >= d {
      SidesOf(p, target, n - 1, d);
      SwapParts(p, n - 1);
      SwapParts(q, n);
      FitsAmong(p[n - 1..], p[..n - 1], q[n..], q[..n], target, d, false);
      assert false;
    }
  }

  /** Any two sort results have a clear cut at the same places. */
  lemma CutMoves(p: seq<Contact>, q: seq<Contact>, target: ID, n: nat)
    requires multiset(p) == multiset(q) && Sorted(p, target) && Sorted(q, target)
    requires 0 < n < |q| && Dist(q[n - 1], target) < Dist(q[n], target)
    ensures |p| == |q| && Dist(p[n - 1], target) < Dist(p[n], target)
  {
    hide Dist, Sorted;
    var d := Dist(q[n], target);
    assert |multiset(p)| == |multiset(q)|;
    SidesOf(q, target, n - 1, d);
    SidesOf(q, target, n, d);
    assert q[..n - 1 + 1] == q[..n];
    NotMoreNear(p, q, target, n, d);
    NotMoreFar(p, q, target, n, d);
  }

  lemma SwapParts(p: seq<Contact>, n: nat)
    requires n <= |p|
    ensures multiset(p[n..] + p[..n]) == multiset(p)
  {
    assert p == p[..n] + p[n..];
  }

  lemma ClearCutHolds(p: seq<Contact>, target: ID, n: nat)
    requires Sorted(p, target) && CutIsClear(p, target, n)
    ensures HoldsNearest(p, target, n)
  {
    hide Distance64, Closer, Trim, Omitted, CutIsClear, Sorted;
    forall c, o | c in Trim(p, n) && o in Omitted(p, n)
      ensures Closer(c.id, o.id, target)
    {
      AcrossCut(p, target, n, c, o);
      Distance64Closer(c.id, o.id, target);
    }
  }

  lemma AcrossCut(p: seq<Contact>, target: ID, n: nat, c: Contact, o: Contact)
    requires Sorted(p, target) && CutIsClear(p, target, n) && c in Trim(p, n) && o in Omitted(p, n)
    ensures Dist(c, target) < Dist(o, target)
  {
    hide Dist;
    var i :| 0 <= i < |Trim(p, n)| && Trim(p, n)[i] == c;
    var j :| 0 <= j < |Omitted(p, n)| && Omitted(p, n)[j] == o;
    assert p[i] == c && p[n + j] == o;
    assert i < n - 1 ==> Dist(p[i], target) <= Dist(p[n - 1], target);
    assert j > 0 ==> Dist(p[n], target) <= Dist(p[n + j], target);
  }

  /** Otherwise some sort result puts the farther of two tied contacts in and the nearer one out. */
  lemma TiedCutFails(p: seq<Contact>, target: ID, n: nat)
    requires Sorted(p, target) && DistinctIds(p) && !CutIsClear(p, target, n)
    ensures exists q :: SortOf(q, p, target) && !HoldsNearest(q, target, n)
  {
    hide Dist, Closer, SortOf;
    var a, b := p[n - 1], p[n];
    var q := TieSwaps(p, n - 1, target);
    CloserIsStrictTotalOrder(a.id, b.id, a.id, target);
    assert Trim(p, n)[n - 1] == a && Omitted(p, n)[0] == b;
    assert Trim(q, n)[n - 1] == b && Omitted(q, n)[0] == a;
    SortOfSelf(p, target);
    if Closer(a.id, b.id, target) {
      assert !HoldsNearest(q, target, n);
    } else {
      assert !HoldsNearest(p, target, n);
    }
  }

  /**
   Whatever the library's sort does with ties, the `n` contacts returned are the nearest
   ones by full distance if and only if the cut after `n` contacts separates no two whose
   identifiers share their first eight bytes.
   */
  lemma NearestExactly(all: seq<Contact>, target: ID, n: nat)
    requires DistinctIds(all)
    ensures (forall p :: SortOf(p, all, target) ==> HoldsNearest(p, target, n))
            <==> CutSplitsNoPrefix(Sort(all, target), n)
  {
    hide Dist, HoldsNearest, Sort, CutIsClear, CutSplitsNoPrefix;
    NearestWithoutTies(all, target, n);
    SortSorts(all, target);
    CutOnIdentifiers(Sort(all, target), target, n);
  }

  lemma NearestWithoutTies(all: seq<Contact>, target: ID, n: nat)
    requires DistinctIds(all)
    ensures (forall p :: SortOf(p, all, target) ==> HoldsNearest(p, target, n))
            <==> CutIsClear(Sort(all, target), target, n)
  {
    hide Dist, HoldsNearest, Sort;
    var q := Sort(all, target);
    SortSorts(all, target);
    if CutIsClear(q, target, n) {
      forall p | SortOf(p, all, target)
        ensures HoldsNearest(p, target, n)
      {
        assert |multiset(p)| == |multiset(q)|;
        if 0 < n < |q| {
          CutMoves(p, q, target, n);
        }
        ClearCutHolds(p, target, n);
      }
    } else {
      DistinctPermutes(q, all);
      TiedCutFails(q, target, n);
      var p :| SortOf(p, q, target) && !HoldsNearest(p, target, n);
      assert SortOf(p, all, target);
    }
  }

  // ---- A run in which the farther contact may be returned -----------------------------------

  /** What two calls of Add leave in the table. */
  lemma TwoAdded(self: ID, a: Contact, b: Contact, c: Contact)
    requires a.id != self && b.id != self && a.id != b.id
    ensures (exists i :: 0 <= i < ID_BITS && c in After(self, [Add(a), Add(b)])[i]) <==> c == a || c == b
  {
    AfterNothing(self);
    hide BucketOf, Apply, After, AddTo;
    var i, j := BucketOf(self, a.id), BucketOf(self, b.id);
    var t0, t1, t2 := After(self, []), After(self, [Add(a)]), After(self, [Add(a), Add(b)]);
    AfterSnoc(self, [], Add(a));
    AfterSnoc(self, [Add(a)], Add(b));
    assert [] + [Add(a)] == [Add(a)] && [Add(a)] + [Add(b)] == [Add(a), Add(b)];
    AddOne(self, t0, a);
    AddOne(self, t1, b);
    AddToShort(t0[i], a);
    AddToShort(t1[j], b);
    if c == a {
      assert c in t2[i];
    }
    if c == b {
      assert c in t2[j];
    }
  }

  lemma AfterNothing(self: ID)
    ensures forall i :: 0 <= i < ID_BITS ==> After(self, [])[i] == []
  {
  }

  lemma AfterSnoc(self: ID, ops: seq<Op>, op: Op)
    ensures After(self, ops + [op]) == Apply(self, After(self, ops), op)
  {
    hide Apply;
    assert (ops + [op])[..|ops|] == ops;
  }

  lemma AddOne(self: ID, t: Table, c: Contact)
    requires c.id != self
    ensures var n := BucketOf(self, c.id);
            forall i :: 0 <= i < ID_BITS ==> Apply(self, t, Add(c))[i] == if i == n then AddTo(t[n], c) else t[i]
  {
    hide BucketOf, AddTo;
  }

  lemma AddToShort(s: seq<Contact>, c: Contact)
    requires |s| < 2 && (s != [] ==> s[0].id != c.id)
    ensures AddTo(s, c) == s + [c]
  {
    assert s != [] ==> Find(s[..0], c.id) == 0;
  }

  lemma ThirdOne(s: seq<Contact>, a: Contact, b: Contact)
    requires DistinctIds(s) && |s| > 2
    ensures exists c :: c in s && c != a && c != b
  {
    assert s[0] in s && s[1] in s && s[2] in s;
    assert s[0].id != s[1].id && s[0].id != s[2].id && s[1].id != s[2].id;
  }

  lemma TwoGathered(s: seq<Contact>, a: Contact, b: Contact)
    requires DistinctIds(s) && a.id != b.id && forall c :: c in s <==> c == a || c == b
    ensures |s| == 2
  {
    assert a in s && b in s;
    if |s| > 2 {
      ThirdOne(s, a, b);
      assert false;
    }
  }

  /** What Closest gathers after two calls of Add. */
  lemma GatheredTwo(self: ID, a: Contact, b: Contact, c: Contact)
    requires a.id != self && b.id != self && a.id != b.id && !a.suspect && !b.suspect
    ensures c in Gathered(After(self, [Add(a), Add(b)])) <==> c == a || c == b
  {
    hide Gathered, After;
    var t := After(self, [Add(a), Add(b)]);
    assert |t| == ID_BITS;
    GatheredExactly(t, c);
    TwoAdded(self, a, b, c);
    if c in Gathered(t) {
      var i :| 0 <= i < |t| && c in t[i];
      assert 0 <= i < ID_BITS && c in t[i];
    }
    if c == a || c == b {
      var i :| 0 <= i < ID_BITS && c in t[i];
      assert 0 <= i < |t| && c in t[i];
    }
  }

  /**
   After two calls of Add with identifiers that share their first eight bytes, Closest for
   one contact may return the farther of the two, whatever the target.
   */
  lemma FartherMayBeReturned(self: ID, a: Contact, b: Contact, target: ID)
    requires a.id != self && b.id != self && a.id != b.id && a.id[..8] == b.id[..8]
    requires a.missed == b.missed == 0 && !a.suspect && !b.suspect
    ensures exists p :: SortOf(p, Gathered(After(self, [Add(a), Add(b)])), target) && !HoldsNearest(p, target, 1)
  {
    hide Gathered, After, Closer, HoldsNearest, Sort, Distance64;
    var ops := [Add(a), Add(b)];
    var t := After(self, ops);
    var all := Gathered(t);
    forall c
      ensures c in all <==> c == a || c == b
    {
      GatheredTwo(self, a, b, c);
    }
    RunGathersDistinct(self, ops);
    TwoGathered(all, a, b);
    SortSorts(all, target);
    var q := Sort(all, target);
    assert |multiset(q)| == |multiset(all)|;
    assert q[0] in multiset(q) && q[1] in multiset(q);
    assert q[0] in all && q[1] in all;
    NearestExactly(all, target, 1);
    assert !CutSplitsNoPrefix(q, 1);
  }

  lemma NothingBelowZero(s: seq<byte>, t: seq<byte>)
    requires |s| == |t| && forall i :: 0 <= i < |t| ==> t[i] == 0
    ensures !LexLess(s, t)
    decreases |s|
  {
    hide Val;
    if s != [] && s[0] == t[0] {
      NothingBelowZero(s[1..], t[1..]);
    } else if s != [] {
      ZeroIsLeast(s[0]);
    }
  }

  lemma ZeroIsLeast(b: byte)
    ensures Val(b) >= Val(0)
  {
    assert Val(0) == 0;
  }

  /** No identifier is closer to a target than the target itself. */
  lemma SelfIsNearest(x: ID, y: ID)
    requires x != y
    ensures Closer(y, x, y)
  {
    assert !Closer(x, y, y) by {
      hide XorByte, LexLess;
      forall i | 0 <= i < ID_BYTES
        ensures Xor(y, y)[i] == 0
      {
        XorByteFacts(y[i], y[i], y[i]);
      }
      NothingBelowZero(Xor(x, y), Xor(y, y));
    }
    hide Closer;
    CloserIsStrictTotalOrder(x, y, x, y);
  }

  /** Two tied contacts keep their order. */
  lemma TiedPairKept(x: Contact, y: Contact, target: ID)
    requires Dist(x, target) == Dist(y, target)
    ensures Sort([x, y], target) == [x, y]
  {
    hide Dist;
    assert [x, y][..1] == [x] && [x][..0] == [];
    assert Sort([x], target) == [x];
  }

  lemma PairInOrder(s: seq<Contact>, a: Contact, b: Contact)
    requires |s| == 2 && DistinctIds(s) && forall c :: c in s ==> c == a || c == b
    ensures s == [a, b] || s == [b, a]
  {
    assert s[0] in s && s[1] in s;
  }

  /**
   A certain wrong answer of the modelled sort, which keeps tied contacts in the order they
   were gathered: asked for the one contact nearest to the identifier of `y`, which is in
   the table, Closest returns `x`.
   */
  lemma WrongContactReturned(self: ID, a: Contact, b: Contact) returns (x: Contact, y: Contact)
    requires a.id != self && b.id != self && a.id != b.id && a.id[..8] == b.id[..8]
    requires a.missed == b.missed == 0 && !a.suspect && !b.suspect
    ensures (x == a && y == b) || (x == b && y == a)
    ensures Trim(Sort(Gathered(After(self, [Add(a), Add(b)])), y.id), 1) == [x]
    ensures Closer(y.id, x.id, y.id)
  {
    hide Gathered, After, Closer, Sort, Distance64;
    var ops := [Add(a), Add(b)];
    var all := Gathered(After(self, ops));
    forall c
      ensures c in all <==> c == a || c == b
    {
      GatheredTwo(self, a, b, c);
    }
    RunGathersDistinct(self, ops);
    TwoGathered(all, a, b);
    PairInOrder(all, a, b);
    x, y := all[0], all[1];
    assert all == [x, y];
    TieExactly(x.id, y.id, y.id);
    TiedPairKept(x, y, y.id);
    SelfIsNearest(x.id, y.id);
  }

  /** Two such contacts exist: their identifiers differ in the last byte only. */
  lemma SuchContactsExist() returns (self: ID, a: Contact, b: Contact)
    ensures a.id != self && b.id != self && a.id != b.id && a.id[..8] == b.id[..8]
    ensures a.missed == b.missed == 0 && !a.suspect && !b.suspect
  {
    self := seq(ID_BYTES, i => 0);
    var one, two := self[31 := 1], self[31 := 2];
    assert self[31] == 0 && one[31] == 1 && two[31] == 2;
    assert one[..8] == self[..8] == two[..8];
    a, b := Contact(one, "", 0, 0, false), Contact(two, "", 0, 0, false);
  }
}
