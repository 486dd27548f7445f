/** Buckets list their contacts in the order they came in, so a full bucket loses its oldest one. */
module RoutingOrder {
  import opened NodeIds
  import opened Routing

  predicate Knows(s: seq<Contact>, id: ID) {
    Find(s, id) < |s|
  }

  /** The call that brought a contact into the table, at a time when it was unknown. */
  function Entered(self: ID, ops: seq<Op>, id: ID): (k: int)
    ensures k < |ops|
  {
    if ops == [] then -1
    else
      var n := |ops| - 1;
      if ops[n].Add? && ops[n].c.id == id && !Knows(After(self, ops[..n])[BucketOf(self, id)], id) then n
      else Entered(self, ops[..n], id)
  }

  ghost predicate InOrder(self: ID, ops: seq<Op>, s: seq<Contact>) {
    forall i, j :: 0 <= i < j < |s| ==> Entered(self, ops, s[i].id) < Entered(self, ops, s[j].id)
  }

  /** A contact that is known keeps the time it came in. */
  lemma EnteredKept(self: ID, ops: seq<Op>, id: ID)
    requires ops != [] && Knows(After(self, ops[..|ops| - 1])[BucketOf(self, id)], id)
    ensures Entered(self, ops, id) == Entered(self, ops[..|ops| - 1], id)
  {
    hide After, BucketOf, Knows;
  }

  lemma EnteredNow(self: ID, ops: seq<Op>, c: Contact)
    requires ops != [] && ops[|ops| - 1] == Op.Add(c)
    requires !Knows(After(self, ops[..|ops| - 1])[BucketOf(self, c.id)], c.id)
    ensures Entered(self, ops, c.id) == |ops| - 1
  {
    hide After, BucketOf, Knows;
  }

  lemma KnowsAt(s: seq<Contact>, i: nat)
    requires i < |s|
    ensures Knows(s, s[i].id)
  {
  }

  /** Its contacts came in before the last call. */
  ghost predicate Earlier(self: ID, ops: seq<Op>, s: seq<Contact>) {
    forall i :: 0 <= i < |s| ==> Entered(self, ops, s[i].id) < |ops| - 1
  }

  /** What a bucket held before the last call is still in order. */
  lemma StillInOrder(self: ID, ops: seq<Op>, n: nat, s: seq<Contact>)
    requires ops != [] && n < ID_BITS && BucketOk(self, n, s) && s == After(self, ops[..|ops| - 1])[n]
    requires InOrder(self, ops[..|ops| - 1], s)
    ensures InOrder(self, ops, s) && Earlier(self, ops, s)
  {
    hide After, BucketOf, Entered, Knows;
    var before := ops[..|ops| - 1];
    forall i | 0 <= i < |s|
      ensures Entered(self, ops, s[i].id) == Entered(self, before, s[i].id)
    {
      assert ContactOk(self, n, s[i]);
      KnowsAt(s, i);
      EnteredKept(self, ops, s[i].id);
    }
  }

  lemma DropInOrder(self: ID, ops: seq<Op>, s: seq<Contact>, i: nat)
    requires InOrder(self, ops, s) && i < |s|
    ensures InOrder(self, ops, Drop(s, i))
  {
    hide Entered;
    var u := Drop(s, i);
    forall j, k | 0 <= j < k < |u|
      ensures Entered(self, ops, u[j].id) < Entered(self, ops, u[k].id)
    {
      assert u[j] == s[if j < i then j else j + 1] && u[k] == s[if k < i then k else k + 1];
    }
  }

  lemma SetInOrder(self: ID, ops: seq<Op>, s: seq<Contact>, i: nat, c: Contact)
    requires InOrder(self, ops, s) && i < |s| && c.id == s[i].id
    ensures InOrder(self, ops, s[i := c])
  {
    hide Entered;
    assert forall k :: 0 <= k < |s| ==> s[i := c][k].id == s[k].id;
  }

  lemma AppendInOrder(self: ID, ops: seq<Op>, s: seq<Contact>, c: Contact)
    requires InOrder(self, ops, s) && forall i :: 0 <= i < |s| ==> Entered(self, ops, s[i].id) < Entered(self, ops, c.id)
    ensures InOrder(self, ops, s + [c])
  {
    hide Entered;
  }

  lemma AddInOrder(self: ID, ops: seq<Op>, s: seq<Contact>, c: Contact)
    requires InOrder(self, ops, s)
    requires !Knows(s, c.id) ==> forall i :: 0 <= i < |s| ==> Entered(self, ops, s[i].id) < Entered(self, ops, c.id)
    ensures InOrder(self, ops, AddTo(s, c))
  {
    hide Entered, InOrder;
    var i := Find(s, c.id);
    if i < |s| {
      SetInOrder(self, ops, s, i, c);
    } else if |s| >= K {
      DropInOrder(self, ops, s, 0);
      assert Drop(s, 0) == s[1..];
      AppendInOrder(self, ops, s[1..], c);
    } else {
      AppendInOrder(self, ops, s, c);
    }
  }

  lemma OtherInOrder(self: ID, ops: seq<Op>, s: seq<Contact>, id: ID)
    requires InOrder(self, ops, s)
    ensures InOrder(self, ops, RemoveFrom(s, id)) && InOrder(self, ops, MarkIn(s, id)) && InOrder(self, ops, ResetIn(s, id))
  {
    hide InOrder, Drop;
    var i := Find(s, id);
    if i < |s| {
      DropInOrder(self, ops, s, i);
      SetInOrder(self, ops, s, i, s[i].(missed := s[i].missed + 1, suspect := true));
      SetInOrder(self, ops, s, i, s[i].(missed := 0, suspect := false));
    }
  }

  lemma AddedInOrder(self: ID, ops: seq<Op>, s: seq<Contact>, c: Contact)
    requires ops != [] && ops[|ops| - 1] == Op.Add(c) && s == After(self, ops[..|ops| - 1])[BucketOf(self, c.id)]
    requires InOrder(self, ops, s) && Earlier(self, ops, s)
    ensures InOrder(self, ops, AddTo(s, c))
  {
    hide After, BucketOf, InOrder, Entered, AddTo, Knows;
    if !Knows(s, c.id) {
      EnteredNow(self, ops, c);
    }
    AddInOrder(self, ops, s, c);
  }

  lemma StepInOrder(self: ID, ops: seq<Op>, n: nat, s: seq<Contact>)
    requires ops != [] && n < ID_BITS && BucketOk(self, n, s) && s == After(self, ops[..|ops| - 1])[n]
    requires InOrder(self, ops[..|ops| - 1], s)
    ensures InOrder(self, ops, Apply(self, After(self, ops[..|ops| - 1]), ops[|ops| - 1])[n])
  {
    hide After, BucketOf, BucketOk, InOrder, Earlier, AddTo, RemoveFrom, MarkIn, ResetIn;
    StillInOrder(self, ops, n, s);
    var op := ops[|ops| - 1];
    if BucketOf(self, op.Id()) == n {
      if op.Add? {
        AddedInOrder(self, ops, s, op.c);
      } else {
        OtherInOrder(self, ops, s, op.Id());
      }
    }
  }

  /** In every run, every bucket lists its contacts in the order in which they came in. */
  lemma {:induction false} BucketsInOrder(self: ID, ops: seq<Op>, n: nat)
    requires FreshAdds(ops) && n < ID_BITS
    ensures InOrder(self, ops, After(self, ops)[n])
  {
    hide Apply, TableOk, Entered;
    if ops == [] {
      assert After(self, ops)[n] == [];
    } else {
      BucketsInOrder(self, ops[..|ops| - 1], n);
      RunKeeps(self, ops[..|ops| - 1]);
      hide InOrder, BucketOk;
      BucketIsOk(self, After(self, ops[..|ops| - 1]), n);
      StepInOrder(self, ops, n, After(self, ops[..|ops| - 1])[n]);
    }
  }

  lemma BucketIsOk(self: ID, t: Table, n: nat)
    requires TableOk(self, t) && n < ID_BITS
    ensures BucketOk(self, n, t[n])
  {
  }

  /** A contact that an Add makes the table forget came in before all others of its bucket. */
  lemma OldestIsForgotten(self: ID, ops: seq<Op>, c: Contact, n: nat, i: nat, j: nat)
    requires FreshAdds(ops) && n < ID_BITS && c.id != self
    requires i < |After(self, ops)[n]| && j < |After(self, ops)[n]| && After(self, ops)[n][i].id != c.id
    requires !Knows(Apply(self, After(self, ops), Add(c))[n], After(self, ops)[n][i].id)
    ensures |After(self, ops)[n]| == 8
    ensures Entered(self, ops, After(self, ops)[n][i].id) <= Entered(self, ops, After(self, ops)[n][j].id)
  {
    hide After, BucketOf, Entered, Knows;
    BucketsInOrder(self, ops, n);
    RunKeeps(self, ops);
    var s := After(self, ops)[n];
    assert BucketOk(self, n, s);
    KnowsAt(s, i);
    if i > 0 || |s| < 8 {
      StaysKnown(s, c, i);
    }
  }

  lemma StaysKnown(s: seq<Contact>, c: Contact, i: nat)
    requires i < |s| && (i > 0 || |s| < 8)
    ensures Knows(AddTo(s, c), s[i].id)
  {
    var u := AddTo(s, c);
    var k := if Find(s, c.id) == |s| && |s| >= K then i - 1 else i;
    assert u[k].id == s[i].id;
    hide AddTo;
    KnowsAt(u, k);
  }
}
