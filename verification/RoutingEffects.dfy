/** What each routing-table call does to each contact. */
module RoutingEffects {
  import opened Common
  import opened NodeIds
  import opened Routing

  function Lookup(s: seq<Contact>, id: ID): Option<Contact> {
    var i := Find(s, id);
    if i < |s| then Some(s[i]) else None
  }

  /** The contact an Add pushes out: the oldest of a full bucket, if the newcomer is unknown. */
  predicate PushedOut(s: seq<Contact>, c: Contact, id: ID) {
    |s| >= 8 && Find(s, c.id) == |s| && s[0].id == id
  }

  lemma AppendLookup(s: seq<Contact>, c: Contact, id: ID)
    requires Find(s, c.id) == |s|
    ensures Lookup(s + [c], id) == if c.id == id then Some(c) else Lookup(s, id)
  {
    hide Find;
    var j := Find(s, id);
    FindUnique(s + [c], id, if j == |s| && c.id != id then |s| + 1 else j);
  }

  lemma DropLookup(s: seq<Contact>, i: nat, id: ID)
    requires DistinctIds(s) && i < |s|
    ensures Lookup(Drop(s, i), id) == if s[i].id == id then None else Lookup(s, id)
  {
    hide Find;
    var u, j := Drop(s, i), Find(s, id);
    assert forall k :: 0 <= k < |u| ==> u[k] == if k < i then s[k] else s[k + 1];
    if j == |s| || j == i {
      FindUnique(u, id, |u|);
    } else {
      FindUnique(u, id, if j < i then j else j - 1);
    }
  }

  lemma UpdateLookup(s: seq<Contact>, i: nat, c: Contact, id: ID)
    requires i == Find(s, c.id) < |s|
    ensures Lookup(s[i := c], id) == if c.id == id then Some(c) else Lookup(s, id)
  {
    hide Find;
    FindUnique(s[i := c], id, Find(s, id));
  }

  lemma AddLookup(s: seq<Contact>, c: Contact, id: ID)
    requires DistinctIds(s)
    ensures Lookup(AddTo(s, c), id) ==
            if c.id == id then Some(c) else if PushedOut(s, c, id) then None else Lookup(s, id)
  {
    hide Find, Lookup;
    var i := Find(s, c.id);
    if i < |s| {
      UpdateLookup(s, i, c, id);
    } else if |s| < K {
      AppendLookup(s, c, id);
    } else {
      assert Drop(s, 0) == s[1..];
      DropLookup(s, 0, id);
      FindUnique(s[1..], c.id, |s| - 1);
      AppendLookup(s[1..], c, id);
    }
  }

  lemma RemoveLookup(s: seq<Contact>, x: ID, id: ID)
    requires DistinctIds(s)
    ensures Lookup(RemoveFrom(s, x), id) == if x == id then None else Lookup(s, id)
  {
    hide Find, Drop;
    var i := Find(s, x);
    if i < |s| {
      DropLookup(s, i, id);
    }
  }

  lemma MarkLookup(s: seq<Contact>, x: ID, id: ID)
    requires DistinctIds(s)
    ensures Lookup(MarkIn(s, x), id) ==
            var was := Lookup(s, id);
            if x != id || was.None? then was
            else if was.value.missed + 1 >= 4 then None
            else Some(was.value.(missed := was.value.missed + 1, suspect := true))
  {
    var i := Find(s, x);
    assert Lookup(s, x) == if i < |s| then Some(s[i]) else None;
    hide Find, Drop, Lookup;
    if i == |s| {
    } else if s[i].missed + 1 >= MAX_MISSED_PINGS {
      DropLookup(s, i, id);
    } else {
      UpdateLookup(s, i, s[i].(missed := s[i].missed + 1, suspect := true), id);
    }
  }

  lemma ResetLookup(s: seq<Contact>, x: ID, id: ID)
    ensures Lookup(ResetIn(s, x), id) ==
            var was := Lookup(s, id);
            if x != id || was.None? then was else Some(was.value.(missed := 0, suspect := false))
  {
    hide Find;
    var i := Find(s, x);
    if i < |s| {
      UpdateLookup(s, i, s[i].(missed := 0, suspect := false), id);
    }
  }

  /** What the table knows about an identifier. */
  function Known(self: ID, t: Table, id: ID): Option<Contact> {
    Lookup(t[BucketOf(self, id)], id)
  }

  /** What the table should know about `id` after a call, given what it knew before. */
  function Expected(self: ID, t: Table, op: Op, id: ID): Option<Contact> {
    var was := Known(self, t, id);
    match op
    case Add(c) =>
      if c.id == self then was
      else if c.id == id then Some(c)
      else if BucketOf(self, c.id) == BucketOf(self, id) && PushedOut(t[BucketOf(self, id)], c, id) then None
      else was
    case Remove(x) => if x == id then None else was
    case MarkMissed(x) =>
      if x != id || was.None? then was
      else if was.value.missed + 1 >= 4 then None
      else Some(was.value.(missed := was.value.missed + 1, suspect := true))
    case ResetMissed(x) =>
      if x != id || was.None? then was else Some(was.value.(missed := 0, suspect := false))
  }

  /** Each call changes what is known about its own contact, and forgets another only by pushing it out. */
  lemma CallEffect(self: ID, t: Table, op: Op, id: ID)
    requires TableOk(self, t)
    ensures Known(self, Apply(self, t, op), id) == Expected(self, t, op, id)
  {
    hide BucketOf, Lookup, AddTo, RemoveFrom, MarkIn, ResetIn, PushedOut;
    var s := t[BucketOf(self, id)];
    assert DistinctIds(s) by { assert BucketOk(self, BucketOf(self, id), s); }
    match op
    case Add(c) => AddLookup(s, c, id);
    case Remove(x) => RemoveLookup(s, x, id);
    case MarkMissed(x) => MarkLookup(s, x, id);
    case ResetMissed(x) => ResetLookup(s, x, id);
  }
}
