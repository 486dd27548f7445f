/** The Kademlia routing table: buckets of contacts and the operations that update them. */
module Routing {
  import opened NodeIds

  const K := 8
  const MAX_MISSED_PINGS := 4

  datatype Contact = Contact(id: ID, addr: string, lastSeen: int, missed: nat, suspect: bool)

  // ---- One bucket, on values -----------------------------------------------------

  /** The first contact with this identifier, or the length of the bucket. */
  function Find(s: seq<Contact>, id: ID): (i: nat)
    ensures i <= |s| && (i < |s| ==> s[i].id == id)
    ensures forall k :: 0 <= k < i ==> s[k].id != id
  {
    if s == [] then 0
    else
      var n := |s| - 1;
      var i := Find(s[..n], id);
      if i < n then i else if s[n].id == id then n else n + 1
  }

  function Drop(s: seq<Contact>, i: nat): seq<Contact>
    requires i < |s|
  {
    s[..i] + s[i + 1..]
  }

  function AddTo(s: seq<Contact>, c: Contact): seq<Contact> {
    var i := Find(s, c.id);
    if i < |s| then s[i := c]
    else (if |s| >= K then s[1..] else s) + [c]
  }

  function RemoveFrom(s: seq<Contact>, id: ID): seq<Contact> {
    var i := Find(s, id);
    if i < |s| then Drop(s, i) else s
  }

  function MarkIn(s: seq<Contact>, id: ID): seq<Contact> {
    var i := Find(s, id);
    if i == |s| then s
    else if s[i].missed + 1 >= MAX_MISSED_PINGS then Drop(s, i)
    else s[i := s[i].(missed := s[i].missed + 1, suspect := true)]
  }

  function ResetIn(s: seq<Contact>, id: ID): seq<Contact> {
    var i := Find(s, id);
    if i == |s| then s else s[i := s[i].(missed := 0, suspect := false)]
  }

  lemma FindUnique(s: seq<Contact>, id: ID, i: nat)
    requires i <= |s| && (i < |s| ==> s[i].id == id) && forall k :: 0 <= k < i ==> s[k].id != id
    ensures Find(s, id) == i
  {
  }

  // ---- The code ---------------------------------------------------------------------

  class Bucket {
    var contacts: seq<Contact>

    constructor ()
      ensures contacts == []
    {
      contacts := [];
    }

    method Add(c: Contact)
      modifies this
      ensures contacts == AddTo(old(contacts), c)
    {
      for i := 0 to |contacts|
        invariant contacts == old(contacts)
        invariant forall k :: 0 <= k < i ==> contacts[k].id != c.id
      {
        if contacts[i].id == c.id {
          FindUnique(contacts, c.id, i);
          contacts := contacts[i := c];
          return;
        }
      }
      FindUnique(contacts, c.id, |contacts|);
      if |contacts| >= K {
        contacts := contacts[1..];
      }
      contacts := contacts + [c];
    }

    method Remove(id: ID)
      modifies this
      ensures contacts == RemoveFrom(old(contacts), id)
    {
      for i := 0 to |contacts|
        invariant contacts == old(contacts)
        invariant forall k :: 0 <= k < i ==> contacts[k].id != id
      {
        if contacts[i].id == id {
          FindUnique(contacts, id, i);
          contacts := contacts[..i] + contacts[i + 1..];
          return;
        }
      }
      FindUnique(contacts, id, |contacts|);
    }

    method MarkMissed(id: ID)
      modifies this
      ensures contacts == MarkIn(old(contacts), id)
    {
      for i := 0 to |contacts|
        invariant contacts == old(contacts)
        invariant forall k :: 0 <= k < i ==> contacts[k].id != id
      {
        if contacts[i].id == id {
          FindUnique(contacts, id, i);
          var c := contacts[i];
          contacts := contacts[i := c.(missed := c.missed + 1, suspect := true)];
          if contacts[i].missed >= MAX_MISSED_PINGS {
            contacts := contacts[..i] + contacts[i + 1..];
            assert contacts == Drop(old(contacts), i);
          }
          return;
        }
      }
      FindUnique(contacts, id, |contacts|);
    }

    method ResetMissed(id: ID)
      modifies this
      ensures contacts == ResetIn(old(contacts), id)
    {
      for i := 0 to |contacts|
        invariant contacts == old(contacts)
        invariant forall k :: 0 <= k < i ==> contacts[k].id != id
      {
        if contacts[i].id == id {
          FindUnique(contacts, id, i);
          contacts := contacts[i := contacts[i].(missed := 0, suspect := false)];
          return;
        }
      }
      FindUnique(contacts, id, |contacts|);
    }
  }

  type Table = t: seq<seq<Contact>> | |t| == ID_BITS witness seq(ID_BITS, i => [])

  datatype Op =
    | Add(c: Contact)
    | Remove(id: ID)
    | MarkMissed(id: ID)
    | ResetMissed(id: ID)
  {
    /** The contact the call is about. */
    function Id(): ID {
      match this
      case Add(c) => c.id
      case Remove(id) => id
      case MarkMissed(id) => id
      case ResetMissed(id) => id
    }
  }

  function BucketOf(self: ID, id: ID): (n: nat)
    ensures n < ID_BITS
  {
    BucketIndex(Xor(self, id))
  }

  /** The effect of one RoutingTable call. */
  function Apply(self: ID, t: Table, op: Op): Table {
    match op
    case Add(c) =>
      if c.id == self then t else var n := BucketOf(self, c.id); t[n := AddTo(t[n], c)]
    case Remove(id) => var n := BucketOf(self, id); t[n := RemoveFrom(t[n], id)]
    case MarkMissed(id) => var n := BucketOf(self, id); t[n := MarkIn(t[n], id)]
    case ResetMissed(id) => var n := BucketOf(self, id); t[n := ResetIn(t[n], id)]
  }

  class RoutingTable {
    const self: ID
    const buckets: seq<Bucket>

    ghost predicate Valid() {
      && |buckets| == ID_BITS
      && forall i, j :: 0 <= i < j < ID_BITS ==> buckets[i] != buckets[j]
    }

    ghost function Value(): Table
      requires Valid()
      reads buckets
    {
      seq(ID_BITS, i requires 0 <= i < ID_BITS reads buckets => buckets[i].contacts)
    }

    constructor (self: ID)
      ensures Valid() && this.self == self && fresh(buckets)
      ensures Value() == Empty()
    {
      this.self := self;
      var bs: seq<Bucket> := [];
      for i := 0 to ID_BITS
        invariant |bs| == i && fresh(bs)
        invariant forall j, k :: 0 <= j < k < i ==> bs[j] != bs[k]
        invariant forall j :: 0 <= j < i ==> bs[j].contacts == []
      {
        var b := new Bucket();
        bs := bs + [b];
      }
      buckets := bs;
    }

    method Add(c: Contact)
      requires Valid()
      modifies buckets
      ensures Value() == Apply(self, old(Value()), Op.Add(c))
    {
      if c.id == self {
        return;
      }
      var idx := BucketIndex(Xor(self, c.id));
      buckets[idx].Add(c);
    }

    method Remove(id: ID)
      requires Valid()
      modifies buckets
      ensures Value() == Apply(self, old(Value()), Op.Remove(id))
    {
      var idx := BucketIndex(Xor(self, id));
      buckets[idx].Remove(id);
    }

    method MarkMissed(id: ID)
      requires Valid()
      modifies buckets
      ensures Value() == Apply(self, old(Value()), Op.MarkMissed(id))
    {
      var idx := BucketIndex(Xor(self, id));
      buckets[idx].MarkMissed(id);
    }

    method ResetMissed(id: ID)
      requires Valid()
      modifies buckets
      ensures Value() == Apply(self, old(Value()), Op.ResetMissed(id))
    {
      var idx := BucketIndex(Xor(self, id));
      buckets[idx].ResetMissed(id);
    }
  }

  // ---- Every run ----------------------------------------------------------------------

  function Empty(): Table {
    seq(ID_BITS, i => [])
  }

  function After(self: ID, ops: seq<Op>): Table {
    if ops == [] then Empty() else Apply(self, After(self, ops[..|ops| - 1]), ops[|ops| - 1])
  }

  /** Contacts come from ContactFromJSON, which leaves both probe fields zero. */
  ghost predicate FreshAdds(ops: seq<Op>) {
    forall i :: 0 <= i < |ops| && ops[i].Add? ==> ops[i].c.missed == 0 && !ops[i].c.suspect
  }

  ghost predicate ContactOk(self: ID, n: nat, c: Contact) {
    && c.id != self && BucketOf(self, c.id) == n
    && c.missed < 4 && (c.suspect <==> c.missed > 0)
  }

  ghost predicate DistinctIds(s: seq<Contact>) {
    forall i, j :: 0 <= i < j < |s| ==> s[i].id != s[j].id
  }

  ghost predicate BucketOk(self: ID, n: nat, s: seq<Contact>) {
    && |s| <= 8
    && (forall i :: 0 <= i < |s| ==> ContactOk(self, n, s[i]))
    && DistinctIds(s)
  }

  ghost predicate TableOk(self: ID, t: Table) {
    forall n :: 0 <= n < ID_BITS ==> BucketOk(self, n, t[n])
  }

  lemma AddKeeps(self: ID, n: nat, s: seq<Contact>, c: Contact)
    requires BucketOk(self, n, s) && ContactOk(self, n, c)
    ensures BucketOk(self, n, AddTo(s, c))
  {
    hide BucketOk, ContactOk;
    var i := Find(s, c.id);
    if i < |s| {
      UpdateKeeps(self, n, s, i, c);
    } else if |s| >= K {
      DropKeeps(self, n, s, 0);
      assert s[..0] + s[1..] == s[1..];
      BucketSize(self, n, s);
      AppendKeeps(self, n, s[1..], c);
    } else {
      AppendKeeps(self, n, s, c);
    }
  }

  lemma BucketSize(self: ID, n: nat, s: seq<Contact>)
    requires BucketOk(self, n, s)
    ensures |s| <= K
  {
  }

  lemma AppendKeeps(self: ID, n: nat, s: seq<Contact>, c: Contact)
    requires |s| < K && BucketOk(self, n, s) && ContactOk(self, n, c)
    requires forall k :: 0 <= k < |s| ==> s[k].id != c.id
    ensures BucketOk(self, n, s + [c])
  {
    hide ContactOk;
  }

  lemma DropKeeps(self: ID, n: nat, s: seq<Contact>, i: nat)
    requires BucketOk(self, n, s) && i < |s|
    ensures BucketOk(self, n, Drop(s, i))
  {
    hide ContactOk;
  }

  lemma UpdateKeeps(self: ID, n: nat, s: seq<Contact>, i: nat, c: Contact)
    requires BucketOk(self, n, s) && i < |s| && c.id == s[i].id && ContactOk(self, n, c)
    ensures BucketOk(self, n, s[i := c])
  {
    hide ContactOk;
  }

  lemma OpKeeps(self: ID, t: Table, op: Op)
    requires TableOk(self, t)
    requires op.Add? ==> op.c.missed == 0 && !op.c.suspect
    ensures TableOk(self, Apply(self, t, op))
  {
    hide BucketOk, BucketOf;
    match op
    case Add(c) =>
      if c.id != self {
        AddKeeps(self, BucketOf(self, c.id), t[BucketOf(self, c.id)], c);
      }
    case Remove(id) => RemoveKeeps(self, BucketOf(self, id), t[BucketOf(self, id)], id);
    case MarkMissed(id) => MarkKeeps(self, BucketOf(self, id), t[BucketOf(self, id)], id);
    case ResetMissed(id) => ResetKeeps(self, BucketOf(self, id), t[BucketOf(self, id)], id);
  }

  lemma RemoveKeeps(self: ID, n: nat, s: seq<Contact>, id: ID)
    requires BucketOk(self, n, s)
    ensures BucketOk(self, n, RemoveFrom(s, id))
  {
    hide BucketOk, Drop;
    var i := Find(s, id);
    if i < |s| {
      DropKeeps(self, n, s, i);
    }
  }

  lemma MarkKeeps(self: ID, n: nat, s: seq<Contact>, id: ID)
    requires BucketOk(self, n, s)
    ensures BucketOk(self, n, MarkIn(s, id))
  {
    hide Drop;
    var i := Find(s, id);
    if i < |s| {
      assert ContactOk(self, n, s[i]);
      if s[i].missed + 1 >= MAX_MISSED_PINGS {
        DropKeeps(self, n, s, i);
      } else {
        UpdateKeeps(self, n, s, i, s[i].(missed := s[i].missed + 1, suspect := true));
      }
    }
  }

  lemma ResetKeeps(self: ID, n: nat, s: seq<Contact>, id: ID)
    requires BucketOk(self, n, s)
    ensures BucketOk(self, n, ResetIn(s, id))
  {
    var i := Find(s, id);
    if i < |s| {
      assert ContactOk(self, n, s[i]);
      UpdateKeeps(self, n, s, i, s[i].(missed := 0, suspect := false));
    }
  }

  /** Every run keeps the buckets small, duplicate-free, correctly numbered and correctly marked. */
  lemma {:induction false} RunKeeps(self: ID, ops: seq<Op>)
    requires FreshAdds(ops)
    ensures TableOk(self, After(self, ops))
  {
    hide BucketOk, Apply;
    if ops == [] {
      EmptyOk(self);
    } else {
      RunKeeps(self, ops[..|ops| - 1]);
      OpKeeps(self, After(self, ops[..|ops| - 1]), ops[|ops| - 1]);
    }
  }

  lemma EmptyOk(self: ID)
    ensures TableOk(self, Empty())
  {
  }

  /** No identifier appears in two places of the table. */
  lemma NoDuplicates(self: ID, ops: seq<Op>, m: nat, i: nat, n: nat, j: nat)
    requires FreshAdds(ops)
    requires m < ID_BITS && n < ID_BITS && i < |After(self, ops)[m]| && j < |After(self, ops)[n]|
    requires After(self, ops)[m][i].id == After(self, ops)[n][j].id
    ensures m == n && i == j
  {
    hide After, BucketOf;
    RunKeeps(self, ops);
    var t := After(self, ops);
    assert BucketOk(self, m, t[m]) && BucketOk(self, n, t[n]);
    assert ContactOk(self, m, t[m][i]) && ContactOk(self, n, t[n][j]);
  }

  /** Consecutive missed probes of `id`, counted on the calls alone. */
  function Misses(ops: seq<Op>, id: ID): nat {
    if ops == [] then 0
    else
      var n := Misses(ops[..|ops| - 1], id);
      match ops[|ops| - 1]
      case Add(c) => if c.id == id then 0 else n
      case ResetMissed(i) => if i == id then 0 else n
      case MarkMissed(i) => if i == id then n + 1 else n
      case Remove(_) => n
  }

  ghost predicate Counted(ops: seq<Op>, s: seq<Contact>) {
    forall i :: 0 <= i < |s| ==> s[i].missed == Misses(ops, s[i].id)
  }

  ghost predicate AllCounted(ops: seq<Op>, t: Table) {
    forall n :: 0 <= n < ID_BITS ==> Counted(ops, t[n])
  }

  lemma CountedStep(self: ID, ops: seq<Op>, t: Table, n: nat)
    requires ops != [] && n < ID_BITS && TableOk(self, t) && Counted(ops[..|ops| - 1], t[n])
    requires ops[|ops| - 1].Add? ==> ops[|ops| - 1].c.missed == 0
    ensures Counted(ops, Apply(self, t, ops[|ops| - 1])[n])
  {
    hide BucketOk, BucketOf, Counted, AddTo, RemoveFrom, MarkIn, ResetIn;
    var op := ops[|ops| - 1];
    var s := t[n];
    assert BucketOk(self, n, s);
    if BucketOf(self, op.Id()) != n || (op.Add? && op.Id() == self) {
      CountedElsewhere(self, ops, n, s);
    } else {
      match op
      case Add(c) => CountedAdd(self, ops, n, s, c);
      case Remove(id) => CountedRemove(ops, s, id);
      case MarkMissed(id) => CountedMark(self, ops, n, s, id);
      case ResetMissed(id) => CountedReset(self, ops, n, s, id);
    }
  }

  /** A call says nothing about the misses of other contacts. */
  lemma MissesOfOthers(ops: seq<Op>, id: ID)
    requires ops != [] && ops[|ops| - 1].Id() != id
    ensures Misses(ops, id) == Misses(ops[..|ops| - 1], id)
  {
  }

  lemma OthersCounted(ops: seq<Op>, s: seq<Contact>)
    requires ops != [] && Counted(ops[..|ops| - 1], s)
    ensures forall k :: 0 <= k < |s| && s[k].id != ops[|ops| - 1].Id() ==> s[k].missed == Misses(ops, s[k].id)
  {
    hide Misses;
    forall k | 0 <= k < |s| && s[k].id != ops[|ops| - 1].Id()
      ensures s[k].missed == Misses(ops, s[k].id)
    {
      MissesOfOthers(ops, s[k].id);
    }
  }

  lemma CountedElsewhere(self: ID, ops: seq<Op>, n: nat, s: seq<Contact>)
    requires ops != [] && BucketOk(self, n, s) && Counted(ops[..|ops| - 1], s)
    requires BucketOf(self, ops[|ops| - 1].Id()) != n || ops[|ops| - 1].Id() == self
    ensures Counted(ops, s)
  {
    hide BucketOf, Misses;
    OthersCounted(ops, s);
    forall k | 0 <= k < |s|
      ensures s[k].id != ops[|ops| - 1].Id()
    {
      assert ContactOk(self, n, s[k]);
    }
  }

  lemma CountedSet(ops: seq<Op>, s: seq<Contact>, i: nat, c: Contact)
    requires i < |s| && c.missed == Misses(ops, c.id)
    requires forall k :: 0 <= k < |s| && k != i ==> s[k].missed == Misses(ops, s[k].id)
    ensures Counted(ops, s[i := c])
  {
    hide Misses;
  }

  lemma CountedDrop(ops: seq<Op>, s: seq<Contact>, i: nat)
    requires i < |s| && forall k :: 0 <= k < |s| && k != i ==> s[k].missed == Misses(ops, s[k].id)
    ensures Counted(ops, Drop(s, i))
  {
    hide Misses;
    var u := Drop(s, i);
    assert forall k :: 0 <= k < |u| ==> u[k] == s[if k < i then k else k + 1];
  }

  lemma AllOthers(s: seq<Contact>, i: nat)
    requires DistinctIds(s) && i < |s|
    ensures forall k :: 0 <= k < |s| && k != i ==> s[k].id != s[i].id
  {
  }

  lemma CountedAdd(self: ID, ops: seq<Op>, n: nat, s: seq<Contact>, c: Contact)
    requires ops != [] && ops[|ops| - 1] == Op.Add(c) && c.missed == 0
    requires BucketOk(self, n, s) && Counted(ops[..|ops| - 1], s)
    ensures Counted(ops, AddTo(s, c))
  {
    assert Misses(ops, c.id) == 0;
    hide Misses, ContactOk;
    OthersCounted(ops, s);
    var i := Find(s, c.id);
    if i < |s| {
      AllOthers(s, i);
      CountedSet(ops, s, i, c);
    } else {
      CountedAppend(ops, s, c);
      if |s| >= K {
        CountedDrop(ops, s, 0);
        assert Drop(s, 0) == s[1..];
        CountedAppend(ops, s[1..], c);
      }
    }
  }

  lemma CountedAppend(ops: seq<Op>, s: seq<Contact>, c: Contact)
    requires Counted(ops, s) && c.missed == Misses(ops, c.id)
    ensures Counted(ops, s + [c])
  {
    hide Misses;
  }

  lemma CountedRemove(ops: seq<Op>, s: seq<Contact>, id: ID)
    requires ops != [] && ops[|ops| - 1] == Op.Remove(id) && Counted(ops[..|ops| - 1], s)
    ensures Counted(ops, RemoveFrom(s, id))
  {
    forall k | 0 <= k < |s|
      ensures s[k].missed == Misses(ops, s[k].id)
    {
    }
    hide Misses, Drop;
    var i := Find(s, id);
    if i < |s| {
      CountedDrop(ops, s, i);
    }
  }

  lemma CountedMark(self: ID, ops: seq<Op>, n: nat, s: seq<Contact>, id: ID)
    requires ops != [] && ops[|ops| - 1] == Op.MarkMissed(id)
    requires BucketOk(self, n, s) && Counted(ops[..|ops| - 1], s)
    ensures Counted(ops, MarkIn(s, id))
  {
    assert Misses(ops, id) == Misses(ops[..|ops| - 1], id) + 1;
    hide Misses, ContactOk, Drop;
    OthersCounted(ops, s);
    var i := Find(s, id);
    if i < |s| {
      AllOthers(s, i);
      CountedSet(ops, s, i, s[i].(missed := s[i].missed + 1, suspect := true));
      CountedDrop(ops, s, i);
    }
  }

  lemma CountedReset(self: ID, ops: seq<Op>, n: nat, s: seq<Contact>, id: ID)
    requires ops != [] && ops[|ops| - 1] == Op.ResetMissed(id)
    requires BucketOk(self, n, s) && Counted(ops[..|ops| - 1], s)
    ensures Counted(ops, ResetIn(s, id))
  {
    assert Misses(ops, id) == 0;
    hide Misses, ContactOk;
    OthersCounted(ops, s);
    var i := Find(s, id);
    if i < |s| {
      AllOthers(s, i);
      CountedSet(ops, s, i, s[i].(missed := 0, suspect := false));
    }
  }

  /** The counter of every contact is its number of misses in a row since it was last added or heard. */
  lemma {:induction false} MissesAreExact(self: ID, ops: seq<Op>)
    requires FreshAdds(ops)
    ensures AllCounted(ops, After(self, ops))
  {
    hide Counted, Apply, TableOk;
    if ops == [] {
      EmptyCounted(ops);
    } else {
      var before := ops[..|ops| - 1];
      MissesAreExact(self, before);
      RunKeeps(self, before);
      forall n | 0 <= n < ID_BITS
        ensures Counted(ops, After(self, ops)[n])
      {
        CountedStep(self, ops, After(self, before), n);
      }
    }
  }

  lemma EmptyCounted(ops: seq<Op>)
    ensures AllCounted(ops, Empty())
  {
  }

  /** Four misses in a row evict: no such contact is in any bucket. */
  lemma FourMissesEvict(self: ID, ops: seq<Op>, n: nat, i: nat)
    requires FreshAdds(ops) && n < ID_BITS && i < |After(self, ops)[n]|
    ensures Misses(ops, After(self, ops)[n][i].id) < 4
  {
    hide After, BucketOf, Misses;
    RunKeeps(self, ops);
    MissesAreExact(self, ops);
    var t := After(self, ops);
    assert Counted(ops, t[n]) && BucketOk(self, n, t[n]);
    assert ContactOk(self, n, t[n][i]);
  }
}
