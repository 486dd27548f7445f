/**
 The relay store of a DHT node: signed relay entries, the newest per node, dropped
 once older than RelayTTL. The clock is an argument and signature checking is a
 given predicate.
 */
module RelayStore {
  import opened Common

  datatype Entry = Entry(node: string, addr: string, country: string, ts: int, sig: string)

  datatype Outcome = Stored | BadSignature | StaleOrFuture

  type Table = map<string, Entry>

  ghost predicate Keyed(t: Table) {
    forall k :: k in t ==> t[k].node == k
  }

  function Verdict(verify: Entry -> bool, e: Entry, now: int): Outcome {
    if !verify(e) then BadSignature
    else if now - e.ts > TTL || now - e.ts < -TTL then StaleOrFuture
    else Stored
  }

  /** The effect of store. An entry with the timestamp already held is ignored. */
  function StoreIn(verify: Entry -> bool, t: Table, e: Entry, now: int): Table {
    if Verdict(verify, e, now) != Stored then t
    else if e.node in t && t[e.node].ts >= e.ts then t
    else t[e.node := e]
  }

  /** The entries all reports. */
  function Live(t: Table, now: int): Table {
    map k | k in t && now - t[k].ts <= TTL :: t[k]
  }

  class RelayStore {
    const verify: Entry -> bool
    var entries: Table

    constructor (verify: Entry -> bool)
      ensures entries == map[] && this.verify == verify
    {
      this.verify := verify;
      entries := map[];
    }

    method Store(e: Entry, now: int) returns (outcome: Outcome)
      modifies this
      ensures outcome == Verdict(verify, e, now)
      ensures outcome == BadSignature <==> !verify(e)
      ensures outcome == Stored <==> verify(e) && now - 120 <= e.ts <= now + 120
      ensures outcome != Stored ==> entries == old(entries)
      ensures entries == StoreIn(verify, old(entries), e, now)
    {
      if !verify(e) {
        return BadSignature;
      }
      var age := now - e.ts;
      if age > TTL || age < -TTL {
        return StaleOrFuture;
      }
      if e.node in entries && entries[e.node].ts >= e.ts {
        return Stored;
      }
      entries := entries[e.node := e];
      return Stored;
    }

    /** all: every live entry once, in the map's arbitrary order. */
    method All(now: int) returns (out: seq<Entry>)
      requires Keyed(entries)
      ensures forall e :: e in out <==> e.node in Live(entries, now) && Live(entries, now)[e.node] == e
      ensures forall e :: e in out <==> e.node in entries && entries[e.node] == e && now - e.ts <= 120
      ensures forall i, j :: 0 <= i < j < |out| ==> out[i].node != out[j].node
    {
      out := [];
      var todo := entries.Keys;
      while todo != {}
        invariant todo <= entries.Keys
        invariant forall e :: e in out <==> e.node !in todo && e.node in Live(entries, now) && Live(entries, now)[e.node] == e
        invariant forall i, j :: 0 <= i < j < |out| ==> out[i].node != out[j].node
        decreases todo
      {
        var k :| k in todo;
        var e := entries[k];
        forall i | 0 <= i < |out|
          ensures out[i].node != k
        {
          assert out[i] in out;
        }
        if now - e.ts <= TTL {
          out := out + [e];
        }
        todo := todo - {k};
      }
    }
  }

  // ---- Histories ------------------------------------------------------------------

  datatype Arrival = Arrival(e: Entry, at: int)

  ghost predicate ClockRuns(h: seq<Arrival>) {
    forall i, j :: 0 <= i < j < |h| ==> h[i].at <= h[j].at
  }

  function TableAfter(verify: Entry -> bool, h: seq<Arrival>): Table {
    if h == [] then map[]
    else
      var last := h[|h| - 1];
      StoreIn(verify, TableAfter(verify, h[..|h| - 1]), last.e, last.at)
  }

  lemma {:induction false} TableKeyed(verify: Entry -> bool, h: seq<Arrival>)
    ensures Keyed(TableAfter(verify, h))
  {
    if h != [] {
      TableKeyed(verify, h[..|h| - 1]);
    }
  }

  /** A correctly signed entry for `node` that was dated within two minutes of its arrival. */
  predicate Acceptable(verify: Entry -> bool, a: Arrival, node: string) {
    a.e.node == node && verify(a.e) && -120 <= a.at - a.e.ts <= 120
  }

  /** Arrival `i` is the newest acceptable one for the node, and the first as new. */
  ghost predicate IsNewest(verify: Entry -> bool, h: seq<Arrival>, node: string, i: nat) {
    && i < |h| && Acceptable(verify, h[i], node)
    && (forall j :: 0 <= j < |h| && Acceptable(verify, h[j], node) ==> h[j].e.ts <= h[i].e.ts)
    && (forall j :: 0 <= j < i && Acceptable(verify, h[j], node) ==> h[j].e.ts < h[i].e.ts)
  }

  function Newest(verify: Entry -> bool, h: seq<Arrival>, node: string): (r: Option<nat>)
    ensures r.Some? ==> IsNewest(verify, h, node, r.value)
    ensures r.None? ==> forall i :: 0 <= i < |h| ==> !Acceptable(verify, h[i], node)
  {
    if h == [] then None
    else
      var n := |h| - 1;
      var r := Newest(verify, h[..n], node);
      if Acceptable(verify, h[n], node) && (r.Some? ==> h[r.value].e.ts < h[n].e.ts) then Some(n) else r
  }

  /** The effect of store on one node. */
  lemma StoreOne(verify: Entry -> bool, t: Table, a: Arrival, node: string)
    ensures var u := StoreIn(verify, t, a.e, a.at);
            if Acceptable(verify, a, node) && (node in t ==> t[node].ts < a.e.ts) then node in u && u[node] == a.e
            else (node in u <==> node in t) && (node in t ==> u[node] == t[node])
  {
  }

  /**
   Whatever the clock does, the table holds for a node the newest of its acceptable
   arrivals, the first among equals, and no row if there was none.
   */
  lemma {:induction false} TableExactly(verify: Entry -> bool, h: seq<Arrival>, node: string)
    ensures var t, i := TableAfter(verify, h), Newest(verify, h, node);
            if i.Some? then node in t && t[node] == h[i.value].e else node !in t
  {
    if h != [] {
      hide StoreIn, IsNewest;
      var n := |h| - 1;
      TableExactly(verify, h[..n], node);
      StoreOne(verify, TableAfter(verify, h[..n]), h[n], node);
      NewestWithin(verify, h[..n], node);
    }
  }

  lemma NewestWithin(verify: Entry -> bool, h: seq<Arrival>, node: string)
    ensures Newest(verify, h, node).Some? ==> Newest(verify, h, node).value < |h|
  {
    hide Newest;
  }

  /** A correctly signed entry for `node` that was not dated too far ahead on arrival. */
  predicate Admissible(verify: Entry -> bool, a: Arrival, node: string) {
    a.e.node == node && verify(a.e) && a.at - a.e.ts >= -120
  }

  /** `e` arrived, no admissible entry for its node is newer, and none as new came before it. */
  ghost predicate IsBest(verify: Entry -> bool, h: seq<Arrival>, node: string, i: nat) {
    && i < |h| && Admissible(verify, h[i], node)
    && (forall j :: 0 <= j < |h| && Admissible(verify, h[j], node) ==> h[j].e.ts <= h[i].e.ts)
    && (forall j :: 0 <= j < i && Admissible(verify, h[j], node) ==> h[j].e.ts < h[i].e.ts)
  }

  /** The position of the best entry of the whole history. */
  function Best(verify: Entry -> bool, h: seq<Arrival>, node: string): (r: Option<nat>)
    ensures r.Some? ==> IsBest(verify, h, node, r.value)
    ensures r.None? ==> forall i :: 0 <= i < |h| ==> !Admissible(verify, h[i], node)
  {
    if h == [] then None
    else
      var n := |h| - 1;
      var r := Best(verify, h[..n], node);
      if Admissible(verify, h[n], node) && (r.Some? ==> h[r.value].e.ts < h[n].e.ts) then Some(n) else r
  }

  lemma BestUnique(verify: Entry -> bool, h: seq<Arrival>, node: string, i: nat, j: nat)
    requires IsBest(verify, h, node, i) && IsBest(verify, h, node, j)
    ensures i == j
  {
  }

  /** What the store may hold for a node when the whole history says `b`. */
  ghost predicate Agrees(t: Table, node: string, b: Option<Entry>, now: int) {
    || (if b.Some? then node in t && t[node] == b.value else node !in t)
    || (b.Some? && now - b.value.ts > TTL && (node in t ==> t[node].ts <= b.value.ts))
  }

  function BestEntry(verify: Entry -> bool, h: seq<Arrival>, node: string): Option<Entry> {
    match Best(verify, h, node)
    case None => None
    case Some(i) => Some(h[i].e)
  }

  /** The batch answer: the best entry of each node, unless it has expired. */
  ghost predicate IsBatchAnswer(verify: Entry -> bool, h: seq<Arrival>, now: int, t: Table) {
    forall node :: if BestEntry(verify, h, node).Some? && now - BestEntry(verify, h, node).value.ts <= 120
                   then node in t && t[node] == BestEntry(verify, h, node).value
                   else node !in t
  }

  lemma AgreesStep(verify: Entry -> bool, t: Table, node: string, b: Option<Entry>, before: int, a: Arrival)
    requires Agrees(t, node, b, before) && before <= a.at
    ensures var b' := if Admissible(verify, a, node) && (b.Some? ==> b.value.ts < a.e.ts) then Some(a.e) else b;
            Agrees(StoreIn(verify, t, a.e, a.at), node, b', a.at)
  {
  }

  lemma {:induction false} AgreesAlways(verify: Entry -> bool, h: seq<Arrival>, node: string)
    requires ClockRuns(h) && h != []
    ensures Agrees(TableAfter(verify, h), node, BestEntry(verify, h, node), h[|h| - 1].at)
  {
    hide Best, StoreIn, Agrees;
    var n := |h| - 1;
    var h' := h[..n];
    var b := BestEntry(verify, h', node);
    var before := if n > 0 then h[n - 1].at else h[n].at;
    if n > 0 {
      AgreesAlways(verify, h', node);
    } else {
      AgreesEmpty(verify, h', node, before);
    }
    AgreesStep(verify, TableAfter(verify, h'), node, b, before, h[n]);
    BestSnoc(verify, h, node);
  }

  lemma AgreesEmpty(verify: Entry -> bool, h: seq<Arrival>, node: string, now: int)
    requires h == []
    ensures Agrees(TableAfter(verify, h), node, BestEntry(verify, h, node), now)
  {
  }

  lemma BestSnoc(verify: Entry -> bool, h: seq<Arrival>, node: string)
    requires h != []
    ensures var a, b := h[|h| - 1], BestEntry(verify, h[..|h| - 1], node);
            BestEntry(verify, h, node) ==
            if Admissible(verify, a, node) && (b.Some? ==> b.value.ts < a.e.ts) then Some(a.e) else b
  {
  }

  /**
   What all reports equals the batch answer over everything that ever arrived, although
   the store rejected and overwrote entries on the way.
   */
  lemma StoreIsBatch(verify: Entry -> bool, h: seq<Arrival>, now: int)
    requires ClockRuns(h) && (h != [] ==> h[|h| - 1].at <= now)
    ensures IsBatchAnswer(verify, h, now, Live(TableAfter(verify, h), now))
  {
    hide BestEntry, TableAfter;
    forall node
      ensures var b := BestEntry(verify, h, node);
              var t := Live(TableAfter(verify, h), now);
              if b.Some? && now - b.value.ts <= TTL then node in t && t[node] == b.value else node !in t
    {
      if h == [] {
        AgreesEmpty(verify, h, node, now);
      } else {
        AgreesAlways(verify, h, node);
      }
    }
  }

  ghost predicate AllAt(h: seq<Arrival>, now: int) {
    forall i :: 0 <= i < |h| ==> h[i].at == now
  }

  ghost predicate NoTies(verify: Entry -> bool, h: seq<Arrival>) {
    forall i, j | 0 <= i < |h| && 0 <= j < |h| ::
      verify(h[i].e) && verify(h[j].e) && h[i].e.node == h[j].e.node && h[i].e.ts == h[j].e.ts ==> h[i].e == h[j].e
  }

  ghost predicate SameArrivals(g: seq<Arrival>, h: seq<Arrival>) {
    forall a :: a in g <==> a in h
  }

  lemma BestOrderFree(verify: Entry -> bool, g: seq<Arrival>, h: seq<Arrival>, node: string)
    requires SameArrivals(g, h) && NoTies(verify, g)
    ensures BestEntry(verify, g, node) == BestEntry(verify, h, node)
  {
    var i, j := Best(verify, g, node), Best(verify, h, node);
    if i.Some? {
      assert g[i.value] in h;
    }
    if j.Some? {
      assert h[j.value] in g;
    }
  }

  /** At one instant and without timestamp ties, order and repetition of arrivals do not matter. */
  lemma OrderFree(verify: Entry -> bool, g: seq<Arrival>, h: seq<Arrival>, now: int)
    requires SameArrivals(g, h) && NoTies(verify, g) && AllAt(g, now) && AllAt(h, now)
    ensures Live(TableAfter(verify, g), now) == Live(TableAfter(verify, h), now)
  {
    hide BestEntry, TableAfter;
    StoreIsBatch(verify, g, now);
    StoreIsBatch(verify, h, now);
    var s, t := Live(TableAfter(verify, g), now), Live(TableAfter(verify, h), now);
    forall node
      ensures node in s <==> node in t
      ensures node in s ==> s[node] == t[node]
    {
      BestOrderFree(verify, g, h, node);
    }
  }
}
