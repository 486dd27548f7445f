/**
 The restart-proof traffic counter: nodes report bytes since their process started,
 and the arbiter folds the reports into a lifetime total per node.
 */
module Traffic {
  import opened Common

  /** One row of node_counter_state. */
  datatype Counter = Counter(offset: int, lastRaw: int) {
    function Cum(): int { offset + lastRaw }
  }

  /** One row of node_traffic, without the averages. */
  datatype Sample = Sample(node: int, ts: int, raw: int, cum: int, kind: string)

  datatype Db = Db(counters: map<int, Counter>, samples: seq<Sample>)

  datatype Report = Report(node: int, ts: int, raw: int, kind: string)

  /** Folds one raw report into a counter: a smaller count than last time means a restart. */
  function Fold(c: Option<Counter>, raw: int): Counter {
    match c
    case None => Counter(0, raw)
    case Some(k) => if raw < k.lastRaw then Counter(k.offset + k.lastRaw, raw) else Counter(k.offset, raw)
  }

  function CounterOf(db: Db, node: int): Option<Counter> {
    if node in db.counters then Some(db.counters[node]) else None
  }

  /** recordNodeTrafficSample as one transaction. */
  function Record(db: Db, r: Report): Db {
    var c := Fold(CounterOf(db, r.node), r.raw);
    Db(db.counters[r.node := c], db.samples + [Sample(r.node, r.ts, r.raw, c.Cum(), r.kind)])
  }

  class TrafficTables {
    var counters: map<int, Counter>
    var samples: seq<Sample>

    ghost function Value(): Db
      reads this
    {
      Db(counters, samples)
    }

    constructor ()
      ensures Value() == Db(map[], [])
    {
      counters := map[];
      samples := [];
    }

    method RecordSample(r: Report)
      modifies this
      ensures Value() == Record(old(Value()), r)
    {
      var offset, lastRaw := 0, 0;
      if r.node in counters {
        offset, lastRaw := counters[r.node].offset, counters[r.node].lastRaw;
        if r.raw < lastRaw {
          offset := offset + lastRaw;
        }
      }
      var cum := offset + r.raw;
      counters := counters[r.node := Counter(offset, r.raw)];
      samples := samples + [Sample(r.node, r.ts, r.raw, cum, r.kind)];
    }
  }

  // ---- The recorded totals -----------------------------------------------------------

  function Recorded(rs: seq<Report>): Db {
    if rs == [] then Db(map[], []) else Record(Recorded(rs[..|rs| - 1]), rs[|rs| - 1])
  }

  ghost predicate NonNegative(rs: seq<Report>) {
    forall i :: 0 <= i < |rs| ==> rs[i].raw >= 0
  }

  ghost predicate CountersLead(db: Db) {
    && (forall n :: n in db.counters ==> db.counters[n].offset >= 0 && db.counters[n].lastRaw >= 0)
    && forall i :: 0 <= i < |db.samples| ==>
         db.samples[i].node in db.counters && 0 <= db.samples[i].cum <= db.counters[db.samples[i].node].Cum()
  }

  ghost predicate Rising(s: seq<Sample>) {
    forall i, j :: 0 <= i < j < |s| && s[i].node == s[j].node ==> s[i].cum <= s[j].cum
  }

  lemma RecordKeeps(db: Db, r: Report)
    requires r.raw >= 0 && CountersLead(db) && Rising(db.samples)
    ensures CountersLead(Record(db, r)) && Rising(Record(db, r).samples)
  {
    var next := Record(db, r);
    assert r.node in db.counters ==> db.counters[r.node].Cum() <= next.counters[r.node].Cum();
  }

  /** In every run of reports, bytes_cum of a node never goes down. */
  lemma {:induction false} CumNeverDecreases(rs: seq<Report>)
    requires NonNegative(rs)
    ensures CountersLead(Recorded(rs)) && Rising(Recorded(rs).samples)
  {
    hide Record, CountersLead, Rising;
    if rs == [] {
      NothingRecorded();
    } else {
      CumNeverDecreases(rs[..|rs| - 1]);
      RecordKeeps(Recorded(rs[..|rs| - 1]), rs[|rs| - 1]);
    }
  }

  lemma NothingRecorded()
    ensures CountersLead(Db(map[], [])) && Rising([])
  {
  }

  /** One sample per report, in order. */
  lemma {:induction false} SamplesMirrorReports(rs: seq<Report>)
    ensures |Recorded(rs).samples| == |rs|
    ensures forall i :: 0 <= i < |rs| ==>
              && Recorded(rs).samples[i].node == rs[i].node && Recorded(rs).samples[i].ts == rs[i].ts
              && Recorded(rs).samples[i].raw == rs[i].raw && Recorded(rs).samples[i].kind == rs[i].kind
  {
    if rs != [] {
      SamplesMirrorReports(rs[..|rs| - 1]);
    }
  }

  /** The raw counts one node reported, in order. */
  function RawsOf(rs: seq<Report>, node: int): seq<int> {
    if rs == [] then []
    else
      var raws := RawsOf(rs[..|rs| - 1], node);
      if rs[|rs| - 1].node == node then raws + [rs[|rs| - 1].raw] else raws
  }

  function FoldAll(raws: seq<int>): Option<Counter> {
    if raws == [] then None else Some(Fold(FoldAll(raws[..|raws| - 1]), raws[|raws| - 1]))
  }

  /** The counter of a node depends on its own reports only. */
  lemma {:induction false} NodesIndependent(rs: seq<Report>, node: int)
    ensures CounterOf(Recorded(rs), node) == FoldAll(RawsOf(rs, node))
  {
    hide Fold;
    if rs != [] {
      var before := rs[..|rs| - 1];
      NodesIndependent(before, node);
      if rs[|rs| - 1].node == node {
        var raws := RawsOf(before, node);
        assert (raws + [rs[|rs| - 1].raw])[..|raws|] == raws;
      }
    }
  }

  // ---- Against the bytes really moved ------------------------------------------------

  /** What happens to one node: it moves bytes, its process restarts, it reports its count. */
  datatype Event = Move(bytes: nat) | Restart | Send

  /**
   The node's side of the story, told from the events alone. `raw` is its own counter,
   `moved` everything it ever moved, `last` the last count it sent. `unsent` are the
   bytes of processes that ended since then and were never sent. `lost` sums what
   the total can no longer see, and `clean` says whether every report so far was clean.
   */
  datatype Life = Life(raw: nat, moved: nat, last: nat, restarted: bool, unsent: nat, lost: nat, clean: bool) {
    /** The process restarted since `last` was sent, yet this count does not show it. */
    predicate Hidden() {
      restarted && raw >= last
    }

    /** Nothing went unsent, and a restart shows as a drop (or had nothing to lose). */
    predicate CleanSend() {
      unsent == 0 && (Hidden() ==> last == 0)
    }
  }

  function Happen(l: Life, e: Event): Life
    requires !l.restarted ==> l.last <= l.raw
  {
    match e
    case Move(k) => l.(raw := l.raw + k, moved := l.moved + k)
    case Restart =>
      l.(raw := 0, restarted := true, unsent := l.unsent + if l.restarted then l.raw else l.raw - l.last)
    case Send =>
      l.(last := l.raw, restarted := false, unsent := 0, clean := l.clean && l.CleanSend(),
      lost := l.lost + l.unsent + if l.Hidden() then l.last else 0)
  }

  function Lived(es: seq<Event>): (l: Life)
    ensures !l.restarted ==> l.last <= l.raw && l.unsent == 0
    ensures l.lost == 0 <==> l.clean
  {
    if es == [] then Life(0, 0, 0, false, 0, 0, true) else Happen(Lived(es[..|es| - 1]), es[|es| - 1])
  }

  /** The counts the node sent. */
  function Sent(es: seq<Event>): seq<int> {
    if es == [] then []
    else
      var raws := Sent(es[..|es| - 1]);
      if es[|es| - 1].Send? then raws + [Lived(es[..|es| - 1]).raw] else raws
  }

  /** The arbiter's side: the counter after the reports among these events. */
  function Counted(es: seq<Event>): Option<Counter> {
    FoldAll(Sent(es))
  }

  lemma CountedSend(es: seq<Event>)
    requires es != [] && es[|es| - 1].Send?
    ensures Counted(es) == Some(Fold(Counted(es[..|es| - 1]), Lived(es[..|es| - 1]).raw))
  {
    hide Fold, Lived;
    var raws := Sent(es[..|es| - 1]);
    assert Sent(es)[..|raws|] == raws;
  }

  function Total(es: seq<Event>): int {
    match Counted(es)
    case None => 0
    case Some(c) => c.Cum()
  }

  /** Every byte moved is in the total, lost, unsent, or not yet reported by the running process. */
  lemma {:induction false} BytesConserved(es: seq<Event>)
    ensures var l := Lived(es);
            && Total(es) + l.lost + l.unsent + (if l.restarted then l.raw else l.raw - l.last) == l.moved
            && (Counted(es).None? ==> l.last == 0 && l.lost == 0)
            && (Counted(es).Some? ==> Counted(es).value.lastRaw == l.last && Counted(es).value.offset >= 0)
  {
    if es != [] {
      hide FoldAll;
      BytesConserved(es[..|es| - 1]);
      if es[|es| - 1].Send? {
        CountedSend(es);
      }
    }
  }

  /** The total never exceeds the bytes moved, and a report makes it exact iff every report was clean. */
  lemma TotalExactly(es: seq<Event>)
    ensures Total(es) <= Lived(es).moved
    ensures es != [] && es[|es| - 1].Send? ==> (Total(es) == Lived(es).moved <==> Lived(es).clean)
  {
    BytesConserved(es);
  }

  lemma TotalNeverDecreases(es: seq<Event>)
    requires es != []
    ensures Total(es[..|es| - 1]) <= Total(es)
  {
    hide FoldAll;
    BytesConserved(es[..|es| - 1]);
    BytesConserved(es);
    if es[|es| - 1].Send? {
      CountedSend(es);
    }
  }

  /** The same for a node among others, as recorded in the database. */
  lemma RecordedTotalExactly(rs: seq<Report>, node: int, es: seq<Event>)
    requires es != [] && es[|es| - 1].Send? && RawsOf(rs, node) == Sent(es)
    ensures CounterOf(Recorded(rs), node).Some?
    ensures CounterOf(Recorded(rs), node).value.Cum() <= Lived(es).moved
    ensures CounterOf(Recorded(rs), node).value.Cum() == Lived(es).moved <==> Lived(es).clean
  {
    hide FoldAll, Recorded;
    NodesIndependent(rs, node);
    CountedSend(es);
    TotalExactly(es);
  }

  /** A restart whose new count passes the old one before the next report loses the old count. */
  lemma HiddenRestartLoses(a: nat, b: nat)
    requires 0 < a <= b
    ensures var es := [Move(a), Send, Restart, Move(b), Send];
            Total(es) == b && Lived(es).moved == a + b
  {
    var e1, e2 := [Move(a)], [Move(a), Send];
    var e3, e4 := [Move(a), Send, Restart], [Move(a), Send, Restart, Move(b)];
    var e5 := [Move(a), Send, Restart, Move(b), Send];
    assert e1[..0] == [] && e2[..1] == e1 && e3[..2] == e2 && e4[..3] == e3 && e5[..4] == e4;
    assert Lived(e1) == Life(a, a, 0, false, 0, 0, true);
    assert Lived(e2) == Life(a, a, a, false, 0, 0, true);
    assert Lived(e3) == Life(0, a, a, true, 0, 0, true);
    assert Lived(e4) == Life(b, a + b, a, true, 0, 0, true);
    CountedSend(e2);
    CountedSend(e5);
    assert Sent(e1) == [] && Sent(e3) == Sent(e2) && Sent(e4) == Sent(e3);
  }
}
