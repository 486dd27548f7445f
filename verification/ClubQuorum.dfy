/** The recommendation quorum of a run, told from its operations. */
module ClubQuorum {
  import opened Common
  import opened Clubs

  function After(ops: seq<Op>): Log {
    if ops == [] then [] else Apply(After(ops[..|ops| - 1]), ops[|ops| - 1])
  }

  lemma MemberSnoc(log: Log, e: Event, club: int, user: int)
    ensures IsMember(log + [e], club, user) ==
            if IsDecision(e, club, user) then e.kind == Granted else IsMember(log, club, user)
  {
    assert (log + [e])[..|log|] == log;
  }

  /** Operation `op`, applied to `log`, granted by quorum. */
  ghost predicate GrantsByQuorum(log: Log, op: Op) {
    op.Recommend? &&
    var log1 := Recorded(log, op.club, op.user, op.sponsor);
    !IsMember(log1, op.club, op.user) && Quorum(log1, op.club, op.user)
  }

  /** Three distinct current Cat Club members, or two distinct current Elite members, recommended the user. */
  lemma QuorumMeans(log: Log, club: int, user: int)
    ensures Quorum(log, club, user) <==>
            club == CAT && (|Qualifying(log, CAT, user, CAT)| >= 3 || |Qualifying(log, CAT, user, ELITE)| >= 2)
  {
    hide Qualifying;
  }

  // ---- Who recommended, told from the operations ------------------------------------------

  /** The users who recommended `user` for `club`; an id that is not positive counts as nobody. */
  function Sponsors(ops: seq<Op>, club: int, user: int): set<int> {
    if ops == [] then {}
    else
      var op := ops[|ops| - 1];
      Sponsors(ops[..|ops| - 1], club, user)
      + if op.Recommend? && op.club == club && op.user == user && op.sponsor > 0 then {op.sponsor} else {}
  }

  lemma {:induction false} SponsorsExactly(ops: seq<Op>, club: int, user: int, s: int)
    ensures s in Sponsors(ops, club, user) <==> s > 0 && Recommend(club, user, s) in ops
  {
    if ops != [] {
      var n := |ops| - 1;
      SponsorsExactly(ops[..n], club, user, s);
      assert ops == ops[..n] + [ops[n]];
    }
  }

  lemma RecommendersSnoc(log: Log, e: Event, club: int, user: int, s: int)
    ensures s in Recommenders(log + [e], club, user)
            <==> s in Recommenders(log, club, user) || (IsRecommendation(e, club, user) && e.actor.value == s)
    ensures !IsRecommendation(e, club, user) ==> Recommenders(log + [e], club, user) == Recommenders(log, club, user)
  {
    assert (log + [e])[..|log|] == log;
  }

  lemma RecommendersStep(log: Log, op: Op, club: int, user: int, s: int)
    ensures s in Recommenders(Apply(log, op), club, user)
            <==> s in Recommenders(log, club, user) || (s > 0 && op == Recommend(club, user, s))
  {
    hide IsMember, Quorum, Assign, Recommenders;
    match op
    case AdminGrant(c, u, a) =>
      RecommendersSnoc(log, Event(c, u, Granted, Nullable(a), Nullable(Assign(log, c, u))), club, user, s);
    case AdminRevoke(c, u, a) => RecommendersSnoc(log, Event(c, u, Revoked, Nullable(a), None), club, user, s);
    case AdminInvite(c, u, a) => RecommendersSnoc(log, Event(c, u, Invite, Nullable(a), None), club, user, s);
    case Recommend(c, u, x) =>
      RecommendersSnoc(log, Event(c, u, Recommendation, Nullable(x), None), club, user, s);
      var log1 := Recorded(log, c, u, x);
      RecommendersSnoc(log1, Event(c, u, Granted, None, Nullable(Assign(log1, c, u))), club, user, s);
  }

  lemma {:induction false} SponsorsAreRecorded(ops: seq<Op>, club: int, user: int, s: int)
    ensures s in Recommenders(After(ops), club, user) <==> s in Sponsors(ops, club, user)
  {
    if ops == [] {
      NobodyRecommended(club, user);
    } else {
      var n := |ops| - 1;
      SponsorsAreRecorded(ops[..n], club, user, s);
      RecommendersStep(After(ops[..n]), ops[n], club, user, s);
      hide Apply, Recommenders;
    }
  }

  /**
   In every run the recommendation rows of a candidate are those of the Recommend operations
   for them: an invitation or a grant is not one.
   */
  lemma RecommendationsAreOperations(ops: seq<Op>, club: int, user: int, s: int)
    ensures (exists i: nat :: Recommended(After(ops), i, club, user, s)) <==> s > 0 && Recommend(club, user, s) in ops
  {
    hide After, Recommenders, Recommended, Sponsors;
    RecommendersExactly(After(ops), club, user, s);
    SponsorsAreRecorded(ops, club, user, s);
    SponsorsExactly(ops, club, user, s);
  }

  lemma NobodyRecommended(club: int, user: int)
    ensures Recommenders([], club, user) == []
  {
  }

  // ---- The quorum, told from the operations ------------------------------------------------

  /** Those of the users who are members of `source` after these operations. */
  function MembersOf(ops: seq<Op>, users: set<int>, source: int): set<int> {
    set u | u in users && IsMember(After(ops), source, u)
  }

  /**
   Operation `j` of the run is a recommendation that completes a quorum: the candidate is no
   member of the Cat Club, and at least three of its members, or two members of the Elite
   club, have made a recommendation for the candidate up to now.
   */
  ghost predicate QuorumAt(ops: seq<Op>, j: nat) {
    && j < |ops| && ops[j].Recommend? && ops[j].club == CAT
    && !IsMember(After(ops[..j]), CAT, ops[j].user)
    && var sponsors := Sponsors(ops[..j + 1], CAT, ops[j].user);
       |MembersOf(ops[..j], sponsors, CAT)| >= 3 || |MembersOf(ops[..j], sponsors, ELITE)| >= 2
  }

  lemma QuorumAtPrefix(ops: seq<Op>, more: seq<Op>, j: nat)
    requires j < |ops|
    ensures QuorumAt(ops + more, j) <==> QuorumAt(ops, j)
  {
    hide Sponsors, MembersOf, After, IsMember;
    assert (ops + more)[..j] == ops[..j] && (ops + more)[..j + 1] == ops[..j + 1];
  }

  lemma SameSet<T>(a: set<T>, b: set<T>)
    requires forall x :: x in a <==> x in b
    ensures a == b
  {
  }

  /** Who qualifies just after the row of a recommendation. */
  lemma QualifyingAt(ops: seq<Op>, op: Op, source: int)
    requires op.Recommend?
    ensures Qualifying(Recorded(After(ops), op.club, op.user, op.sponsor), op.club, op.user, source)
            == MembersOf(ops, Sponsors(ops + [op], op.club, op.user), source)
  {
    hide IsMember, Recommenders, After, Sponsors;
    var log := After(ops);
    var e := Event(op.club, op.user, Recommendation, Nullable(op.sponsor), None);
    var log1 := log + [e];
    var a := Qualifying(log1, op.club, op.user, source);
    var sponsors := Sponsors(ops + [op], op.club, op.user);
    forall s
      ensures s in a <==> s in MembersOf(ops, sponsors, source)
    {
      MemberSnoc(log, e, source, s);
      RecommendersSnoc(log, e, op.club, op.user, s);
      SponsorsAreRecorded(ops, op.club, op.user, s);
      SponsorsExactly(ops, op.club, op.user, s);
      SponsorsExactly(ops + [op], op.club, op.user, s);
    }
    SameSet(a, MembersOf(ops, sponsors, source));
  }

  /** The quorum the code finds in the log is the one of the operations. */
  lemma QuorumAtExactly(ops: seq<Op>, j: nat)
    requires j < |ops|
    ensures QuorumAt(ops, j) <==> GrantsByQuorum(After(ops[..j]), ops[j])
  {
    hide IsMember, Quorum, Qualifying, After, Sponsors, MembersOf;
    var op := ops[j];
    if op.Recommend? {
      var log := After(ops[..j]);
      MemberSnoc(log, Event(op.club, op.user, Recommendation, Nullable(op.sponsor), None), op.club, op.user);
      QuorumMeans(Recorded(log, op.club, op.user, op.sponsor), op.club, op.user);
      assert ops[..j] + [op] == ops[..j + 1];
      QualifyingAt(ops[..j], op, CAT);
      QualifyingAt(ops[..j], op, ELITE);
    }
  }
}
