/**
 Club membership: an append-only event log, with membership, permanent numbers and
 the recommendation quorum all derived from it.
 */
module Clubs {
  import opened Common

  datatype Kind = Invite | Recommendation | Granted | Revoked

  /** One row of club_membership_events; its id is its position. */
  datatype Event = Event(club: int, target: int, kind: Kind, actor: Option<int>, number: Option<int>)

  type Log = seq<Event>

  datatype Club = Club(thresholdCat: int, thresholdElite: int, subsumes: Option<int>)

  // The two seeded clubs, in id order.
  const CAT := 1
  const ELITE := 2
  const SEEDED: map<int, Club> := map[CAT := Club(3, 2, None), ELITE := Club(0, 0, Some(CAT))]

  // ---- Queries --------------------------------------------------------------------

  predicate IsDecision(e: Event, club: int, user: int) {
    e.club == club && e.target == user && (e.kind == Granted || e.kind == Revoked)
  }

  /** IsClubMember: the latest granted or revoked row of the pair is a grant. */
  predicate IsMember(log: Log, club: int, user: int) {
    log != [] &&
    var e := log[|log| - 1];
    if IsDecision(e, club, user) then e.kind == Granted else IsMember(log[..|log| - 1], club, user)
  }

  predicate IsGrant(e: Event, club: int) {
    e.club == club && e.kind == Granted
  }

  /** The number on the first numbered grant of the pair. */
  function FirstNumber(log: Log, club: int, user: int): Option<int> {
    if log == [] then None
    else
      var n := FirstNumber(log[..|log| - 1], club, user);
      var e := log[|log| - 1];
      if n.None? && IsGrant(e, club) && e.target == user then e.number else n
  }

  /** MAX(membership_number) over the grants of a club; NULLs are ignored. */
  function MaxNumber(log: Log, club: int): Option<int> {
    if log == [] then None
    else
      var n := MaxNumber(log[..|log| - 1], club);
      var e := log[|log| - 1];
      if IsGrant(e, club) && e.number.Some? && (n.Some? ==> n.value < e.number.value) then e.number else n
  }

  /** assignMembershipNumber. */
  function Assign(log: Log, club: int, user: int): int {
    var existing := FirstNumber(log, club, user);
    if existing.Some? then existing.value
    else
      var max := MaxNumber(log, club);
      if max.Some? then max.value + 1 else 1
  }

  /** MembershipNumber: the permanent number of a current member. */
  function MembershipNumber(log: Log, club: int, user: int): Option<int> {
    if IsMember(log, club, user) then FirstNumber(log, club, user) else None
  }

  predicate IsRecommendation(e: Event, club: int, user: int) {
    e.club == club && e.target == user && e.kind == Recommendation && e.actor.Some?
  }

  /** SELECT DISTINCT actor_user over the recommendations of a candidate. */
  function Recommenders(log: Log, club: int, user: int): (rows: seq<int>)
    ensures forall i, j :: 0 <= i < j < |rows| ==> rows[i] != rows[j]
  {
    if log == [] then []
    else
      var rows := Recommenders(log[..|log| - 1], club, user);
      var e := log[|log| - 1];
      if IsRecommendation(e, club, user) && e.actor.value !in rows then rows + [e.actor.value] else rows
  }

  function MembersAmong(log: Log, rows: seq<int>, source: int): (s: set<int>)
    ensures forall a :: a in s <==> a in rows && IsMember(log, source, a)
  {
    if rows == [] then {}
    else
      var a := rows[|rows| - 1];
      MembersAmong(log, rows[..|rows| - 1], source) + if IsMember(log, source, a) then {a} else {}
  }

  lemma NoneAmongNobody(log: Log, source: int)
    ensures MembersAmong(log, [], source) == {}
  {
  }

  lemma OneMoreRow(log: Log, rows: seq<int>, i: nat, source: int)
    requires i < |rows| && forall j, k :: 0 <= j < k < |rows| ==> rows[j] != rows[k]
    ensures |MembersAmong(log, rows[..i + 1], source)|
            == |MembersAmong(log, rows[..i], source)| + if IsMember(log, source, rows[i]) then 1 else 0
  {
    hide IsMember;
    var before := MembersAmong(log, rows[..i], source);
    assert rows[..i + 1][..i] == rows[..i] && rows[..i + 1][i] == rows[i];
    assert rows[i] !in rows[..i];
    assert rows[i] !in before;
  }

  /** The distinct recommenders who are members of `source` now. */
  function Qualifying(log: Log, club: int, user: int, source: int): set<int> {
    MembersAmong(log, Recommenders(log, club, user), source)
  }

  ghost predicate Recommended(log: Log, i: nat, club: int, user: int, sponsor: int) {
    i < |log| && IsRecommendation(log[i], club, user) && log[i].actor.value == sponsor
  }

  /** The rows of that query are the actors of the recommendations, whatever their order. */
  lemma {:induction false} RecommendersExactly(log: Log, club: int, user: int, sponsor: int)
    ensures sponsor in Recommenders(log, club, user) <==> exists i: nat :: Recommended(log, i, club, user, sponsor)
  {
    if log != [] {
      var n := |log| - 1;
      RecommendersExactly(log[..n], club, user, sponsor);
      if sponsor in Recommenders(log[..n], club, user) {
        var i: nat :| Recommended(log[..n], i, club, user, sponsor);
        assert Recommended(log, i, club, user, sponsor);
      } else if IsRecommendation(log[n], club, user) && log[n].actor.value == sponsor {
        assert Recommended(log, n, club, user, sponsor);
      } else {
        forall i: nat | Recommended(log, i, club, user, sponsor)
          ensures Recommended(log[..n], i, club, user, sponsor)
        {
        }
      }
    }
  }

  /** Who qualifies: the users who recommended the candidate at any time and are members now. */
  lemma QualifyingExactly(log: Log, club: int, user: int, source: int, sponsor: int)
    ensures sponsor in Qualifying(log, club, user, source)
            <==> IsMember(log, source, sponsor) && exists i: nat :: Recommended(log, i, club, user, sponsor)
  {
    hide IsMember, Recommenders;
    RecommendersExactly(log, club, user, sponsor);
  }

  // ---- Operations -----------------------------------------------------------------

  function Nullable(id: int): Option<int> {
    if id > 0 then Some(id) else None
  }

  function Insert(log: Log, club: int, user: int, kind: Kind, actor: int, number: int): Log {
    log + [Event(club, user, kind, Nullable(actor), Nullable(number))]
  }

  function Grant(log: Log, club: int, user: int, actor: int): Log {
    Insert(log, club, user, Granted, actor, Assign(log, club, user))
  }

  /** The condition of maybeAutoGrant, thresholds of zero or less switching a path off. */
  predicate Quorum(log: Log, club: int, user: int) {
    && club in SEEDED
    && (|| (SEEDED[club].thresholdCat > 0 && |Qualifying(log, club, user, CAT)| >= SEEDED[club].thresholdCat)
        || (SEEDED[club].thresholdElite > 0 && |Qualifying(log, club, user, ELITE)| >= SEEDED[club].thresholdElite))
  }

  function AutoGrant(log: Log, club: int, user: int): Log {
    if !IsMember(log, club, user) && Quorum(log, club, user) then Grant(log, club, user, 0) else log
  }

  datatype Op =
    | AdminGrant(club: int, user: int, admin: int)
    | AdminRevoke(club: int, user: int, admin: int)
    | AdminInvite(club: int, user: int, admin: int)
    | Recommend(club: int, user: int, sponsor: int)

  /** The log just after the recommendation row of a Recommend. */
  function Recorded(log: Log, club: int, user: int, sponsor: int): Log {
    Insert(log, club, user, Recommendation, sponsor, 0)
  }

  function Apply(log: Log, op: Op): Log {
    match op
    case AdminGrant(c, u, a) => Grant(log, c, u, a)
    case AdminRevoke(c, u, a) => Insert(log, c, u, Revoked, a, 0)
    case AdminInvite(c, u, a) => Insert(log, c, u, Invite, a, 0)
    case Recommend(c, u, s) => AutoGrant(Recorded(log, c, u, s), c, u)
  }

  class ClubTables {
    var events: Log

    constructor ()
      ensures events == []
    {
      events := [];
    }

    /** countQualifyingRecommenders: one membership query per distinct recommender. */
    method CountQualifying(club: int, user: int, source: int) returns (n: nat)
      ensures n == |Qualifying(events, club, user, source)|
    {
      hide IsMember, MembersAmong, Recommenders;
      n := 0;
      var rows := Recommenders(events, club, user);
      NoneAmongNobody(events, source);
      for i := 0 to |rows|
        invariant n == |MembersAmong(events, rows[..i], source)|
      {
        if IsMember(events, source, rows[i]) {
          n := n + 1;
        }
        OneMoreRow(events, rows, i, source);
      }
      assert rows[..|rows|] == rows;
    }

    method GrantClubMembership(club: int, user: int, actor: int)
      modifies this
      ensures events == Grant(old(events), club, user, actor)
    {
      var number := Assign(events, club, user);
      events := Insert(events, club, user, Granted, actor, number);
    }

    method RevokeClubMembership(club: int, user: int, actor: int)
      modifies this
      ensures events == Apply(old(events), AdminRevoke(club, user, actor))
    {
      events := Insert(events, club, user, Revoked, actor, 0);
    }

    method InviteToClub(club: int, user: int, actor: int)
      modifies this
      ensures events == Apply(old(events), AdminInvite(club, user, actor))
    {
      events := Insert(events, club, user, Invite, actor, 0);
    }

    /** RecommendClubMembership; it fails on an unknown club, after recording the row. */
    method RecommendClubMembership(club: int, user: int, sponsor: int) returns (ok: bool)
      modifies this
      ensures events == Apply(old(events), Recommend(club, user, sponsor))
      ensures ok <==> club in SEEDED
    {
      events := Insert(events, club, user, Recommendation, sponsor, 0);
      ok := MaybeAutoGrant(club, user);
    }

    method MaybeAutoGrant(club: int, user: int) returns (ok: bool)
      modifies this
      ensures events == AutoGrant(old(events), club, user)
      ensures ok <==> club in SEEDED
    {
      hide Qualifying, IsMember;
      if club !in SEEDED {
        return false;
      }
      var row := SEEDED[club];
      if row.thresholdCat <= 0 && row.thresholdElite <= 0 {
        return true;
      }
      if IsMember(events, club, user) {
        return true;
      }
      if row.thresholdCat > 0 {
        var n := CountQualifying(club, user, CAT);
        if n >= row.thresholdCat {
          GrantClubMembership(club, user, 0);
          return true;
        }
      }
      if row.thresholdElite > 0 {
        var n := CountQualifying(club, user, ELITE);
        if n >= row.thresholdElite {
          GrantClubMembership(club, user, 0);
          return true;
        }
      }
      return true;
    }

    /** HasClubAccess: a direct grant, or one in a club that subsumes this one. */
    method HasClubAccess(club: int, user: int) returns (access: bool)
      ensures access <==> IsMember(events, club, user) || (club == CAT && IsMember(events, ELITE, user))
    {
      if IsMember(events, club, user) {
        return true;
      }
      var supersets := set id | id in SEEDED && SEEDED[id].subsumes == Some(club);
      assert supersets == if club == CAT then {ELITE} else {};
      while supersets != {}
        invariant supersets <= {ELITE} && (club != CAT ==> supersets == {})
        invariant club == CAT && ELITE !in supersets ==> !IsMember(events, ELITE, user)
        decreases supersets
      {
        var id :| id in supersets;
        supersets := supersets - {id};
        if IsMember(events, id, user) {
          return true;
        }
      }
      return false;
    }
  }
}
