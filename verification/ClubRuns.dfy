/** What every run of club operations guarantees, starting from an empty event log. */
module ClubRuns {
  import opened Common
  import opened Clubs
  import opened ClubQuorum

  // ---- Membership ------------------------------------------------------------------

  ghost predicate IsLatest(log: Log, club: int, user: int, k: nat) {
    && k < |log| && IsDecision(log[k], club, user)
    && forall i :: k < i < |log| ==> !IsDecision(log[i], club, user)
  }

  /** The query of ClubMembers, a row with the maximal id, agrees with IsClubMember. */
  lemma {:induction false} MemberIffLatestGranted(log: Log, club: int, user: int)
    ensures IsMember(log, club, user) <==> exists k: nat :: IsLatest(log, club, user, k) && log[k].kind == Granted
  {
    if log != [] {
      var n := |log| - 1;
      MemberIffLatestGranted(log[..n], club, user);
      if IsDecision(log[n], club, user) {
        assert IsLatest(log, club, user, n);
      } else {
        forall k: nat
          ensures IsLatest(log, club, user, k) <==> IsLatest(log[..n], club, user, k)
        {
        }
        if IsMember(log, club, user) {
          var k: nat :| IsLatest(log[..n], club, user, k) && log[..n][k].kind == Granted;
          assert IsLatest(log, club, user, k) && log[k].kind == Granted;
        }
      }
    }
  }

  /** The membership of a pair that an operation should leave. */
  predicate ShouldBeMember(log: Log, op: Op, club: int, user: int) {
    if op.club != club || op.user != user then IsMember(log, club, user)
    else match op
      case AdminGrant(_, _, _) => true
      case AdminRevoke(_, _, _) => false
      case AdminInvite(_, _, _) => IsMember(log, club, user)
      case Recommend(c, u, sponsor) => IsMember(log, c, u) || Quorum(Recorded(log, c, u, sponsor), c, u)
  }

  /** Operations change no other pair, and a recommendation admits exactly at a quorum. */
  lemma MembershipStep(log: Log, op: Op, club: int, user: int)
    ensures IsMember(Apply(log, op), club, user) == ShouldBeMember(log, op, club, user)
  {
    hide IsMember, Quorum, Assign;
    match op
    case AdminGrant(c, u, a) => MemberSnoc(log, Event(c, u, Granted, Nullable(a), Nullable(Assign(log, c, u))), club, user);
    case AdminRevoke(c, u, a) => MemberSnoc(log, Event(c, u, Revoked, Nullable(a), None), club, user);
    case AdminInvite(c, u, a) => MemberSnoc(log, Event(c, u, Invite, Nullable(a), None), club, user);
    case Recommend(c, u, s) =>
      var log1 := Recorded(log, c, u, s);
      var e := Event(c, u, Recommendation, Nullable(s), None);
      assert log1 == log + [e];
      MemberSnoc(log, e, club, user);
      MemberSnoc(log, e, c, u);
      MemberSnoc(log1, Event(c, u, Granted, None, Nullable(Assign(log1, c, u))), club, user);
  }

  // ---- Where grants come from ---------------------------------------------------------

  ghost predicate Explains(ops: seq<Op>, j: nat, e: Event) {
    && j < |ops| && ops[j].club == e.club && ops[j].user == e.target
    && (|| (ops[j].AdminGrant? && e.actor == Nullable(ops[j].admin))
        || (e.club == CAT && e.actor == None && QuorumAt(ops, j)))
  }

  lemma ExplainsLonger(ops: seq<Op>, op: Op, j: nat, e: Event)
    requires Explains(ops, j, e)
    ensures Explains(ops + [op], j, e)
  {
    hide QuorumAt;
    QuorumAtPrefix(ops, [op], j);
  }

  /** Every grant in the log of any run was an admin's step, or a Cat Club grant by a quorum met at that moment. */
  lemma {:induction false} GrantProvenance(ops: seq<Op>, k: nat)
    requires k < |After(ops)| && After(ops)[k].kind == Granted
    ensures exists j: nat :: Explains(ops, j, After(ops)[k])
  {
    hide Quorum, IsMember, Assign, QuorumAt;
    var n := |ops| - 1;
    var before, op := ops[..n], ops[n];
    var log := After(before);
    var e := After(ops)[k];
    assert ops == before + [op];
    if k < |log| {
      assert e == log[k];
      GrantProvenance(before, k);
      var j: nat :| Explains(before, j, log[k]);
      ExplainsLonger(before, op, j, e);
    } else {
      if op.Recommend? {
        QuorumMeans(Recorded(log, op.club, op.user, op.sponsor), op.club, op.user);
      }
      QuorumAtExactly(ops, n);
      assert Explains(ops, n, e);
    }
  }

  /** Elite membership is only ever granted by an admin. */
  lemma EliteGrantsAreAdmin(ops: seq<Op>, k: nat)
    requires k < |After(ops)| && After(ops)[k].kind == Granted && After(ops)[k].club == ELITE
    ensures exists j, admin :: 0 <= j < |ops| && ops[j] == AdminGrant(ELITE, After(ops)[k].target, admin)
  {
    hide After, QuorumAt;
    GrantProvenance(ops, k);
    var j: nat :| Explains(ops, j, After(ops)[k]);
    assert ops[j] == AdminGrant(ELITE, After(ops)[k].target, ops[j].admin);
  }

  /** Step `j` of the run grants: an admin's step, or a recommendation that meets the quorum. */
  ghost predicate Admits(ops: seq<Op>, j: nat, club: int, user: int) {
    && j < |ops| && ops[j].club == club && ops[j].user == user
    && (ops[j].AdminGrant? || QuorumAt(ops, j))
  }

  predicate Revokes(op: Op, club: int, user: int) {
    op.AdminRevoke? && op.club == club && op.user == user
  }

  ghost predicate AdmittedSince(ops: seq<Op>, j: nat, club: int, user: int) {
    Admits(ops, j, club, user) && forall i :: j < i < |ops| ==> !Revokes(ops[i], club, user)
  }

  lemma AdmittedLonger(ops: seq<Op>, op: Op, j: nat, club: int, user: int)
    requires j < |ops|
    ensures AdmittedSince(ops + [op], j, club, user) <==> AdmittedSince(ops, j, club, user) && !Revokes(op, club, user)
  {
    hide QuorumAt, Revokes;
    var longer := ops + [op];
    QuorumAtPrefix(ops, [op], j);
    assert longer[|ops|] == op;
    assert forall i :: 0 <= i < |ops| ==> longer[i] == ops[i];
  }

  lemma AdmitsNow(ops: seq<Op>, op: Op, club: int, user: int)
    ensures AdmittedSince(ops + [op], |ops|, club, user)
            <==> op.club == club && op.user == user && (op.AdminGrant? || GrantsByQuorum(After(ops), op))
  {
    hide GrantsByQuorum, After, QuorumAt;
    assert (ops + [op])[..|ops|] == ops;
    QuorumAtExactly(ops + [op], |ops|);
  }

  lemma MembershipKept(log: Log, op: Op, club: int, user: int)
    ensures IsMember(Apply(log, op), club, user)
            <==> || (op.club == club && op.user == user && (op.AdminGrant? || GrantsByQuorum(log, op)))
                 || (IsMember(log, club, user) && !Revokes(op, club, user))
  {
    hide IsMember, Quorum, Apply;
    MembershipStep(log, op, club, user);
    if op.Recommend? {
      MemberSnoc(log, Event(op.club, op.user, Recommendation, Nullable(op.sponsor), None), op.club, op.user);
    }
  }

  /**
   In every run, a user is a member exactly when some admin's grant or some quorum admitted
   them and no admin revoked the membership since.
   */
  lemma {:induction false} MemberIffAdmitted(ops: seq<Op>, club: int, user: int)
    ensures IsMember(After(ops), club, user) <==> exists j: nat :: AdmittedSince(ops, j, club, user)
  {
    if ops == [] {
      NobodyAtFirst(club, user);
    } else {
      var n := |ops| - 1;
      var before, op := ops[..n], ops[n];
      assert ops == before + [op];
      MemberIffAdmitted(before, club, user);
      hide IsMember, Apply, AdmittedSince, GrantsByQuorum;
      MembershipKept(After(before), op, club, user);
      AdmitsNow(before, op, club, user);
      forall j: nat
        ensures AdmittedSince(ops, j, club, user) <==>
                if j < n then AdmittedSince(before, j, club, user) && !Revokes(op, club, user)
                else j == n && AdmittedSince(before + [op], n, club, user)
      {
        if j < n {
          AdmittedLonger(before, op, j, club, user);
        } else if j > n {
          NotBeyond(ops, j, club, user);
        }
      }
      forall j: nat | AdmittedSince(before, j, club, user)
        ensures j < n
      {
        NotBeyond(before, j, club, user);
      }
    }
  }

  lemma NotBeyond(ops: seq<Op>, j: nat, club: int, user: int)
    ensures AdmittedSince(ops, j, club, user) ==> j < |ops|
  {
  }

  /** The users an admin granted some club. */
  function AdminGranted(ops: seq<Op>): set<int> {
    if ops == [] then {}
    else AdminGranted(ops[..|ops| - 1]) + if ops[|ops| - 1].AdminGrant? then {ops[|ops| - 1].user} else {}
  }

  lemma {:induction false} MembersWereAdmitted(ops: seq<Op>, club: int, user: int)
    requires forall j :: 0 <= j < |ops| ==> !QuorumAt(ops, j)
    requires IsMember(After(ops), club, user)
    ensures user in AdminGranted(ops)
  {
    hide IsMember, Quorum, Apply, QuorumAt;
    if ops == [] {
      NobodyAtFirst(club, user);
      assert false;
    } else {
      var n := |ops| - 1;
      var before := ops[..n];
      MembershipStep(After(before), ops[n], club, user);
      if IsMember(After(before), club, user) {
        NoQuorumBefore(ops, n);
        MembersWereAdmitted(before, club, user);
      } else {
        QuorumAtExactly(ops, n);
        if ops[n].Recommend? {
          MemberSnoc(After(before), Event(club, user, Recommendation, Nullable(ops[n].sponsor), None), club, user);
        }
      }
    }
  }

  lemma NoQuorumBefore(ops: seq<Op>, n: nat)
    requires n <= |ops| && forall j :: 0 <= j < n ==> !QuorumAt(ops, j)
    ensures forall j :: 0 <= j < n ==> !QuorumAt(ops[..n], j)
  {
    hide QuorumAt;
    assert ops == ops[..n] + ops[n..];
    forall j | 0 <= j < n
      ensures !QuorumAt(ops[..n], j)
    {
      QuorumAtPrefix(ops[..n], ops[n..], j);
    }
  }

  lemma NobodyAtFirst(club: int, user: int)
    ensures !IsMember([], club, user)
  {
  }

  /** The first automatic grant of any run comes after admin grants to at least two different users. */
  lemma QuorumNeedsAdmins(ops: seq<Op>, i: nat)
    requires i < |ops| && QuorumAt(ops, i)
    requires forall j :: 0 <= j < i ==> !QuorumAt(ops, j)
    ensures |AdminGranted(ops[..i])| >= 2
  {
    hide IsMember, Quorum, Recommenders, AdminGranted, QuorumAt;
    QuorumAtExactly(ops, i);
    NoQuorumBefore(ops, i);
    var before, op := ops[..i], ops[i];
    var log := After(before);
    var log1 := Recorded(log, op.club, op.user, op.sponsor);
    QuorumMeans(log1, op.club, op.user);
    forall source, a | a in Qualifying(log1, CAT, op.user, source)
      ensures a in AdminGranted(before)
    {
      MemberSnoc(log, Event(op.club, op.user, Recommendation, Nullable(op.sponsor), None), source, a);
      MembersWereAdmitted(before, source, a);
    }
    AtLeast(Qualifying(log1, CAT, op.user, CAT), AdminGranted(before));
    AtLeast(Qualifying(log1, CAT, op.user, ELITE), AdminGranted(before));
  }

  lemma {:induction false} AtLeast(s: set<int>, t: set<int>)
    requires s <= t
    ensures |s| <= |t|
  {
    assert t == s + (t - s);
  }

  // ---- Membership numbers ----------------------------------------------------------------

  /** The users granted a club, in the order of their first grant. */
  function FirstGrants(log: Log, club: int): (users: seq<int>)
    ensures forall i, j :: 0 <= i < j < |users| ==> users[i] != users[j]
  {
    if log == [] then []
    else
      var users := FirstGrants(log[..|log| - 1], club);
      var e := log[|log| - 1];
      if IsGrant(e, club) && e.target !in users then users + [e.target] else users
  }

  /** The number a user should have: one more than the users first granted before. */
  function Rank(users: seq<int>, user: int): (n: nat)
    requires user in users
    ensures 1 <= n <= |users| && users[n - 1] == user
  {
    if users[|users| - 1] == user then |users| else Rank(users[..|users| - 1], user)
  }

  lemma RankUnique(users: seq<int>, user: int, i: nat)
    requires i < |users| && users[i] == user
    requires forall i, j :: 0 <= i < j < |users| ==> users[i] != users[j]
    ensures Rank(users, user) == i + 1
  {
  }

  ghost predicate Numbered(log: Log, club: int) {
    forall k :: 0 <= k < |log| && IsGrant(log[k], club) ==>
      && log[k].target in FirstGrants(log, club)
      && log[k].number == Some(Rank(FirstGrants(log, club), log[k].target))
  }

  lemma FirstGrantsSnoc(log: Log, e: Event, club: int)
    ensures var users := FirstGrants(log, club);
            FirstGrants(log + [e], club) == if IsGrant(e, club) && e.target !in users then users + [e.target] else users
  {
    assert (log + [e])[..|log|] == log;
  }

  lemma RankSnoc(users: seq<int>, last: int, user: int)
    requires user in users && last !in users
    ensures Rank(users + [last], user) == Rank(users, user)
  {
    assert (users + [last])[..|users|] == users;
  }

  /** What assignMembershipNumber reads off a correctly numbered log. */
  lemma {:induction false} NumbersRead(log: Log, club: int, user: int)
    requires Numbered(log, club)
    ensures var users := FirstGrants(log, club);
            && FirstNumber(log, club, user) == (if user in users then Some(Rank(users, user)) else None)
            && MaxNumber(log, club) == (if users == [] then None else Some(|users|))
  {
    hide Rank;
    if log != [] {
      var n := |log| - 1;
      var r, e := log[..n], log[n];
      assert log == r + [e];
      var old_ := FirstGrants(r, club);
      FirstGrantsSnoc(r, e, club);
      NumberedPrefix(r, e, club);
      NumbersRead(r, club, user);
      if IsGrant(e, club) {
        assert log[n].number == Some(Rank(FirstGrants(log, club), e.target));
        if e.target !in old_ {
          assert (old_ + [e.target])[|old_|] == e.target;
          RankUnique(old_ + [e.target], e.target, |old_|);
          if user in old_ {
            RankSnoc(old_, e.target, user);
          }
        }
      }
    }
  }

  lemma NumberedPrefix(log: Log, e: Event, club: int)
    requires Numbered(log + [e], club)
    ensures Numbered(log, club)
  {
    hide Rank;
    FirstGrantsSnoc(log, e, club);
    var users := FirstGrants(log, club);
    forall k | 0 <= k < |log| && IsGrant(log[k], club)
      ensures log[k].target in users && log[k].number == Some(Rank(users, log[k].target))
    {
      assert (log + [e])[k] == log[k];
      GrantedIsListed(log, club, k);
      if IsGrant(e, club) && e.target !in users {
        RankSnoc(users, e.target, log[k].target);
      }
    }
  }

  lemma {:induction false} GrantedIsListed(log: Log, club: int, k: nat)
    requires k < |log| && IsGrant(log[k], club)
    ensures log[k].target in FirstGrants(log, club)
  {
    var n := |log| - 1;
    if k < n {
      GrantedIsListed(log[..n], club, k);
    }
  }

  /** The number to assign: the user's rank, or the next one. */
  lemma AssignIsRank(log: Log, club: int, user: int)
    requires Numbered(log, club)
    ensures var users := FirstGrants(log, club);
            var next := if user in users then users else users + [user];
            user in next && Assign(log, club, user) == Rank(next, user)
  {
    hide Rank, FirstNumber, MaxNumber, Numbered, FirstGrants;
    NumbersRead(log, club, user);
    var users := FirstGrants(log, club);
    if user !in users {
      var next := users + [user];
      assert next[|users|] == user;
      RankUnique(next, user, |users|);
    }
  }

  lemma NumberedSnoc(log: Log, e: Event, club: int)
    requires Numbered(log, club)
    requires IsGrant(e, club) ==> e.number == Nullable(Assign(log, club, e.target))
    ensures Numbered(log + [e], club)
  {
    hide Rank, Assign, FirstGrants;
    var users := FirstGrants(log, club);
    FirstGrantsSnoc(log, e, club);
    AssignIsRank(log, club, e.target);
    var t := log + [e];
    forall k | 0 <= k < |t| && IsGrant(t[k], club)
      ensures t[k].target in FirstGrants(t, club) && t[k].number == Some(Rank(FirstGrants(t, club), t[k].target))
    {
      if k < |log| {
        assert t[k] == log[k];
        if IsGrant(e, club) && e.target !in users {
          RankSnoc(users, e.target, t[k].target);
        }
      }
    }
  }

  /** In every run, a member's number is its place in the order of first grants. */
  lemma {:induction false} NumbersInOrder(ops: seq<Op>, club: int)
    ensures Numbered(After(ops), club)
  {
    hide Numbered, Quorum, IsMember, Assign;
    if ops == [] {
      NumberedEmpty(club);
    } else {
      var n := |ops| - 1;
      var log := After(ops[..n]);
      NumbersInOrder(ops[..n], club);
      match ops[n]
      case AdminGrant(c, u, a) => NumberedSnoc(log, Event(c, u, Granted, Nullable(a), Nullable(Assign(log, c, u))), club);
      case AdminRevoke(c, u, a) => NumberedSnoc(log, Event(c, u, Revoked, Nullable(a), None), club);
      case AdminInvite(c, u, a) => NumberedSnoc(log, Event(c, u, Invite, Nullable(a), None), club);
      case Recommend(c, u, s) =>
        var e := Event(c, u, Recommendation, Nullable(s), None);
        var log1 := log + [e];
        NumberedSnoc(log, e, club);
        NumberedSnoc(log1, Event(c, u, Granted, None, Nullable(Assign(log1, c, u))), club);
    }
  }

  lemma NumberedEmpty(club: int)
    ensures Numbered([], club)
  {
  }

  lemma MemberWasGranted(log: Log, club: int, user: int)
    requires IsMember(log, club, user)
    ensures user in FirstGrants(log, club)
  {
    MemberIffLatestGranted(log, club, user);
    var k: nat :| IsLatest(log, club, user, k) && log[k].kind == Granted;
    GrantedIsListed(log, club, k);
  }

  /** The numbers of a club are 1..k without gaps or repeats, one per user ever granted. */
  lemma NumbersAreExact(ops: seq<Op>, club: int, user: int)
    ensures var log, users := After(ops), FirstGrants(After(ops), club);
            && (IsMember(log, club, user) ==>
                  user in users && MembershipNumber(log, club, user) == Some(Rank(users, user)))
            && (!IsMember(log, club, user) ==> MembershipNumber(log, club, user) == None)
            && forall i :: 0 <= i < |users| ==> Rank(users, users[i]) == i + 1
  {
    hide After, IsMember, FirstNumber, Rank, Numbered;
    var log := After(ops);
    var users := FirstGrants(log, club);
    NumbersInOrder(ops, club);
    NumbersRead(log, club, user);
    if IsMember(log, club, user) {
      MemberWasGranted(log, club, user);
    }
    forall i | 0 <= i < |users|
      ensures Rank(users, users[i]) == i + 1
    {
      RankUnique(users, users[i], i);
    }
  }

  /** Later operations only extend the order of first grants. */
  lemma {:induction false} OrderGrows(ops: seq<Op>, more: seq<Op>, club: int)
    ensures FirstGrants(After(ops), club) <= FirstGrants(After(ops + more), club)
    decreases |more|
  {
    hide Apply, FirstGrants;
    if more == [] {
      assert ops + more == ops;
    } else {
      var m := |more| - 1;
      var longer := ops + more;
      assert longer[..|longer| - 1] == ops + more[..m] && longer[|longer| - 1] == more[m];
      OrderGrows(ops, more[..m], club);
      OrderStep(After(ops + more[..m]), more[m], club);
    }
  }

  lemma OrderStep(log: Log, op: Op, club: int)
    ensures FirstGrants(log, club) <= FirstGrants(Apply(log, op), club)
  {
    hide Quorum, IsMember, Assign;
    match op
    case AdminGrant(c, u, a) => FirstGrantsSnoc(log, Event(c, u, Granted, Nullable(a), Nullable(Assign(log, c, u))), club);
    case AdminRevoke(c, u, a) => FirstGrantsSnoc(log, Event(c, u, Revoked, Nullable(a), None), club);
    case AdminInvite(c, u, a) => FirstGrantsSnoc(log, Event(c, u, Invite, Nullable(a), None), club);
    case Recommend(c, u, s) =>
      var log1 := Recorded(log, c, u, s);
      FirstGrantsSnoc(log, Event(c, u, Recommendation, Nullable(s), None), club);
      FirstGrantsSnoc(log1, Event(c, u, Granted, None, Nullable(Assign(log1, c, u))), club);
  }

  /** Whatever happens in between, a user found a member twice has the same number both times. */
  lemma NumberIsPermanent(ops: seq<Op>, more: seq<Op>, club: int, user: int)
    requires IsMember(After(ops), club, user) && IsMember(After(ops + more), club, user)
    ensures MembershipNumber(After(ops), club, user) == MembershipNumber(After(ops + more), club, user)
  {
    hide After, IsMember, FirstNumber, Rank, FirstGrants;
    NumbersAreExact(ops, club, user);
    NumbersAreExact(ops + more, club, user);
    OrderGrows(ops, more, club);
    MemberWasGranted(After(ops), club, user);
    var users, later := FirstGrants(After(ops), club), FirstGrants(After(ops + more), club);
    var n := Rank(users, user);
    assert later[n - 1] == user;
    RankUnique(later, user, n - 1);
  }

  // ---- The quorum is looked at only when a recommendation arrives ----------------------

  /** Recommenders who become members afterwards do not admit the candidate. */
  lemma LateQuorumWaits(a: int, b: int, user: int, admin: int)
    requires a > 0 && b > 0 && a != b && user != a && user != b
    ensures var ops := [Recommend(CAT, user, a), Recommend(CAT, user, b), AdminGrant(ELITE, a, admin), AdminGrant(ELITE, b, admin)];
            !IsMember(After(ops), CAT, user) && |Qualifying(After(ops), CAT, user, ELITE)| == 2
  {
    hide IsMember, Recommenders, Quorum, MembersAmong, Assign, Apply, After;
    var r1, r2 := Recommend(CAT, user, a), Recommend(CAT, user, b);
    var a1, a2 := AdminGrant(ELITE, a, admin), AdminGrant(ELITE, b, admin);
    var e1, e2 := Event(CAT, user, Recommendation, Some(a), None), Event(CAT, user, Recommendation, Some(b), None);
    AfterNothing();
    AfterNext([], r1);
    AloneRecommended([], user, a);
    AfterNext([r1], r2);
    AloneRecommended([e1], user, b);
    var g1 := Granting([e1, e2], a, admin);
    AfterNext([r1, r2], a1);
    var g2 := Granting([e1, e2] + [g1], b, admin);
    AfterNext([r1, r2, a1], a2);
    assert [] + [r1] == [r1] && [r1] + [r2] == [r1, r2] && [r1, r2] + [a1] == [r1, r2, a1];
    assert [r1, r2, a1] + [a2] == [r1, r2, a1, a2];
    assert [] + [e1] == [e1] && [e1] + [e2] == [e1, e2];
    TwoLateElites([e1, e2], user, a, b, g1, g2);
    TwoRecommenders(e1, e2, a, b, user);
  }

  lemma AfterNothing()
    ensures After([]) == []
  {
  }

  lemma AfterNext(ops: seq<Op>, op: Op)
    ensures After(ops + [op]) == Apply(After(ops), op)
  {
    hide Apply;
    assert (ops + [op])[..|ops|] == ops;
  }

  /** A recommendation among recommendations only is recorded and admits nobody. */
  lemma AloneRecommended(log: Log, user: int, sponsor: int)
    requires sponsor > 0 && forall i :: 0 <= i < |log| ==> log[i].kind == Recommendation
    ensures Apply(log, Recommend(CAT, user, sponsor)) == log + [Event(CAT, user, Recommendation, Some(sponsor), None)]
  {
    hide IsMember, Quorum;
    NoQuorumOfStrangers(log + [Event(CAT, user, Recommendation, Some(sponsor), None)], user);
  }

  /** The row an admin's grant appends. */
  lemma Granting(log: Log, user: int, admin: int) returns (g: Event)
    ensures Apply(log, AdminGrant(ELITE, user, admin)) == log + [g]
    ensures g.club == ELITE && g.target == user && g.kind == Granted
  {
    hide Assign;
    g := Event(ELITE, user, Granted, Nullable(admin), Nullable(Assign(log, ELITE, user)));
  }

  lemma TwoRecommenders(e1: Event, e2: Event, a: int, b: int, user: int)
    requires a != b && e1 == Event(CAT, user, Recommendation, Some(a), None)
    requires e2 == Event(CAT, user, Recommendation, Some(b), None)
    ensures Recommenders([e1, e2], CAT, user) == [a, b]
  {
    assert [e1, e2][..1] == [e1] && [e1][..0] == [];
    assert Recommenders([e1], CAT, user) == [a];
  }

  lemma TwoLateElites(log: Log, user: int, a: int, b: int, g1: Event, g2: Event)
    requires forall i :: 0 <= i < |log| ==> log[i].kind == Recommendation
    requires g1.club == g2.club == ELITE && g1.kind == g2.kind == Granted && g1.target == a && g2.target == b && a != b
    ensures !IsMember(log + [g1] + [g2], CAT, user)
    ensures Recommenders(log, CAT, user) == [a, b] ==> |Qualifying(log + [g1] + [g2], CAT, user, ELITE)| == 2
  {
    hide IsMember, Recommenders;
    var late := log + [g1] + [g2];
    NoMembers(log, CAT, user);
    MemberSnoc(log, g1, CAT, user);
    MemberSnoc(log + [g1], g2, CAT, user);
    RecommendersSnoc(log, g1, CAT, user, a);
    RecommendersSnoc(log + [g1], g2, CAT, user, a);
    MemberSnoc(log, g1, ELITE, a);
    MemberSnoc(log + [g1], g2, ELITE, a);
    MemberSnoc(log + [g1], g2, ELITE, b);
    assert [a, b][..1] == [a] && [a][..0] == [];
    assert MembersAmong(late, [a], ELITE) == {a};
    assert MembersAmong(late, [a, b], ELITE) == {a, b};
  }

  lemma {:induction false} NoMembers(log: Log, club: int, user: int)
    requires forall i :: 0 <= i < |log| ==> log[i].kind == Recommendation
    ensures !IsMember(log, club, user)
  {
    if log != [] {
      NoMembers(log[..|log| - 1], club, user);
    }
  }

  lemma {:induction false} NoneAmong(log: Log, rows: seq<int>, source: int)
    requires forall i :: 0 <= i < |log| ==> log[i].kind == Recommendation
    ensures MembersAmong(log, rows, source) == {}
    decreases |rows|
  {
    hide IsMember;
    if rows != [] {
      NoneAmong(log, rows[..|rows| - 1], source);
      NoMembers(log, source, rows[|rows| - 1]);
    }
  }

  lemma NoQuorumOfStrangers(log: Log, user: int)
    requires forall i :: 0 <= i < |log| ==> log[i].kind == Recommendation
    ensures !Quorum(log, CAT, user)
  {
    hide IsMember, Recommenders, MembersAmong;
    NoneAmong(log, Recommenders(log, CAT, user), CAT);
    NoneAmong(log, Recommenders(log, CAT, user), ELITE);
  }
}
