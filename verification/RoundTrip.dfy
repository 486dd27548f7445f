/**
 The request-reply clients behind VpnService.protect and the UID lookup: one call at a
 time under a mutex, one reconnect and retry after an I/O error, and a watchdog that
 closes connections without holding the mutex. Calls, peer and watchdog are
 interleaved step by step. The two clients differ only in what a reply carries.
 */
module RoundTrip {
  import opened Common

  /** The request of one attempt of one call. */
  datatype Request = Request(call: nat, second: bool)

  /**
   A stream socket. The peer answers requests in the order it gets them, so reply `k`
   answers `asked[k]`. `taken` replies were read by the client. `begun` says that a read which
   then failed consumed the beginning of the next reply, a line of the UID client cut by the
   deadline. `orphans` counts the requests of calls that gave up on this connection. No code
   looks at the last two.
   */
  datatype Conn = Conn(asked: seq<Request>, answered: nat, taken: nat, closed: bool, begun: bool, orphans: nat)

  const DIALED := Conn([], 0, 0, false, false, 0)

  /** Where the call that holds the mutex is. */
  datatype Place =
    | Entry
    | Sending
    | Awaiting
    | Failed(delivered: bool)

  datatype Call = Call(id: nat, allowRetry: bool, place: Place) {
    function Own(): Request {
      Request(id, !allowRetry)
    }
  }

  /** `whole` says that no earlier read had consumed the beginning of the reply. */
  datatype Outcome = Got(reply: Request, whole: bool) | IoError | NoSocket

  datatype Result = Result(own: Request, outcome: Outcome)

  /**
   `conn`, `active` and `call` are the client's fields, `captured` the connections the
   watchdog has loaded and may close at any later time.
   */
  datatype Client = Client(
    conns: seq<Conn>,
    conn: Option<nat>,
    active: Option<nat>,
    call: Option<Call>,
    calls: nat,
    captured: set<nat>,
    results: seq<Result>)

  const IDLE := Client([], None, None, None, 0, {}, [])

  datatype Step =
    | Begin
    | DialOk
    | DialFail
    | Publish
    | SendOk
    | SendFail(delivered: bool)
    | ReadOk
    | ReadFail(part: bool)
    | RedialOk
    | RedialFail
    | GiveUp
    | PeerAnswers(c: nat)
    | WatchdogLoad
    | WatchdogClose(c: nat)

  predicate At(s: Client, place: Place) {
    s.call.Some? && s.call.value.place == place
  }

  /** The current connection. */
  predicate HasConn(s: Client) {
    s.conn.Some? && s.conn.value < |s.conns|
  }

  function Current(s: Client): Conn
    requires HasConn(s)
  {
    s.conns[s.conn.value]
  }

  function SetCurrent(s: Client, c: Conn): Client
    requires HasConn(s)
  {
    s.(conns := s.conns[s.conn.value := c])
  }

  function Go(s: Client, place: Place): Client
    requires s.call.Some?
  {
    s.(call := Some(s.call.value.(place := place)))
  }

  /** The call returns; its deferred function clears what the watchdog sees. */
  function Return(s: Client, outcome: Outcome): Client
    requires s.call.Some?
  {
    s.(call := None, active := None, results := s.results + [Result(s.call.value.Own(), outcome)])
  }

  function Dial(s: Client): Client {
    s.(conns := s.conns + [DIALED], conn := Some(|s.conns|))
  }

  /** reconnectLocked closes and forgets the old connection first. */
  function Disconnect(s: Client): Client
    requires HasConn(s)
  {
    SetCurrent(s, Current(s).(closed := true)).(conn := None)
  }

  predicate Enabled(s: Client, st: Step) {
    match st
    case Begin => s.call.None?
    case DialOk => At(s, Entry) && s.conn.None?
    case DialFail => At(s, Entry) && s.conn.None?
    case Publish => At(s, Entry) && HasConn(s)
    case SendOk => At(s, Sending) && HasConn(s) && !Current(s).closed
    case SendFail(_) => At(s, Sending) && HasConn(s)
    // The UID client's reader may hold a reply of a connection closed since, so `closed` is no bar.
    case ReadOk => At(s, Awaiting) && HasConn(s) && Current(s).taken < Current(s).answered <= |Current(s).asked|
    case ReadFail(_) => At(s, Awaiting) && HasConn(s)
    case RedialOk => s.call.Some? && s.call.value.place.Failed? && s.call.value.allowRetry && HasConn(s)
    case RedialFail => s.call.Some? && s.call.value.place.Failed? && s.call.value.allowRetry && HasConn(s)
    case GiveUp => s.call.Some? && s.call.value.place.Failed? && !s.call.value.allowRetry && HasConn(s)
    case PeerAnswers(c) => c < |s.conns| && s.conns[c].answered < |s.conns[c].asked|
    case WatchdogLoad => s.active.Some?
    case WatchdogClose(c) => c in s.captured && c < |s.conns|
  }

  /** protectFDLocked and lookupLocked, one visible action at a time. */
  function Next(s: Client, st: Step): Client {
    if !Enabled(s, st) then s
    else match st
      case Begin => s.(call := Some(Call(s.calls, true, Entry)), calls := s.calls + 1)
      case DialOk => Dial(s)
      case DialFail => Return(s, NoSocket)
      case Publish => Go(s, Sending).(active := s.conn)
      case SendOk => Go(SetCurrent(s, Current(s).(asked := Current(s).asked + [s.call.value.Own()])), Awaiting)
      case SendFail(delivered) =>
        var c := Current(s);
        Go(if delivered then SetCurrent(s, c.(asked := c.asked + [s.call.value.Own()])) else s, Failed(delivered))
      case ReadOk =>
        var c := Current(s);
        Return(SetCurrent(s, c.(taken := c.taken + 1, begun := false)), Got(c.asked[c.taken], !c.begun))
      case ReadFail(part) =>
        var c := Current(s);
        Go(SetCurrent(s, c.(begun := c.begun || part)), Failed(true))
      case RedialOk => Dial(Disconnect(s)).(call := Some(Call(s.call.value.id, false, Entry)))
      case RedialFail => Return(Disconnect(s), IoError)
      case GiveUp =>
        var c := Current(s);
        Return(SetCurrent(s, c.(orphans := c.orphans + if s.call.value.place.delivered then 1 else 0)), IoError)
      case PeerAnswers(i) => s.(conns := s.conns[i := s.conns[i].(answered := s.conns[i].answered + 1)])
      case WatchdogLoad => s.(captured := s.captured + {s.active.value})
      case WatchdogClose(i) => s.(conns := s.conns[i := s.conns[i].(closed := true)])
  }

  function After(steps: seq<Step>): Client {
    if steps == [] then IDLE else Next(After(steps[..|steps| - 1]), steps[|steps| - 1])
  }

  // ---- Invariant --------------------------------------------------------------------------

  ghost predicate InOrder(asked: seq<Request>) {
    forall i, j :: 0 <= i < j < |asked| ==> asked[i].call < asked[j].call
  }

  ghost predicate Before(asked: seq<Request>, id: nat) {
    forall i :: 0 <= i < |asked| ==> asked[i].call < id
  }

  ghost predicate ConnOk(c: Conn) {
    c.taken <= c.answered <= |c.asked| && InOrder(c.asked)
  }

  /** Only a call that gave up, or is about to, leaves the rest of a reply behind. */
  ghost predicate BegunOk(s: Client) {
    HasConn(s) && Current(s).begun ==>
      || Current(s).orphans > 0
      || (s.call.Some? && s.call.value.place == Failed(true))
  }

  /** What the current connection owes, at each place of a call. */
  ghost predicate DebtOk(s: Client) {
    s.conn.Some? ==>
      && HasConn(s)
      && var c := Current(s);
         var owed := |c.asked| - c.taken;
         match s.call
         case None => owed == c.orphans && Before(c.asked, s.calls)
         case Some(call) =>
           match call.place
           case Entry => owed == c.orphans && Before(c.asked, call.id)
           case Sending => owed == c.orphans && Before(c.asked, call.id)
           case Awaiting => owed == c.orphans + 1 && c.asked[|c.asked| - 1] == call.Own() && Before(c.asked, call.id + 1)
           case Failed(delivered) => owed == c.orphans + (if delivered then 1 else 0) && Before(c.asked, call.id + 1)
  }

  ghost predicate ClientOk(s: Client) {
    && (forall i :: 0 <= i < |s.conns| ==> ConnOk(s.conns[i]))
    && (s.call.Some? ==> s.call.value.id < s.calls)
    && (s.call.Some? && !s.call.value.place.Entry? ==> s.conn.Some?)
    && DebtOk(s)
    && BegunOk(s)
  }

  /** Changing one connection keeps the others as they were. */
  lemma SetCurrentOk(s: Client, c: Conn)
    requires HasConn(s) && ConnOk(c) && forall i :: 0 <= i < |s.conns| ==> ConnOk(s.conns[i])
    ensures HasConn(SetCurrent(s, c)) && Current(SetCurrent(s, c)) == c
    ensures forall i :: 0 <= i < |s.conns| ==> ConnOk(SetCurrent(s, c).conns[i])
  {
  }

  lemma AskOk(c: Conn, r: Request)
    requires ConnOk(c) && Before(c.asked, r.call)
    ensures ConnOk(c.(asked := c.asked + [r])) && Before(c.asked + [r], r.call + 1)
  {
  }

  lemma IoKeeps(s: Client, st: Step)
    requires ClientOk(s) && Enabled(s, st) && (st.SendOk? || st.SendFail? || st.ReadOk? || st.ReadFail?)
    ensures ClientOk(Next(s, st))
  {
    hide ConnOk, Before;
    var c, call := Current(s), s.call.value;
    match st
    case SendOk =>
      AskOk(c, call.Own());
      SetCurrentOk(s, c.(asked := c.asked + [call.Own()]));
    case SendFail(delivered) =>
      AskOk(c, call.Own());
      BeforeLater(c.asked, call.id, call.id + 1);
      if delivered {
        SetCurrentOk(s, c.(asked := c.asked + [call.Own()]));
      }
    case ReadOk =>
      TakeOk(c);
      BeforeLater(c.asked, call.id + 1, s.calls);
      SetCurrentOk(s, c.(taken := c.taken + 1, begun := false));
    case ReadFail(part) =>
      BegunConnOk(c, c.begun || part);
      SetCurrentOk(s, c.(begun := c.begun || part));
  }

  lemma ReconnectKeeps(s: Client, st: Step)
    requires ClientOk(s) && Enabled(s, st) && (st.RedialOk? || st.RedialFail? || st.GiveUp?)
    ensures ClientOk(Next(s, st))
  {
    hide ConnOk, Before;
    var c := Current(s);
    if st.GiveUp? {
      var d := c.(orphans := c.orphans + if s.call.value.place.delivered then 1 else 0);
      OrphanOk(c, d.orphans);
      BeforeLater(c.asked, s.call.value.id + 1, s.calls);
      SetCurrentOk(s, d);
    } else {
      CloseOk(c);
      SetCurrentOk(s, c.(closed := true));
      DialedOk(s.call.value.id);
    }
  }

  lemma NextOk(s: Client, st: Step)
    requires ClientOk(s)
    ensures ClientOk(Next(s, st))
  {
    if !Enabled(s, st) {
    } else if st.SendOk? || st.SendFail? || st.ReadOk? || st.ReadFail? {
      IoKeeps(s, st);
    } else if st.RedialOk? || st.RedialFail? || st.GiveUp? {
      ReconnectKeeps(s, st);
    } else {
      OtherKeeps(s, st);
    }
  }

  lemma OtherKeeps(s: Client, st: Step)
    requires ClientOk(s) && Enabled(s, st)
    requires !(st.SendOk? || st.SendFail? || st.ReadOk? || st.ReadFail? || st.RedialOk? || st.RedialFail? || st.GiveUp?)
    ensures ClientOk(Next(s, st))
  {
    hide ConnOk, Before;
    match st
    case Begin =>
    case DialOk => DialedOk(s.call.value.id);
    case DialFail =>
    case Publish =>
    case PeerAnswers(i) => AnswerOk(s.conns[i]);
    case WatchdogLoad =>
    case WatchdogClose(i) => CloseOk(s.conns[i]);
  }

  lemma DialedOk(id: nat)
    ensures ConnOk(DIALED) && Before(DIALED.asked, id)
  {
  }

  lemma BeforeLater(asked: seq<Request>, id: nat, later: nat)
    requires Before(asked, id) && id <= later
    ensures Before(asked, later)
  {
  }

  lemma TakeOk(c: Conn)
    requires ConnOk(c) && c.taken < c.answered
    ensures ConnOk(c.(taken := c.taken + 1, begun := false))
  {
  }

  lemma BegunConnOk(c: Conn, begun: bool)
    requires ConnOk(c)
    ensures ConnOk(c.(begun := begun))
  {
  }

  lemma CloseOk(c: Conn)
    requires ConnOk(c)
    ensures ConnOk(c.(closed := true))
  {
  }

  lemma OrphanOk(c: Conn, n: nat)
    requires ConnOk(c)
    ensures ConnOk(c.(orphans := n))
  {
  }

  lemma AnswerOk(c: Conn)
    requires ConnOk(c) && c.answered < |c.asked|
    ensures ConnOk(c.(answered := c.answered + 1))
  {
  }

  lemma {:induction false} RunOk(steps: seq<Step>)
    ensures ClientOk(After(steps))
  {
    hide Next;
    if steps != [] {
      RunOk(steps[..|steps| - 1]);
      NextOk(After(steps[..|steps| - 1]), steps[|steps| - 1]);
    }
  }

  /** Every connection but the current one is closed. */
  ghost predicate OthersClosed(s: Client) {
    forall i :: 0 <= i < |s.conns| && s.conn != Some(i) ==> s.conns[i].closed
  }

  lemma NextOthersClosed(s: Client, st: Step)
    requires OthersClosed(s)
    ensures OthersClosed(Next(s, st))
  {
  }

  /** In every interleaving, reconnecting leaves no connection open behind. */
  lemma {:induction false} RunOthersClosed(steps: seq<Step>)
    ensures OthersClosed(After(steps))
  {
    hide Next;
    if steps != [] {
      RunOthersClosed(steps[..|steps| - 1]);
      NextOthersClosed(After(steps[..|steps| - 1]), steps[|steps| - 1]);
    }
  }

  /**
   What the watchdog sees: between calls nothing, and from the send to the end of an attempt
   the connection the call is using.
   */
  ghost predicate Watched(s: Client) {
    && (s.call.None? ==> s.active.None?)
    && (s.call.Some? && !s.call.value.place.Entry? ==> s.active.Some? && s.active == s.conn)
    && (s.active.Some? ==> s.active.value < |s.conns|)
    && forall c :: c in s.captured ==> c < |s.conns|
  }

  lemma NextWatched(s: Client, st: Step)
    requires Watched(s)
    ensures Watched(Next(s, st))
  {
  }

  lemma {:induction false} RunWatched(steps: seq<Step>)
    ensures Watched(After(steps))
  {
    hide Next;
    if steps != [] {
      RunWatched(steps[..|steps| - 1]);
      NextWatched(After(steps[..|steps| - 1]), steps[|steps| - 1]);
    }
  }

  predicate ByOthers(st: Step) {
    st.PeerAnswers? || st.WatchdogLoad? || st.WatchdogClose?
  }

  /**
   What a call does after an I/O error. The first attempt closes its connection and either
   goes on as second attempt on a fresh one or, if there is none, fails without a
   connection. The second attempt fails and keeps its connection.
   */
  lemma RetryExactly(s: Client, st: Step)
    requires ClientOk(s) && s.call.Some? && s.call.value.place.Failed? && Enabled(s, st) && !ByOthers(st)
    ensures HasConn(s)
    ensures var t, failed := Next(s, st), s.results + [Result(s.call.value.Own(), IoError)];
            if !s.call.value.allowRetry then t.call == None && t.conn == s.conn && t.results == failed
            else if t.call == None then t.conns[s.conn.value].closed && t.conn == None && t.results == failed
            else
              && t.conns[s.conn.value].closed && HasConn(t) && t.conn != s.conn && Current(t) == DIALED
              && t.call == Some(Call(s.call.value.id, false, Entry)) && t.results == s.results
  {
    hide ConnOk, Before;
  }

  // ---- Whose reply a call reads ----------------------------------------------------------------

  /** The requests left with the peer by calls that gave up since the connection was dialed. */
  function Abandoned(steps: seq<Step>): nat {
    if steps == [] then 0
    else
      var n := Abandoned(steps[..|steps| - 1]);
      var s, st := After(steps[..|steps| - 1]), steps[|steps| - 1];
      if !Enabled(s, st) then n
      else match st
        case DialOk => 0
        case RedialOk => 0
        case GiveUp => if s.call.value.place.delivered then n + 1 else n
        case _ => n
  }

  lemma NextOrphans(s: Client, st: Step)
    requires ClientOk(s) && HasConn(Next(s, st)) && Enabled(s, st)
    ensures st.DialOk? || st.RedialOk? ==> Current(Next(s, st)).orphans == 0
    ensures !(st.DialOk? || st.RedialOk?) ==>
              HasConn(s) && Current(Next(s, st)).orphans
                            == Current(s).orphans + if st.GiveUp? && s.call.value.place.delivered then 1 else 0
  {
    hide ConnOk, DebtOk, BegunOk;
  }

  lemma {:induction false} OrphansAreAbandoned(steps: seq<Step>)
    ensures HasConn(After(steps)) ==> Current(After(steps)).orphans == Abandoned(steps)
  {
    if steps == [] {
    } else {
      var before, st := steps[..|steps| - 1], steps[|steps| - 1];
      OrphansAreAbandoned(before);
      RunOk(before);
      if HasConn(After(steps)) && Enabled(After(before), st) {
        NextOrphans(After(before), st);
      }
    }
  }

  /**
   In every interleaving, the reply a call reads is as many requests old as calls have given
   up since the connection was dialed with their request in the peer's hands. So it is the
   reply to the call's own request exactly when there was none, and then it is whole.
   */
  lemma OwnReplyExactly(steps: seq<Step>)
    requires Enabled(After(steps), ReadOk)
    ensures var s, c := After(steps), Current(After(steps));
            && |c.asked| >= 1 + Abandoned(steps)
            && Next(s, ReadOk).results
               == s.results + [Result(s.call.value.Own(), Got(c.asked[|c.asked| - 1 - Abandoned(steps)], !c.begun))]
            && (c.asked[|c.asked| - 1 - Abandoned(steps)] == s.call.value.Own() <==> Abandoned(steps) == 0)
            && (Abandoned(steps) == 0 ==> !c.begun)
  {
    hide After, Abandoned;
    RunOk(steps);
    OrphansAreAbandoned(steps);
    var s := After(steps);
    var c := Current(s);
    assert ConnOk(c);
    assert c.taken == |c.asked| - 1 - c.orphans;
    if c.orphans > 0 {
      assert c.asked[c.taken].call < c.asked[|c.asked| - 1].call;
    }
  }

  ghost predicate NeverGivesUp(steps: seq<Step>) {
    forall i :: 0 <= i < |steps| ==> !steps[i].GiveUp?
  }

  ghost predicate NoOrphans(s: Client) {
    forall i :: 0 <= i < |s.conns| ==> s.conns[i].orphans == 0
  }

  lemma NextNoOrphans(s: Client, st: Step)
    requires NoOrphans(s) && !st.GiveUp?
    ensures NoOrphans(Next(s, st))
  {
  }

  lemma {:induction false} RunNoOrphans(steps: seq<Step>)
    requires NeverGivesUp(steps)
    ensures NoOrphans(After(steps))
  {
    hide Next;
    if steps != [] {
      RunNoOrphans(steps[..|steps| - 1]);
      NextNoOrphans(After(steps[..|steps| - 1]), steps[|steps| - 1]);
    }
  }

  ghost predicate OwnReplies(results: seq<Result>) {
    forall i :: 0 <= i < |results| && results[i].outcome.Got? ==> results[i].outcome == Got(results[i].own, true)
  }

  lemma NextOwnReplies(s: Client, st: Step)
    requires ClientOk(s) && NoOrphans(s) && OwnReplies(s.results)
    ensures OwnReplies(Next(s, st).results)
  {
    hide ConnOk, Before;
  }

  /**
   In every interleaving in which no second attempt ends in an I/O error, each completed
   call consumed the whole reply to its own last request, and between calls the current
   connection owes no unread reply.
   */
  lemma {:induction false} RepliesMatch(steps: seq<Step>)
    requires NeverGivesUp(steps)
    ensures OwnReplies(After(steps).results)
    ensures After(steps).call.None? && After(steps).conn.Some? ==>
              HasConn(After(steps)) && |Current(After(steps)).asked| == Current(After(steps)).taken
  {
    hide Next;
    if steps != [] {
      var before := steps[..|steps| - 1];
      RepliesMatch(before);
      RunOk(before);
      RunNoOrphans(before);
      NextOwnReplies(After(before), steps[|steps| - 1]);
    }
    RunOk(steps);
    RunNoOrphans(steps);
  }

  // ---- Giving up leaves a reply behind --------------------------------------------------------

  lemma AfterSnoc(steps: seq<Step>, st: Step)
    ensures After(steps + [st]) == Next(After(steps), st)
  {
    assert (steps + [st])[..|steps|] == steps;
  }

  /** An attempt on a fresh connection whose reply does not come in time. */
  lemma AttemptTimesOut(steps: seq<Step>)
    requires At(After(steps), Entry) && HasConn(After(steps)) && Current(After(steps)) == DIALED
    ensures var s := After(steps);
            After(steps + [Publish] + [SendOk] + [ReadFail(false)]) ==
            s.(conns := s.conns[s.conn.value := Conn([s.call.value.Own()], 0, 0, false, false, 0)],
               active := s.conn, call := Some(s.call.value.(place := Failed(true))))
  {
    hide After;
    AfterSnoc(steps, Publish);
    AfterSnoc(steps + [Publish], SendOk);
    AfterSnoc(steps + [Publish] + [SendOk], ReadFail(false));
    var r := After(steps).call.value.Own();
    assert [] + [r] == [r];
  }

  /** A first call that times out twice leaves the request of its second attempt behind. */
  lemma FirstCallGivesUp() returns (steps: seq<Step>)
    ensures var s := After(steps);
            && s.call.None? && s.conn == Some(1) && |s.conns| == 2 && s.calls == 1 && |s.results| == 1
            && s.conns[1] == Conn([Request(0, true)], 0, 0, false, false, 1)
  {
    AfterNothing();
    hide After;
    AfterSnoc([], Begin);
    assert [] + [Begin] == [Begin];
    AfterSnoc([Begin], DialOk);
    var s1 := [Begin] + [DialOk];
    AttemptTimesOut(s1);
    var s2 := s1 + [Publish] + [SendOk] + [ReadFail(false)];
    AfterSnoc(s2, RedialOk);
    var s3 := s2 + [RedialOk];
    AttemptTimesOut(s3);
    var s4 := s3 + [Publish] + [SendOk] + [ReadFail(false)];
    AfterSnoc(s4, GiveUp);
    steps := s4 + [GiveUp];
  }

  lemma AfterNothing()
    ensures After([]) == IDLE
  {
  }

  /** The next call then reads the reply meant for the one that gave up. */
  lemma StaleReplyIsRead() returns (steps: seq<Step>)
    ensures |After(steps).results| == 2
    ensures After(steps).results[1] == Result(Request(1, false), Got(Request(0, true), true))
  {
    var s1 := FirstCallGivesUp();
    hide After;
    var s2 := s1 + [PeerAnswers(1)];
    AfterSnoc(s1, PeerAnswers(1));
    AfterSnoc(s2, Begin);
    AfterSnoc(s2 + [Begin], Publish);
    var s3 := s2 + [Begin] + [Publish];
    assert At(After(s3), Sending) && After(s3).call.value.Own() == Request(1, false);
    AfterSnoc(s3, SendOk);
    var s4 := s3 + [SendOk];
    assert Current(After(s4)).asked == [Request(0, true)] + [Request(1, false)];
    AfterSnoc(s4, ReadOk);
    steps := s4 + [ReadOk];
  }
}
