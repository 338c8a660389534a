/**
 * Two runs in which a dropped event has taken effect: a delivery let through after a refusal, and a refusal for a
 * missing account, the two cases that ProtocolLaws.DeclinedExactly names.  Two more in which an event still waiting
 * for its answer is lost because the storage could not be read at sign-in.
 */
module ProtocolLimits {
  import opened Wrappers
  import opened Booking
  import opened Schema
  import opened Attendance
  import opened Consistency
  import opened Runs
  import opened EventLog
  import opened Popup
  import opened BookingProtocol
  import opened ProtocolLaws

  const UTC := Env(Zone(t => 0, d => d * DAY), d => 0)
  const ID := "0123456789abcdef"
  const NEW_DAY := Metadata("office", "")

  /** One employee with one finished booking from 100 to 200. */
  const BOOKED := Db(map[1 := Record(1, 100, Some(200), 0, "", "office", None, None)], 2, [], [], [], [],
                     map[1 := User(Employee, None)])
  const BEGIN := System(BOOKED, Client(None, None, None, Idle, None), map[], [], [], map[])
  const BODY := Body(ID, Start, false, None, None)
  const OWNED := Owned(1, BODY)

  lemma BeginCoherent()
    ensures Initial(BEGIN) && Coherent(BEGIN)
  {
  }

  lemma PlayMore(env: Env, sys: System, moves: seq<Move>, move: Move)
    ensures Play(env, sys, moves + [move]) == Moved(env, Play(env, sys, moves), move)
  {
    hide Moved;
    assert (moves + [move])[..|moves|] == moves;
  }

  /** A start is refused exactly while the finished booking is in the way. */
  lemma StartAt(now: int)
    requires now == 150 || now == 300
    ensures now == 150 ==> Transition(UTC.zone, BOOKED, now, CommandOf(OWNED)) == (Failure(Overlapping), BOOKED)
    ensures now == 300 ==> Transition(UTC.zone, BOOKED, now, CommandOf(OWNED)).0.Success?
  {
    var c := CommandOf(OWNED);
    assert ValidEventId(ID);
    assert Admit(BOOKED, c) == Admitted(Start);
    assert OpenBookings(BOOKED.records, 1, 2) == [] by {
      assert OpenBookings(BOOKED.records, 1, 1) == [];
    }
    assert Span(UTC.zone, BOOKED.records[1]) == (100, 200);
    if now == 150 {
      assert !NoOverlap(UTC.zone, BOOKED.records, 1, now, now + 1, 0);
    } else {
      assert NoOverlap(UTC.zone, BOOKED.records, 1, now, now + 1, 0);
    }
  }

  lemma StartTakes()
    ensures Logged(Transition(UTC.zone, BOOKED, 300, CommandOf(OWNED)).1.events, CommandOf(OWNED).source, ID)
  {
    hide Transition, CommandOf, Coherent;
    BeginCoherent();
    StartAt(300);
    assert Consistent(BOOKED) by {
      assert Coherent(BEGIN);
    }
    AcceptedTook(UTC.zone, BOOKED, 300, OWNED, map[ID := OWNED]) by {
      assert ValidEventId(ID);
    }
  }

  const SHOWN := Client(Some(1), Some(Known(Absent, None)), None, Idle, None)

  function Holder(phase: Phase): Client {
    Client(Some(1), Some(Known(Absent, None)), Some(BODY), phase, Some(OWNED))
  }

  function After(db: Db, client: Client, sent: seq<Owned>, replies: seq<Reply>,
                 outcomes: map<string, Outcome>): System {
    System(db, client, map[ID := OWNED], sent, replies, outcomes)
  }

  lemma Clicking()
    ensures Moved(UTC, Moved(UTC, BEGIN, SignIn(1, true, true)), ShowStatus(Absent, None)) == BEGIN.(client := SHOWN)
    ensures Moved(UTC, BEGIN.(client := SHOWN), Click(Start, ID, NEW_DAY, true))
      == After(BOOKED, Holder(Storing), [], [], map[])
  {
    hide Apply, Transition;
    assert ValidEventId(ID) && FreshId(BEGIN.(client := SHOWN), ID);
    assert ValidMetadata(NEW_DAY);
    assert Built(SHOWN, ID, Start, NEW_DAY) == Some(BODY);
  }

  lemma Sending(db: Db, sent: seq<Owned>, replies: seq<Reply>)
    ensures Moved(UTC, After(db, Holder(Storing), sent, replies, map[]), Transmit)
         == After(db, Holder(Waiting(|sent|)), sent + [OWNED], replies, map[])
    ensures Moved(UTC, After(db, Holder(Waiting(|sent|)), sent, replies, map[]), Timeout)
      == After(db, Holder(Idle), sent, replies, map[])
    ensures Moved(UTC, After(db, Holder(Idle), sent, replies, map[]), Retry(true))
      == After(db, Holder(Storing), sent, replies, map[])
  {
    hide Apply, Transition;
    assert ValidPending(BODY);
  }

  lemma Delivering(db: Db, client: Client, sent: seq<Owned>, replies: seq<Reply>, outcomes: map<string, Outcome>,
                   send: nat, now: int)
    requires send < |sent| && sent[send] == OWNED
    ensures var (result, db') := Transition(UTC.zone, db, now, CommandOf(OWNED));
      Moved(UTC, After(db, client, sent, replies, outcomes), Deliver(send, now, true))
      == After(db', client, sent, replies + [Reply(send, AnswerOf(result))], outcomes)
  {
    hide Apply, Transition;
  }

  lemma Dropping(db: Db, sent: seq<Owned>, replies: seq<Reply>, reply: nat, send: nat, status: int)
    requires reply < |replies| && replies[reply] == Reply(send, Declined(status))
    ensures Moved(UTC, After(db, Holder(Waiting(send)), sent, replies, map[]), Receive(reply, true))
         == After(db, SHOWN.(status := None), sent, replies, map[ID := Dropped])
  {
    hide Apply, Transition;
  }

  lemma PlayNothing()
    ensures Play(UTC, BEGIN, []) == BEGIN
  {
    hide Moved;
  }

  /** One more move of a run whose state is known. */
  lemma Next(moves: seq<Move>, move: Move, s: System, s': System) returns (longer: seq<Move>)
    requires Play(UTC, BEGIN, moves) == s && Moved(UTC, s, move) == s'
    ensures longer == moves + [move] && Play(UTC, BEGIN, longer) == s'
  {
    hide Moved;
    PlayMore(UTC, BEGIN, moves, move);
    longer := moves + [move];
  }

  /** Signing in, clicking and sending: the request is on its way. */
  lemma SentOnce() returns (moves: seq<Move>)
    ensures Play(UTC, BEGIN, moves) == After(BOOKED, Holder(Waiting(0)), [OWNED], [], map[])
  {
    Clicking();
    Sending(BOOKED, [], []);
    PlayNothing();
    hide Moved, Play, Holder, After;
    assert [] + [OWNED] == [OWNED];
    moves := Next([], SignIn(1, true, true), BEGIN, Moved(UTC, BEGIN, SignIn(1, true, true)));
    moves := Next(moves, ShowStatus(Absent, None), Moved(UTC, BEGIN, SignIn(1, true, true)), BEGIN.(client := SHOWN));
    moves := Next(moves, Click(Start, ID, NEW_DAY, true), BEGIN.(client := SHOWN),
                  After(BOOKED, Holder(Storing), [], [], map[]));
    moves := Next(moves, Transmit, After(BOOKED, Holder(Storing), [], [], map[]),
                  After(BOOKED, Holder(Waiting(0)), [OWNED], [], map[]));
  }

  /** The same event is sent again after a timeout. */
  lemma SentAgain(moves: seq<Move>, db: Db, replies: seq<Reply>) returns (longer: seq<Move>)
    requires Play(UTC, BEGIN, moves) == After(db, Holder(Waiting(0)), [OWNED], replies, map[])
    ensures Play(UTC, BEGIN, longer) == After(db, Holder(Waiting(1)), [OWNED, OWNED], replies, map[])
  {
    Sending(db, [], replies);
    Sending(db, [OWNED], replies);
    TimingOut(db, [OWNED], replies);
    hide Moved, Play, Holder, After;
    assert [OWNED] + [OWNED] == [OWNED, OWNED];
    longer := Next(moves, Timeout, After(db, Holder(Waiting(0)), [OWNED], replies, map[]),
                   After(db, Holder(Idle), [OWNED], replies, map[]));
    longer := Next(longer, Retry(true), After(db, Holder(Idle), [OWNED], replies, map[]),
                   After(db, Holder(Storing), [OWNED], replies, map[]));
    longer := Next(longer, Transmit, After(db, Holder(Storing), [OWNED], replies, map[]),
                   After(db, Holder(Waiting(1)), [OWNED, OWNED], replies, map[]));
  }

  lemma TimingOut(db: Db, sent: seq<Owned>, replies: seq<Reply>)
    ensures Moved(UTC, After(db, Holder(Waiting(0)), sent, replies, map[]), Timeout)
      == After(db, Holder(Idle), sent, replies, map[])
  {
    hide Apply, Transition;
  }

  /**
   * A request that arrives only after its repetition was refused: the event is dropped as rejected and still takes
   * effect.
   */
  lemma LateDuplicate() returns (moves: seq<Move>)
    ensures Initial(BEGIN) && Coherent(BEGIN)
    ensures var after := Play(UTC, BEGIN, moves);
      ID in after.outcomes && after.outcomes[ID] == Dropped && ID in after.clicks && Took(after, after.clicks[ID])
  {
    hide Moved, Play, Holder, Transition, CommandOf, Coherent, Consistent, Logged;
    BeginCoherent();
    moves := SentOnce();
    moves := SentAgain(moves, BOOKED, []);
    StartAt(150);
    StartAt(300);
    var refused := [Reply(1, Declined(409))];
    var db := Transition(UTC.zone, BOOKED, 300, CommandOf(OWNED)).1;
    var answered := AnswerOf(Transition(UTC.zone, BOOKED, 300, CommandOf(OWNED)).0);
    Delivering(BOOKED, Holder(Waiting(1)), [OWNED, OWNED], [], map[], 1, 150);
    Dropping(BOOKED, [OWNED, OWNED], refused, 0, 1, 409);
    Delivering(BOOKED, SHOWN.(status := None), [OWNED, OWNED], refused, map[ID := Dropped], 0, 300);
    StartTakes();
    assert [] + [Reply(1, Declined(409))] == refused;
    moves := Next(moves, Deliver(1, 150, true), After(BOOKED, Holder(Waiting(1)), [OWNED, OWNED], [], map[]),
                  After(BOOKED, Holder(Waiting(1)), [OWNED, OWNED], refused, map[]));
    moves := Next(moves, Receive(0, true), After(BOOKED, Holder(Waiting(1)), [OWNED, OWNED], refused, map[]),
                  After(BOOKED, SHOWN.(status := None), [OWNED, OWNED], refused, map[ID := Dropped]));
    moves := Next(moves, Deliver(0, 300, true),
                  After(BOOKED, SHOWN.(status := None), [OWNED, OWNED], refused, map[ID := Dropped]),
                  After(db, SHOWN.(status := None), [OWNED, OWNED], refused + [Reply(0, answered)],
                        map[ID := Dropped]));
  }

  /** An account removed between two deliveries: the repetition is refused although the event has taken effect. */
  lemma RemovedAccount() returns (moves: seq<Move>)
    ensures var after := Play(UTC, BEGIN, moves);
      ID in after.outcomes && after.outcomes[ID] == Dropped && ID in after.clicks && Took(after, after.clicks[ID])
  {
    hide Moved, Play, Holder, Transition, CommandOf, Coherent, Consistent, Logged;
    moves := SentOnce();
    StartAt(300);
    var db := Transition(UTC.zone, BOOKED, 300, CommandOf(OWNED)).1;
    var accepted := [Reply(0, AnswerOf(Transition(UTC.zone, BOOKED, 300, CommandOf(OWNED)).0))];
    Delivering(BOOKED, Holder(Waiting(0)), [OWNED], [], map[], 0, 300);
    StartTakes();
    var gone := db.(users := map[]);
    Removing(db, Holder(Waiting(0)), [OWNED], accepted);
    UnknownRefused(gone);
    var refused := accepted + [Reply(1, Declined(403))];
    Delivering(gone, Holder(Waiting(1)), [OWNED, OWNED], accepted, map[], 1, 400);
    Dropping(gone, [OWNED, OWNED], refused, 1, 1, 403);
    assert [] + accepted == accepted;
    moves := Next(moves, Deliver(0, 300, true), After(BOOKED, Holder(Waiting(0)), [OWNED], [], map[]),
                  After(db, Holder(Waiting(0)), [OWNED], accepted, map[]));
    moves := Next(moves, Elsewhere(350, Accounts(map[])), After(db, Holder(Waiting(0)), [OWNED], accepted, map[]),
                  After(gone, Holder(Waiting(0)), [OWNED], accepted, map[]));
    moves := SentAgain(moves, gone, accepted);
    moves := Next(moves, Deliver(1, 400, true), After(gone, Holder(Waiting(1)), [OWNED, OWNED], accepted, map[]),
                  After(gone, Holder(Waiting(1)), [OWNED, OWNED], refused, map[]));
    moves := Next(moves, Receive(1, true), After(gone, Holder(Waiting(1)), [OWNED, OWNED], refused, map[]),
                  After(gone, SHOWN.(status := None), [OWNED, OWNED], refused, map[ID := Dropped]));
  }

  lemma Removing(db: Db, client: Client, sent: seq<Owned>, replies: seq<Reply>)
    ensures Moved(UTC, After(db, client, sent, replies, map[]), Elsewhere(350, Accounts(map[])))
         == After(db.(users := map[]), client, sent, replies, map[])
  {
    hide Transition;
  }

  lemma UnknownRefused(db: Db)
    requires db.users == map[]
    ensures Transition(UTC.zone, db, 400, CommandOf(OWNED)) == (Failure(UnknownAccount), db)
  {
    hide Perform;
    assert ValidEventId(ID);
  }

  // --- A storage that cannot be read ---

  const OTHER := "abcdef0123456789"
  const LATER := Owned(1, Body(OTHER, Start, false, None, None))

  lemma Leaving(db: Db, replies: seq<Reply>)
    ensures Moved(UTC, After(db, Holder(Waiting(0)), [OWNED], replies, map[]), Leave(false))
         == After(db, Client(None, None, None, Idle, Some(OWNED)), [OWNED], replies, map[])
  {
    hide Apply, Transition;
  }

  lemma EnteringUnread(db: Db, replies: seq<Reply>, removed: bool)
    ensures Moved(UTC, After(db, Client(None, None, None, Idle, Some(OWNED)), [OWNED], replies, map[]),
                  SignIn(1, false, removed))
         == After(db, Client(Some(1), None, None, Idle, if removed then None else Some(OWNED)), [OWNED], replies, map[])
  {
    hide Apply, Transition;
  }

  /**
   * The request was booked, its answer never came, and its owner signs in again while the storage cannot be read:
   * the event is removed unread, so nothing tells the client any more that it took effect.
   */
  lemma UnreadEvent() returns (moves: seq<Move>)
    ensures var after := Play(UTC, BEGIN, moves);
      && after.client == Client(Some(1), None, None, Idle, None)
      && ID !in after.outcomes && ID in after.clicks && Took(after, after.clicks[ID])
  {
    hide Moved, Play, Holder, Transition, CommandOf, Coherent, Consistent, Logged;
    moves := SentOnce();
    StartAt(300);
    StartTakes();
    var db := Transition(UTC.zone, BOOKED, 300, CommandOf(OWNED)).1;
    var accepted := [Reply(0, AnswerOf(Transition(UTC.zone, BOOKED, 300, CommandOf(OWNED)).0))];
    Delivering(BOOKED, Holder(Waiting(0)), [OWNED], [], map[], 0, 300);
    assert [] + accepted == accepted;
    Leaving(db, accepted);
    EnteringUnread(db, accepted, true);
    moves := Next(moves, Deliver(0, 300, true), After(BOOKED, Holder(Waiting(0)), [OWNED], [], map[]),
                  After(db, Holder(Waiting(0)), [OWNED], accepted, map[]));
    moves := Next(moves, Leave(false), After(db, Holder(Waiting(0)), [OWNED], accepted, map[]),
                  After(db, Client(None, None, None, Idle, Some(OWNED)), [OWNED], accepted, map[]));
    moves := Next(moves, SignIn(1, false, true),
                  After(db, Client(None, None, None, Idle, Some(OWNED)), [OWNED], accepted, map[]),
                  After(db, Client(Some(1), None, None, Idle, None), [OWNED], accepted, map[]));
  }

  /**
   * When the removal fails as well, the event stays in storage without being pending, and the next click replaces it.
   */
  lemma OverwrittenEvent() returns (moves: seq<Move>)
    ensures var after := Play(UTC, BEGIN, moves);
      && after.client.saved == Some(LATER) && after.client.pending == Some(LATER.body)
      && ID in after.clicks && after.clicks[ID] == OWNED && ID !in after.outcomes
  {
    hide Moved, Play, Holder, Transition, CommandOf, Coherent, Consistent, Logged;
    moves := SentOnce();
    Leaving(BOOKED, []);
    EnteringUnread(BOOKED, [], false);
    Replacing();
    var left := After(BOOKED, Client(None, None, None, Idle, Some(OWNED)), [OWNED], [], map[]);
    var back := After(BOOKED, Client(Some(1), None, None, Idle, Some(OWNED)), [OWNED], [], map[]);
    moves := Next(moves, Leave(false), After(BOOKED, Holder(Waiting(0)), [OWNED], [], map[]), left);
    moves := Next(moves, SignIn(1, false, false), left, back);
    moves := Next(moves, ShowStatus(Absent, None), back, Moved(UTC, back, ShowStatus(Absent, None)));
    moves := Next(moves, Click(Start, OTHER, NEW_DAY, true), Moved(UTC, back, ShowStatus(Absent, None)),
                  Moved(UTC, Moved(UTC, back, ShowStatus(Absent, None)), Click(Start, OTHER, NEW_DAY, true)));
  }

  lemma Replacing()
    ensures
      var back := After(BOOKED, Client(Some(1), None, None, Idle, Some(OWNED)), [OWNED], [], map[]);
      var after := Moved(UTC, Moved(UTC, back, ShowStatus(Absent, None)), Click(Start, OTHER, NEW_DAY, true));
      && after.client.saved == Some(LATER) && after.client.pending == Some(LATER.body)
      && after.clicks == map[ID := OWNED, OTHER := LATER] && after.outcomes == map[]
  {
    hide Apply, Transition;
    var back := After(BOOKED, Client(Some(1), None, None, Idle, Some(OWNED)), [OWNED], [], map[]);
    var shown := Moved(UTC, back, ShowStatus(Absent, None));
    assert shown == back.(client := back.client.(status := Some(Known(Absent, None))));
    assert ValidEventId(OTHER);
    assert OTHER != ID by {
      assert OTHER[0] != ID[0];
    }
    assert FreshId(shown, OTHER);
    assert ValidMetadata(NEW_DAY);
    assert Built(shown.client, OTHER, Start, NEW_DAY) == Some(LATER.body);
  }
}
