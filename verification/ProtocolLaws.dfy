/** What the booking protocol guarantees over whole runs, and exactly where the guarantee of a refusal ends. */
module ProtocolLaws {
  import opened Wrappers
  import opened Booking
  import opened Schema
  import opened Attendance
  import opened Consistency
  import opened WorkflowHints
  import opened Runs
  import opened EventLog
  import opened StampGuards
  import opened Popup
  import opened BookingProtocol

  // --- At most once, and once when acknowledged ---

  predicate IsEntry(e: Event, o: Owned) {
    e.source == CommandOf(o).source && e.eventId == o.body.eventId
  }

  ghost predicate AtMostOneEntry(events: seq<Event>, o: Owned) {
    forall i, j | 0 <= i < |events| && 0 <= j < |events| && IsEntry(events[i], o) && IsEntry(events[j], o) :: i == j
  }

  /** In every reachable state a user action is logged at most once, for its own account and with its own payload. */
  lemma AtMostOnce(env: Env, sys: System, moves: seq<Move>, id: string)
    requires Coherent(sys) && id in Play(env, sys, moves).clicks
    ensures var after := Play(env, sys, moves);
      && AtMostOneEntry(after.db.events, after.clicks[id])
      && (forall i :: 0 <= i < |after.db.events| && IsEntry(after.db.events[i], after.clicks[id]) ==>
            EntryOf(after.db.events[i], CommandOf(after.clicks[id])))
  {
    PlayKeeps(env, sys, moves);
    hide RecordsNumbered, SessionsMatched, BreaksOrdered, PausesStored, ClientCoherent, NetworkCoherent, OutcomesTrue,
      Play, CommandOf, EntryOf, Matching;
    var after := Play(env, sys, moves);
    forall i, j | 0 <= i < |after.db.events| && 0 <= j < |after.db.events|
      && IsEntry(after.db.events[i], after.clicks[id]) && IsEntry(after.db.events[j], after.clicks[id]) ensures i == j {
      assert SameKey(after.db.events[i], after.db.events[j]);
      assert SameKey(after.db.events[j], after.db.events[i]);
    }
    forall i | 0 <= i < |after.db.events| && IsEntry(after.db.events[i], after.clicks[id])
      ensures EntryOf(after.db.events[i], CommandOf(after.clicks[id])) {
      assert Genuine(after.db.events[i], after.clicks[id]);
    }
  }

  /** An acknowledged action took effect: together with AtMostOnce, exactly once. */
  lemma AcknowledgedTook(env: Env, sys: System, moves: seq<Move>, id: string)
    requires Coherent(sys)
    requires id in Play(env, sys, moves).outcomes && Play(env, sys, moves).outcomes[id] == Acknowledged
    ensures id in Play(env, sys, moves).clicks
    ensures exists i :: && 0 <= i < |Play(env, sys, moves).db.events|
                        && IsEntry(Play(env, sys, moves).db.events[i], Play(env, sys, moves).clicks[id])
  {
    PlayKeeps(env, sys, moves);
    hide Consistent, ClientCoherent, NetworkCoherent, Play, CommandOf;
    var after := Play(env, sys, moves);
    var o := after.clicks[id];
    assert Took(after, o);
    assert o.body.eventId == id;
    var i :| 0 <= i < |after.db.events| && after.db.events[i].source == CommandOf(o).source
      && after.db.events[i].eventId == id;
    assert IsEntry(after.db.events[i], o);
  }

  /** Delivering an action again that has taken effect changes nothing and is answered with the stored receipt. */
  lemma RetryReplayed(env: Env, sys: System, send: nat, now: int)
    requires Coherent(sys) && send < |sys.sent| && Took(sys, sys.sent[send])
    requires sys.sent[send].user in sys.db.users
    ensures Transition(env.zone, sys.db, now, CommandOf(sys.sent[send])).1 == sys.db
    ensures Transition(env.zone, sys.db, now, CommandOf(sys.sent[send])).0.Success?
    ensures Matching(sys.sent[send].body, Transition(env.zone, sys.db, now, CommandOf(sys.sent[send])).0.value)
  {
    hide Consistent, Transition, CommandOf, EntryOf, LogGenuine, ValidPending, Matching, Logged;
    var o := sys.sent[send];
    assert Clicked(sys, o);
    var i := TookEntry(sys, o);
    CommandsAdmissible(o);
    ReplayedUnchanged(env.zone, sys.db, now, CommandOf(o), i);
  }

  /**
   * A lost answer costs one retry and never a second booking: receiving the answer to a repeated delivery of an
   * action that has taken effect acknowledges it, and the database has not changed.
   */
  lemma RetryAcknowledged(env: Env, sys: System, send: nat, now: int)
    requires Coherent(sys) && send < |sys.sent| && Took(sys, sys.sent[send])
    requires sys.sent[send].user in sys.db.users
    requires sys.client.phase == Waiting(send)
    ensures var settled := Moved(env, Moved(env, sys, Deliver(send, now, true)), Receive(|sys.replies|, true));
      var id := sys.sent[send].body.eventId;
      && settled.db == sys.db
      && id in settled.outcomes && settled.outcomes[id] == Acknowledged
      && settled.client.pending.None? && settled.client.saved.None?
  {
    RetryReplayed(env, sys, send, now);
    var delivered := Delivered(env.zone, sys, send, now, true);
    DeliverMoves(env, sys, send, now);
    ReceiveMoves(env, delivered, |sys.replies|);
    hide Consistent, Transition, CommandOf, LogGenuine, ValidPending, Matching, Logged, Moved;
  }

  lemma DeliverMoves(env: Env, sys: System, send: nat, now: int)
    requires send < |sys.sent|
    ensures Moved(env, sys, Deliver(send, now, true)) == Delivered(env.zone, sys, send, now, true)
  {
    hide Transition, CommandOf, Apply, Matching;
  }

  lemma ReceiveMoves(env: Env, sys: System, reply: nat)
    requires reply < |sys.replies| && sys.client.phase == Waiting(sys.replies[reply].send) && sys.client.pending.Some?
    ensures Moved(env, sys, Receive(reply, true)) == Concluded(sys, sys.replies[reply].answer, true)
  {
  }

  lemma TookEntry(sys: System, o: Owned) returns (i: nat)
    requires Coherent(sys) && Clicked(sys, o) && Took(sys, o)
    ensures i < |sys.db.events| && EntryOf(sys.db.events[i], CommandOf(o)) && Matching(o.body, sys.db.events[i].receipt)
  {
    hide Consistent, ClientCoherent, NetworkCoherent, CommandOf, EntryOf, Matching, ValidPending;
    i :| 0 <= i < |sys.db.events| && sys.db.events[i].source == CommandOf(o).source
      && sys.db.events[i].eventId == o.body.eventId;
    assert Genuine(sys.db.events[i], sys.clicks[o.body.eventId]);
  }

  /** The server never refuses the form of what the client sends. */
  lemma CommandsAdmissible(o: Owned)
    ensures ValidPending(o.body) ==>
      var c := CommandOf(o);
      && c.user == o.user && ValidEventId(c.eventId) && ParseAction(c.action) == Some(o.body.action)
      && (c.metadata.Some? ==> c.action == "start" && ValidMetadata(c.metadata.value))
  {
    hide ValidEventId, ValidMetadata, Number;
  }

  // --- Refusals ---

  /** The move delivers a request of the action that is let through by the sign-in check. */
  predicate Delivers(sys: System, move: Move, id: string) {
    move.Deliver? && move.signedIn && move.send < |sys.sent| && sys.sent[move.send].body.eventId == id
  }

  function ResultOf(env: Env, sys: System, move: Move, id: string): Result<Receipt, Error>
    requires Delivers(sys, move, id)
  {
    Transition(env.zone, sys.db, move.now, CommandOf(sys.sent[move.send])).0
  }

  predicate Accepts(env: Env, sys: System, move: Move, id: string) {
    Delivers(sys, move, id) && ResultOf(env, sys, move, id).Success?
  }

  predicate Declines(env: Env, sys: System, move: Move, id: string) {
    Delivers(sys, move, id) && AnswerOf(ResultOf(env, sys, move, id)).Declined?
  }

  /** The account of the delivered request exists when it reaches the transition. */
  predicate AccountKept(sys: System, move: Move) {
    move.Deliver? && move.send < |sys.sent| && sys.sent[move.send].user in sys.db.users
  }

  /** The delivered request finds its account, and rows that let its action be booked. */
  ghost predicate LetThrough(env: Env, sys: System, move: Move, id: string) {
    && Delivers(sys, move, id) && AccountKept(sys, move)
    && MayBook(env.zone, sys.db, move.now, CommandOf(sys.sent[move.send]), sys.sent[move.send].body.action)
  }

  /**
   * The server accepts a delivery exactly when the account exists and the action is logged already or can be booked.
   */
  lemma AcceptsExactly(env: Env, sys: System, move: Move, id: string)
    requires Coherent(sys) && Delivers(sys, move, id)
    ensures Accepts(env, sys, move, id) <==>
      AccountKept(sys, move) && (Took(sys, sys.sent[move.send]) || LetThrough(env, sys, move, id))
  {
    var o := sys.sent[move.send];
    SentValid(sys, o);
    CommandsAdmissible(o);
    SucceedsExactly(env.zone, sys.db, move.now, CommandOf(o));
    if Took(sys, o) {
      var i := TookEntry(sys, o);
      hide Coherent, Transition, CommandOf, MayBook, ValidEventId, ValidMetadata, PayloadOf, ValidPending, Matching;
      assert RepeatOf(sys.db, CommandOf(o), i);
    }
    hide Coherent, Transition, MayBook, ValidEventId, ValidMetadata, PayloadOf, ValidPending, Number, RepeatOf;
  }

  /** A stamp never fails on a constraint of the tables, so it is always answered with a receipt or a refusal. */
  lemma NoConstraintFails(z: Zone, db: Db, now: int, c: Command)
    requires Consistent(db) && Transition(z, db, now, c).0.Failure?
    ensures 400 <= StatusOf(Transition(z, db, now, c).0.error) < 500
  {
    hide RecordsNumbered, SessionsMatched, BreaksOrdered, PausesStored, EventsLogged, Open, Later, ValidMetadata;
    match Admit(db, c)
    case Admitted(action) =>
      if action == Start {
        OpenRefuses(z, db, now, c);
      } else {
        LaterRefuses(db, now, c, action);
      }
    case _ =>
  }

  lemma OpenRefuses(z: Zone, db: Db, now: int, c: Command)
    requires Consistent(db) && Open(z, db, now, c).Failure?
    ensures 400 <= StatusOf(Open(z, db, now, c).error) < 500
  {
    hide NoOverlap, BreaksOrdered, PausesStoredBut, EventsLogged, Unique, Matches;
  }

  lemma LaterRefuses(db: Db, now: int, c: Command, action: Action)
    requires Consistent(db) && Later(db, now, c, action).Failure?
    ensures 400 <= StatusOf(Later(db, now, c, action).error) < 500
  {
    hide BreaksOrdered, PausesStoredBut, EventsLogged, Unique, Stamp;
    var legacy := OpenBookings(db.records, c.user, db.nextRecord);
    if OpenSession(db.sessions, c.user) < 0 && legacy != [] {
      LegacyAdoptable(db, c.user, legacy[0]);
    }
  }

  /** A delivery that passes the sign-in check is answered: with a receipt if it is accepted, with a refusal if not. */
  lemma DeliveryAnswered(env: Env, sys: System, move: Move, id: string)
    requires Coherent(sys) && Delivers(sys, move, id)
    ensures var after := Moved(env, sys, move);
      && |after.replies| == |sys.replies| + 1 && after.replies[|sys.replies|].send == move.send
      && (after.replies[|sys.replies|].answer.Accepted? <==> Accepts(env, sys, move, id))
      && (after.replies[|sys.replies|].answer.Declined? <==> !Accepts(env, sys, move, id))
  {
    var c := CommandOf(sys.sent[move.send]);
    DeliverMoves(env, sys, move.send, move.now);
    if Transition(env.zone, sys.db, move.now, c).0.Failure? {
      NoConstraintFails(env.zone, sys.db, move.now, c);
    }
    hide Coherent, Transition, CommandOf, Moved, StatusOf;
  }

  lemma SentValid(sys: System, o: Owned)
    requires Coherent(sys) && o in sys.sent
    ensures Clicked(sys, o) && ValidPending(o.body) && Consistent(sys.db)
  {
    hide Consistent, ValidPending;
  }

  /** The state in which move k of a run is made. */
  function Before(env: Env, sys: System, moves: seq<Move>, k: nat): System
    requires k <= |moves|
  {
    Play(env, sys, moves[..k])
  }

  /** A refused delivery for an existing account finds the action without effect and leaves it so. */
  lemma DeclinedNotTook(env: Env, sys: System, send: nat, now: int)
    requires Coherent(sys) && send < |sys.sent| && sys.sent[send].user in sys.db.users
    requires Transition(env.zone, sys.db, now, CommandOf(sys.sent[send])).0.Failure?
    ensures !Took(sys, sys.sent[send])
    ensures Moved(env, sys, Deliver(send, now, true)).db == sys.db
  {
    TransitionLogs(env.zone, sys.db, now, CommandOf(sys.sent[send]));
    hide Coherent, Transition, CommandOf, Took;
    if Took(sys, sys.sent[send]) {
      RetryReplayed(env, sys, send, now);
    }
  }

  /** The action comes into effect only in an accepted delivery of it. */
  lemma TakesOnlyWhenDelivered(env: Env, sys: System, move: Move, id: string)
    requires Coherent(sys) && id in sys.clicks && !Took(sys, sys.clicks[id])
    ensures id in Moved(env, sys, move).clicks && Moved(env, sys, move).clicks[id] == sys.clicks[id]
    ensures Took(Moved(env, sys, move), sys.clicks[id]) <==> Accepts(env, sys, move, id)
  {
    hide Coherent, Took, Transition, CommandOf;
    if !Enabled(sys, move) {
      DisabledStays(env, sys, move);
    } else if move.Deliver? {
      DeliverTakes(env, sys, move, id);
    } else if move.Elsewhere? {
      ElsewhereTakesNot(env, sys, move, id);
    } else {
      LocalMoves(env, sys, move);
      assert Took(Moved(env, sys, move), sys.clicks[id]) == Took(sys, sys.clicks[id]) by {
        SameLog(sys, Moved(env, sys, move), sys.clicks[id]);
      }
    }
  }

  lemma SameLog(sys: System, after: System, o: Owned)
    requires after.db == sys.db
    ensures Took(after, o) == Took(sys, o)
  {
  }

  lemma DeliverTakes(env: Env, sys: System, move: Move, id: string)
    requires Coherent(sys) && id in sys.clicks && !Took(sys, sys.clicks[id]) && move.Deliver? && Enabled(sys, move)
    ensures Moved(env, sys, move).clicks == sys.clicks
    ensures Took(Moved(env, sys, move), sys.clicks[id]) <==> Accepts(env, sys, move, id)
  {
    hide Coherent, Transition, CommandOf, Logged;
    assert id == sys.clicks[id].body.eventId by {
      ClickKey(sys, id);
    }
    if move.signedIn {
      DeliveryTakes(env, sys, move.send, move.now, id);
    }
  }

  lemma ClickKey(sys: System, id: string)
    requires Coherent(sys) && id in sys.clicks
    ensures sys.clicks[id].body.eventId == id
  {
  }

  lemma ElsewhereTakesNot(env: Env, sys: System, move: Move, id: string)
    requires Coherent(sys) && id in sys.clicks && !Took(sys, sys.clicks[id]) && move.Elsewhere? && Enabled(sys, move)
    ensures Moved(env, sys, move).clicks == sys.clicks
    ensures !Took(Moved(env, sys, move), sys.clicks[id])
  {
    hide Coherent, Apply, CommandOf, Logged;
    OtherStepsTakeNot(env, sys, move.now, move.step, id);
  }

  lemma LocalMoves(env: Env, sys: System, move: Move)
    requires !move.Deliver? && !move.Elsewhere?
    ensures Moved(env, sys, move).db == sys.db
    ensures forall id :: id in sys.clicks ==>
      id in Moved(env, sys, move).clicks && Moved(env, sys, move).clicks[id] == sys.clicks[id]
  {
    hide ValidPending, Matching;
  }

  lemma OtherStepsTakeNot(env: Env, sys: System, now: int, step: Step, id: string)
    requires Coherent(sys) && id in sys.clicks && !Took(sys, sys.clicks[id]) && Foreign(sys, step)
    ensures !Took(sys.(db := Apply(env, sys.db, now, step)), sys.clicks[id])
  {
    hide Consistent, Transition, CommandOf, ClientCoherent, NetworkCoherent, OutcomesTrue, Fits, ValidPending, Genuine;
    var after := Apply(env, sys.db, now, step).events;
    if step.Stamped? {
      TransitionLogs(env.zone, sys.db, now, step.command);
      NotLoggedByOthers(sys.db.events, after, step.command, CommandOf(sys.clicks[id]).source, id);
    } else {
      OtherStepsKeepLog(env, sys.db, now, step);
    }
  }

  lemma NotLoggedByOthers(events: seq<Event>, after: seq<Event>, c: Command, source: string, id: string)
    requires LogsOnly(events, after, c) && !Logged(events, source, id)
    requires c.source != source || c.eventId != id
    ensures !Logged(after, source, id)
  {
    forall i | 0 <= i < |after| ensures !(after[i].source == source && after[i].eventId == id) {
      if i < |events| {
        assert after[i] == events[i];
      }
    }
  }

  lemma DeliveryTakes(env: Env, sys: System, send: nat, now: int, id: string)
    requires Coherent(sys) && id in sys.clicks && !Took(sys, sys.clicks[id]) && send < |sys.sent|
    ensures Logged(Transition(env.zone, sys.db, now, CommandOf(sys.sent[send])).1.events,
                   CommandOf(sys.clicks[id]).source, id)
      <==> sys.sent[send].body.eventId == id && Transition(env.zone, sys.db, now, CommandOf(sys.sent[send])).0.Success?
  {
    hide Consistent, Transition, Fits, ValidPending, Genuine, ClientCoherent, OutcomesTrue, Decimal;
    var o := sys.sent[send];
    assert Clicked(sys, o);
    TransitionLogs(env.zone, sys.db, now, CommandOf(o));
    var after := Transition(env.zone, sys.db, now, CommandOf(o)).1.events;
    if o.body.eventId != id {
      NotLoggedByOthers(sys.db.events, after, CommandOf(o), CommandOf(sys.clicks[id]).source, id);
    } else if Transition(env.zone, sys.db, now, CommandOf(o)).0.Success? {
      AcceptedTook(env.zone, sys.db, now, o, sys.clicks);
    }
  }

  /** The states before the moves of a run do not depend on what comes later. */
  lemma PrefixSame(env: Env, sys: System, moves: seq<Move>, n: nat, k: nat)
    requires k <= n <= |moves|
    ensures Before(env, sys, moves[..n], k) == Before(env, sys, moves, k)
  {
    assert moves[..n][..k] == moves[..k];
  }

  /** From move j on, some delivery of the action is let through. */
  ghost predicate LetThroughFrom(env: Env, sys: System, moves: seq<Move>, j: nat, id: string) {
    exists k :: j <= k < |moves| && LetThrough(env, Before(env, sys, moves, k), moves[k], id)
  }

  lemma LetThroughLonger(env: Env, sys: System, moves: seq<Move>, j: nat, id: string)
    requires j < |moves|
    ensures LetThroughFrom(env, sys, moves, j, id) <==>
      || LetThroughFrom(env, sys, moves[..|moves| - 1], j, id)
      || LetThrough(env, Before(env, sys, moves, |moves| - 1), moves[|moves| - 1], id)
  {
    hide LetThrough, Before;
    var last := |moves| - 1;
    forall k | j <= k < last
      ensures LetThrough(env, Before(env, sys, moves[..last], k), moves[..last][k], id)
           == LetThrough(env, Before(env, sys, moves, k), moves[k], id) {
      PrefixSame(env, sys, moves, last, k);
    }
  }

  lemma LastMove(env: Env, sys: System, moves: seq<Move>)
    requires moves != []
    ensures Play(env, sys, moves) == Moved(env, Before(env, sys, moves, |moves| - 1), moves[|moves| - 1])
  {
    hide Moved;
  }

  lemma TakesStep(env: Env, sys: System, move: Move, id: string)
    requires Coherent(sys) && id in sys.clicks
    ensures id in Moved(env, sys, move).clicks
    ensures Took(Moved(env, sys, move), Moved(env, sys, move).clicks[id]) <==>
      Took(sys, sys.clicks[id]) || LetThrough(env, sys, move, id)
  {
    hide Coherent, Took, Moved, Accepts, MayBook;
    if Took(sys, sys.clicks[id]) {
      TookStays(env, sys, move, id);
    } else {
      TakesOnlyWhenDelivered(env, sys, move, id);
      if Delivers(sys, move, id) {
        AcceptsExactly(env, sys, move, id);
        SentValid(sys, sys.sent[move.send]);
      } else {
        NotAccepted(env, sys, move, id);
      }
    }
  }

  lemma NotAccepted(env: Env, sys: System, move: Move, id: string)
    requires !Delivers(sys, move, id)
    ensures !Accepts(env, sys, move, id)
  {
  }

  /** From any point of a run on, an action comes to have taken effect exactly when a delivery of it is let through. */
  lemma {:induction false} TookExactly(env: Env, sys: System, moves: seq<Move>, j: nat, id: string)
    requires Coherent(sys) && j <= |moves| && id in Before(env, sys, moves, j).clicks
    ensures id in Play(env, sys, moves).clicks
    ensures Took(Play(env, sys, moves), Play(env, sys, moves).clicks[id]) <==>
      || Took(Before(env, sys, moves, j), Before(env, sys, moves, j).clicks[id])
      || LetThroughFrom(env, sys, moves, j, id)
    decreases |moves|
  {
    hide Coherent, Took, Play, Moved, LetThrough;
    if j == |moves| {
      assert moves[..j] == moves;
    } else {
      var last := |moves| - 1;
      PlayKeeps(env, sys, moves[..last]);
      LastMove(env, sys, moves);
      PrefixSame(env, sys, moves, last, j);
      LetThroughLonger(env, sys, moves, j, id);
      hide LetThroughFrom;
      TookExactly(env, sys, moves[..last], j, id);
      TakesStep(env, Before(env, sys, moves, last), moves[last], id);
    }
  }

  /**
   * After a refused delivery the action has taken effect exactly when a later delivery of it was let through, or when
   * the refusal was for a missing account and the action had taken effect before.
   */
  lemma DeclinedExactly(env: Env, sys: System, moves: seq<Move>, j: nat, id: string)
    requires Coherent(sys) && j < |moves|
    requires Declines(env, Before(env, sys, moves, j), moves[j], id)
    ensures id in Before(env, sys, moves, j).clicks && id in Play(env, sys, moves).clicks
    ensures Took(Play(env, sys, moves), Play(env, sys, moves).clicks[id]) <==>
      || (!AccountKept(Before(env, sys, moves, j), moves[j])
           && Took(Before(env, sys, moves, j), Before(env, sys, moves, j).clicks[id]))
      || LetThroughFrom(env, sys, moves, j + 1, id)
  {
    hide Coherent, Took, Play, Moved, Declines, AccountKept, LetThroughFrom;
    PlayKeeps(env, sys, moves[..j]);
    var before := Before(env, sys, moves, j);
    DeclinedHere(env, before, moves[j], id);
    assert moves[..j + 1][..j] == moves[..j];
    LastMove(env, sys, moves[..j + 1]);
    assert Before(env, sys, moves, j + 1) == Moved(env, before, moves[j]);
    TookExactly(env, sys, moves, j + 1, id);
  }

  /** When nothing of it arrives after a refusal that found the account, the action never takes effect. */
  lemma RefusedForGood(env: Env, sys: System, moves: seq<Move>, j: nat, id: string)
    requires Coherent(sys) && j < |moves|
    requires Declines(env, Before(env, sys, moves, j), moves[j], id)
      && AccountKept(Before(env, sys, moves, j), moves[j])
    requires forall k :: j < k < |moves| ==> !Delivers(Before(env, sys, moves, k), moves[k], id)
    ensures id in Play(env, sys, moves).clicks && !Took(Play(env, sys, moves), Play(env, sys, moves).clicks[id])
  {
    hide Coherent, Took, Play, Before, Declines, AccountKept, Delivers, MayBook;
    DeclinedExactly(env, sys, moves, j, id);
  }

  lemma DeclinedHere(env: Env, sys: System, move: Move, id: string)
    requires Coherent(sys) && Declines(env, sys, move, id)
    ensures id in sys.clicks && id in Moved(env, sys, move).clicks
    ensures Took(Moved(env, sys, move), Moved(env, sys, move).clicks[id]) <==>
      !AccountKept(sys, move) && Took(sys, sys.clicks[id])
  {
    var o := sys.sent[move.send];
    SentValid(sys, o);
    TransitionLogs(env.zone, sys.db, move.now, CommandOf(o));
    DeliverMoves(env, sys, move.send, move.now);
    if AccountKept(sys, move) {
      DeclinedNotTook(env, sys, move.send, move.now);
    }
    hide Coherent, Transition, CommandOf, Moved, Logged, LogsOnly;
  }

  lemma TookStays(env: Env, sys: System, move: Move, id: string)
    requires Coherent(sys) && id in sys.clicks && Took(sys, sys.clicks[id])
    ensures id in Moved(env, sys, move).clicks && Moved(env, sys, move).clicks[id] == sys.clicks[id]
    ensures Took(Moved(env, sys, move), sys.clicks[id])
  {
    if !move.Deliver? && !move.Elsewhere? {
      LocalMoves(env, sys, move);
    } else {
      LogOnlyGrows(env, sys, move);
      LoggedStays(sys.db.events, Moved(env, sys, move).db.events, CommandOf(sys.clicks[id]).source, id);
    }
  }

  lemma LogOnlyGrows(env: Env, sys: System, move: Move)
    requires Consistent(sys.db) && (move.Deliver? || move.Elsewhere?)
    ensures Moved(env, sys, move).clicks == sys.clicks
    ensures sys.db.events <= Moved(env, sys, move).db.events
  {
    hide Consistent, Transition, CommandOf, Fits, EntryOf, Logged, Foreign;
    match move
    case Deliver(send, now, signedIn) =>
      if send < |sys.sent| {
        TransitionLogs(env.zone, sys.db, now, CommandOf(sys.sent[send]));
      }
    case Elsewhere(now, step) =>
      if step.Stamped? {
        TransitionLogs(env.zone, sys.db, now, step.command);
      } else {
        OtherStepsKeepLog(env, sys.db, now, step);
      }
    case _ =>
  }

  lemma LoggedStays(events: seq<Event>, after: seq<Event>, source: string, id: string)
    requires |events| <= |after| && after[..|events|] == events && Logged(events, source, id)
    ensures Logged(after, source, id)
  {
    var i :| 0 <= i < |events| && events[i].source == source && events[i].eventId == id;
    assert after[i] == events[i];
  }

  // --- What a dropped event went through ---

  predicate Initial(sys: System) {
    sys.client == Client(None, None, None, Idle, None) && sys.clicks == map[] && sys.sent == [] && sys.replies == []
      && sys.outcomes == map[]
  }

  ghost predicate DeclinedOnce(env: Env, sys: System, moves: seq<Move>, id: string) {
    exists j :: 0 <= j < |moves| && Declines(env, Before(env, sys, moves, j), moves[j], id)
  }

  lemma DeclinedOnceStays(env: Env, sys: System, moves: seq<Move>, id: string)
    requires moves != [] && DeclinedOnce(env, sys, moves[..|moves| - 1], id)
    ensures DeclinedOnce(env, sys, moves, id)
  {
    hide Declines, Before;
    var last := |moves| - 1;
    var j :| 0 <= j < last && Declines(env, Before(env, sys, moves[..last], j), moves[..last][j], id);
    PrefixSame(env, sys, moves, last, j);
  }

  /** Every refusal the server sent came from a delivery of the same request. */
  lemma {:induction false} RefusalsDelivered(env: Env, sys: System, moves: seq<Move>, r: nat)
    requires Initial(sys)
    requires r < |Play(env, sys, moves).replies| && Play(env, sys, moves).replies[r].answer.Declined?
    ensures Play(env, sys, moves).replies[r].send < |Play(env, sys, moves).sent|
    ensures DeclinedOnce(env, sys, moves,
                         Play(env, sys, moves).sent[Play(env, sys, moves).replies[r].send].body.eventId)
    decreases |moves|
  {
    NoRepliesYet(env, sys, moves);
    var last := |moves| - 1;
    LastMove(env, sys, moves);
    var before := Before(env, sys, moves, last);
    assert before == Play(env, sys, moves[..last]);
    hide Play, Before, Moved, Declines, DeclinedOnce, Initial;
    SentStays(env, before, moves[last]);
    if r < |before.replies| {
      RefusalsDelivered(env, sys, moves[..last], r);
      DeclinedOnceStays(env, sys, moves, before.sent[before.replies[r].send].body.eventId);
    } else {
      NewRefusal(env, before, moves[last]);
      DeclinedLast(env, sys, moves, before.sent[moves[last].send].body.eventId);
    }
  }

  lemma NoRepliesYet(env: Env, sys: System, moves: seq<Move>)
    requires Initial(sys) && Play(env, sys, moves).replies != []
    ensures moves != []
  {
    hide Moved;
  }

  lemma NewRefusal(env: Env, sys: System, move: Move)
    requires |Moved(env, sys, move).replies| > |sys.replies|
      && Moved(env, sys, move).replies[|sys.replies|].answer.Declined?
    ensures move.Deliver? && move.send < |sys.sent| && Declines(env, sys, move, sys.sent[move.send].body.eventId)
  {
    SentStays(env, sys, move);
    hide Moved, Transition, CommandOf;
  }

  lemma DeclinedLast(env: Env, sys: System, moves: seq<Move>, id: string)
    requires moves != [] && Declines(env, Before(env, sys, moves, |moves| - 1), moves[|moves| - 1], id)
    ensures DeclinedOnce(env, sys, moves, id)
  {
  }

  lemma SentStays(env: Env, sys: System, move: Move)
    ensures var after := Moved(env, sys, move);
      && sys.sent <= after.sent
      && |sys.replies| <= |after.replies| <= |sys.replies| + 1 && after.replies[..|sys.replies|] == sys.replies
      && (|after.replies| > |sys.replies| ==>
            && move.Deliver? && move.send < |sys.sent| && after.sent == sys.sent
            && after.replies[|sys.replies|].send == move.send
            && (after.replies[|sys.replies|].answer.Declined? ==>
                  move.signedIn && after.replies[|sys.replies|].answer
                    == AnswerOf(Transition(env.zone, sys.db, move.now, CommandOf(sys.sent[move.send])).0)))
  {
    hide Transition, ValidPending, Matching, CommandOf;
  }

  /** An event is dropped as rejected only after a delivery of it was refused. */
  lemma {:induction false} DroppedWasDeclined(env: Env, sys: System, moves: seq<Move>, id: string)
    requires Initial(sys) && Coherent(sys)
    requires id in Play(env, sys, moves).outcomes && Play(env, sys, moves).outcomes[id] == Dropped
    ensures DeclinedOnce(env, sys, moves, id)
    decreases |moves|
  {
    var last := |moves| - 1;
    LastMove(env, sys, moves);
    var before := Before(env, sys, moves, last);
    assert before == Play(env, sys, moves[..last]);
    PlayKeeps(env, sys, moves[..last]);
    hide Coherent, Moved, Play, Before, DeclinedOnce;
    if id in before.outcomes && before.outcomes[id] == Dropped {
      DroppedWasDeclined(env, sys, moves[..last], id);
    } else {
      DropReceived(env, before, moves[last], id);
      RefusalsDelivered(env, sys, moves[..last], moves[last].reply);
    }
    DeclinedOnceStays(env, sys, moves, id);
  }

  lemma DropReceived(env: Env, sys: System, move: Move, id: string)
    requires Coherent(sys)
    requires !(id in sys.outcomes && sys.outcomes[id] == Dropped)
    requires id in Moved(env, sys, move).outcomes && Moved(env, sys, move).outcomes[id] == Dropped
    ensures move.Receive? && move.reply < |sys.replies| && sys.replies[move.reply].answer.Declined?
    ensures sys.replies[move.reply].send < |sys.sent| && sys.sent[sys.replies[move.reply].send].body.eventId == id
  {
    hide Consistent, Transition, ValidPending, Matching, CommandOf, LogGenuine, Logged;
  }

  /** A delivery of the action was refused, and after it one was let through. */
  ghost predicate LetThroughAfterRefusal(env: Env, sys: System, moves: seq<Move>, id: string) {
    exists j :: 0 <= j < |moves| && Declines(env, Before(env, sys, moves, j), moves[j], id)
      && LetThroughFrom(env, sys, moves, j + 1, id)
  }

  /**
   * An event dropped as rejected has taken effect all the same if and only if a delivery of it was let through after
   * a refused one, provided that its account existed at the refusals.
   */
  lemma DroppedExactly(env: Env, sys: System, moves: seq<Move>, id: string)
    requires Initial(sys) && Coherent(sys)
    requires id in Play(env, sys, moves).outcomes && Play(env, sys, moves).outcomes[id] == Dropped
    requires forall j :: 0 <= j < |moves| && Declines(env, Before(env, sys, moves, j), moves[j], id) ==>
      AccountKept(Before(env, sys, moves, j), moves[j])
    ensures id in Play(env, sys, moves).clicks
    ensures Took(Play(env, sys, moves), Play(env, sys, moves).clicks[id]) <==>
      LetThroughAfterRefusal(env, sys, moves, id)
  {
    hide Coherent, Play, Took, Initial, LetThroughFrom, AccountKept, Declines, Before;
    DroppedWasDeclined(env, sys, moves, id);
    forall j | 0 <= j < |moves| && Declines(env, Before(env, sys, moves, j), moves[j], id)
      ensures id in Play(env, sys, moves).clicks
      ensures Took(Play(env, sys, moves), Play(env, sys, moves).clicks[id]) <==>
        LetThroughFrom(env, sys, moves, j + 1, id)
    {
      DeclinedExactly(env, sys, moves, j, id);
    }
  }

  /** Whatever became of it, an action took effect exactly when some delivery of it was let through. */
  lemma {:induction false} TookWhenLetThrough(env: Env, sys: System, moves: seq<Move>, id: string)
    requires Initial(sys) && Coherent(sys)
    ensures id in Play(env, sys, moves).clicks && Took(Play(env, sys, moves), Play(env, sys, moves).clicks[id])
      <==> LetThroughFrom(env, sys, moves, 0, id)
  {
    if moves != [] {
      var last := |moves| - 1;
      var before := Play(env, sys, moves[..last]);
      TookWhenLetThrough(env, sys, moves[..last], id);
      PlayKeeps(env, sys, moves[..last]);
      LastMove(env, sys, moves);
      LetThroughLonger(env, sys, moves, 0, id);
      assert before == Before(env, sys, moves, last);
      hide Coherent, Play, Took, Moved, Before, LetThrough, LetThroughFrom, Initial;
      if id in before.clicks {
        TakesStep(env, before, moves[last], id);
      } else {
        NewClick(env, before, moves[last], id);
      }
    }
  }

  /** A new click is not logged yet, and nothing of it can have been sent. */
  lemma NewClick(env: Env, sys: System, move: Move, id: string)
    requires Coherent(sys) && id !in sys.clicks
    ensures id in Moved(env, sys, move).clicks ==> !Took(Moved(env, sys, move), Moved(env, sys, move).clicks[id])
    ensures !LetThrough(env, sys, move, id)
  {
    forall o | o in sys.sent ensures Clicked(sys, o) {
      SentValid(sys, o);
    }
    if move.Deliver? || move.Elsewhere? {
      ServerMoves(env, sys, move);
    }
    hide Coherent, Apply, Transition, CommandOf, MayBook, ValidPending, Matching, Foreign;
  }

  // --- When a stored event is lost ---

  predicate InStore(sys: System, o: Owned) {
    sys.client.saved == Some(o)
  }

  /** The answer settles the stored event: a refusal or a matching acknowledgement that could be removed. */
  predicate Settles(sys: System, move: Move, o: Owned) {
    && move.Receive? && move.removed && Enabled(sys, move) && InStore(sys, o)
    && (sys.replies[move.reply].answer.Declined?
        || (sys.replies[move.reply].answer.Accepted? && Matching(o.body, sys.replies[move.reply].answer.receipt)))
  }

  /** Giving the stored event up on purpose: signing out, or signing in as somebody else. */
  predicate GivesUp(sys: System, move: Move, o: Owned) {
    && InStore(sys, o) && Enabled(sys, move)
    && (move == Leave(true) || (move.SignIn? && move.removed && move.user != o.user))
  }

  /** The owner signs in, the stored event cannot be read, and it is removed unread. */
  predicate DropsUnread(sys: System, move: Move, o: Owned) {
    InStore(sys, o) && Enabled(sys, move) && move.SignIn? && move.removed && move.user == o.user && !move.read
  }

  /** The stored event is not the pending one, and a pending event is written over it. */
  predicate Overwrites(sys: System, move: Move, o: Owned) {
    && InStore(sys, o) && Enabled(sys, move)
    && ((move.Click? && move.written)
        || (move.Retry? && move.written && Owned(sys.client.user.value, sys.client.pending.value) != o))
  }

  predicate Loses(sys: System, move: Move, o: Owned) {
    GivesUp(sys, move, o) || DropsUnread(sys, move, o) || Overwrites(sys, move, o)
  }

  /** What is stored is what the signed-in user's client is waiting for, or will store again. */
  predicate IsPending(sys: System, o: Owned) {
    sys.client.user == Some(o.user) && sys.client.pending == Some(o.body)
  }

  /**
   * One move takes the event out of storage exactly when it settles or loses it, and only settling records an outcome.
   */
  lemma MoveLoses(env: Env, sys: System, move: Move, o: Owned)
    requires Coherent(sys) && InStore(sys, o)
    ensures InStore(Moved(env, sys, move), o) <==> !Settles(sys, move, o) && !Loses(sys, move, o)
    ensures !(Settles(sys, move, o) && Loses(sys, move, o))
  {
    hide Coherent, InStore, Moved, Enabled;
    match move
    case Click(_, _, _, _) => ClickLoses(env, sys, move, o);
    case SignIn(_, _, _) => SignInLoses(env, sys, move, o);
    case Deliver(_, _, _) => ServerLoses(env, sys, move, o);
    case Elsewhere(_, _) => ServerLoses(env, sys, move, o);
    case Receive(_, _) => ReceiveLoses(env, sys, move, o);
    case _ => OthersLose(env, sys, move, o);
  }

  lemma ClickLoses(env: Env, sys: System, move: Move, o: Owned)
    requires Coherent(sys) && InStore(sys, o) && move.Click?
    ensures InStore(Moved(env, sys, move), o) <==> !Loses(sys, move, o)
  {
    StoredClicked(sys, o);
    if Enabled(sys, move) {
      ClickIsNew(sys, move, o);
    }
    hide Coherent, FreshId, Built;
  }

  lemma ServerLoses(env: Env, sys: System, move: Move, o: Owned)
    requires InStore(sys, o) && (move.Deliver? || move.Elsewhere?)
    ensures InStore(Moved(env, sys, move), o) && !Loses(sys, move, o)
  {
    hide Moved;
    ServerMoves(env, sys, move);
  }

  lemma ReceiveLoses(env: Env, sys: System, move: Move, o: Owned)
    requires Coherent(sys) && InStore(sys, o) && move.Receive?
    ensures InStore(Moved(env, sys, move), o) <==> !Settles(sys, move, o)
    ensures !Loses(sys, move, o)
  {
    assert Enabled(sys, move) ==> IsPending(sys, o) by {
      assert ClientCoherent(sys);
    }
    hide Coherent, Matching;
  }

  lemma OthersLose(env: Env, sys: System, move: Move, o: Owned)
    requires InStore(sys, o) && !move.Click? && !move.SignIn? && !move.Deliver? && !move.Elsewhere? && !move.Receive?
    ensures InStore(Moved(env, sys, move), o) <==> !Loses(sys, move, o)
    ensures !Settles(sys, move, o)
  {
    hide ValidPending, Matching, Credible;
  }

  lemma SignInLoses(env: Env, sys: System, move: Move, o: Owned)
    requires Coherent(sys) && InStore(sys, o) && move.SignIn?
    ensures InStore(Moved(env, sys, move), o) <==> !Loses(sys, move, o)
  {
    assert ValidPending(o.body) && Clicked(sys, o) by {
      assert ClientCoherent(sys);
    }
    hide Coherent, ValidPending, Bound;
  }

  lemma StoredClicked(sys: System, o: Owned)
    requires Coherent(sys) && InStore(sys, o)
    ensures Clicked(sys, o)
  {
    assert ClientCoherent(sys);
  }

  /** Neither the network nor anybody else touches the client. */
  lemma ServerMoves(env: Env, sys: System, move: Move)
    requires move.Deliver? || move.Elsewhere?
    ensures var after := Moved(env, sys, move);
      after.client == sys.client && after.clicks == sys.clicks && after.outcomes == sys.outcomes
  {
    hide Transition, Apply, CommandOf, Foreign;
  }

  lemma ClickIsNew(sys: System, move: Move, o: Owned)
    requires Clicked(sys, o) && move.Click? && Enabled(sys, move)
    ensures Built(sys.client, move.id, move.action, move.metadata).value != o.body
  {
  }

  /** Once out of storage and not pending, an event never comes back and is never settled. */
  predicate Away(sys: System, o: Owned) {
    Clicked(sys, o) && !InStore(sys, o) && !IsPending(sys, o)
  }

  lemma AwayStays(env: Env, sys: System, move: Move, o: Owned)
    requires Coherent(sys) && Away(sys, o)
    ensures Away(Moved(env, sys, move), o)
  {
    ClickedStays(env, sys, move, o);
    if move.Click? {
      ClickStaysAway(env, sys, move, o);
    } else if move.Deliver? || move.Elsewhere? {
      ServerMoves(env, sys, move);
    } else {
      LocalStaysAway(env, sys, move, o);
    }
    hide Coherent, Moved;
  }

  lemma LocalStaysAway(env: Env, sys: System, move: Move, o: Owned)
    requires Away(sys, o) && !move.Click? && !move.Deliver? && !move.Elsewhere?
    ensures Away(Moved(env, sys, move), o)
  {
    ClickedStays(env, sys, move, o);
    hide Clicked, ValidPending, Bound, Matching, CommandOf, Credible, Built;
  }

  lemma ClickStaysAway(env: Env, sys: System, move: Move, o: Owned)
    requires Away(sys, o) && move.Click?
    ensures Away(Moved(env, sys, move), o)
  {
    if Enabled(sys, move) {
      ClickIsNew(sys, move, o);
    }
    hide FreshId, Built;
  }

  lemma TakenAway(env: Env, sys: System, move: Move, o: Owned)
    requires Coherent(sys) && InStore(sys, o)
    requires Settles(sys, move, o) || Loses(sys, move, o)
    ensures Away(Moved(env, sys, move), o)
  {
    StoredClicked(sys, o);
    ClickedStays(env, sys, move, o);
    MoveLoses(env, sys, move, o);
    hide Coherent, InStore;
    if move.Click? {
      ClickNotPending(env, sys, move, o);
    } else {
      NotPending(env, sys, move, o);
    }
    hide Moved, IsPending;
  }

  lemma ClickNotPending(env: Env, sys: System, move: Move, o: Owned)
    requires Clicked(sys, o) && move.Click? && Enabled(sys, move)
    ensures !IsPending(Moved(env, sys, move), o)
  {
    ClickIsNew(sys, move, o);
    hide FreshId, Built;
  }

  lemma NotPending(env: Env, sys: System, move: Move, o: Owned)
    requires !move.Click? && (Settles(sys, move, o) || Loses(sys, move, o))
    ensures !IsPending(Moved(env, sys, move), o)
  {
    hide ValidPending, Bound, Matching, CommandOf, FreshId, Foreign, Credible, Built, Transition, Apply;
  }

  /** An outcome of the event is recorded exactly when it is settled. */
  lemma OutcomeSettles(env: Env, sys: System, move: Move, o: Owned)
    requires Coherent(sys) && Clicked(sys, o) && (InStore(sys, o) || Away(sys, o))
    requires o.body.eventId !in sys.outcomes
    ensures o.body.eventId in Moved(env, sys, move).outcomes <==> Settles(sys, move, o)
  {
    assert ClientCoherent(sys);
    hide Consistent, ClicksValid, LogGenuine, NetworkCoherent, OutcomesTrue, ValidPending, Bound, Matching, CommandOf,
      Transition, Apply,
      FreshId, Foreign, Credible, Built;
  }

  lemma OutcomesStay(env: Env, sys: System, move: Move)
    ensures sys.outcomes.Keys <= Moved(env, sys, move).outcomes.Keys
  {
    hide Transition, ValidPending, Bound, Matching, CommandOf, FreshId, Foreign, Credible, Built;
  }

  ghost predicate EverLoses(env: Env, sys: System, moves: seq<Move>, o: Owned) {
    exists k :: 0 <= k < |moves| && Loses(Before(env, sys, moves, k), moves[k], o)
  }

  ghost predicate EverSettles(env: Env, sys: System, moves: seq<Move>, o: Owned) {
    exists k :: 0 <= k < |moves| && Settles(Before(env, sys, moves, k), moves[k], o)
  }

  lemma EverLonger(env: Env, sys: System, moves: seq<Move>, o: Owned)
    requires moves != []
    ensures var last := |moves| - 1;
      && (EverLoses(env, sys, moves, o) <==>
            EverLoses(env, sys, moves[..last], o) || Loses(Before(env, sys, moves, last), moves[last], o))
      && (EverSettles(env, sys, moves, o) <==>
            EverSettles(env, sys, moves[..last], o) || Settles(Before(env, sys, moves, last), moves[last], o))
  {
    hide Loses, Settles, Before;
    var last := |moves| - 1;
    forall k | 0 <= k < last
      ensures Before(env, sys, moves[..last], k) == Before(env, sys, moves, k) && moves[..last][k] == moves[k]
    {
      PrefixSame(env, sys, moves, last, k);
    }
  }

  /** How things stand with an event that was in storage at the beginning of a run. */
  ghost predicate Standing(env: Env, sys: System, moves: seq<Move>, o: Owned) {
    var after := Play(env, sys, moves);
    var settled, lost := EverSettles(env, sys, moves, o), EverLoses(env, sys, moves, o);
    && Clicked(after, o)
    && (InStore(after, o) <==> !settled && !lost)
    && (!InStore(after, o) ==> Away(after, o))
    && (o.body.eventId in after.outcomes <==> settled)
    && !(settled && lost)
  }

  lemma {:induction false} StandingAlways(env: Env, sys: System, moves: seq<Move>, o: Owned)
    requires Coherent(sys) && InStore(sys, o) && o.body.eventId !in sys.outcomes
    ensures Standing(env, sys, moves, o)
  {
    hide Coherent, InStore, Moved, Clicked;
    if moves == [] {
      StoredClicked(sys, o);
    } else {
      var last := |moves| - 1;
      var before := Play(env, sys, moves[..last]);
      StandingAlways(env, sys, moves[..last], o);
      PlayKeeps(env, sys, moves[..last]);
      EverLonger(env, sys, moves, o);
      LastMove(env, sys, moves);
      assert before == Before(env, sys, moves, last);
      hide Play, Before, EverLoses, EverSettles, Away, Settles, Loses;
      StandingMove(env, before, moves[last], o);
      OutcomesStay(env, before, moves[last]);
    }
  }

  lemma StandingMove(env: Env, sys: System, move: Move, o: Owned)
    requires Coherent(sys) && Clicked(sys, o) && (InStore(sys, o) || Away(sys, o))
    ensures var after := Moved(env, sys, move);
      && Clicked(after, o)
      && (InStore(after, o) <==> InStore(sys, o) && !Settles(sys, move, o) && !Loses(sys, move, o))
      && (!InStore(after, o) ==> Away(after, o))
      && (o.body.eventId !in sys.outcomes ==> (o.body.eventId in after.outcomes <==> Settles(sys, move, o)))
      && !(Settles(sys, move, o) && Loses(sys, move, o))
  {
    hide Coherent, Moved, Enabled;
    if InStore(sys, o) {
      MoveLoses(env, sys, move, o);
      if Settles(sys, move, o) || Loses(sys, move, o) {
        TakenAway(env, sys, move, o);
      } else {
        ClickedStays(env, sys, move, o);
      }
    } else {
      AwayStays(env, sys, move, o);
    }
    if o.body.eventId !in sys.outcomes {
      OutcomeSettles(env, sys, move, o);
    }
  }

  lemma ClickedStays(env: Env, sys: System, move: Move, o: Owned)
    requires Clicked(sys, o)
    ensures Clicked(Moved(env, sys, move), o)
  {
    hide ValidPending, Bound, Matching, CommandOf, Transition, Apply, Foreign, Credible;
  }

  /**
   * Over every run, a stored event has disappeared without an outcome if and only if at some move it was given up on
   * purpose, removed unread when its owner signed in, or written over while it was not pending.  In particular
   * crashes, timeouts, lost answers and expired sign-ins never lose it.
   */
  lemma LostExactly(env: Env, sys: System, moves: seq<Move>, o: Owned)
    requires Coherent(sys) && InStore(sys, o) && o.body.eventId !in sys.outcomes
    ensures !InStore(Play(env, sys, moves), o) && o.body.eventId !in Play(env, sys, moves).outcomes <==>
      EverLoses(env, sys, moves, o)
    ensures o.body.eventId in Play(env, sys, moves).outcomes <==> EverSettles(env, sys, moves, o)
  {
    hide Coherent, Play, EverLoses, EverSettles, Away, Clicked;
    StandingAlways(env, sys, moves, o);
  }

  /** The stored event is pending whenever anybody is signed in. */
  predicate Holding(sys: System, o: Owned) {
    InStore(sys, o) && (sys.client.user.Some? ==> IsPending(sys, o))
  }

  /**
   * Signing in found the event but left it neither pending nor removed: it could not be read, or belongs to somebody
   * else.
   */
  predicate LeavesBehind(sys: System, move: Move, o: Owned) {
    InStore(sys, o) && Enabled(sys, move) && move.SignIn? && !move.removed && (!move.read || move.user != o.user)
  }

  /**
   * A held event stays held, and so is never written over, until it is settled, lost or left behind by a failed
   * removal.
   */
  lemma HoldingMoves(env: Env, sys: System, move: Move, o: Owned)
    requires Coherent(sys) && Holding(sys, o)
    ensures !Overwrites(sys, move, o)
    ensures Holding(Moved(env, sys, move), o) <==>
      !Settles(sys, move, o) && !Loses(sys, move, o) && !LeavesBehind(sys, move, o)
  {
    assert ValidPending(o.body) by {
      assert ClientCoherent(sys);
    }
    MoveLoses(env, sys, move, o);
    if move.Deliver? || move.Elsewhere? {
      ServerMoves(env, sys, move);
      hide Moved;
    }
    hide Coherent, ValidPending, Bound, Matching, CommandOf, FreshId, Foreign, Credible, Built, Transition, Apply;
  }

  /** No sign-in of the run fails to remove what it means to remove. */
  ghost predicate RemovalsWork(moves: seq<Move>) {
    forall k :: 0 <= k < |moves| && moves[k].SignIn? ==> moves[k].removed
  }

  ghost predicate EverDropped(env: Env, sys: System, moves: seq<Move>, o: Owned) {
    exists k :: 0 <= k < |moves|
      && (GivesUp(Before(env, sys, moves, k), moves[k], o) || DropsUnread(Before(env, sys, moves, k), moves[k], o))
  }

  ghost predicate NeverOverwritten(env: Env, sys: System, moves: seq<Move>, o: Owned) {
    forall k :: 0 <= k < |moves| ==> !Overwrites(Before(env, sys, moves, k), moves[k], o)
  }

  lemma {:induction false} HeldOrGone(env: Env, sys: System, moves: seq<Move>, o: Owned)
    requires Coherent(sys) && Holding(sys, o) && RemovalsWork(moves)
    ensures Holding(Play(env, sys, moves), o) || !InStore(Play(env, sys, moves), o)
    ensures NeverOverwritten(env, sys, moves, o)
  {
    if moves != [] {
      var last := |moves| - 1;
      var front := moves[..last];
      assert RemovalsWork(front);
      HeldOrGone(env, sys, front, o);
      PlayKeeps(env, sys, front);
      LastMove(env, sys, moves);
      var before := Before(env, sys, moves, last);
      assert before == Play(env, sys, front);
      hide Coherent, Play, Moved, Before;
      if Holding(before, o) {
        HoldingMoves(env, before, moves[last], o);
        MoveLoses(env, before, moves[last], o);
      } else {
        GoneStays(env, sys, moves, o);
      }
      NoneOverwrites(env, sys, moves, o);
      hide Settles, Loses, Enabled;
    }
  }

  lemma NoneOverwrites(env: Env, sys: System, moves: seq<Move>, o: Owned)
    requires moves != []
    requires NeverOverwritten(env, sys, moves[..|moves| - 1], o)
    requires !Overwrites(Before(env, sys, moves, |moves| - 1), moves[|moves| - 1], o)
    ensures NeverOverwritten(env, sys, moves, o)
  {
    hide Before, Overwrites;
    var last := |moves| - 1;
    forall k | 0 <= k < |moves| ensures !Overwrites(Before(env, sys, moves, k), moves[k], o) {
      if k < last {
        PrefixSame(env, sys, moves, last, k);
        assert !Overwrites(Before(env, sys, moves[..last], k), moves[..last][k], o);
      }
    }
  }

  lemma {:induction false} StoredOrAway(env: Env, sys: System, moves: seq<Move>, o: Owned)
    requires Coherent(sys) && InStore(sys, o)
    ensures InStore(Play(env, sys, moves), o) || Away(Play(env, sys, moves), o)
    ensures Clicked(Play(env, sys, moves), o)
  {
    if moves == [] {
      assert ClientCoherent(sys);
    } else {
      var last := |moves| - 1;
      StoredOrAway(env, sys, moves[..last], o);
      PlayKeeps(env, sys, moves[..last]);
      hide Coherent, Moved;
      StandingMove(env, Play(env, sys, moves[..last]), moves[last], o);
    }
  }

  lemma GoneStays(env: Env, sys: System, moves: seq<Move>, o: Owned)
    requires Coherent(sys) && InStore(sys, o) && moves != []
    requires !InStore(Play(env, sys, moves[..|moves| - 1]), o)
    ensures !InStore(Play(env, sys, moves), o)
  {
    var front := moves[..|moves| - 1];
    PlayKeeps(env, sys, front);
    LastMove(env, sys, moves);
    assert Play(env, sys, front) == Before(env, sys, moves, |moves| - 1);
    StoredOrAway(env, sys, front, o);
    hide Coherent, Play, Moved, Before;
    AwayStays(env, Play(env, sys, front), moves[|moves| - 1], o);
  }

  /**
   * An event that is pending, or will be as soon as its owner signs in, is gone without an outcome if and only if it
   * was given up on purpose, or its owner signed in, it could not be read and was removed: this holds of every run
   * in which the removals at sign-in succeed.
   */
  lemma HeldLostExactly(env: Env, sys: System, moves: seq<Move>, o: Owned)
    requires Coherent(sys) && Holding(sys, o) && o.body.eventId !in sys.outcomes && RemovalsWork(moves)
    ensures !InStore(Play(env, sys, moves), o) && o.body.eventId !in Play(env, sys, moves).outcomes
      <==> EverDropped(env, sys, moves, o)
  {
    hide Coherent, Play, Before, GivesUp, DropsUnread, Overwrites;
    HeldOrGone(env, sys, moves, o);
    LostExactly(env, sys, moves, o);
  }

  // --- The two action tables ---

  /** A click on a current status is booked, given what the server's own hints require. */
  lemma CurrentClickBooked(env: Env, sys: System, user: int, action: Action, id: string, metadata: Metadata, now: int)
    requires Coherent(sys) && sys.client.user == Some(user) && user in sys.db.users
    requires sys.client.status == Some(Known(StatusOfUser(sys.db, user).0, StatusOfUser(sys.db, user).1))
    requires FreshId(sys, id) && Built(sys.client, id, action, metadata).Some?
    requires ClockValid(sys.db, user, now) && NoOverlap(env.zone, sys.db.records, user, now, now + 1, 0)
    requires |OpenBookings(sys.db.records, user, sys.db.nextRecord)| <= 1
    ensures Transition(env.zone, sys.db, now,
                       CommandOf(Owned(user, Built(sys.client, id, action, metadata).value))).0.Success?
  {
    hide Consistent, ClockValid, NoOverlap, Transition, Perform, StatusOfUser, ValidMetadata, ValidEventId, LogGenuine,
      NetworkCoherent, OutcomesTrue, Decimal;
    var c := CommandOf(Owned(user, Built(sys.client, id, action, metadata).value));
    assert FindEvent(sys.db.events, c.source, c.eventId) < 0;
    assert Admit(sys.db, c) == Admitted(action);
    HintsExact(env.zone, sys.db, now, c, action);
  }

  /** The client offers an action on a current status exactly when the server would book it then. */
  lemma OfferedExactly(env: Env, db: Db, user: int, action: Action, id: string, metadata: Metadata, now: int)
    requires Consistent(db) && user in db.users && ValidEventId(id) && ValidMetadata(metadata)
    requires forall i :: 0 <= i < |db.events| ==> db.events[i].eventId != id
    requires ClockValid(db, user, now) && NoOverlap(env.zone, db.records, user, now, now + 1, 0)
    requires |OpenBookings(db.records, user, db.nextRecord)| <= 1
    ensures var shown := StatusOfUser(db, user);
      var body := Body(id, action, action == End && shown.0 == Paused, if action == Start then None else shown.1,
                       if action == Start && Nondefault(Some(metadata)) then Some(metadata) else None);
      action in Offered(shown.0) <==> Transition(env.zone, db, now, CommandOf(Owned(user, body))).0.Success?
  {
    hide Consistent, ClockValid, NoOverlap, Transition, Perform, StatusOfUser, ValidMetadata, ValidEventId, Decimal;
    var shown := StatusOfUser(db, user);
    var body := Body(id, action, action == End && shown.0 == Paused, if action == Start then None else shown.1,
                     if action == Start && Nondefault(Some(metadata)) then Some(metadata) else None);
    var c := CommandOf(Owned(user, body));
    assert FindEvent(db.events, c.source, c.eventId) < 0;
    assert Admit(db, c) == Admitted(action);
    HintsExact(env.zone, db, now, c, action);
  }
}
