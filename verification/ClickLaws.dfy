/** What a click asked for is what is logged and acknowledged, whatever happens between the click and its effect. */
module ClickLaws {
  import opened Wrappers
  import opened Booking
  import opened Schema
  import opened Attendance
  import opened Consistency
  import opened Runs
  import opened EventLog
  import opened Receipts
  import opened Popup
  import opened BookingProtocol
  import opened ProtocolLaws

  /** A click on what the client shows: who, what, and to which booking it is bound. */
  ghost predicate Meant(o: Owned, before: System, move: Move)
    requires move.Click?
  {
    && before.client.user == Some(o.user)
    && before.client.status.Some?
    && o.body.eventId == move.id && o.body.action == move.action
    && o.body.confirm == (move.action == End && before.client.status.value.state == Paused)
    && (move.action != Start ==>
         o.body.expected == before.client.status.value.record && o.body.expected.Some? && o.body.metadata.None?)
    && (move.action == Start ==>
         o.body.expected.None? && o.body.metadata == (if Default(move.metadata) then None else Some(move.metadata)))
  }

  predicate Default(m: Metadata) {
    m == Metadata("office", "")
  }

  lemma ClickMeans(env: Env, sys: System, move: Move)
    requires Coherent(sys) && move.Click? && Enabled(sys, move)
    ensures move.id in Moved(env, sys, move).clicks
    ensures Meant(Moved(env, sys, move).clicks[move.id], sys, move)
  {
    assert Credible(sys.client.status.value) by {
      assert ClientCoherent(sys);
    }
    hide Coherent, FreshId, ValidMetadata;
  }

  /** Every entry under the event id has an answer that agrees with it and its session. */
  ghost predicate EntriesTrue(db: Db, id: string) {
    forall i :: 0 <= i < |db.events| && db.events[i].eventId == id ==> ReceiptTrue(db.sessions, db.events[i])
  }

  lemma StepEntries(env: Env, db: Db, now: int, step: Step, id: string)
    requires Consistent(db) && EntriesTrue(db, id)
    ensures EntriesTrue(Apply(env, db, now, step), id)
  {
    StepSessions(env, db, now, step);
    if step.Stamped? {
      StampEntries(env.zone, db, now, step.command, id);
    } else {
      OtherStepsKeepLog(env, db, now, step);
      hide Consistent, Apply;
      OldEntries(db, Apply(env, db, now, step), id);
    }
  }

  lemma StampEntries(z: Zone, db: Db, now: int, c: Command, id: string)
    requires Consistent(db) && EntriesTrue(db, id)
    ensures EntriesTrue(Transition(z, db, now, c).1, id)
  {
    TransitionSessions(z, db, now, c);
    hide Consistent, Perform, EntriesTrue;
    match Admit(db, c)
    case Admitted(action) =>
      if Transition(z, db, now, c).0.Success? {
        NewEntryTrue(z, db, now, c, action);
        hide Transition;
        OldEntries(db, Transition(z, db, now, c).1, id);
      }
    case _ =>
  }

  lemma OldEntries(db: Db, after: Db, id: string)
    requires EntriesTrue(db, id) && SessionsStay(db.sessions, after.sessions) && db.events <= after.events
    requires forall i :: |db.events| <= i < |after.events| ==> ReceiptTrue(after.sessions, after.events[i])
    ensures EntriesTrue(after, id)
  {
    forall i | 0 <= i < |after.events| && after.events[i].eventId == id
      ensures ReceiptTrue(after.sessions, after.events[i])
    {
      if i < |db.events| {
        assert after.events[i] == db.events[i];
        assert ReceiptTrue(db.sessions, db.events[i]);
      }
    }
  }

  lemma MoveEntries(env: Env, sys: System, move: Move, id: string)
    requires Consistent(sys.db) && EntriesTrue(sys.db, id)
    ensures EntriesTrue(Moved(env, sys, move).db, id)
  {
    hide Consistent, EntriesTrue, Transition, CommandOf, Foreign;
    if move.Deliver? && move.signedIn && Enabled(sys, move) {
      StepEntries(env, sys.db, move.now, Stamped(CommandOf(sys.sent[move.send])), id);
    } else if move.Elsewhere? && Enabled(sys, move) {
      hide Apply;
      StepEntries(env, sys.db, move.now, move.step, id);
    } else {
      DatabaseSame(env, sys, move);
    }
  }

  lemma DatabaseSame(env: Env, sys: System, move: Move)
    requires Enabled(sys, move) ==> !(move.Deliver? && move.signedIn) && !move.Elsewhere?
    ensures Moved(env, sys, move).db == sys.db
  {
    hide ValidPending, Matching, FreshId, Foreign;
  }

  /** How an action stands after its click: remembered as it was meant, and answered truly wherever it is logged. */
  lemma {:induction false} ClickRemembered(env: Env, sys: System, moves: seq<Move>, k: nat)
    requires Coherent(sys) && k < |moves|
    requires moves[k].Click? && Enabled(Before(env, sys, moves, k), moves[k])
    ensures var after := Play(env, sys, moves);
      && moves[k].id in after.clicks && Meant(after.clicks[moves[k].id], Before(env, sys, moves, k), moves[k])
      && EntriesTrue(after.db, moves[k].id)
    decreases |moves|
  {
    var last := |moves| - 1;
    var before := Before(env, sys, moves, last);
    PlayKeeps(env, sys, moves[..last]);
    LastMove(env, sys, moves);
    assert before == Play(env, sys, moves[..last]);
    hide Coherent, Play, Before, Moved, Enabled, EntriesTrue, Meant, Consistent;
    if k == last {
      ClickMeans(env, before, moves[last]);
      NotLoggedYet(env, before, moves[last]);
    } else {
      PrefixSame(env, sys, moves, last, k);
      DatabaseConsistent(before);
      ClickRemembered(env, sys, moves[..last], k);
      MoveEntries(env, before, moves[last], moves[k].id);
      ClickedStays(env, before, moves[last], before.clicks[moves[k].id]);
    }
  }

  lemma DatabaseConsistent(sys: System)
    requires Coherent(sys)
    ensures Consistent(sys.db)
  {
  }

  lemma NotLoggedYet(env: Env, sys: System, move: Move)
    requires move.Click? && Enabled(sys, move)
    ensures EntriesTrue(Moved(env, sys, move).db, move.id)
  {
    hide Built, ValidEventId;
  }

  /** The entry says what the click meant; a later stamp acted on the booking that was shown and on no other. */
  ghost predicate LoggedAs(db: Db, e: Event, click: Move, user: int, shown: Known)
    requires click.Click?
  {
    && e.user == user && e.action == click.action
    && e.payload.confirm == (click.action == End && shown.state == Paused)
    && e.session < |db.sessions|
    && (click.action != Start ==>
         shown.record.Some? && db.sessions[e.session].record == e.receipt.record == shown.record.value)
    && (click.action == Start ==>
         e.payload.metadata == (if Default(click.metadata) then None else Some(click.metadata)))
  }

  predicate AnsweredAs(receipt: Receipt, click: Move, shown: Known)
    requires click.Click?
  {
    && (click.action != Start ==> Some(receipt.record) == shown.record)
    && (click.action == Start && !Default(click.metadata) ==> receipt.metadata == Some(click.metadata))
  }

  /** The answer given to some delivery of the action. */
  predicate AnswerTo(sys: System, n: int, id: string) {
    && 0 <= n < |sys.replies| && sys.replies[n].send < |sys.sent|
    && sys.sent[sys.replies[n].send].body.eventId == id && sys.replies[n].answer.Accepted?
  }

  /**
   * Over every run, whatever other devices, supervisors or the network do after the click: every entry of the action
   * in the log is what the click meant on what the client showed before it, every accepted answer agrees, and a start
   * carries the place and note as they were entered.
   */
  lemma ClickCarried(env: Env, sys: System, moves: seq<Move>, k: nat)
    requires Coherent(sys) && k < |moves|
    requires moves[k].Click? && Enabled(Before(env, sys, moves, k), moves[k])
    ensures var after, click, client := Play(env, sys, moves), moves[k], Before(env, sys, moves, k).client;
      && client.user.Some? && client.status.Some?
      && (forall i :: 0 <= i < |after.db.events| ==>
            after.db.events[i].eventId == click.id
              && after.db.events[i].source == "api:" + Number(client.user.value) ==>
              LoggedAs(after.db, after.db.events[i], click, client.user.value, client.status.value))
      && (forall n :: AnswerTo(after, n, click.id) ==>
            AnsweredAs(after.replies[n].answer.receipt, click, client.status.value))
  {
    ClickRemembered(env, sys, moves, k);
    PlayKeeps(env, sys, moves);
    hide Play, Before, Enabled, LoggedAs, AnsweredAs;
    var after, before := Play(env, sys, moves), Before(env, sys, moves, k);
    var o := after.clicks[moves[k].id];
    forall i | 0 <= i < |after.db.events| && after.db.events[i].eventId == moves[k].id
      && after.db.events[i].source == "api:" + Number(o.user)
      ensures LoggedAs(after.db, after.db.events[i], moves[k], o.user, before.client.status.value)
    {
      assert Genuine(after.db.events[i], o);
      EntryMeant(after.db, after.db.events[i], o, before, moves[k]);
    }
    forall n | AnswerTo(after, n, moves[k].id)
      ensures AnsweredAs(after.replies[n].answer.receipt, moves[k], before.client.status.value)
    {
      assert Clicked(after, after.sent[after.replies[n].send]);
      AnswerMeant(after.replies[n].answer.receipt, o, before, moves[k]);
    }
    hide Coherent, Consistent, EntriesTrue, ValidPending, Number, Genuine, Matching;
  }

  lemma EntryMeant(db: Db, e: Event, o: Owned, before: System, click: Move)
    requires click.Click? && Meant(o, before, click)
    requires EntryOf(e, CommandOf(o)) && ReceiptTrue(db.sessions, e)
    ensures LoggedAs(db, e, click, o.user, before.client.status.value)
  {
    hide Number;
  }

  lemma AnswerMeant(receipt: Receipt, o: Owned, before: System, click: Move)
    requires click.Click? && Meant(o, before, click) && Matching(o.body, receipt)
    ensures AnsweredAs(receipt, click, before.client.status.value)
  {
  }

  // --- Never on an old status ---

  /** The move ends what the client knew: a sign-in, leaving, an acknowledgement, or a refusal that could be removed. */
  predicate EndsKnowledge(sys: System, move: Move) {
    && Enabled(sys, move)
    && match move
       case SignIn(_, _, _) => true
       case Leave(_) => true
       case Receive(reply, removed) =>
         var answer := sys.replies[reply].answer;
         || answer.Unauthorised?
         || (answer.Declined? && removed)
         || (answer.Accepted? && Matching(sys.client.pending.value, answer.receipt))
       case _ => false
  }

  lemma KnowsNothing(env: Env, sys: System, move: Move)
    requires EndsKnowledge(sys, move)
    ensures Moved(env, sys, move).client.status.None?
  {
    hide ValidPending, Bound, Matching;
  }

  lemma KnowsNothingStill(env: Env, sys: System, move: Move)
    requires sys.client.status.None? && !move.ShowStatus?
    ensures Moved(env, sys, move).client.status.None?
    ensures move.Click? ==> !Enabled(sys, move)
  {
    hide ValidPending, Bound, Matching, Apply, Transition, CommandOf, Foreign;
  }

  ghost predicate ShownBetween(moves: seq<Move>, j: nat, k: nat) {
    exists i :: j < i < k && i < |moves| && moves[i].ShowStatus?
  }

  lemma {:induction false} NothingKnownUntil(env: Env, sys: System, moves: seq<Move>, j: nat, k: nat)
    requires j < k <= |moves| && EndsKnowledge(Before(env, sys, moves, j), moves[j]) && !ShownBetween(moves, j, k)
    ensures Before(env, sys, moves, k).client.status.None?
    decreases k
  {
    var before := Before(env, sys, moves, k - 1);
    assert moves[..k][..k - 1] == moves[..k - 1];
    assert Before(env, sys, moves, k) == Moved(env, before, moves[k - 1]);
    if j == k - 1 {
      KnowsNothing(env, before, moves[j]);
    } else {
      hide Before, Moved, EndsKnowledge;
      NothingKnownUntil(env, sys, moves, j, k - 1);
      KnowsNothingStill(env, before, moves[k - 1]);
    }
  }

  /**
   * No click is ever made on what the client showed before an action was settled or before somebody signed in or out.
   */
  lemma ClickOnNewStatus(env: Env, sys: System, moves: seq<Move>, j: nat, k: nat)
    requires j < k < |moves| && EndsKnowledge(Before(env, sys, moves, j), moves[j])
    requires moves[k].Click? && Enabled(Before(env, sys, moves, k), moves[k])
    ensures ShownBetween(moves, j, k)
  {
    hide Before, EndsKnowledge;
    if !ShownBetween(moves, j, k) {
      NothingKnownUntil(env, sys, moves, j, k);
    }
  }

  // --- What a sign-in keeps ---

  /**
   * Signing in makes exactly the own event pending that could be read and is valid, or at least carries a binding or
   * metadata; then storage stays as it is, and otherwise it is emptied as far as that succeeds.  Nobody else's event is
   * ever pending.
   */
  lemma RestoredExactly(c: Client, user: int, read: bool, removed: bool)
    ensures var after := SignedIn(c, user, read, removed);
      && after.user == Some(user) && after.status.None? && after.phase.Idle?
      && (forall b :: after.pending == Some(b) <==>
            read && c.saved == Some(Owned(user, b)) && (ValidPending(b) || b.expected.Some? || b.metadata.Some?))
      && (after.pending.Some? || !removed ==> after.saved == c.saved)
      && (after.pending.None? && removed ==> after.saved.None?)
  {
    hide ValidPending;
  }

  /** What is sent is always well formed, whatever was restored. */
  lemma SentWellFormed(env: Env, sys: System, moves: seq<Move>)
    requires Coherent(sys)
    ensures forall i :: 0 <= i < |Play(env, sys, moves).sent| ==> ValidPending(Play(env, sys, moves).sent[i].body)
  {
    PlayKeeps(env, sys, moves);
    hide Play;
    var after := Play(env, sys, moves);
    forall i | 0 <= i < |after.sent| ensures ValidPending(after.sent[i].body) {
      SentValid(after, after.sent[i]);
    }
  }
}
