/**
 * The popup and the server over a network that loses, delays and repeats
 * requests and answers, while everything else keeps working on the database.
 */
module BookingProtocol {
  import opened Wrappers
  import opened Booking
  import opened Schema
  import opened Attendance
  import opened Consistency
  import opened Runs
  import opened EventLog
  import opened Popup

  function Decimal(n: nat): string {
    if n < 10 then [('0' as int + n) as char] else Decimal(n / 10) + [('0' as int + n % 10) as char]
  }

  function Number(n: int): string {
    if n < 0 then "-" + Decimal(-n) else Decimal(n)
  }

  function ActionText(a: Action): string {
    match a
    case Start => "start"
    case PauseStart => "pause_start"
    case PauseEnd => "pause_end"
    case End => "end"
  }

  /** The command both API endpoints make of a body sent for an account. */
  function CommandOf(o: Owned): Command {
    Command(o.user, "api:" + Number(o.user), o.body.eventId, ActionText(o.body.action), o.body.confirm,
            o.body.expected, false, o.body.metadata)
  }

  function AnswerOf(r: Result<Receipt, Error>): Answer {
    match r
    case Success(receipt) => Accepted(receipt)
    case Failure(e) => if 400 <= StatusOf(e) < 500 then Declined(StatusOf(e)) else Unclear
  }

  datatype Reply = Reply(send: nat, answer: Answer)

  /**
   * `clicks` remembers every user action by its event id, `sent` every request ever sent, `replies` every answer
   * the server gave, and `outcomes` what the client concluded.
   */
  datatype System = System(
    db: Db,
    client: Client,
    clicks: map<string, Owned>,
    sent: seq<Owned>,
    replies: seq<Reply>,
    outcomes: map<string, Outcome>)

  datatype Move =
    | SignIn(user: int, read: bool, removed: bool)
    | ShowStatus(state: State, record: Option<int>)
    | Click(action: Action, id: string, metadata: Metadata, written: bool)
    | Retry(written: bool)
    | Transmit
    | Deliver(send: nat, now: int, signedIn: bool)
    | Receive(reply: nat, removed: bool)
    | Timeout
    | Leave(forget: bool)
    | Elsewhere(now: int, step: Step)

  /** A random event id: new to the user's own actions and to the log. */
  predicate FreshId(sys: System, id: string) {
    && ValidEventId(id)
    && id !in sys.clicks
    && (forall i :: 0 <= i < |sys.db.events| ==> sys.db.events[i].eventId != id)
  }

  /** Other devices never use the key of an event of this client. */
  predicate Foreign(sys: System, step: Step) {
    step.Stamped? && step.command.eventId in sys.clicks ==>
      step.command.source != CommandOf(sys.clicks[step.command.eventId]).source
  }

  predicate Enabled(sys: System, move: Move) {
    var c := sys.client;
    match move
    case SignIn(_, _, _) => c.user.None?
    case ShowStatus(state, record) => c.user.Some? && Credible(Known(state, record))
    case Click(action, id, metadata, _) =>
      c.user.Some? && c.phase.Idle? && c.pending.None? && FreshId(sys, id) && Built(c, id, action, metadata).Some?
    case Retry(_) => c.user.Some? && c.phase.Idle? && c.pending.Some? && ValidPending(c.pending.value)
    case Transmit => c.phase.Storing? && c.user.Some? && c.pending.Some?
    case Deliver(send, _, _) => send < |sys.sent|
    case Receive(reply, _) => reply < |sys.replies| && c.phase == Waiting(sys.replies[reply].send) && c.pending.Some?
    case Timeout => c.phase.Waiting?
    case Leave(_) => true
    case Elsewhere(_, step) => Foreign(sys, step)
  }

  /** The server's part: any request ever sent may arrive, any number of times, at any time. */
  function Delivered(z: Zone, sys: System, send: nat, now: int, signedIn: bool): System
    requires send < |sys.sent|
  {
    if !signedIn then sys.(replies := sys.replies + [Reply(send, Unauthorised)])
    else
      var (result, after) := Transition(z, sys.db, now, CommandOf(sys.sent[send]));
      sys.(db := after, replies := sys.replies + [Reply(send, AnswerOf(result))])
  }

  function Concluded(sys: System, a: Answer, removed: bool): System
    requires sys.client.pending.Some?
  {
    var b := sys.client.pending.value;
    var (client, outcome) := Answered(sys.client, b, a, removed);
    sys.(client := client, outcomes := if outcome.Some? then sys.outcomes[b.eventId := outcome.value] else sys.outcomes)
  }

  function Moved(env: Env, sys: System, move: Move): System {
    if !Enabled(sys, move) then sys
    else
      var c := sys.client;
      match move
      case SignIn(user, read, removed) => sys.(client := SignedIn(c, user, read, removed))
      case ShowStatus(state, record) => sys.(client := c.(status := Some(Known(state, record))))
      case Click(action, id, metadata, written) =>
        var b := Built(c, id, action, metadata).value;
        sys.(client := Stored(c, c.user.value, b, written), clicks := sys.clicks[id := Owned(c.user.value, b)])
      case Retry(written) => sys.(client := Stored(c, c.user.value, c.pending.value, written))
      case Transmit =>
        sys.(client := c.(phase := Waiting(|sys.sent|)), sent := sys.sent + [Owned(c.user.value, c.pending.value)])
      case Deliver(send, now, signedIn) => Delivered(env.zone, sys, send, now, signedIn)
      case Receive(reply, removed) => Concluded(sys, sys.replies[reply].answer, removed)
      case Timeout => sys.(client := c.(phase := Idle))
      case Leave(forget) => sys.(client := Left(c, forget))
      case Elsewhere(now, step) => sys.(db := Apply(env, sys.db, now, step))
  }

  function Play(env: Env, sys: System, moves: seq<Move>): System {
    if moves == [] then sys else Moved(env, Play(env, sys, moves[..|moves| - 1]), moves[|moves| - 1])
  }

  // --- The invariant ---

  predicate Clicked(sys: System, o: Owned) {
    o.body.eventId in sys.clicks && sys.clicks[o.body.eventId] == o
  }

  /** The effect of a user action is in the log. */
  predicate Took(sys: System, o: Owned) {
    Logged(sys.db.events, CommandOf(o).source, o.body.eventId)
  }

  /** An entry under the key of a user action is that action, and its stored answer acknowledges it. */
  predicate Genuine(e: Event, o: Owned) {
    e.source == CommandOf(o).source && e.eventId == o.body.eventId ==>
      EntryOf(e, CommandOf(o)) && Matching(o.body, e.receipt)
  }

  ghost predicate ClicksValid(clicks: map<string, Owned>) {
    forall id :: id in clicks ==> clicks[id].body.eventId == id && ValidPending(clicks[id].body)
  }

  ghost predicate LogGenuine(events: seq<Event>, clicks: map<string, Owned>) {
    forall i, id :: 0 <= i < |events| && id in clicks ==> Genuine(events[i], clicks[id])
  }

  ghost predicate ClientCoherent(sys: System) {
    var c := sys.client;
    && (c.pending.Some? ==> c.user.Some? && Clicked(sys, Owned(c.user.value, c.pending.value)))
    && (c.saved.Some? ==> Clicked(sys, c.saved.value))
    && (!c.phase.Idle? ==> c.pending.Some? && c.saved == Some(Owned(c.user.value, c.pending.value)))
    && (c.phase.Waiting? ==>
         c.phase.send < |sys.sent| && c.pending.Some? && sys.sent[c.phase.send] == Owned(c.user.value, c.pending.value))
    && (c.status.Some? ==> Credible(c.status.value))
  }

  ghost predicate NetworkCoherent(sys: System) {
    && (forall i :: 0 <= i < |sys.sent| ==> Clicked(sys, sys.sent[i]))
    && (forall k :: 0 <= k < |sys.replies| ==> sys.replies[k].send < |sys.sent|)
    && (forall k :: 0 <= k < |sys.replies| && sys.replies[k].answer.Accepted? ==>
          Took(sys, sys.sent[sys.replies[k].send])
            && Matching(sys.sent[sys.replies[k].send].body, sys.replies[k].answer.receipt))
  }

  ghost predicate OutcomesTrue(sys: System) {
    forall id :: id in sys.outcomes && sys.outcomes[id] == Acknowledged ==>
      id in sys.clicks && Took(sys, sys.clicks[id])
  }

  ghost predicate Coherent(sys: System) {
    && Consistent(sys.db)
    && ClicksValid(sys.clicks)
    && LogGenuine(sys.db.events, sys.clicks)
    && ClientCoherent(sys)
    && NetworkCoherent(sys)
    && OutcomesTrue(sys)
  }

  // --- Every move keeps it ---

  /** A command's answer acknowledges its body. */
  lemma FittingMatches(o: Owned, r: Receipt)
    requires ValidPending(o.body) && Fits(r, CommandOf(o))
    ensures Matching(o.body, r)
  {
    hide ValidEventId, ValidMetadata, Decimal;
  }

  /** Growing the log by one entry of a sent body, or by one with a foreign key. */
  lemma LogStaysGenuine(events: seq<Event>, after: seq<Event>, clicks: map<string, Owned>, c: Command)
    requires ClicksValid(clicks) && LogGenuine(events, clicks) && LogsOnly(events, after, c)
    requires c.eventId in clicks ==>
      c == CommandOf(clicks[c.eventId]) || c.source != CommandOf(clicks[c.eventId]).source
    ensures LogGenuine(after, clicks)
    ensures forall s, id :: Logged(events, s, id) ==> Logged(after, s, id)
  {
    hide ValidPending, Matching, Fits, CommandOf, EntryOf;
    forall i, id | 0 <= i < |after| && id in clicks ensures Genuine(after[i], clicks[id]) {
      if i < |events| {
        assert after[i] == events[i];
      } else if after[i].eventId == id && after[i].source == CommandOf(clicks[id]).source {
        assert EntryOf(after[i], c);
        EntryKey(after[i], c);
        FittingMatches(clicks[id], after[i].receipt);
      }
    }
    forall s, id | Logged(events, s, id) ensures Logged(after, s, id) {
      var i :| 0 <= i < |events| && events[i].source == s && events[i].eventId == id;
      assert after[i] == events[i];
    }
  }

  lemma EntryKey(e: Event, c: Command)
    requires EntryOf(e, c)
    ensures e.source == c.source && e.eventId == c.eventId
  {
  }

  lemma ClickKeeps(env: Env, sys: System, move: Move)
    requires Coherent(sys) && move.Click? && Enabled(sys, move)
    ensures Coherent(Moved(env, sys, move))
  {
    hide Consistent, CommandOf, EntryOf, Matching, ValidEventId, ValidMetadata;
    var after := Moved(env, sys, move);
    forall o | Clicked(sys, o) ensures Clicked(after, o) {
    }
    forall i, id | 0 <= i < |after.db.events| && id in after.clicks
      ensures Genuine(after.db.events[i], after.clicks[id])
    {
      if id != move.id {
        assert Genuine(sys.db.events[i], sys.clicks[id]);
      }
    }
  }

  lemma ClientMoveKeeps(env: Env, sys: System, move: Move)
    requires Coherent(sys) && Enabled(sys, move)
    requires move.SignIn? || move.ShowStatus? || move.Retry? || move.Transmit? || move.Timeout? || move.Leave?
    ensures Coherent(Moved(env, sys, move))
  {
    hide Consistent, CommandOf, EntryOf, Matching, ValidPending, LogGenuine, Credible, Logged, FreshId, Foreign;
  }

  lemma ReceiveKeeps(env: Env, sys: System, move: Move)
    requires Coherent(sys) && move.Receive? && Enabled(sys, move)
    ensures Coherent(Moved(env, sys, move))
  {
    hide Consistent, CommandOf, EntryOf, Matching, ValidPending, LogGenuine, Credible, Logged, FreshId, Foreign;
  }

  /** Replacing the database by one whose log has grown genuinely. */
  lemma DatabaseMoves(sys: System, db: Db, reply: Option<Reply>)
    requires Coherent(sys) && Consistent(db)
    requires LogGenuine(db.events, sys.clicks)
    requires forall s, id :: Logged(sys.db.events, s, id) ==> Logged(db.events, s, id)
    requires reply.Some? ==> reply.value.send < |sys.sent| && (reply.value.answer.Accepted? ==>
      && Logged(db.events, CommandOf(sys.sent[reply.value.send]).source, sys.sent[reply.value.send].body.eventId)
      && Matching(sys.sent[reply.value.send].body, reply.value.answer.receipt))
    ensures Coherent(sys.(db := db, replies := sys.replies + (if reply.Some? then [reply.value] else [])))
  {
    hide Consistent, CommandOf, EntryOf, Matching, ValidPending, LogGenuine, Credible, Logged;
  }

  /** An accepted delivery is in the log afterwards, with an answer that acknowledges it. */
  lemma AcceptedTook(z: Zone, db: Db, now: int, o: Owned, clicks: map<string, Owned>)
    requires Consistent(db) && ClicksValid(clicks) && o.body.eventId in clicks && clicks[o.body.eventId] == o
    requires LogGenuine(db.events, clicks)
    requires Transition(z, db, now, CommandOf(o)).0.Success?
    ensures LogGenuine(Transition(z, db, now, CommandOf(o)).1.events, clicks)
    ensures forall s, id :: Logged(db.events, s, id) ==> Logged(Transition(z, db, now, CommandOf(o)).1.events, s, id)
    ensures Logged(Transition(z, db, now, CommandOf(o)).1.events, CommandOf(o).source, o.body.eventId)
    ensures Matching(o.body, Transition(z, db, now, CommandOf(o)).0.value)
  {
    hide Consistent, EntryOf, Perform, PayloadOf, ValidMetadata, ValidEventId, Decimal;
    var c := CommandOf(o);
    TransitionLogs(z, db, now, c);
    LogStaysGenuine(db.events, Transition(z, db, now, c).1.events, clicks, c);
    match Admit(db, c)
    case Replayed(receipt) =>
      var i := FindEvent(db.events, c.source, c.eventId);
      assert Genuine(db.events[i], clicks[o.body.eventId]);
    case Admitted(action) =>
      PerformLogs(z, db, now, c, action);
      FittingMatches(o, Transition(z, db, now, c).0.value);
      var after := Transition(z, db, now, c).1.events;
      EntryKey(after[|db.events|], c);
    case _ =>
  }

  lemma DeliverKeeps(env: Env, sys: System, move: Move)
    requires Coherent(sys) && move.Deliver? && Enabled(sys, move)
    ensures Coherent(Moved(env, sys, move))
  {
    hide Consistent, CommandOf, Transition, LogGenuine, Logged, Matching, ClicksValid, ClientCoherent, OutcomesTrue;
    var o := sys.sent[move.send];
    assert Clicked(sys, o);
    if move.signedIn {
      var (result, after) := Transition(env.zone, sys.db, move.now, CommandOf(o));
      TransitionKeeps(env.zone, sys.db, move.now, CommandOf(o));
      if result.Success? {
        AcceptedTook(env.zone, sys.db, move.now, o, sys.clicks);
      } else {
        TransitionLogs(env.zone, sys.db, move.now, CommandOf(o));
      }
      DatabaseMoves(sys, after, Some(Reply(move.send, AnswerOf(result))));
    } else {
      DatabaseMoves(sys, sys.db, Some(Reply(move.send, Unauthorised)));
    }
  }

  lemma ElsewhereKeeps(env: Env, sys: System, move: Move)
    requires Coherent(sys) && move.Elsewhere? && Enabled(sys, move)
    ensures Coherent(Moved(env, sys, move))
  {
    hide Consistent, CommandOf, Transition, LogGenuine, Logged, ClientCoherent, NetworkCoherent, OutcomesTrue,
      LogsOnly, ValidPending;
    StepKeeps(env, sys.db, move.now, move.step);
    var after := Apply(env, sys.db, move.now, move.step);
    if move.step.Stamped? {
      TransitionLogs(env.zone, sys.db, move.now, move.step.command);
      LogStaysGenuine(sys.db.events, after.events, sys.clicks, move.step.command);
    } else {
      OtherStepsKeepLog(env, sys.db, move.now, move.step);
    }
    DatabaseMoves(sys, after, None);
    assert sys.replies + [] == sys.replies;
  }

  lemma MoveKeeps(env: Env, sys: System, move: Move)
    requires Coherent(sys)
    ensures Coherent(Moved(env, sys, move))
  {
    hide Coherent, Enabled, Moved;
    if Enabled(sys, move) {
      match move
      case Click(_, _, _, _) => ClickKeeps(env, sys, move);
      case Deliver(_, _, _) => DeliverKeeps(env, sys, move);
      case Receive(_, _) => ReceiveKeeps(env, sys, move);
      case Elsewhere(_, _) => ElsewhereKeeps(env, sys, move);
      case _ => ClientMoveKeeps(env, sys, move);
    } else {
      DisabledStays(env, sys, move);
    }
  }

  lemma DisabledStays(env: Env, sys: System, move: Move)
    requires !Enabled(sys, move)
    ensures Moved(env, sys, move) == sys
  {
  }

  /** Every run of client, network, server and everybody else keeps the protocol coherent. */
  lemma {:induction false} PlayKeeps(env: Env, sys: System, moves: seq<Move>)
    requires Coherent(sys)
    ensures Coherent(Play(env, sys, moves))
  {
    hide Coherent, Moved;
    if moves != [] {
      PlayKeeps(env, sys, moves[..|moves| - 1]);
      MoveKeeps(env, Play(env, sys, moves[..|moves| - 1]), moves[|moves| - 1]);
    }
  }
}
