/**
 * Whole runs: any interleaving of stamps, absences, requests, decisions,
 * withdrawals and account changes, each one atomic step at its own time.
 */
module Runs {
  import opened Wrappers
  import opened Booking
  import opened Schema
  import opened Attendance
  import opened Corrections
  import opened Consistency
  import opened CorrectionInvariants

  datatype Env = Env(zone: Zone, target: int -> nat)

  datatype Step =
    | Stamped(command: Command)
    | Credited(user: int, first: int, last: int, kind: string)
    | Asked(user: int, ask: Ask)
    | AskedMetadata(user: int, metadataAsk: MetadataAsk)
    | Decided(actor: int, role: Role, decision: Decision)
    | TakenBack(user: int, current: bool, number: int, reason: string)
    | Accounts(users: map<int, User>)

  /** A refused transaction is rolled back. */
  function Committed(db: Db, r: Result<Db, Error>): Db {
    if r.Success? then r.value else db
  }

  function Apply(env: Env, db: Db, now: int, step: Step): Db {
    match step
    case Stamped(c) => Transition(env.zone, db, now, c).1
    case Credited(user, first, last, kind) =>
      Committed(db, Corrections.Absent(env.zone, env.target, db, user, first, last, kind))
    case Asked(user, ask) => Committed(db, RequestCorrection(env.zone, db, now, user, ask))
    case AskedMetadata(user, ask) => Committed(db, RequestMetadata(db, now, user, ask))
    case Decided(actor, role, d) => Committed(db, Review(env.zone, db, now, actor, role, d))
    case TakenBack(user, current, number, reason) => Committed(db, Withdraw(db, now, user, current, number, reason))
    case Accounts(users) => db.(users := users)
  }

  datatype Timed = Timed(now: int, step: Step)

  function Exec(env: Env, db: Db, trace: seq<Timed>): Db {
    if trace == [] then db
    else
      var last := trace[|trace| - 1];
      Apply(env, Exec(env, db, trace[..|trace| - 1]), last.now, last.step)
  }

  lemma StepKeeps(env: Env, db: Db, now: int, step: Step)
    requires Consistent(db)
    ensures Consistent(Apply(env, db, now, step))
  {
    hide Consistent, Transition, Review, CreditDays;
    var after := Apply(env, db, now, step);
    match step
    case Stamped(c) => TransitionKeeps(env.zone, db, now, c);
    case Credited(user, first, last, kind) =>
      if Corrections.Absent(env.zone, env.target, db, user, first, last, kind).Success? {
        CreditDaysKeep(env.zone, env.target, db, user, first, last, kind);
      }
    case Asked(user, ask) => RequestsIgnored(db, after);
    case AskedMetadata(user, ask) => RequestsIgnored(db, after);
    case Decided(actor, role, d) =>
      if Review(env.zone, db, now, actor, role, d).Success? {
        ReviewKeeps(env.zone, db, now, actor, role, d);
      }
    case TakenBack(user, current, number, reason) => RequestsIgnored(db, after);
    case Accounts(users) => RequestsIgnored(db, after);
  }

  /** Every run from a consistent database stays consistent, even when the clock jumps. */
  lemma {:induction false} RunKeeps(env: Env, db: Db, trace: seq<Timed>)
    requires Consistent(db)
    ensures Consistent(Exec(env, db, trace))
  {
    hide Consistent, Apply;
    if trace != [] {
      RunKeeps(env, db, trace[..|trace| - 1]);
      StepKeeps(env, Exec(env, db, trace[..|trace| - 1]), trace[|trace| - 1].now, trace[|trace| - 1].step);
    }
  }
}
