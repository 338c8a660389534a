# Attendance, corrections and their neighbours: a verified model

This project models the part of Quodara Chrono that keeps working time: stamping, the
correction workflow, the browser client that books over an unreliable network, the
supervisor relation, and the small exact algorithms around them. Everything is written
in Dafny 4.11; `dafny verify dfyconfig.toml` covers the whole project.

The tables are maps and sequences of rows (`Schema`). What a transaction does is a
function from tables to tables or to an error (`Attendance`, `Corrections`); the class
`Database.Tables` carries out the same statements row by row and is proved to have that
effect, rollback included. `Runs` interleaves all transactions in any order, and the
invariants are about every run:

- `Consistency`, `CorrectionInvariants`: the shape every reachable database has.
- `WorkTime`, `ClockLimits`: nobody works twice at one instant, and why the clock matters.
- `EventReplay`, `Receipts`: the event log determines breaks, ends and pauses; the answers.
- `CorrectionLifecycle`, `RequestGuards`, `RequestFates`, `CorrectionMetadata`, `Json`:
  requests, decisions, snapshots.
- `HomeProjection`, `ConflictSweep`, `BalancePreview`, `PreviewRefinement`,
  `PreviewCompleteness`, `AbsenceCredits`, `Sums`: the Home total, and a preview that is
  available exactly when an approval fulfils it.
- `EventLog`, `Popup`, `BookingProtocol`, `ProtocolLaws`, `ClickLaws`, `ProtocolLimits`: client and
  server over a network that loses, delays and repeats messages.
- `WorkflowHints`, `StampGuards`: the advertised actions, and exactly when a stamp succeeds.
- `SupervisorGraph`, `ManagerPlan`, `SupervisorLaws`, `SupervisorRuns`, `ImportLaws`, `DnKey`: who
  reports to whom, and how names from a directory are compared.
- `HolidayScan`, `HolidayRefill`, `WallTime`, `CarryIn`, `ModelVersions`,
  `PasswordLimiter`, `HistoryCorrelation` with `KeyedRows`: one module for each algorithm.

Times are instants in seconds; a stored timestamp is the instant it denotes. Calendar
and time zone enter as a `Zone` of two functions. Clocks, random event ids, targets,
directory contents and query results are parameters, so the statements hold for all of
them.

Three promises of the program do not hold without conditions, and each condition is exact.
Work stays disjoint over a run exactly as long as no recorded start precedes work of its
user (`WorkTime.RunExactly`); a clock that never runs backwards guarantees it, and
`ClockLimits.BackwardsClock` is one run in which it fails. An event that the client drops as
rejected has taken effect all the same exactly when a delayed copy of the request is let
through after the refusal, or when the refusal was for a missing account and it had taken
effect before (`ProtocolLaws.DeclinedExactly`). And an unconfirmed event is lost without an
outcome exactly when it is given up on purpose, removed unread at a sign-in whose storage
cannot be read, or written over after a sign-in that neither restored nor removed it
(`ProtocolLaws.LostExactly`). `ProtocolLimits` has a run for each failure.

## Model

| member | source | states |
|---|---|---|
| Consistency.TransitionKeeps | lib/attendance.php:79-185 | every stamping transaction, booked, replayed or refused, keeps the shape of the tables: sessions match their bookings, breaks are ordered inside their session, stored pauses are the whole minutes of ended breaks, event keys are unique |
| Consistency.OpenKeeps | lib/attendance.php:126-133 | a start stamp keeps that shape |
| Consistency.StampKeeps | lib/attendance.php:136-154 | a later stamp keeps that shape, on nothing but the code's own clock and break checks |
| Consistency.SecondsBounded | lib/attendance.php:153-154 | ordered breaks of a session never add up to more than the time from its start to any later mark, so the stored pause fits into the booking |
| Consistency.LogKeeps | lib/attendance.php:184 | logging under a free key keeps keys unique and names a session of the event's user |
| Runs.RunKeeps | lib/attendance.php:91-187 | every run of stamps, absences, requests, decisions, withdrawals and account changes, in any order and at any times, keeps that shape |
| WorkTime.RunSound | lib/attendance.php:126-152 | with a clock that never runs backwards, over every run no user is recorded as working twice at one instant, and no work was begun or ended in the future; it follows from the two rows WorkTime.RunExactly and WorkTime.RunPast |
| WorkTime.OpenExactly | lib/attendance.php:126-133 | a start that is let through keeps all work of the tables apart if and only if every nonempty work of the user has begun by then, whatever the clock did before: the overlap check looks at one second, the booking has no end |
| WorkTime.StepExactly | lib/attendance.php:108-185 | one step of any kind at any time keeps all work apart if and only if it is not a start that is recorded before some nonempty work of its user has begun |
| WorkTime.RunExactly | lib/attendance.php:126-152 | over every run under any clock, work stays disjoint after every step if and only if no recorded start precedes nonempty work of its user |
| WorkTime.RunPast | lib/attendance.php:126-152 | under a clock that never runs backwards no such start occurs, and all work was begun and ended in the past |
| WorkTime.CheckedFits | lib/booking.php:18-33 | an interval that passed the overlap check is apart from all other work of the user |
| WorkTime.RunFaithful | lib/corrections.php:68-88 | over every run, whatever the clock does, a booking number keeps its user, and work never becomes an absence or an absence work |
| WorkTime.ApproveWrites | lib/corrections.php:68-88 | an approval removes, replaces, relabels or adds exactly the one booking the request is for; user and kind of a booking stay, an added one is work, and what it writes as work is over and free of overlaps |
| ClockLimits.BackwardsClock | lib/attendance.php:126-133 | a run with a clock that goes backwards in which a start claims the hours of a recorded day again: one of the runs WorkTime.RunExactly excludes |
| EventReplay.RunTold | lib/attendance.php:126-184 | over every run, corrections included, breaks and end of every stamped session are what a replay of the event log gives, and an open booking shows start, place and note of its start stamp |
| EventReplay.EndFromLog | lib/attendance.php:145-154 | what an end stamp writes can be recomputed from the log: the end is the time of receipt, the pause the whole minutes of the replayed breaks, all of them closed |
| EventReplay.StampedMarks | lib/attendance.php:142-152 | the change of the stored breaks by a stamp is what its event adds to the story, for this session and no other |
| EventReplay.ApprovalSparesOpen | lib/corrections.php:61-63 | an approval never acts on the booking of an open session |
| EventLog.TransitionLogs | lib/attendance.php:97-102 | a stamp leaves the log alone or adds one entry with its own key and payload under a key that was free; a refusal changes nothing |
| EventLog.PerformLogs | lib/attendance.php:156-185 | the stored answer names the event, a real booking, the expected one if one was expected, and the start metadata unless it is the default |
| Receipts.AnswerExactly | lib/attendance.php:156-161 | the answer to a newly booked stamp in full: its event, the new booking of a start or the only open one of a later stamp, the time of receipt, Working after a start or a break's end, Paused after a break's beginning, Absent after an end, and the metadata of a start unless they are the default; the user is in that state then |
| Receipts.RunReceipts | lib/attendance.php:156-184 | over every run the stored answer of every entry names its event, the booking of its session, the time of receipt, the state its action leads to, the booking that was expected and the metadata of a start |
| Receipts.StartWrites | lib/attendance.php:128-132 | a start writes exactly one open booking with the place and note it was given, and its session |
| EventLog.ReplayedUnchanged | lib/attendance.php:98-102 | a repeated event is answered with its stored receipt and changes nothing |
| Receipts.PayloadExactly | lib/attendance.php:80-86 | two uses of a key count as the same event exactly when user, action, confirmation, binding and metadata agree, the default metadata being the same as none |
| EventLog.RefusedUnlogged | lib/attendance.php:92-102 | a well-formed event refused for an existing account was not in the log, or its key was used for something else |
| EventLog.OtherStepsKeepLog | lib/attendance.php:184 | nothing but a stamp touches the event log |
| StampGuards.SucceedsExactly | lib/attendance.php:91-155 | a stamp succeeds if and only if it is well formed and either repeats the payload of a logged event, or uses a free key, has the binding its caller must give, and finds the rows as needed: for a start nothing open and no booking in this second, otherwise exactly one open booking, the expected one, with nothing of it later than now and a break as the action demands |
| StampGuards.LaterExactly | lib/attendance.php:114-155 | the later stamps among them, old open bookings without a session included |
| WorkflowHints.HintsExact | lib/attendance_workflow_status.php:17-24 | with the required confirmation, the advertised booking, a valid clock, no overlap and at most one old open booking, an event is booked if and only if its action is advertised |
| WorkflowHints.ConfirmationExactly | lib/attendance_workflow_status.php:17-37 | without a confirmation an advertised action is booked if and only if the hints do not ask for one |
| WorkflowHints.StatusMeans | lib/attendance.php:46-51 | absent means no open booking, otherwise the reported booking is open, and paused means exactly that some break of the user runs |
| WorkflowHints.AdoptSucceeds | lib/attendance.php:116-125 | exactly the present users have a session to stamp, old open bookings included, and it is the reported one |
| WorkflowHints.OpenSucceeds | lib/attendance.php:126-133 | without an overlap a start succeeds exactly when nobody is reported present |
| Database.Tables.StampingTransaction | lib/attendance.php:188-192 | the statement-by-statement transaction, with rollback on failure, has the effect and the answer the model's transition defines |
| Database.Tables.TransitionLocked | lib/attendance.php:91-187 | the row updates in their order give that result before commit |
| Database.Tables.StampRows | lib/attendance.php:136-154 | breaks, session, booking and pause after the in-place updates of a later stamp |
| Database.Tables.AdoptLocked | lib/attendance.php:114-125 | finding or creating the session of a later stamp |
| Database.Tables.StartLocked | lib/attendance.php:126-133 | booking and session of a first stamp |
| Database.Tables.ReviewTransaction | lib/corrections.php:49-92 | a decision as it runs on the rows, rolled back when refused |
| Database.Tables.ApproveLocked | lib/corrections.php:56-90 | the statements of an approval in their order |
| Database.Tables.AbsenceTransaction | lib/practice.php:114-143 | the day loop of an absence, all days or none |
| Database.Tables.WithdrawTransaction | lib/correction_withdrawal.php:6-32 | the guarded update of a withdrawal |
| CorrectionInvariants.ApproveKeeps | lib/corrections.php:56-90 | every approval keeps the shape of the tables |
| CorrectionInvariants.NothingToEnd | lib/corrections.php:76-81 | the statements that end breaks and sessions find nothing to end, since an approval requires that no session of the booking is open |
| CorrectionInvariants.CreditDaysKeep | lib/practice.php:121-132 | absence credits keep the shape of the tables |
| CorrectionLifecycle.RunEvolves | lib/corrections.php:49-92 | over every run a request leaves the pending state at most once and never returns, a decided one has a reviewer other than its owner, a withdrawn one has none, and nothing it asks for ever changes, except that the number of a new booking is filled in |
| RequestFates.RequestFate | lib/corrections.php:49-91 | over every run a pending request is what it was, or exactly one step settled it: an approval by somebody entitled on an "approved" decision, which changed the bookings exactly as requested on the booking its snapshot was taken of, or a rejection or the owner's withdrawal, which changed nothing else; its row stays as that step wrote it |
| RequestFates.DecisionStored | lib/corrections.php:55-91 | a decision is stored as made: Approved exactly for "approved", Rejected exactly for "rejected", with actor, time and trimmed reason; a rejection changes nothing else, an approval the one booking as requested |
| RequestFates.ReviewExactly | lib/corrections.php:49-55 | a decision is accepted if and only if it is one of the two, with a reason of 3 to 1000 bytes, by an administrator or the owner's supervisor other than the owner, on a pending request of an existing account that can be carried out |
| RequestFates.WithdrawExactly | lib/correction_withdrawal.php:9-29 | taking back succeeds if and only if the request is one's own, pending and untouched by any reviewer |
| RequestFates.ApprovalSessions | lib/corrections.php:76-88 | an approval gives a booking with new times a session if it has none, and changes no other |
| RequestGuards.AskExactly | lib/corrections.php:29-44 | a correction is accepted if and only if it is for a new booking or an own one that is not running, with a reason of 5 to 1000 bytes, and cancels an existing booking or gives times within a week that leave room for the pause and are over, or fit a whole-day credit |
| RequestGuards.AskStores | lib/corrections.php:45-47 | what an accepted correction stores, column by column |
| RequestGuards.AskMetadataExactly | lib/correction_metadata.php:51-79 | a new place and note are accepted if and only if they are valid, confirmed, reasoned and different, for own finished work that is not running |
| RequestGuards.AskMetadataStores | lib/correction_metadata.php:66-82 | what such a request stores, column by column |
| RequestGuards.ApprovableExactly | lib/corrections.php:56-73 | a request can be approved if and only if its stored text is readable and it is a cancellation, timely and unoccupied new times, or for the booking it was made for, not running, which it cancels, moves to timely and unoccupied times, or relabels as finished work whose times it repeats |
| RequestGuards.TrimExactly | lib/corrections.php:32 | a reason is stored without the blanks around it and with everything between |
| CorrectionLifecycle.ApprovalFrame | lib/corrections.php:74-91 | an approval leaves all other bookings, all breaks and the event log as they are and ends no session |
| CorrectionLifecycle.ApprovalEffect | lib/corrections.php:74-88 | an approved new booking or correction shows the requested times and pause, keeps note, place and kind of a corrected one, recomputes its credit and has a session; a cancelled one is gone |
| CorrectionLifecycle.MetadataApprovalEffect | lib/correction_metadata.php:85-100 | an approved request for place and note changes those two columns of that row and nothing else |
| CorrectionLifecycle.AskedApprovable | lib/corrections.php:30-48 | an accepted request asks for what was entered, and approving it in the same tables, then or later, can only fail because of an overlap |
| CorrectionLifecycle.AskedSnapshot | lib/corrections.php:31-47 | a request for a booking stores the requester's own booking as it is |
| CorrectionLifecycle.AskedMetadataSnapshot | lib/correction_metadata.php:74-82 | a request for place and note stores a text that reads back as the row and the proposal |
| CorrectionLifecycle.AskedMetadataApprovable | lib/correction_metadata.php:85-100 | an accepted request for place and note can always be approved in the same tables, now or later, and then shows exactly them |
| CorrectionLifecycle.OutdatedExactly | lib/corrections.php:57-62 | a request for a booking is refused as outdated exactly when the booking is gone or differs from the snapshot |
| CorrectionLifecycle.ApprovedAsAsked | lib/corrections.php:61-62 | over every run, a request is approved only for a booking equal to the one it was made for |
| CorrectionMetadata.ProposalRoundTrip | lib/correction_metadata.php:16-34 | for every row and valid proposal the stored text parses to the encoding of the row and to the proposal |
| CorrectionMetadata.OrdinarySnapshot | lib/correction_metadata.php:17-25 | an ordinary snapshot asks for no metadata |
| CorrectionMetadata.OnlyExactRequests | lib/correction_metadata.php:21-34 | a text is read as a request exactly when it is bounded, in the encoder's spelling, carries the one reserved key and a valid proposal; any other text with a reserved key is refused |
| CorrectionMetadata.SnapshotInjective | lib/corrections.php:62 | equal snapshots mean equal rows |
| AbsenceCredits.CreditsExact | lib/practice.php:121-132 | crediting a range books one whole-day credit for every day with a target, under new numbers in order, and nothing else appears or changes |
| AbsenceCredits.AbsentExactly | lib/practice.php:104-132 | an absence is accepted if and only if the range has at most 367 days in order, the kind is known and on no day with a target anything of the user is in the way; one blocked day refuses it as a whole |
| AbsenceCredits.CreditNeutral | lib/practice.php:124-129 | a credit is worth exactly the target of its day, so on a day without other bookings the Home total stays the same |
| PreviewRefinement.PreviewRefinesApproval | lib/correction_balance_preview.php:35-83 | when the preview is available, an authorised approval with a valid reason succeeds in the same tables, then or later, and Home recomputed from any listing of the resulting bookings shows the previewed total |
| PreviewCompleteness.PreviewExactly | lib/correction_balance_preview.php:11-83 | a preview is available if and only if the request is a pending time request of the user whose approval now would succeed, its times can be shown, and neither the listed bookings nor those an approval leaves are invalid or in conflict |
| PreviewRefinement.DifferenceExplained | lib/correction_balance_preview.php:73-81 | the previewed change is the change in minutes, less the targets of days that become booked, plus the targets of days no longer booked; at most one day is gained and one lost |
| PreviewRefinement.OrderIrrelevant | lib/home_projection.php:32-44 | two listings of the same bookings have the same Home total |
| BalancePreview.BalancePreview | lib/correction_balance_preview.php:11-88 | the loop that finds the booking, the checks and both projections, as one function of the request and the bookings |
| HomeProjection.ComputeReportDays | lib/reporting.php:140-172 | the minutes of finished bookings per start day, and whether any booking is invalid |
| HomeProjection.CalculateExactly | lib/reporting.php:19-42 | in seconds: which rows are invalid, unfinished or finished, the local start day, and the whole minutes besides the pause |
| ConflictSweep.AbsenceConflicts | lib/reporting.php:50-89 | the sweep over sorted beginnings and ends, one for each user, reports exactly the pairs of work and absence in conflict, each once |
| ConflictSweep.Sweep | lib/reporting.php:63-82 | one sweep with its sets of active work and absences |
| ConflictSweep.Timeline | lib/reporting.php:66 | the sorted timeline holds a beginning and an end of every part, ends before beginnings of the same instant |
| ConflictSweep.ConflictExactly | lib/reporting.php:50-60 | two bookings are in conflict if and only if finished work and a finished whole-day absence share an instant |
| HomeProjection.RecordedDayBalances | lib/home_projection.php:32-44 | both running totals of the day loop: over all recorded days, and over those up to a given day |
| HomeProjection.HomeTotalIs | lib/home_projection.php:26-44 | the total is the carried amount plus all finished minutes minus the targets of the distinct booked days |
| Popup.Controller.SendTimeEntry | firefox_add_on/popup.js:380-408 | a pending event is stored again unchanged, otherwise a new one is built for an offered action and bound to the shown booking; without a successful write nothing waits to be sent |
| Popup.Controller.Settle | firefox_add_on/popup.js:409-434 | only a matching acknowledgement or a refusal forgets the event, in memory and in storage |
| Popup.Controller.RestorePending | firefox_add_on/popup.js:282-294 | a stored event is restored for its own account only, when it is valid or carries a binding or metadata; anything else is removed, and so is an event that cannot be read |
| ClickLaws.RestoredExactly | firefox_add_on/popup.js:282-294 | signing in makes exactly the own readable event pending that is valid or carries a binding or metadata, and otherwise empties the storage as far as that succeeds |
| ClickLaws.SentWellFormed | firefox_add_on/popup.js:380-408 | over every run nothing malformed is ever sent, whatever was restored |
| Popup.Controller.ApplyStatus | firefox_add_on/popup.js:295-309 | a status is believed exactly when it binds a booking to presence and none to absence |
| Popup.Controller.ClearSession | firefox_add_on/popup.js:212-228 | leaving clears memory, and storage only on an explicit sign-out |
| BookingProtocol.PlayKeeps | firefox_add_on/popup.js:380-443 | every run of client, lossy and duplicating network, server and all other steps keeps the protocol's invariant |
| BookingProtocol.AcceptedTook | lib/attendance.php:97-102 | after an accepted delivery the event is in the log and its answer, original or replayed, passes all client checks |
| ProtocolLaws.AtMostOnce | firefox_add_on/popup.js:380-443 | in every reachable state a user action is logged at most once, for its own account and with its own payload |
| ProtocolLaws.AcknowledgedTook | firefox_add_on/popup.js:417-432 | an acknowledged action is in the log |
| ProtocolLaws.RetryAcknowledged | firefox_add_on/popup.js:380-432 | after a lost answer one more delivery and its answer acknowledge the action without changing the database |
| ProtocolLaws.TookExactly | firefox_add_on/popup.js:380-432 | from any point of a run on, an action comes to have taken effect if and only if a delivery of it finds its account and rows that allow the booking |
| ProtocolLaws.TookWhenLetThrough | firefox_add_on/popup.js:380-432 | the same from the beginning: an action took effect if and only if some delivery of it was let through by those checks |
| ProtocolLaws.DeliveryAnswered | lib/attendance.php:215-219 | a signed-in delivery is answered with a receipt if it is accepted and with a refusal if not, never with a server failure |
| ProtocolLaws.AcceptsExactly | lib/attendance.php:91-155 | the server accepts a delivery if and only if the account exists and the action is logged already or the rows allow it |
| ProtocolLaws.DeclinedExactly | firefox_add_on/popup.js:410-416 | after a refusal the action has taken effect if and only if a later delivery was let through, or the refusal was for a missing account and the action had taken effect before |
| ProtocolLaws.RefusedForGood | firefox_add_on/popup.js:410-416 | when nothing of it arrives after a refusal that found the account, the action never takes effect |
| ProtocolLaws.DroppedExactly | firefox_add_on/popup.js:410-416 | an event dropped as rejected has taken effect all the same if and only if a delivery was let through after a refused one, provided its account existed at the refusals |
| ProtocolLaws.LostExactly | firefox_add_on/popup.js:212-294 | over every run a stored event has gone without an outcome if and only if it was given up on purpose, removed unread at its owner's sign-in, or written over while it was not pending; it has an outcome if and only if a refusal or a matching acknowledgement was received and the removal succeeded |
| ProtocolLaws.HeldLostExactly | firefox_add_on/popup.js:282-294 | for an event that is pending or will be at sign-in, while removals at sign-in succeed: gone without an outcome if and only if given up on purpose or removed at a sign-in whose read failed |
| ProtocolLaws.CurrentClickBooked | firefox_add_on/popup.js:31 | a click offered by the client's own table on a current status is booked, given what the server's hints require |
| ProtocolLaws.OfferedExactly | firefox_add_on/popup.js:31 | under those conditions the client offers an action if and only if the server would book it |
| ClickLaws.ClickCarried | firefox_add_on/popup.js:380-408 | over every run, whatever happens after the click: every log entry of the action is what the click meant on what the client showed before it, a later stamp acted on the booking that was shown and on no other, every accepted answer names it, and a start carries place and note as entered |
| ClickLaws.ClickOnNewStatus | firefox_add_on/popup.js:410-432 | no click is ever made on what the client showed before an action was settled or before somebody signed in or out |
| ProtocolLaws.CommandsAdmissible | firefox_add_on/popup.js:269-281 | the server never refuses the form of what the client sends |
| ProtocolLimits.LateDuplicate | firefox_add_on/popup.js:410-416 | a run in which a delayed first request takes effect after its repetition was refused and the event dropped |
| ProtocolLimits.UnreadEvent | firefox_add_on/popup.js:284-285 | a run in which an event that has taken effect is removed unread, so that no outcome is ever known |
| ProtocolLimits.OverwrittenEvent | firefox_add_on/popup.js:284-285 | a run in which read and removal fail at sign-in and the next click is written over the event |
| ProtocolLimits.RemovedAccount | lib/attendance.php:94 | a run in which the account is removed between two deliveries and an event that has taken effect is dropped as rejected |
| SupervisorGraph.RunsIntoCycle | lib/ldap_manager_mapping.php:93-97 | the chain walk with its set of seen accounts terminates and reports exactly the chains that never end |
| SupervisorGraph.AcyclicMeans | lib/admin_users.php:131-151 | every chain ends if and only if nobody is on a cycle |
| ManagerPlan.Classify | lib/ldap_manager_mapping.php:62-87 | the classification loops give every account its proposal or its conflict |
| ImportLaws.ProposalsExactly | lib/ldap_manager_mapping.php:62-87 | read off the rows: an account is proposed the supervisor its only row names, or none where the row names none, if and only if it and the named account can be told apart from all others; every other imported account is a conflict with its reason, each characterised |
| ManagerPlan.PlanManagers | lib/ldap_manager_mapping.php:60-103 | the rounds of withdrawal terminate, each with fewer assignments, and end with the settled plan and all its conflicts |
| ManagerPlan.Settled | lib/ldap_manager_mapping.php:88-100 | what remains is a part of the proposals of which none leads into a cycle |
| ImportLaws.OnlyCyclicWithdrawn | lib/ldap_manager_mapping.php:88-100 | a proposal is withdrawn only when in some round, with at least the finally kept proposals applied, its account's chain runs into a cycle |
| SupervisorLaws.ExactlyOne | lib/ldap_manager_mapping.php:60-103 | every imported account is in exactly one of assignments and conflicts, and nobody else in either |
| SupervisorLaws.PlanSafe | lib/ldap_manager_mapping.php:88-100 | in the final graph no assigned account reaches a cycle, and no account reaches one that did not before |
| SupervisorLaws.PlanKeepsAcyclic | lib/ldap_manager_mapping.php:88-100 | an acyclic relation stays acyclic under a plan |
| SupervisorLaws.RepeatStable | lib/ldap_manager_mapping.php:88-100 | planning again after the plan was applied gives the same plan |
| SupervisorLaws.OrderIrrelevant | lib/ldap_manager_mapping.php:62-87 | the plan does not depend on the order of the directory's entries |
| SupervisorRuns.AssignmentValid | lib/admin_users.php:118-152 | the validating walk accepts exactly an existing supervisor whose whole chain exists, ends and avoids the edited account |
| SupervisorRuns.Accounts.ImportDirectory | lib/ldap_import.php:134-144 | both passes of an import, edge by edge |
| ImportLaws.ImportedExactly | lib/ldap_import.php:134-144 | after an import an account has the supervisor its row names unless that proposal was withdrawn for a cycle; then, and when the directory says nothing about it, it keeps the one it had; roles stay and new accounts are employees |
| ImportLaws.AllCarriedOut | lib/ldap_import.php:134-144 | when the proposals close no cycle every one of them is carried out |
| SupervisorRuns.Accounts.EditUser | lib/admin_users.php:10-26 | a validated and guarded edit, or no change |
| SupervisorRuns.Accounts.DeleteUser | lib/admin_users.php:35-55 | a guarded removal, or no change |
| SupervisorRuns.GuardExactly | lib/admin_users.php:10-55 | the guard refuses exactly the changes that would leave no administrator where there was one, or that name no account |
| SupervisorRuns.HistoryAcyclic | lib/ldap_import.php:134-144 | an acyclic supervisor relation stays acyclic over every run of imports, edits, creations and removals |
| SupervisorRuns.HistoryEnds | lib/admin_users.php:131-151 | over every such run an account whose chain ends keeps an ending chain, whatever older cycles exist elsewhere |
| SupervisorRuns.HistoryKeepsAdmin | lib/admin_users.php:35-55 | once there is an administrator there is always one |
| DnKey.KeyExact | lib/ldap_manager_mapping.php:3-52 | two names have equal keys if and only if relative name by relative name they have the same attributes and values, up to case of attribute names, escaping, case of encoded values and order inside a relative name |
| DnKey.KeyExactByTypes | lib/ldap_manager_mapping.php:48 | the same with the library's comparison written out, for relative names that repeat no attribute type and whose types begin with a letter |
| DnKey.NameWritten | lib/ldap_manager_mapping.php:14-51 | every name that has a key is the spelling of a written name, so the previous row speaks about all of them |
| DnKey.DecodesSpelled | lib/ldap_manager_mapping.php:36-45 | any permitted escaping of the same bytes decodes to those bytes |
| DnKey.PairExactly | lib/ldap_manager_mapping.php:38-41 | every byte is what its two hexadecimal digits decode to, in either case |
| DnKey.EscapeExactly | lib/ldap_manager_mapping.php:42-44 | a single escaped character stands for itself exactly when it is one of the ten special ones |
| DnKey.SplitRdn | lib/ldap_manager_mapping.php:20-27 | the scan with two offsets cuts exactly at unescaped plus signs and refuses a trailing backslash |
| DnKey.DecodeValue | lib/ldap_manager_mapping.php:36-45 | the decoding loop |
| HolidayScan.ScanExact | lib/holiday_refill.php:13-30 | for every JSON text the linear scan rejects exactly when some object at any depth has two equal decoded names |
| HolidayScan.LexSpell | lib/holiday_refill.php:16-19 | the tokens of a text are those of its value tree, whatever punctuation its strings contain |
| HolidayScan.Scan | lib/holiday_refill.php:20-30 | the stack loop over the tokens |
| HolidayRefill.Stage | lib/holiday_refill.php:31-62 | staging succeeds exactly for bounded, valid responses with some state-wide day and none twice, and yields exactly the state-wide entries |
| HolidayRefill.CalendarExact | lib/holiday_refill.php:47-48 | the days of the months add up to the Gregorian calendar over all years |
| HolidayRefill.Holidays.Refill | lib/holiday_refill.php:71-93 | the writer refuses exactly when a stored row clashes, before any insertion, and otherwise adds exactly what is missing |
| HolidayRefill.Preview | lib/holiday_refill_preview.php:6-38 | the preview has conflicts exactly when a row clashes, the row limit included, and its five counts are the staged days that are missing or not compared, that agree, that differ, and the stored days that are not staged |
| HolidayRefill.PreviewCountsAreReal | lib/holiday_refill_preview.php:20-33 | on one table the preview's missing and unchanged counts are what the refill inserts and leaves, and both decide alike |
| HolidayRefill.Pigeonhole | lib/holiday_refill.php:76-84 | rows that do not clash are no more than the staged days, so a full query always clashes |
| HolidayRefill.YearIsStaged | lib/holiday_refill.php:76-90 | after a refill the year holds exactly the staged days and every earlier row is unchanged |
| HolidayRefill.SecondRefill | lib/holiday_refill.php:76-93 | a second refill is never refused and inserts nothing |
| WallTime.Assess | lib/legacy_timestamp_assessment.php:31-44 | nonexistent, ambiguous and unique mean that no, several or exactly one instant shows the wall time |
| WallTime.OffsetExactly | lib/legacy_timestamp_assessment.php:33-37 | the offset in force is that of the last transition not after the instant, and the base offset before all of them |
| WallTime.CountExact | lib/legacy_timestamp_assessment.php:33-39 | the number of matching offsets in the window is the number of instants, for every zone with offsets below a day |
| WallTime.WindowComplete | lib/legacy_timestamp_assessment.php:33 | no instant with the wall time has an offset from outside the window of two days |
| CarryIn.NormalisedExact | lib/settings_carry_in.php:38-65 | two accepted texts are normalised alike if and only if they denote the same number |
| CarryIn.NormalisedPreserves | lib/settings_carry_in.php:43-64 | the normal form denotes the number that was written and has no leading or trailing zeros |
| CarryIn.CanonicalUnique | lib/settings_carry_in.php:43-64 | two normal forms of one number are the same form |
| CarryIn.RefusedExactly | lib/settings_carry_in.php:51-62 | a number is refused if and only if it is not zero and its exponent, as written or as adjusted, leaves 64 bits |
| CarryIn.ParseExact | lib/settings_carry_in.php:40 | the pattern matches a text exactly when it spells a number of the grammar, and its parts are that number's |
| ModelVersions.Search | lib/planning_snapshot.php:33-39 | the binary search finds the newest version in force on the day among all stored ones |
| ModelVersions.TargetExactly | lib/practice.php:86-98 | the target of a day, said of the stored versions: nothing on a holiday, the minutes the version in force has for the weekday, and before any version the regular minutes, within a day, from Monday to Friday |
| ModelVersions.Sweep | lib/own_period_comparison.php:79-99 | every target of the forward sweep is the one of the newest version in force on its day |
| ModelVersions.Planned | lib/planning_snapshot.php:27-41 | a lookup gives that target inside its bounds and is refused outside |
| ModelVersions.OneTarget | lib/api_work_model.php:39-41 | there is one target for a day, so search, sweep and the direct rule agree |
| PasswordLimiter.AttemptsBounded | lib/native_own_password.php:32-77 | with a clock that never runs backwards, from any stored table and with any cleanups in between, no closed 600 seconds hold more than 10 accepted attempts of a user or 40 of a peer |
| PasswordLimiter.RefusedExactly | lib/native_own_password.php:41-57 | from a table without password counters, whatever logins come between, an attempt is refused if and only if the user has five accepted attempts, or the peer twenty, in a window of 600 seconds that is not over |
| PasswordLimiter.ThrottledRows | security.php:86-101 | what the throttle does to each row: rows older than 600 seconds go, the address is counted, and the name only while the address may go on |
| PasswordLimiter.Attempts.Consume | lib/native_own_password.php:41-67 | both quotas are booked or neither; a refused attempt changes nothing |
| PasswordLimiter.Attempts.Throttle | security.php:86-101 | the cleanup of the shared table and the login counters |
| PasswordLimiter.LoginKeeps | security.php:89 | the cleanup removes a password counter only after its window is over |
| PasswordLimiter.IntervalBounded | lib/native_own_password.php:46-57 | windows hold at most the quota each and an interval meets at most two of them |
| HistoryCorrelation.Correlate | lib/history_correlation.php:60-229 | whatever the queries return, the graph has exactly the wanted anchors of the page in order with exactly their links, publishes exactly what they name, passes every check of the exporter, and links only numbers of the anchor's owner |
| HistoryCorrelation.PublishedSession | lib/history_correlation.php:128-227 | seen from the rows: a session is published if and only if it is the newest row of its number and a wanted anchor of its owner leads to its booking |
| HistoryCorrelation.FocusExactly | lib/history_correlation.php:186-200 | the booking an anchor leads to: owned by the anchor's owner, and its own, its session's, or the one its readable request names now and named then |
| HistoryCorrelation.FocusMarks | lib/history_correlation.php:186-200 | when an anchor leads somewhere but to no booking, that a request leads to itself too, and when its relation is only current |
| HistoryCorrelation.AnchorReadExactly | lib/history_correlation.php:84-106 | from which rows an anchor is read, and what it stands for, table by table |
| HistoryCorrelation.RequestReadExactly | lib/history_correlation.php:116-124 | from which rows a request is read |
| HistoryCorrelation.EventReadExactly | lib/history_correlation.php:177-180 | from which rows an event is read |
| HistoryCorrelation.LinksExactly | lib/history_correlation.php:200-215 | everything an anchor links, said of the staged rows: the owner's sessions of its booking, the owner's events in them, the owner's requests for the booking, and the request the anchor itself is |
| HistoryCorrelation.StatusExactly | lib/history_correlation.php:216 | an anchor is shown as linked whenever anything is linked, otherwise as unresolved or not applicable, and its relation as current only when linked |
| HistoryCorrelation.PublishedExactly | lib/history_correlation.php:219-227 | exactly the staged sessions, events and requests that some anchor names are published |
| HistoryCorrelation.Export | lib/history_export.php:104-150 | the exporter accepts exactly graphs with bounded collections, sound rows and no dangling reference |
| HistoryCorrelation.LinkAnchor | lib/history_correlation.php:186-217 | the links of one anchor: none without a focus, otherwise exactly the sessions, events and requests the focus leads to, the status and the mark for a current relation |
| HistoryCorrelation.PublishedEvent | lib/history_correlation.php:219-227 | every published event has its session published |
| SupervisorRuns.Accounts.CreateUser | lib/admin_users.php:57-76 | a validated new account, or no change |
| SupervisorRuns.Accounts.InsertNew | lib/ldap_import.php:65-133 | the first pass gives every identity an account and leaves existing ones alone |
| SupervisorRuns.Accounts.WriteEdges | lib/ldap_import.php:139-144 | the second pass writes exactly the planned edges |
| ManagerPlan.Indexed | lib/ldap_manager_mapping.php:62-68 | the two indexes hold, for every account its rows in order and for every key the accounts with that name |
| ManagerPlan.ClassifyOne | lib/ldap_manager_mapping.php:69-87 | the early continuations of the loop decide as the classification says |
| ManagerPlan.FindCyclic | lib/ldap_manager_mapping.php:91-98 | one round finds exactly the proposals whose chain does not end |
| WallTime.FindOffsets | lib/legacy_timestamp_assessment.php:33 | the distinct offsets of the window: the one at its beginning and those that come into force inside |
| WallTime.CountCandidates | lib/legacy_timestamp_assessment.php:34-39 | the counting loop |
| HolidayRefill.Unstored | lib/holiday_refill.php:79-86 | the loop over the stored rows refuses at a clash and otherwise leaves what is not stored |
| HolidayRefill.Holidays.Insert | lib/holiday_refill.php:87-89 | the insertion loop |
| HolidayRefill.StageAdmits | lib/holiday_refill.php:31-62 | what staging yields meets everything writer and preview rely on |
| HolidayRefill.Match | lib/holiday_refill_preview.php:20-24 | the first pass of the preview, with days of another length and long names read as nothing |
| HolidayRefill.Count | lib/holiday_refill_preview.php:26-33 | the second pass counts every staged day under exactly one heading |
| HistoryCorrelation.Wanted | lib/history_correlation.php:63-67 | exactly the readable positive numbers among the first hundred rows, each once, in the order in which they first appear |
| HistoryCorrelation.StageAnchors | lib/history_correlation.php:82-107 | exactly the newest usable row of each wanted number is an anchor, and exactly the numbers of foreign rows are out of scope |
| HistoryCorrelation.StageSessions | lib/history_correlation.php:128-139 | exactly the newest readable row of each number is staged, and it is sound |
| HistoryCorrelation.StageEvents | lib/history_correlation.php:171-182 | exactly the newest readable row of each number is staged, and it is sound |
| HistoryCorrelation.StageRequests | lib/history_correlation.php:157-169 | the first hundred by number of all requests with an owned booking or none: see the next two rows |
| HistoryCorrelation.RequestsExactly | lib/history_correlation.php:109-167 | those requests are exactly the newest rows of their keys, and the directly named ones of an owned booking or none that no such row replaces |
| HistoryCorrelation.FirstExactly | lib/history_correlation.php:168-169 | a hundred are kept at most, and none left out has a lower number than one kept |
| HistoryCorrelation.OwnedExactly | lib/history_correlation.php:143-155 | a booking counts as owned exactly when a staged session or a readable row of its own says so |
| HistoryCorrelation.SortedStable | lib/history_correlation.php:168-169 | sorting puts them in ascending order and keeps the order of those with one number |
| HistoryCorrelation.LinkSessions | lib/history_correlation.php:201-205 | exactly the owner's sessions of the booking |
| HistoryCorrelation.LinkEvents | lib/history_correlation.php:206-210 | exactly the owner's events in the linked sessions |
| HistoryCorrelation.LinkRequests | lib/history_correlation.php:211-215 | exactly the owner's requests for the booking, and the anchor's own request |
| HistoryCorrelation.LinkAll | lib/history_correlation.php:184-218 | one description for each wanted number, in order: the exact links of its anchor, or none |
| KeyedRows.StoredExactly | lib/history_correlation.php:128-182 | filling a keyed array row by row keeps exactly the newest readable row of every key, once |
| KeyedRows.StoredInOrder | lib/history_correlation.php:63-67 | its entries stand in the order in which their keys first appear |

## Left out

- Time texts: `booking_time(attendance_local(t)) = t` is taken for granted, and reading or writing a date text is not modelled; neither are an empty end text and the strict timestamp gate that only makes the balance preview unavailable.
- SQL, PDO, schema creation, HTTP, JWT and passwords: a transaction is one atomic step, hashes are injective, unique indexes and growing row numbers hold.
- WorkTime.RunExactly: clock readings are 64-bit integers, and the largest of them ends an open booking, as in the program.
- Row numbers are unbounded; the 64-bit end of the number range is not reached.
- The warnings inside an end receipt (minimum pause, overlap with an absence): they do not change what is booked or what the client checks.
- Audit triggers, audit actor and reason, session handling, CSRF, error texts.
- JSON texts of snapshots are trees with a mark for their spelling and a length, so a text nested deeper than eight levels and the escaping inside strings are not looked at; `HolidayScan` does look at every character.
- CorrectionLifecycle.OutdatedExactly: a stored timestamp is the instant it denotes, so a row whose timestamp text was rewritten to another spelling of the same instant counts as unchanged here and as changed in the program.
- CorrectionLifecycle.AskedMetadataSnapshot: the spelling of the stored text is a mark on its tree.
- CorrectionMetadata.SnapshotInjective: the rows are equal up to the spelling of their timestamps.
- CorrectionMetadata.ProposalRoundTrip: the encoder's spelling is a mark on the tree, set by the encoder, and not computed.
- CorrectionMetadata.OnlyExactRequests: comparing a text with the encoder's output is comparing trees with marks.
- Balances are exact minutes instead of binary64 hours, and `settings_carry_in_value` with its float comparison is not modelled.
- Database.Tables.WithdrawTransaction: the check of role, source and password fingerprint is one truth value.
- Popup.Controller.Settle: two popups at once, a changed server address (it behaves like signing out) and older servers without exact booking numbers or start metadata are not modelled; version, address and token of a request context are one number for each request.
- Popup.Controller.RestorePending: an event stored for another server address is treated as one of another account.
- BookingProtocol.PlayKeeps: random event ids are assumed never to repeat, and other devices never use the key of this client's events.
- WallTime.Assess: the shape check of the text, explicit offsets and the conversion of the digits to seconds come before the modelled part.
- DnKey.KeyExact: the library's split of a name into relative names and the JSON text of a key are not modelled, and the library's comparison is any order on the values at hand. `DnKey.KeyExactByTypes` proves it such an order where a relative name repeats no attribute type and types begin with a letter; its numeric comparison of digit strings is none for repeated types or types that look like numbers.
- HolidayRefill.Holidays.Refill: the query's order by day is left open, since any choice of 367 rows gives the same decision.
- HolidayRefill.Stage: the response is a list of decoded members; unknown fields and values of other types are refused before.
- ManagerPlan.PlanManagers: the final sort of assignments and conflicts by account number; maps have no order.
- ModelVersions.TargetExactly: the regular hours of an account are whole minutes here; rounding a decimal number of hours comes before the modelled part.
- ModelVersions.Sweep: the check that stored versions have readable days and minutes; the sweep is modelled on a valid timeline.
- HistoryCorrelation.Correlate: the visibility conditions of the queries, and the marks for truncation; a query that is not made returns nothing; ownership is proved from the rows themselves.
- SupervisorRuns.AssignmentValid: departments and the text form of account numbers.
- Terminals, vacation workflow, the second application in the same repository, views and translations are not part of this model.
