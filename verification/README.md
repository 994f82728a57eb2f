# Verified models of the VGU Buddy core

The system is a student buddy platform: a FastAPI service and a PostgreSQL schema whose functions and
triggers carry the destructive and concurrent logic, and an edge function that delivers email. This
project models the parts of it where a mistake is hardest to see and proves what they are for. Run
`dafny verify dfyconfig.toml` to check everything.

**Semester reset** (`SemesterTables`, `SemesterClosure`, `SemesterReset`, `SemesterTriggers`,
`SemesterDatabase`, `SemesterRuns`). A transaction counts fifteen tables, compares the counts with a
backup, deletes the closing semester's rows children first, closes the semester and opens the next. The
main result has an exact condition: the deletes with their cascades remove exactly the semester's rows if
and only if no cascading key crosses semesters. The triggers keep that condition, provided that accepting an
invitation writes matches that belong to their two participants; a counterexample shows that this trust is
needed. The per-statement row counts and the final check turn out never to fail once the barrier is held.

**Write barrier** (`WriteBarrier`, `BarrierCounts`, `BarrierReset`). Writers take a shared advisory lock in a row
trigger, the reset an exclusive one. A reset is first any program that picks its next delete from the barrier rows
it has seen so far: at every point of every interleaving it sees, and counts, what a run of the same program alone
sees at the corresponding point, and it commits the same rows. Then it is the program of the fifteen statements,
which commits the database without its semester. Rows are locked before the trigger fires. So in the waiting form
of the trigger a writer can hold a row that the reset must delete, while it waits for the reset; in the fail-fast
form, without SELECT ... FOR UPDATE, no delete of the reset waits.

**Email outbox and worker** (`EmailOutbox`, `OutboxRuns`, `Delivery`, `WorkerConcurrency`). Claim, complete
and fail are atomic steps over leased rows, and new rows are enqueued between them; any number of workers call
them in any order and may stop anywhere. The worker maps jobs with bounded concurrency.

**Admission control** (`Counting`, `SlidingWindows`, `ChatbotAdmission`, `ChatbotLeases`, `LoginLockout`).
Bounds over sliding intervals for counters that use fixed windows, the life of a transferable slot, and
the account lockout. Counted failures of one account that come one at a time reach at most eight in a half-open
interval of 900 seconds, nine if each attempt may be timed at any of its moments, and ten in a closed
interval, where ten are always five at each end.

**Parsers, codecs and rewriters** (`PartLoop`, `Multipart`, `Base64Url`, `Text`, `HtmlEscape`,
`LikePattern`). Each is compared, in both directions, with a printer, an inverse or a one-pass meaning.

**Canonicalisers** (`WeeklyAvailability`, `AuditRedaction`, `AuditKeys`). Weekly slots against the minutes
of a week, and the redaction of audit payloads over object graphs with sharing and cycles.

Methods follow the source's statements and are proved against specification functions; the lemmas then
speak about those functions, about every run of them, or about every interleaving. Times are parameters
that do not decrease. What the code leaves to its libraries is a parameter as well: the header parser and the
UTF-8 decoder of multipart bodies, URL splitting, case folding and the character classes of audit keys,
Python's white space, digests of client identifiers, and the outcome of a send.

Findings where the code does something its surroundings do not say:

* A reset whose avatar count is NULL passes the gate that is meant to compare it and reports no number
  (`SemesterRuns.MissingAvatarCountPasses`, `SemesterRuns.ReadyResetCompletes`). The Python caller always passes
  an integer (apps/api/app/services/semester_reset.py:536-563), so only a direct call of the function meets it.
* A match that names another pair's invitation is lost with that pair's semester
  (`SemesterClosure.StrayInvitationLosesAMatch`), and the triggers let such a match in
  (`SemesterRuns.StrayInvitationIsAccepted`).
* Idempotency keys that are equal once trimmed are one key for the mail provider: two such rows are both sent
  under it, and no others are (`Delivery.KeysStayApartIffTrimmedKeysUnique`). The service strips the keys it stores
  (apps/api/app/services/email_outbox.py:213-234), so only a direct write to the table, or a U+FEFF at an end of a
  key, which Python keeps and JavaScript trims, gets there (`Delivery.StrippedKeyIsTrimmed`,
  `Delivery.OuterWhitespaceCollides`).
* The normal form of weekly slots is longer than the input by its overnight slots, so it stays within the
  schema's limit of a hundred exactly when the input and its overnight slots together do
  (`WeeklyAvailability.NormalizedLength`). A full list of a hundred can fail that
  (`WeeklyAvailability.FullWeekGrowsTooLong`), and apps/api/app/services/matching_eligibility.py:358 validates
  the stored normal form again.
* In the waiting form of the barrier trigger a writer and the reset can block each other
  (`WriteBarrier.WaitingWriterBlocksTheReset`), and four steps lead there (`WriteBarrier.WriterAndResetAreStuck`);
  the fail-fast form that replaced it gives way
  (`WriteBarrier.FailingWriterGivesWay`).

## Model

| member | source | states |
|---|---|---|
| SemesterTables.CascadesReachBack | apps/api/alembic/versions/0019_semester_reset_execution.py:316-477 | Children first: whatever rows a statement deletes, its declared cascades never reach a table whose own statement is still to come |
| SemesterTables.ClosingReadsLaterTables | apps/api/alembic/versions/0019_semester_reset_execution.py:198-303 | What is counted and selected for a table depends only on that table and on tables deleted from later |
| SemesterTables.RowCountsAlwaysMatch | apps/api/alembic/versions/0019_semester_reset_execution.py:316-477 | On any database at all, each statement removes exactly the rows counted for its table before the first of them ran |
| SemesterClosure.ResetIsExactIffClosed | apps/api/alembic/versions/0019_semester_reset_execution.py:316-477 | The fifteen statements with their cascades leave exactly the rows of the other semesters if and only if no cascading key of a row that stays points to a row that goes |
| SemesterClosure.SurvivorsUnmodified | apps/api/alembic/versions/0019_semester_reset_execution.py:316-477 | No surviving account, profile, invitation, match, conversation or message is modified by any prefix of the statements |
| SemesterClosure.UsersLeft | apps/api/alembic/versions/0019_semester_reset_execution.py:471-477 | On any database the accounts left are exactly those that are not students of the closing semester |
| SemesterClosure.NothingOfTheSemesterIsLeft | apps/api/alembic/versions/0019_semester_reset_execution.py:479-491 | The post-delete verification cannot fail: no student, match or conversation of the semester is left |
| SemesterClosure.NoRowWithoutItsCohort | apps/api/alembic/versions/0019_semester_reset_execution.py:198-303 | Once the cohort's students, matches and conversations are gone, no other table counts a row for the semester |
| SemesterClosure.MatchStaysInItsSemester | apps/api/alembic/versions/0017_semester_boundary_metadata.py:668-699 | A stamped match whose invitation and profiles belong to its participants is reached by a cascade only from its own semester |
| SemesterClosure.MessageStaysInItsSemester | apps/api/alembic/versions/0014_buddy_chat_persistence.py:167-195 | A message that passed the sender trigger is reached through its sender only from the semester of its conversation |
| SemesterClosure.WellFormedIsClosed | apps/api/alembic/versions/0017_semester_boundary_metadata.py:668-739 | What the triggers keep, with the trust placed in acceptance, implies that no cascade crosses a semester |
| SemesterClosure.ResetRemovesExactlyTheSemester | apps/api/alembic/versions/0019_semester_reset_execution.py:198-491 | On a well-formed database a reset removes exactly the fifteen tables' rows of its semester and keeps every other row |
| SemesterClosure.StrayInvitationLosesAMatch | apps/api/alembic/versions/0013_active_match_persistence.py:150-155 | A concrete database: without that trust, closing one semester takes a match of another with it |
| SemesterReset.AdminSurvives | apps/api/alembic/versions/0019_semester_reset_execution.py:162-172 | The acting administrator is never among the deleted accounts |
| SemesterReset.ClosingPassesItsGuards | apps/api/alembic/versions/0019_semester_reset_execution.py:493-522 | The closing updates pass both update guards and the row constraints; the operation's row constraint fails exactly when the clock runs behind its own timestamps |
| SemesterReset.CompletedKeepsValid | apps/api/alembic/versions/0019_semester_reset_execution.py:493-522 | Closing and opening keep every row constraint and at most one CURRENT semester |
| SemesterDatabase.Database.DeleteFrom | apps/api/alembic/versions/0019_semester_reset_execution.py:316-325 | One DELETE with its cascades: the rows it removes, the ROW_COUNT it reports, and its refusal when a RESTRICT key still references a student |
| SemesterDatabase.Database.DeleteCohort | apps/api/alembic/versions/0019_semester_reset_execution.py:316-491 | The loop of checked statements ends with all fifteen done, or with the RESTRICT refusal; neither a row count nor the final check ever fails |
| SemesterDatabase.Database.PostDeleteCheck | apps/api/alembic/versions/0019_semester_reset_execution.py:479-491 | After the fifteen statements the final check finds nothing |
| SemesterDatabase.Database.Execute | apps/api/alembic/versions/0019_semester_reset_execution.py:112-524 | The whole procedure with its roll-back: the answer is the decision taken on the starting database, and the database changes only when the answer is a completed reset |
| SemesterDatabase.Database.InsertUser | apps/api/alembic/versions/0017_semester_boundary_metadata.py:609-653 | Registration through the stamping trigger: the stored account, the counted semester, or rejection with nothing changed |
| SemesterDatabase.Database.InsertMatch | apps/api/alembic/versions/0017_semester_boundary_metadata.py:668-699 | A match is stamped with its participants' common semester, or rejected |
| SemesterDatabase.Database.InsertConversation | apps/api/alembic/versions/0017_semester_boundary_metadata.py:714-741 | A conversation is stamped with its match's semester, or rejected |
| SemesterDatabase.Database.InsertMessage | apps/api/alembic/versions/0014_buddy_chat_persistence.py:167-195 | A message is stored only for a participant of the conversation's undeleted match |
| SemesterRuns.StrayInvitationIsAccepted | apps/api/alembic/versions/0017_semester_boundary_metadata.py:668-699 | The stray match passes every trigger and constraint of a well-formed database; only the trust in acceptance keeps it out |
| SemesterRuns.DeleteKeepsWellFormed | apps/api/alembic/versions/0013_active_match_persistence.py:130-159 | Any DELETE on any of the fifteen tables leaves no dangling or stray row behind its cascades |
| SemesterRuns.StepKeepsWellFormed | apps/api/alembic/versions/0017_semester_boundary_metadata.py:668-739 | Every accepted or rejected write keeps the facts that make a reset exact |
| SemesterRuns.StepKeepsInvariant | apps/api/alembic/versions/0017_semester_boundary_metadata.py:609-653 | Every write keeps exactly one CURRENT semester whose counter covers its students |
| SemesterRuns.StepPreserves | apps/api/alembic/versions/0017_semester_boundary_metadata.py:756-834 | No write changes a CLOSED semester or a finished operation, lowers a counter, or rewrites a verified backup |
| SemesterRuns.RunKeepsInvariant | apps/api/alembic/versions/0017_semester_boundary_metadata.py:756-834 | Over every run of writes and resets both of these hold between the first state and the last |
| SemesterRuns.RunKeepsWellFormed | apps/api/alembic/versions/0017_semester_boundary_metadata.py:668-739 | Every reachable database is well formed, whatever is inserted into any of the fifteen tables and whichever matches and users are marked deleted; so every reset of a run is exact |
| SemesterRuns.ExactlyOneCurrent | apps/api/alembic/versions/0017_semester_boundary_metadata.py:179-186 | After any run from a valid start one semester is CURRENT, and no other |
| SemesterRuns.ResetOpensAnEmptySemester | apps/api/alembic/versions/0019_semester_reset_execution.py:493-507 | A completed reset leaves the new semester as the only CURRENT one, counter zero, without students |
| SemesterRuns.CompletedResetIsExact | apps/api/alembic/versions/0019_semester_reset_execution.py:198-524 | From any reachable state a completed reset leaves exactly the other rows, and its summary holds the size of what went, table by table |
| SemesterRuns.RowsAreConserved | apps/api/alembic/versions/0019_semester_reset_execution.py:198-477 | Rows kept plus rows reported as deleted are the rows before, for each table |
| SemesterRuns.ReplayReturnsTheStoredSummary | apps/api/alembic/versions/0019_semester_reset_execution.py:150-160 | After any further run, repeating a completed reset with its operation and backup answers the stored summary |
| SemesterRuns.VerifiedBackupIsFrozen | apps/api/alembic/versions/0018_semester_backup_verification.py:46-112 | After any run, the verification and the expiry that a reachable backup had, and the two manifests it stored with their locations, checksums and counts, are those first written |
| SemesterRuns.MissingAvatarCountPasses | apps/api/alembic/versions/0019_semester_reset_execution.py:191-196 | Every completed reset reports the backup's avatar count if and only if it was given one; with NULL the same reset completes and reports none, and with any other number it raises |
| SemesterRuns.ReadyResetCompletes | apps/api/alembic/versions/0019_semester_reset_execution.py:191-196 | A concrete reachable database whose reset completes with the right count and with NULL, and with no other |
| WriteBarrier.RunKeepsInvariant | apps/api/alembic/versions/0019_semester_reset_execution.py:43-84 | Over every interleaving of transactions with their row locks, in both forms of the trigger, a transaction without the barrier has written administrator accounts only, every pending write holds its row, and an exclusive holder is the only holder |
| WriteBarrier.TakingTheBarrier | apps/api/alembic/versions/0019_semester_reset_execution.py:112-118 | The exclusive lock is taken exactly when nobody else holds it in either form; then no other transaction has a barrier row pending |
| WriteBarrier.NobodyElseWrites | apps/api/alembic/versions/0019_semester_reset_execution.py:43-84 | Until the reset ends, no interleaving commits a change to a barrier row or leaves one pending in another transaction |
| WriteBarrier.OwnDeletePasses | apps/api/alembic/versions/0019_semester_reset_execution.py:316-477 | The reset's own deletes pass the barrier it holds; one waits exactly when another transaction has locked its row |
| WriteBarrier.ResetCommitsAsIfAlone | apps/api/alembic/versions/0019_semester_reset_execution.py:112-524 | Whatever others do in between, a reset that picks each delete from what it has seen commits the barrier rows that its program leaves when nobody else is there |
| WriteBarrier.InterleavedLikeAlone | apps/api/alembic/versions/0019_semester_reset_execution.py:112-524 | An interleaved reset and the run of the same program alone, from the moment the lock was taken, commit the same barrier rows |
| WriteBarrier.SeesWhatALoneRunSees | apps/api/alembic/versions/0019_semester_reset_execution.py:112-524 | At every point of an interleaving, the run of the same program alone comes to a point, one step for each row gone, at which it sees the same barrier rows |
| WriteBarrier.FailFastResetNeverWaits | apps/api/alembic/versions/0020_semester_restore_execution.py:22-62 | In the fail-fast form, over every interleaving in which no row is selected FOR UPDATE, every delete of the reset goes through at once |
| WriteBarrier.WaitingWriterBlocksTheReset | apps/api/alembic/versions/0019_semester_reset_execution.py:43-84 | In the waiting form a writer that meets the reset on a row still to be deleted keeps the row and waits, the reset waits for the row, and neither gets on |
| WriteBarrier.WriterAndResetAreStuck | apps/api/alembic/versions/0019_semester_reset_execution.py:43-84 | A concrete run of four steps, from nobody at work, that ends there |
| WriteBarrier.FailingWriterGivesWay | apps/api/alembic/versions/0020_semester_restore_execution.py:22-62 | In the fail-fast form the same writer is undone and the reset deletes the row |
| BarrierCounts.ClosingIgnoresAdministrators | apps/api/alembic/versions/0019_semester_reset_execution.py:198-303 | What a reset counts and selects does not depend on the administrator accounts that may change meanwhile |
| BarrierCounts.ClosingReadsGuardedRows | apps/api/alembic/versions/0019_semester_reset_execution.py:198-303 | The closing rows of the fifteen tables are those of the rows that the barrier guards |
| BarrierCounts.CountsAreThoseAlone | apps/api/alembic/versions/0019_semester_reset_execution.py:198-477 | At every point of every interleaving the reset counts and selects, table by table, what the run of its program alone counts and selects at the corresponding point |
| BarrierReset.ClosesIffSelected | apps/api/alembic/versions/0019_semester_reset_execution.py:198-303 | A row is selected by its statement exactly when it, or the row of a later table that it refers to, belongs to the semester |
| BarrierReset.StillClosing | apps/api/alembic/versions/0019_semester_reset_execution.py:316-477 | While the statements run in their order, what they select is what they selected at first and is still there |
| BarrierReset.ResetCommitsTheRemaining | apps/api/alembic/versions/0019_semester_reset_execution.py:112-524 | Whatever others do in between, the fifteen statements behind the barrier commit exactly the guarded rows that were not the semester's when the lock was taken |
| BarrierReset.ResetCommitsItsStatements | apps/api/alembic/versions/0019_semester_reset_execution.py:112-524 | Where no cascade crosses a semester, what is committed over any interleaving is what the statements with their cascades leave of the database as it was when the lock was taken, up to administrator accounts |
| BarrierReset.LoneResetIsWhole | apps/api/alembic/versions/0019_semester_reset_execution.py:316-477 | Alone, the program of the reset takes its steps to the end |
| WriteBarrier.WriterRaisesDuringReset | apps/api/alembic/versions/0020_semester_restore_execution.py:22-62 | A writer that meets a reset raises and is rolled back in the fail-fast form, and has changed no row in the waiting one |
| EmailOutbox.Outbox.Earliest | apps/api/alembic/versions/0010_edge_email_outbox_functions.py:60 | The first candidate by due time and id |
| EmailOutbox.Outbox.Claim | apps/api/alembic/versions/0010_edge_email_outbox_functions.py:38-83 | Claims exactly the first unlocked ready rows in order, up to the batch size, and leases those and no others |
| EmailOutbox.Outbox.Complete | apps/api/alembic/versions/0010_edge_email_outbox_functions.py:102-130 | Marks the row sent if and only if it is live and leased to this worker; otherwise skipped with no effect |
| EmailOutbox.Outbox.Fail | apps/api/alembic/versions/0010_edge_email_outbox_functions.py:150-193 | Reschedules or finishes the row if and only if it is live and leased to this worker; otherwise skipped with no effect |
| EmailOutbox.WaitingRowIsClaimed | apps/api/alembic/versions/0010_edge_email_outbox_functions.py:49-62 | A ready row is claimed once fewer candidates than the batch size stand before it |
| OutboxRuns.FinishedRowIsFrozen | apps/api/alembic/versions/0010_edge_email_outbox_functions.py:115-130 | A sent, failed or deleted row is never touched again by any run |
| OutboxRuns.RowHistory | apps/api/alembic/versions/0010_edge_email_outbox_functions.py:115-193 | Over any run of any workers, attempts are the non-skipped outcomes, at most five; only the last can be final, exactly then the row is finished; the retry delays double |
| OutboxRuns.RetriesAreBounded | apps/api/alembic/versions/0010_edge_email_outbox_functions.py:166-181 | From no attempts the delays are 1, 2, 4 and 8 minutes in order and sum to at most fifteen minutes, so the cap of sixty is never reached |
| OutboxRuns.LostLeaseIsSkipped | apps/api/alembic/versions/0010_edge_email_outbox_functions.py:123-130 | A worker that lost its lease and does not claim again gets skipped, with the table unchanged, at any later time |
| OutboxRuns.LeaseExcludes | apps/api/alembic/versions/0010_edge_email_outbox_functions.py:52-59 | A live lease keeps its row from every other claim |
| OutboxRuns.NothingIsStranded | apps/api/alembic/versions/0010_edge_email_outbox_functions.py:49-59 | Whoever crashes, an unfinished row is a candidate again at the later of its due time and its lease's end, and that is at most eight minutes after the last call |
| Delivery.RunKeepsInvariant | supabase/functions/email-worker/core.ts:362-388 | Over every run with retries, crashes and takeovers, every send of a row carries that row's one key, and a row marked sent has had its key accepted |
| Delivery.StepKeepsSent | supabase/functions/email-worker/core.ts:370-378 | Only a delivery whose send was answered can mark its row sent |
| Delivery.SendsShareAKeyIffTrimsAgree | supabase/functions/email-worker/core.ts:172-179 | Whatever the keys, two sends of a run carry one key exactly when the keys of their rows are equal after trimming |
| Delivery.EqualTrimsCollide | supabase/functions/email-worker/core.ts:172-179 | Two deliverable rows whose trimmed keys are equal are both claimed and sent under that one key |
| Delivery.KeysStayApartIffTrimmedKeysUnique | supabase/functions/email-worker/core.ts:172-179 | No run over a table sends two rows under one key if and only if trimming keeps the keys of its deliverable rows apart |
| Delivery.StrippedKeyIsTrimmed | apps/api/app/services/email_outbox.py:213-234 | Trimming leaves a key that the service has stripped as it is exactly when no U+FEFF stands at its ends |
| Delivery.OuterWhitespaceCollides | supabase/functions/email-worker/core.ts:172-179 | A concrete run over two stripped keys that the table tells apart, one with a U+FEFF at its end, and both sends carry the same key |
| WorkerConcurrency.ConcurrentMap.GoAround | supabase/functions/email-worker/core.ts:783-789 | One turn of a consumer takes the next index and moves the shared cursor |
| WorkerConcurrency.ConcurrentMap.Resume | supabase/functions/email-worker/core.ts:787 | A settled operation stores its result under the index its own consumer took |
| WorkerConcurrency.EveryScheduleIsCorrect | supabase/functions/email-worker/core.ts:776-797 | Under every schedule each index starts once and in order, no more than the limit are in flight, and at the end result i comes from value i |
| WorkerConcurrency.EveryScheduleEnds | supabase/functions/email-worker/core.ts:776-797 | n values and c consumers allow at most 2n + c turns |
| WorkerConcurrency.ReportIsComplete | supabase/functions/email-worker/core.ts:391-397 | claimed = sent + retry_scheduled + terminal_failed + skipped |
| PartLoop.ReadParts | apps/api/app/api/multipart.py:81-111 | The reading loop collects exactly the parts of its specification, at least one, and ends because the cursor grows |
| PartLoop.ReadsWhatIsShown | apps/api/app/api/multipart.py:83-107 | The loop ends with certain parts exactly when a relation that is built up part by part shows them |
| Multipart.Parts | apps/api/app/api/multipart.py:76-111 | The parser is its specification, with each of its errors |
| Multipart.FindIsFirst | apps/api/app/api/multipart.py:84 | bytes.find gives the first match, or there is none |
| Multipart.DelimiterCannotOverlap | apps/api/app/api/multipart.py:49-50 | A boundary of checked characters makes a delimiter that cannot overlap itself or run out of a content that is free of it |
| Multipart.UncheckedBoundaryCutsContent | apps/api/app/api/multipart.py:49-50 | A concrete unchecked boundary for which a content free of the delimiter is cut short |
| Multipart.PartIsReadWherePrinted | apps/api/app/api/multipart.py:84-99 | A part is read exactly where a well-formed part is printed, whatever follows it |
| Multipart.AcceptsExactlyThePrints | apps/api/app/api/multipart.py:76-111 | For a checked boundary, a body parses to certain parts if and only if it prints them: one to four parts, header blocks ending at the first empty line, contents free of the delimiter, with or without a final line break |
| Multipart.ReadUpload | apps/api/app/api/multipart.py:114-161 | An upload is returned exactly when every part is usable, no name repeats, and one image and all three fields are there; it holds exactly those items |
| Multipart.UploadIsDetermined | apps/api/app/api/multipart.py:114-161 | The parts leave nothing of the upload open |
| SlidingWindows.AtMostTwice | apps/api/app/core/chatbot.py:116-130 | A closed interval as long as a window meets at most two of the spaced windows, so it holds at most twice the limit |
| ChatbotAdmission.ChatbotRuntime.Admit | apps/api/app/core/chatbot.py:111-133 | One admission: the new table and counters and the answer, refusals included |
| ChatbotAdmission.LiveBucketsStay | apps/api/app/core/chatbot.py:122-129 | No live bucket is dropped or reset: it keeps its expiry and only counts its own admission |
| ChatbotAdmission.IntervalsAreBounded | apps/api/app/core/chatbot.py:111-130 | For any requests at non-decreasing times, any interval of the window's length holds at most 2 * client_requests counted requests of one client and 2 * global_requests in all |
| ChatbotAdmission.TableIsBounded | apps/api/app/core/chatbot.py:127-129 | The client table never exceeds max_clients |
| ChatbotAdmission.RefusalsAreJustified | apps/api/app/core/chatbot.py:116-133 | Nobody is refused without a full live window, whose end the announced wait reaches, or a table full of other live clients |
| ChatbotAdmission.TwiceIsReached | apps/api/app/core/chatbot.py:111-130 | The factor two is reached |
| ChatbotAdmission.RetryAfterIsExact | apps/api/app/core/chatbot.py:119-126 | The announced wait is the least whole number of seconds, at least one, after which the refusing window is over |
| ChatbotLeases.BoundedSemaphore.Acquire | apps/api/app/core/chatbot.py:131-132 | Takes a slot if one is free |
| ChatbotLeases.BoundedSemaphore.Release | apps/api/app/core/chatbot.py:89 | Gives a slot back, or refuses above the limit |
| ChatbotLeases.LeaseObject.Release | apps/api/app/core/chatbot.py:85-89 | Gives the slot back the first time and does nothing after that |
| ChatbotLeases.LeaseObject.Transfer | apps/api/app/core/chatbot.py:91-93 | Marks the lease, and releases it at once if the future is already done |
| ChatbotLeases.StepKeepsInvariant | apps/api/app/api/chatbot.py:152-154 | Every uninterrupted step of requests, jobs and callbacks keeps the slot balance and each lease's place in its life |
| ChatbotLeases.SlotsAreConserved | apps/api/app/core/chatbot.py:76-93 | In every reachable state free slots plus unreleased leases are the limit, and the semaphore is never over-released |
| ChatbotLeases.UnfinishedJobsAreBounded | apps/api/app/core/chatbot.py:149-152 | Unfinished jobs never exceed the limit, also after their requests have timed out |
| ChatbotLeases.ReleasedByTheRightOne | apps/api/app/api/chatbot.py:152-154 | The middleware releases exactly the ended leases it never transferred; the callback exactly the transferred ones whose job is done and whose callback has run |
| ChatbotLeases.ReleasedOnce | apps/api/app/core/chatbot.py:85-89 | Once released, a lease stays as it is and gives nothing back again |
| ChatbotLeases.HeldLeaseMovesOn | apps/api/app/api/chatbot.py:177-190 | A held lease always has a step to take, and each step it takes uses up its rank, so no slot is lost |
| ChatbotLeases.AllSlotsComeBack | apps/api/app/api/chatbot.py:152-154 | When all requests, jobs and callbacks are over, every slot is free |
| LoginLockout.AuthRateLimiter.EnsureLoginUnlocked | apps/api/app/core/rate_limits.py:160-168 | The check, with the branch that closes the gap before a lock is set |
| LoginLockout.AuthRateLimiter.LoginFailed | apps/api/app/core/rate_limits.py:173-181 | A failure is counted; the fifth sets the lock and clears the count |
| LoginLockout.AuthRateLimiter.LoginSucceeded | apps/api/app/core/rate_limits.py:185-188 | After a success the account has no failures at any time, and its lock and every other key are as they were |
| LoginLockout.RunKeepsInvariant | apps/api/app/core/rate_limits.py:160-181 | One attempt at a time: each passed failure goes on in its counter, opens a new one after 900 seconds, or comes 900 seconds after a fifth |
| LoginLockout.CheckReadsTheLastFailure | apps/api/app/core/rate_limits.py:160-168 | After failures one at a time, a check passes exactly unless the last was a fifth less than 900 seconds ago |
| LoginLockout.NineSpanTheLockout | apps/api/app/core/rate_limits.py:160-181 | Any nine failures that passed the check are counted over at least 900 seconds: at most eight in a 900-second interval without its end |
| LoginLockout.TenSpanTheLockout | apps/api/app/core/rate_limits.py:160-181 | Timed by any moment of each attempt, such an interval holds at most nine |
| LoginLockout.EightAreReached | apps/api/app/core/rate_limits.py:160-181 | A run with eight failures inside 900 seconds |
| LoginLockout.ElevenSpanMore | apps/api/app/core/rate_limits.py:160-181 | Any eleven failures that passed the check are counted over more than 900 seconds: at most ten in a closed interval |
| LoginLockout.ClosedIntervalHoldsTen | apps/api/app/core/rate_limits.py:160-181 | A run with ten failures in a closed interval of 900 seconds |
| LoginLockout.TenMeanFiveAtEachEnd | apps/api/app/core/rate_limits.py:160-181 | Ten fit into such an interval only as five at its first moment and five at its last |
| LoginLockout.GapIsNeverMet | apps/api/app/core/rate_limits.py:165-168 | One attempt at a time never meets the gap branch, and a check changes nothing |
| LoginLockout.LockIsFixed | apps/api/app/core/rate_limits.py:178-188 | Whatever accesses interleave, until a lock's expiry nothing moves or removes it and every check is refused up to that time |
| WeeklyAvailability.Normalize | apps/api/app/schemas/profile.py:43-76 | The split loop, the sort and the neighbour scan compute the normal form, or nothing where they raise |
| WeeklyAvailability.SplitMeans | apps/api/app/schemas/profile.py:44-64 | Splitting keeps every minute of the week as often as it was meant, and all minutes in number |
| WeeklyAvailability.SortIsUnique | apps/api/app/schemas/profile.py:66 | Sorting by the full key has one result, whatever the algorithm |
| WeeklyAvailability.NoClashIffNeverTwice | apps/api/app/schemas/profile.py:67-75 | In sorted order the neighbour check finds no clash exactly when no minute is covered twice, exactly when all slots are disjoint |
| WeeklyAvailability.NormalizedKeepsTheMeaning | apps/api/app/schemas/profile.py:43-76 | Normalising succeeds if and only if no (weekday, minute) is meant twice; the result means the same minutes, as many in all, in sorted disjoint slots within their days |
| WeeklyAvailability.NormalizedAgain | apps/api/app/schemas/profile.py:43-76 | Normalising again changes nothing |
| WeeklyAvailability.NormalizedLength | apps/api/app/schemas/profile.py:50-85 | The normal form is longer than the input by exactly its overnight slots, and has at most a hundred slots if and only if the two numbers add up to at most a hundred |
| WeeklyAvailability.AtMostSevenMore | apps/api/app/schemas/profile.py:50-64 | The normal form is at most seven slots longer than the input |
| WeeklyAvailability.SevenMoreAreReached | apps/api/app/schemas/profile.py:50-64 | Seven slots that run past each midnight normalise to fourteen |
| WeeklyAvailability.FullWeekGrowsTooLong | apps/api/app/schemas/profile.py:50-85 | A concrete valid list of a hundred slots whose normal form has a hundred and one |
| AuditRedaction.Sanitizer.SanitizeValue | apps/api/app/services/audit_logs.py:132-208 | On any object graph, cyclic ones included, the walk ends, computes its specification, and leaves `seen` as it found it on every exit |
| AuditRedaction.Sanitizer.SanitizeItems | apps/api/app/services/audit_logs.py:172-189 | The loop over a mapping, with redacted members and the first error in order |
| AuditRedaction.Sanitizer.SanitizeElements | apps/api/app/services/audit_logs.py:195-203 | The loop over a list or tuple |
| AuditRedaction.AlikeAreSanitizedAlike | apps/api/app/services/audit_logs.py:176-188 | Two payloads, objects renamed, that differ only below redacted keys give the same result or the same error |
| AuditRedaction.AcceptedIffAllPathsFine | apps/api/app/services/audit_logs.py:139-208 | A payload is accepted if and only if every path of visited values is at most twelve deep, meets no container twice, and ends at a value that is fine by itself |
| AuditRedaction.SanitizedIsClean | apps/api/app/services/audit_logs.py:132-208 | A result holds no signed URL and only the marker below redacted keys, within the depth |
| AuditRedaction.SanitizedAgain | apps/api/app/services/audit_logs.py:132-208 | Sanitising a sanitised payload, read back into any graph, changes nothing |
| AuditKeys.WrappingHidesNothing | apps/api/app/services/audit_logs.py:106-119 | Nothing put around a sensitive key, or before a profile key, makes it harmless |
| AuditKeys.SeparatorsChangeNothing | apps/api/app/services/audit_logs.py:106-107 | Separators inside a key change nothing |
| AuditKeys.WrappedMemberIsRedacted | apps/api/app/services/audit_logs.py:106-189 | Wherever an accepted mapping stands, a member whose key wraps a sensitive one holds the marker |
| AuditKeys.AuditPayloadSanitizedAgain | apps/api/app/services/audit_logs.py:106-208 | With the service's own keys and URL test, in either mode, sanitising a sanitised payload changes nothing |
| Base64Url.EncodeBase64Url | supabase/functions/email-worker/core.ts:741-750 | The encoding loop computes the canonical encoding |
| Base64Url.DecodesExactlyTheEncodings | supabase/functions/email-worker/core.ts:724-739 | A string decodes to some bytes if and only if they are not empty and it is their encoding |
| Base64Url.DecodeAfterEncode | supabase/functions/email-worker/core.ts:724-750 | Decoding an encoding of non-empty bytes returns them |
| Base64Url.EncodeAfterDecode | supabase/functions/email-worker/core.ts:724-750 | Encoding what was decoded returns the string |
| Base64Url.KeyLength | supabase/functions/email-worker/core.ts:255-260 | 43 characters are exactly 32 bytes |
| Base64Url.SealingKeyHasTwoSpellings | supabase/functions/email-worker/core.ts:242-262 | A sealing key is accepted exactly as its unpadded encoding or with one equals sign, and both give the same 32 bytes |
| LikePattern.EscapeIsOnePass | apps/api/app/services/admin_users.py:51-53 | The three whole-string replacements are one substitution, character by character |
| LikePattern.MatchesExactlyTheOccurrences | apps/api/app/services/admin_users.py:51-53 | The pattern matches a text if and only if the search occurs literally in it |
| LikePattern.SearchFindsOccurrences | apps/api/app/services/admin_users.py:56-65 | A blank search is no filter; any other finds exactly the accounts with a column that contains the stripped search |
| Text.PassesAreOne | supabase/functions/email-worker/core.ts:695-702 | Any list of replacement passes, none of which looks for what an earlier one looked for or put in, is one substitution |
| HtmlEscape.EscapeIsOnePass | supabase/functions/email-worker/core.ts:695-702 | The five replacements are one substitution, character by character |
| HtmlEscape.EscapedIsSafe | supabase/functions/email-worker/core.ts:695-702 | No angle bracket or quote is left, and every ampersand starts one of the five entities |
| HtmlEscape.UnescapeReturnsTheOriginal | supabase/functions/email-worker/core.ts:695-702 | Unescaping returns the original string |
| HtmlEscape.AmpersandLastEscapesTwice | supabase/functions/email-worker/core.ts:697 | With the ampersand replaced last instead of first, a bracket is escaped twice |

## Left out

- The execution of a semester restore, apart from the fail-fast barrier of its migration, and the Python outbox worker: their bodies are not part of this model.
- SemesterRuns: updates that move a user to another role or semester, and updates of a match's participants, are no steps of a run; nothing in the modelled functions makes them.
- SemesterClosure.WellFormedIsClosed: takes as given that the acceptance of an invitation writes matches that belong to their participants, because that service is not part of this model and no trigger checks it.
- SemesterReset: tables that reference users or semesters with ON DELETE RESTRICT (audit logs, events, recaps, semester metadata) are represented by the set of users they pin; columns that neither a key, a trigger nor the reset reads are dropped.
- SemesterReset: a JSON null inside the backup's row counts, which SQL would compare to NULL, is not represented; a count is present or missing.
- SemesterDatabase: foreign keys of inserts other than those named, column defaults and generated ids are not modelled; a new semester's id is a parameter.
- WriteBarrier: the key share locks that foreign key checks take, lock time-outs, deadlock detection and savepoints are not modelled; a waiting step gets no further than the locks it has and may be taken again.
- BarrierReset: each step of the program deletes one row; that a statement takes its whole selection at once, and the deletes of cascades that cross a semester, are not modelled behind the barrier.
- WriteBarrier.FailFastResetNeverWaits: says nothing about rows that another transaction selects FOR UPDATE, for which the reset waits until that transaction ends.
- EmailOutbox: rows locked by another session are a parameter of a claim, and each function is one atomic step; message bodies, recipients and payloads are dropped.
- OutboxRuns: worker names are taken already trimmed, which is how the table stores them.
- OutboxRuns.NothingIsStranded: assumes that the row starts at most eight minutes before it is due, as every reschedule leaves it.
- Delivery: the provider is a set of accepted keys; that it forgets keys after some time is not modelled. A key's length is counted in characters and not in UTF-16 units, and message ids and error codes are taken as ones that the functions accept.
- ChatbotAdmission: times are read in the order of the calls; the digest of an identifier is taken as the client, so two identifiers with one digest would share a bucket.
- ChatbotLeases: the interior of the thread pool and the request checks before the job is submitted are one stage, since each of them ends in the same `finally`.
- LoginLockout: the store is a map of expiring counters in which the first increment sets the expiry; storage failures and the per-minute limits of the `limits` library are not modelled.
- Multipart: reading the request stream up to its size bound, and extracting the boundary from the header apart from its length and character check.
- Multipart.ReadUpload: the reader's error messages are one refusal, and content types are taken as already folded to lower case.
- WeeklyAvailability: the time zone name; and the limit of a hundred slots, which the field and not the function checks, is stated about the input and the result.
- AuditRedaction: keys of the resulting object are unordered, and a mapping that yields one key twice keeps the last value, as a dict does; subclasses of str and int count as what they inherit from.
- AuditRedaction.SanitizedAgain: assumes that neither the redaction marker nor a decimal, UUID, date or time that the walk visits prints as a signed or malformed URL.
- AuditKeys.AuditPayloadSanitizedAgain: assumes of URL splitting that text without a question mark or a slash has no query and is not refused, and that decimals, UUIDs, dates and times print as such text.
- LikePattern: ILIKE is matched over text that is already folded; database collations are not modelled.
- Base64Url: `atob` is modelled on strings without white space, which the patterns exclude before it is called.
- Grants, row-level security, schema downgrades, HTTP routing and headers, cryptography, log events and email texts: plumbing or library behaviour.
- Pagination, retention, event phase and invitation state helpers: each of their claims is settled by one branch.
