/** The guarded reset: gates, counts, fifteen checked DELETE statements, closing and opening. */
module SemesterReset {
  import opened Wrappers
  import opened SemesterTables
  import opened SemesterClosure

  datatype SemesterStatus = CURRENT | CLOSED

  datatype Semester = Semester(status: SemesterStatus, startedAt: int, closedAt: Option<int>,
                               resetOperation: Option<Id>, accountsCreated: int,
                               firstStudentAt: Option<int>)

  datatype OperationKind = RESET | RESTORE
  datatype OperationState = REQUESTED | RUNNING | SUCCEEDED | FAILED

  datatype Summary = Summary(closedSemester: Id, newSemester: Id, deleted: map<Table, nat>,
                             avatarsProcessed: Option<int>)

  datatype Operation = Operation(kind: OperationKind, state: OperationState, semester: Id, admin: Id,
                                 backup: Option<Id>, requestedAt: int, startedAt: Option<int>,
                                 completedAt: Option<int>, affected: map<Table, nat>,
                                 summary: Option<Summary>, failureCode: Option<string>)

  datatype BackupState = CREATING | READY | RESTORE_BLOCKED_NEW_DATA | EXPIRED | BACKUP_FAILED

  datatype Backup = Backup(semester: Id, boundaryAt: int, createdBy: Id, state: BackupState,
                           databaseLocation: Option<string>, databaseChecksum: Option<string>,
                           rowCounts: map<Table, int>,
                           avatarLocation: Option<string>, avatarChecksum: Option<string>,
                           avatarCount: int, verifiedAt: Option<int>, expiresAt: Option<int>,
                           restoredAt: Option<int>, restoredBy: Option<Id>,
                           restoreOperation: Option<Id>, failureCode: Option<string>)

  /** `pinned` holds the users that audit logs, events, recaps and semester metadata reference
      through ON DELETE RESTRICT keys. */
  datatype Db = Db(tables: Tables, pinned: set<Id>, semesters: map<Id, Semester>,
                   operations: map<Id, Operation>, backups: map<Id, Backup>)

  datatype ResetError =
    | BarrierBusy | OperationInvalid | BackupInvalid | BoundaryInvalid | CompletedMetadataInvalid
    | ActorInvalid | PreconditionFailed | SnapshotChanged | RestrictedReference
    | DeleteCountMismatch | PostDeleteCheckFailed | ConstraintViolated

  datatype ResetResult =
    | Completed(summary: Summary)
    | Replayed(stored: Option<Summary>)
    | Raised(error: ResetError)

  datatype Request = Request(operation: Id, backup: Id, admin: Id, avatars: Option<int>)

  // ---------------------------------------------------------------- row constraints and guards

  predicate SemesterRowValid(s: Semester) {
    && s.accountsCreated >= 0
    && (s.accountsCreated == 0 <==> s.firstStudentAt.None?)
    && (s.status == CURRENT ==> s.closedAt.None? && s.resetOperation.None?)
    && (s.status == CLOSED ==> s.closedAt.Some? && s.resetOperation.Some?)
  }

  predicate OperationRowValid(o: Operation) {
    && (match o.state
        case REQUESTED => o.startedAt.None? && o.completedAt.None? && o.failureCode.None?
        case RUNNING => o.startedAt.Some? && o.completedAt.None? && o.failureCode.None?
        case SUCCEEDED => o.startedAt.Some? && o.completedAt.Some? && o.failureCode.None?
        case FAILED => o.completedAt.Some? && o.failureCode.Some?)
    && (o.startedAt.Some? ==> o.startedAt.value >= o.requestedAt)
    && (o.completedAt.Some? ==> o.completedAt.value >= o.requestedAt)
    && (o.completedAt.Some? && o.startedAt.Some? ==> o.completedAt.value >= o.startedAt.value)
  }

  /** The update guard on semesters (enforce_semester_boundary). */
  predicate BoundaryUpdateAllowed(before: Semester, after: Semester) {
    && after.startedAt == before.startedAt
    && after.accountsCreated >= before.accountsCreated
    && (before.firstStudentAt.Some? ==> after.firstStudentAt == before.firstStudentAt)
    && (before.status == CLOSED ==> after == before)
    && (before.status == CURRENT && after.status == CURRENT ==>
          after.closedAt.None? && after.resetOperation.None?)
  }

  predicate ActiveAdmin(t: Tables, admin: Id) {
    admin in t.users && t.users[admin].role == ADMIN && !t.users[admin].deleted
  }

  /** The insert and update guard on operations (enforce_semester_operation). */
  predicate OperationUpdateAllowed(t: Tables, before: Operation, after: Operation) {
    && ActiveAdmin(t, after.admin)
    && after.kind == before.kind
    && after.semester == before.semester
    && after.admin == before.admin
    && after.requestedAt == before.requestedAt
    && (before.state == REQUESTED ==> after.state in {REQUESTED, RUNNING, FAILED})
    && (before.state == RUNNING ==> after.state in {RUNNING, SUCCEEDED, FAILED})
    && (before.state in {SUCCEEDED, FAILED} ==> after == before)
  }

  /** Check constraints of the stored rows, and the unique index on the CURRENT semester. */
  ghost predicate Valid(db: Db) {
    && (forall s | s in db.semesters :: SemesterRowValid(db.semesters[s]))
    && (forall o | o in db.operations :: OperationRowValid(db.operations[o]))
    && (forall s, s' | s in db.semesters && s' in db.semesters
          && db.semesters[s].status == CURRENT && db.semesters[s'].status == CURRENT :: s == s')
  }

  // ---------------------------------------------------------------- the decision

  function Affected(t: Tables, s: Id): map<Table, nat> {
    map table | table in DELETE_ORDER :: |Closing(t, s, table)|
  }

  /** A missing avatar count is SQL NULL: both comparisons with it are NULL, and a condition that is
      NULL does not raise. */
  predicate AvatarsRejected(avatars: Option<int>, stored: int) {
    avatars.Some? && (avatars.value < 0 || avatars.value != stored)
  }

  predicate ReplayConsistent(request: Request, o: Operation, s: Semester) {
    && o.kind == RESET
    && o.backup == Some(request.backup)
    && s.status == CLOSED
    && s.resetOperation == Some(request.operation)
  }

  predicate PreconditionsHold(request: Request, o: Operation, b: Backup, s: Semester) {
    && o.kind == RESET && o.state == RUNNING
    && o.admin == request.admin && o.backup == Some(request.backup)
    && s.status == CURRENT && s.resetOperation.None?
    && b.createdBy == request.operation && b.semester == o.semester && b.boundaryAt == s.startedAt
    && b.state == CREATING && b.verifiedAt.Some? && b.expiresAt.None? && b.failureCode.None?
    && b.databaseLocation.Some? && b.databaseChecksum.Some?
    && b.avatarLocation.Some? && b.avatarChecksum.Some?
    && !AvatarsRejected(request.avatars, b.avatarCount)
  }

  predicate CountsMatchBackup(affected: map<Table, nat>, b: Backup) {
    forall table | table in affected :: table in b.rowCounts && b.rowCounts[table] == affected[table]
  }

  function SummaryOf(db: Db, request: Request, newSemester: Id): Summary
    requires request.operation in db.operations
  {
    var s := db.operations[request.operation].semester;
    Summary(s, newSemester, Affected(db.tables, s), request.avatars)
  }

  /** What the reset answers, decided on the database it starts from. There is no case for a failing
      row count or post-delete check: the method below makes those checks and is proved never to
      fail them. */
  function Decision(db: Db, request: Request, barrierFree: bool, now: int, newSemester: Id): ResetResult {
    if !barrierFree then Raised(BarrierBusy)
    else if request.operation !in db.operations then Raised(OperationInvalid)
    else if request.backup !in db.backups then Raised(BackupInvalid)
    else
      var o := db.operations[request.operation];
      var b := db.backups[request.backup];
      if o.semester !in db.semesters then Raised(BoundaryInvalid)
      else
        var s := db.semesters[o.semester];
        if o.state == SUCCEEDED then
          if ReplayConsistent(request, o, s) then Replayed(o.summary) else Raised(CompletedMetadataInvalid)
        else if !ActiveAdmin(db.tables, request.admin) || !db.tables.users[request.admin].isActive then
          Raised(ActorInvalid)
        else if !PreconditionsHold(request, o, b, s) then Raised(PreconditionFailed)
        else if !CountsMatchBackup(Affected(db.tables, o.semester), b) then Raised(SnapshotChanged)
        else if ClosingUsers(db.tables, o.semester) * db.pinned != {} then Raised(RestrictedReference)
        else if newSemester in db.semesters then Raised(ConstraintViolated)
        else if now < o.requestedAt || (o.startedAt.Some? && now < o.startedAt.value) then Raised(ConstraintViolated)
        else Completed(SummaryOf(db, request, newSemester))
  }

  function Closed(s: Semester, operation: Id, now: int): Semester {
    s.(status := CLOSED, closedAt := Some(now), resetOperation := Some(operation))
  }

  function Succeeded(o: Operation, summary: Summary, now: int): Operation {
    o.(state := SUCCEEDED, completedAt := Some(now), affected := summary.deleted,
       summary := Some(summary), failureCode := None)
  }

  function Opened(now: int): Semester {
    Semester(CURRENT, now, None, None, 0, None)
  }

  /** The database a completed reset leaves. */
  function AfterReset(db: Db, request: Request, summary: Summary, now: int): Db
    requires request.operation in db.operations
    requires db.operations[request.operation].semester in db.semesters
  {
    var o := db.operations[request.operation];
    db.(tables := Final(db.tables, o.semester),
        semesters := db.semesters[o.semester := Closed(db.semesters[o.semester], request.operation, now)]
                                 [summary.newSemester := Opened(now)],
        operations := db.operations[request.operation := Succeeded(o, summary, now)])
  }

  // ---------------------------------------------------------------- what the decision relies on

  /** The acting administrator is not among the deleted accounts. */
  lemma AdminSurvives(t: Tables, s: Id, admin: Id)
    requires admin in t.users && t.users[admin].role == ADMIN
    ensures admin in Final(t, s).users && Final(t, s).users[admin] == t.users[admin]
  {
    UsersLeft(t, s);
  }

  /** The update guards and row constraints let the closing updates pass, unless the clock runs behind
      the operation's own timestamps. */
  lemma ClosingPassesItsGuards(db: Db, request: Request, summary: Summary, now: int)
    requires Valid(db)
    requires request.operation in db.operations
    requires var o := db.operations[request.operation];
             && o.state == RUNNING && o.semester in db.semesters && db.semesters[o.semester].status == CURRENT
             && ActiveAdmin(db.tables, o.admin)
    ensures var o := db.operations[request.operation];
            var s := db.semesters[o.semester];
            && BoundaryUpdateAllowed(s, Closed(s, request.operation, now))
            && SemesterRowValid(Closed(s, request.operation, now))
            && OperationUpdateAllowed(Final(db.tables, o.semester), o, Succeeded(o, summary, now))
            && (OperationRowValid(Succeeded(o, summary, now)) <==>
                  now >= o.requestedAt && (o.startedAt.Some? ==> now >= o.startedAt.value))
  {
    var o := db.operations[request.operation];
    AdminSurvives(db.tables, o.semester, o.admin);
  }

  lemma CompletedKeepsValid(db: Db, request: Request, summary: Summary, now: int)
    requires Valid(db)
    requires request.operation in db.operations
    requires var o := db.operations[request.operation];
             && o.semester in db.semesters && db.semesters[o.semester].status == CURRENT
             && summary.newSemester !in db.semesters
             && OperationRowValid(Succeeded(o, summary, now))
    ensures Valid(AfterReset(db, request, summary, now))
  {
  }
}
