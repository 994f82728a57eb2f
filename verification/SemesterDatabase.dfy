/** The database as an object: the reset procedure and the trigger-guarded writes, each proved
    against its specification. */
module SemesterDatabase {
  import opened Wrappers
  import opened SemesterTables
  import opened SemesterClosure
  import opened SemesterReset
  import opened SemesterTriggers

  class Database {
    var db: Db

    constructor (db: Db)
      ensures this.db == db
    {
      this.db := db;
    }

    /** One DELETE statement with its cascades, and the ROW_COUNT it reports. Its RESTRICT keys
        refuse the deletion of a user that is still referenced. */
    method DeleteFrom(table: Table, s: Id) returns (removed: Result<nat, ResetError>)
      modifies this
      ensures table.Users? && ClosingUsers(old(db).tables, s) * old(db).pinned != {} ==>
                removed == Err(RestrictedReference) && db == old(db)
      ensures !(table.Users? && ClosingUsers(old(db).tables, s) * old(db).pinned != {}) ==>
                && removed == Ok(|Closing(old(db).tables, s, table)|)
                && db == old(db).(tables := DeleteRows(old(db).tables, table, Closing(old(db).tables, s, table)))
    {
      var ids := Closing(db.tables, s, table);
      if table.Users? && ids * db.pinned != {} {
        return Err(RestrictedReference);
      }
      db := db.(tables := DeleteRows(db.tables, table, ids));
      return Ok(|ids|);
    }

    /** The last check before the semester is closed. */
    method PostDeleteCheck(ghost before: Tables, s: Id) returns (error: Option<ResetError>)
      requires db.tables == Final(before, s)
      ensures error.None?
    {
      NothingOfTheSemesterIsLeft(before, s);
      if ClosingUsers(db.tables, s) != {} || ClosingMatches(db.tables, s) != {}
          || ClosingConversations(db.tables, s) != {} {
        return Some(PostDeleteCheckFailed);
      }
      return None;
    }

    /** The fifteen statements, each followed by its ROW_COUNT check, and the final verification. */
    method DeleteCohort(s: Id, affected: map<Table, nat>) returns (error: Option<ResetError>)
      requires affected == Affected(db.tables, s)
      modifies this
      ensures error == if ClosingUsers(old(db).tables, s) * old(db).pinned != {}
                       then Some(RestrictedReference) else None
      ensures error.None? ==> db == old(db).(tables := Final(old(db).tables, s))
    {
      var k := 0;
      while k < |DELETE_ORDER|
        invariant k <= |DELETE_ORDER|
        invariant k == |DELETE_ORDER| ==> ClosingUsers(old(db).tables, s) * old(db).pinned == {}
        invariant db == old(db).(tables := AfterDeletes(old(db).tables, s, k))
      {
        OrderHasNoRepeats(k);
        RowCountsAlwaysMatch(old(db).tables, s, DELETE_ORDER[k]);
        var removed := DeleteFrom(DELETE_ORDER[k], s);
        if removed.Err? {
          return Some(removed.error);
        }
        if removed.value != affected[DELETE_ORDER[k]] {
          return Some(DeleteCountMismatch);
        }
        k := k + 1;
      }
      error := PostDeleteCheck(old(db).tables, s);
    }

    /** A raised error rolls the whole transaction back, which `snapshot` stands for. */
    method Execute(request: Request, barrierFree: bool, now: int, newSemester: Id) returns (r: ResetResult)
      requires Valid(db)
      modifies this
      ensures Valid(db)
      ensures r == Decision(old(db), request, barrierFree, now, newSemester)
      ensures db == if r.Completed? then AfterReset(old(db), request, r.summary, now) else old(db)
    {
      if !barrierFree { return Raised(BarrierBusy); }
      if request.operation !in db.operations { return Raised(OperationInvalid); }
      var o := db.operations[request.operation];
      if request.backup !in db.backups { return Raised(BackupInvalid); }
      var b := db.backups[request.backup];
      if o.semester !in db.semesters { return Raised(BoundaryInvalid); }
      var s := db.semesters[o.semester];
      if o.state == SUCCEEDED {
        if !ReplayConsistent(request, o, s) { return Raised(CompletedMetadataInvalid); }
        return Replayed(o.summary);
      }
      if !ActiveAdmin(db.tables, request.admin) || !db.tables.users[request.admin].isActive {
        return Raised(ActorInvalid);
      }
      if !PreconditionsHold(request, o, b, s) { return Raised(PreconditionFailed); }
      var affected := Affected(db.tables, o.semester);
      if !CountsMatchBackup(affected, b) { return Raised(SnapshotChanged); }

      ghost var decided := Decision(db, request, barrierFree, now, newSemester);
      assert affected == Affected(db.tables, o.semester);
      assert decided.Completed? ==> decided.summary == Summary(o.semester, newSemester, affected, request.avatars);
      var snapshot := db;
      var error := DeleteCohort(o.semester, affected);
      if error.Some? {
        db := snapshot;
        return Raised(error.value);
      }
      var closed := Closed(s, request.operation, now);
      var summary := Summary(o.semester, newSemester, affected, request.avatars);
      var done := Succeeded(o, summary, now);
      ClosingPassesItsGuards(snapshot, request, summary, now);
      if || !BoundaryUpdateAllowed(s, closed) || !SemesterRowValid(closed) || newSemester in db.semesters
         || !OperationUpdateAllowed(db.tables, o, done) || !OperationRowValid(done)
      {
        db := snapshot;
        return Raised(ConstraintViolated);
      }
      db := db.(semesters := db.semesters[o.semester := closed][newSemester := Opened(now)],
                operations := db.operations[request.operation := done]);
      CompletedKeepsValid(snapshot, request, summary, now);
      return Completed(summary);
    }

    // -------------------------------------------------------------- writes behind triggers

    /** Registration: the stamping trigger picks or checks the semester and counts the student. */
    method InsertUser(id: Id, user: User, now: int) returns (accepted: bool)
      requires Valid(db)
      modifies this
      ensures Valid(db)
      ensures db == UserInserted(old(db), id, user, now).0
      ensures accepted == UserInserted(old(db), id, user, now).1
    {
      if id in db.tables.users { return false; }
      var stamped := user;
      if user.role != USER {
        if user.semester.Some? { return false; }
      } else if user.semester.None? {
        if !exists s :: s in db.semesters && db.semesters[s].status == CURRENT { return false; }
        var s :| s in db.semesters && db.semesters[s].status == CURRENT;
        TheCurrentSemesterIsStamped(db, user, s);
        stamped := user.(semester := Some(s));
      } else if user.semester.value !in db.semesters {
        return false;
      }
      assert Stamped(db, user) == Some(stamped);
      StoringKeepsValid(db, id, stamped, now);
      if stamped.semester.Some? {
        var s := stamped.semester.value;
        if s in db.semesters && db.semesters[s].status == CURRENT {
          db := db.(semesters := db.semesters[s := Counted(db.semesters[s], now)]);
        }
      }
      db := db.(tables := db.tables.(users := db.tables.users[id := stamped]));
      return true;
    }

    method InsertMatch(id: Id, m: Match, semester: Option<Id>) returns (accepted: bool)
      modifies this
      ensures db == MatchInserted(old(db), id, m, semester).0
      ensures accepted == MatchInserted(old(db), id, m, semester).1
    {
      var t := db.tables;
      if id in t.matches || m.userOne !in t.users || m.userTwo !in t.users { return false; }
      var first, second := t.users[m.userOne].semester, t.users[m.userTwo].semester;
      if first.None? || first != second || (semester.Some? && semester != first) { return false; }
      if !MatchConstraintsHold(t, m) { return false; }
      db := db.(tables := t.(matches := t.matches[id := m.(semester := first.value)]));
      return true;
    }

    method InsertConversation(id: Id, matchId: Id, semester: Option<Id>) returns (accepted: bool)
      modifies this
      ensures db == ConversationInserted(old(db), id, matchId, semester).0
      ensures accepted == ConversationInserted(old(db), id, matchId, semester).1
    {
      var t := db.tables;
      if id in t.conversations || matchId !in t.matches { return false; }
      if semester.Some? && semester.value != t.matches[matchId].semester { return false; }
      if exists c :: c in t.conversations && t.conversations[c].matchId == matchId { return false; }
      db := db.(tables := t.(conversations :=
          t.conversations[id := Conversation(matchId, t.matches[matchId].semester)]));
      return true;
    }

    method InsertMessage(id: Id, g: Message) returns (accepted: bool)
      modifies this
      ensures db == MessageInserted(old(db), id, g).0
      ensures accepted == MessageInserted(old(db), id, g).1
    {
      if id in db.tables.messages || !SenderAllowed(db.tables, g) { return false; }
      db := db.(tables := db.tables.(messages := db.tables.messages[id := g]));
      return true;
    }
  }

  lemma TheCurrentSemesterIsStamped(db: Db, user: User, s: Id)
    requires Valid(db) && IsCurrent(db, s) && user.role == USER && user.semester.None?
    ensures Stamped(db, user) == Some(user.(semester := Some(s)))
  {
  }

  lemma StoringKeepsValid(db: Db, id: Id, user: User, now: int)
    requires Valid(db)
    ensures Valid(UserStored(db, id, user, now))
  {
  }
}
