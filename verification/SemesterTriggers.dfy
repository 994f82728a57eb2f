/** What the stamping, sender and update-guard triggers accept, and the database each accepted write
    leaves. A rejected write leaves the database as it was. */
module SemesterTriggers {
  import opened Wrappers
  import opened SemesterTables
  import opened SemesterReset

  /** The counter update of stamp_user_semester. */
  function Counted(s: Semester, now: int): Semester {
    s.(accountsCreated := s.accountsCreated + 1,
       firstStudentAt := if s.firstStudentAt.Some? then s.firstStudentAt else Some(now))
  }

  ghost predicate IsCurrent(db: Db, s: Id) {
    s in db.semesters && db.semesters[s].status == CURRENT
  }

  /** The account as the stamping trigger and the constraints let it through, or nothing. */
  ghost function Stamped(db: Db, user: User): Option<User> {
    if user.role != USER then
      if user.semester.Some? then None else Some(user)
    else if user.semester.None? then
      if exists s :: IsCurrent(db, s) then
        var s :| IsCurrent(db, s);
        Some(user.(semester := Some(s)))
      else None
    else if user.semester.value in db.semesters then Some(user)
    else None
  }

  ghost function UserStored(db: Db, id: Id, user: User, now: int): Db {
    db.(semesters := if user.semester.Some? && IsCurrent(db, user.semester.value)
                     then db.semesters[user.semester.value := Counted(db.semesters[user.semester.value], now)]
                     else db.semesters,
        tables := db.tables.(users := db.tables.users[id := user]))
  }

  ghost function UserInserted(db: Db, id: Id, user: User, now: int): (Db, bool) {
    if id in db.tables.users || Stamped(db, user).None? then (db, false)
    else (UserStored(db, id, Stamped(db, user).value, now), true)
  }

  /** Check constraints, foreign keys and unique keys of matches; every match is ACTIVE. */
  predicate MatchConstraintsHold(t: Tables, m: Match) {
    && m.userOne != m.userTwo && m.profileOne != m.profileTwo
    && m.profileOne in t.profiles && m.profileTwo in t.profiles && m.invitation in t.invitations
    && (forall k | k in t.matches ::
          && t.matches[k].invitation != m.invitation
          && {t.matches[k].userOne, t.matches[k].userTwo} != {m.userOne, m.userTwo})
  }

  function MatchInserted(db: Db, id: Id, m: Match, semester: Option<Id>): (Db, bool) {
    var t := db.tables;
    if && id !in t.matches && m.userOne in t.users && m.userTwo in t.users
       && t.users[m.userOne].semester.Some? && t.users[m.userOne].semester == t.users[m.userTwo].semester
       && (semester.None? || semester == t.users[m.userOne].semester)
       && MatchConstraintsHold(t, m)
    then
      (db.(tables := t.(matches := t.matches[id := m.(semester := t.users[m.userOne].semester.value)])), true)
    else (db, false)
  }

  function ConversationInserted(db: Db, id: Id, matchId: Id, semester: Option<Id>): (Db, bool) {
    var t := db.tables;
    if && id !in t.conversations && matchId in t.matches
       && (semester.None? || semester == Some(t.matches[matchId].semester))
       && (forall c | c in t.conversations :: t.conversations[c].matchId != matchId)
    then
      var stored := Conversation(matchId, t.matches[matchId].semester);
      (db.(tables := t.(conversations := t.conversations[id := stored])), true)
    else (db, false)
  }

  predicate SenderAllowed(t: Tables, g: Message) {
    && g.conversation in t.conversations
    && t.conversations[g.conversation].matchId in t.matches
    && var m := t.matches[t.conversations[g.conversation].matchId];
       !m.deleted && g.sender in {m.userOne, m.userTwo}
  }

  function MessageInserted(db: Db, id: Id, g: Message): (Db, bool) {
    if id !in db.tables.messages && SenderAllowed(db.tables, g) then
      (db.(tables := db.tables.(messages := db.tables.messages[id := g])), true)
    else (db, false)
  }

  // ---------------------------------------------------------------- other writes on the cohort tables

  /** Setting or clearing `deleted_at` of a match; the stamping trigger does not fire for it. */
  function MatchFlagged(matches: map<Id, Match>, id: Id, deleted: bool): map<Id, Match> {
    if id in matches then matches[id := matches[id].(deleted := deleted)] else matches
  }

  function UserFlagged(users: map<Id, User>, id: Id, isActive: bool, deleted: bool): map<Id, User> {
    if id in users then users[id := users[id].(isActive := isActive, deleted := deleted)] else users
  }

  function Invited(t: Tables, id: Id, invitation: Invitation): map<Id, Invitation> {
    if id !in t.invitations && invitation.sender in t.users && invitation.recipient in t.users then
      t.invitations[id := invitation]
    else t.invitations
  }

  function Inserted(rows: map<Id, Id>, id: Id, owner: Id, accepted: bool): map<Id, Id> {
    if accepted && id !in rows then rows[id := owner] else rows
  }

  function AccountRowInserted(t: Tables, table: Table, id: Id, owner: Id): Tables {
    match table
    case Tokens => t.(tokens := Inserted(t.tokens, id, owner, owner in t.users))
    case Sessions => t.(sessions := Inserted(t.sessions, id, owner, owner in t.users))
    case Registrations => t.(registrations := Inserted(t.registrations, id, owner, owner in t.users))
    case _ => t
  }

  function ProfileRowInserted(t: Tables, table: Table, id: Id, owner: Id): Tables {
    match table
    case Photos => t.(photos := Inserted(t.photos, id, owner, owner in t.profiles))
    case Interests => t.(interests := Inserted(t.interests, id, owner, owner in t.profiles))
    case Languages => t.(languages := Inserted(t.languages, id, owner, owner in t.profiles))
    case Activities => t.(activities := Inserted(t.activities, id, owner, owner in t.profiles))
    case Preferences => t.(preferences := Inserted(t.preferences, id, owner, owner in t.profiles))
    case _ => t
  }

  /** A row that hangs on one account or profile, kept by its foreign key. */
  function OwnedInserted(t: Tables, table: Table, id: Id, owner: Id): Tables {
    if table in {Tokens, Sessions, Registrations} then AccountRowInserted(t, table, id, owner)
    else ProfileRowInserted(t, table, id, owner)
  }

  function Addressed(t: Tables, id: Id, recipient: Option<Id>): map<Id, Option<Id>> {
    if id !in t.outbox && (recipient.Some? ==> recipient.value in t.users) then t.outbox[id := recipient] else t.outbox
  }

  // ---------------------------------------------------------------- semester metadata

  predicate BackupRowValid(b: Backup) {
    && b.avatarCount >= 0
    && (match b.state
        case CREATING => b.expiresAt.None? && b.failureCode.None?
        case BACKUP_FAILED => b.failureCode.Some?
        case _ =>
          && b.verifiedAt.Some? && b.expiresAt.Some?
          && b.databaseLocation.Some? && b.databaseChecksum.Some?
          && b.avatarLocation.Some? && b.avatarChecksum.Some? && b.failureCode.None?)
    && (b.verifiedAt.Some? ==> b.verifiedAt.value >= b.boundaryAt)
    && (b.expiresAt.Some? && b.verifiedAt.Some? ==> b.expiresAt.value > b.verifiedAt.value)
    && (b.restoredAt.Some? ==> b.verifiedAt.Some?)
    && (b.restoredAt.Some? <==> b.restoredBy.Some?)
    && (b.restoredAt.Some? <==> b.restoreOperation.Some?)
  }

  /** The state machine of backups and the write-once rules added by migration 0018. */
  predicate BackupUpdateAllowed(t: Tables, before: Backup, after: Backup) {
    && (after.restoredBy.Some? ==> ActiveAdmin(t, after.restoredBy.value))
    && after.semester == before.semester && after.boundaryAt == before.boundaryAt
    && after.createdBy == before.createdBy
    && (before.state == CREATING ==> after.state in {CREATING, READY, BACKUP_FAILED})
    && (before.state == READY ==> after.state in {READY, RESTORE_BLOCKED_NEW_DATA, EXPIRED})
    && (before.state == RESTORE_BLOCKED_NEW_DATA ==> after.state in {RESTORE_BLOCKED_NEW_DATA, EXPIRED})
    && (before.state in {EXPIRED, BACKUP_FAILED} ==> after == before)
    && (before.state == RESTORE_BLOCKED_NEW_DATA ==> after.restoredAt.None?)
    && WriteOnceKept(before, after)
  }

  predicate WriteOnceKept(before: Backup, after: Backup) {
    && (before.verifiedAt.Some? ==> after.verifiedAt == before.verifiedAt)
    && (before.expiresAt.Some? ==> after.expiresAt == before.expiresAt)
    && (before.databaseLocation.Some? ==>
          && after.databaseLocation == before.databaseLocation
          && after.databaseChecksum == before.databaseChecksum
          && after.rowCounts == before.rowCounts)
    && (before.avatarLocation.Some? ==>
          && after.avatarLocation == before.avatarLocation
          && after.avatarChecksum == before.avatarChecksum
          && after.avatarCount == before.avatarCount)
  }
}
