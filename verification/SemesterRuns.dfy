/** Whole runs of the semester database: what every accepted or rejected write keeps. */
module SemesterRuns {
  import opened Sets
  import opened Wrappers
  import opened SemesterTables
  import opened SemesterClosure
  import opened SemesterReset
  import opened SemesterTriggers

  datatype Step =
    | InsertUser(id: Id, user: User, now: int)
    | SetUserFlags(id: Id, isActive: bool, deleted: bool)
    | InsertProfile(id: Id, owner: Id)
    | InsertInvitation(id: Id, invitation: Invitation)
    | InsertMatch(id: Id, m: Match, semester: Option<Id>)
    | InsertConversation(id: Id, matchId: Id, semester: Option<Id>)
    | InsertMessage(id: Id, message: Message)
    | SetMatchDeleted(id: Id, deleted: bool)
    | InsertOwned(table: Table, id: Id, owner: Id)
    | InsertOutbox(id: Id, recipient: Option<Id>)
    | Delete(table: Table, ids: set<Id>)
    | UpdateCounter(id: Id, accountsCreated: int, firstStudentAt: Option<int>)
    | StoreOperation(id: Id, operation: Operation)
    | StoreBackup(id: Id, backup: Backup)
    | Reset(request: Request, barrierFree: bool, now: int, newSemester: Id)

  /** Foreign keys, row constraints and the guard for a new or updated operation. */
  ghost predicate OperationAccepted(db: Db, id: Id, o: Operation) {
    && OperationRowValid(o)
    && o.semester in db.semesters
    && (o.backup.Some? ==> o.backup.value in db.backups)
    && ActiveAdmin(db.tables, o.admin)
    && (id in db.operations ==> OperationUpdateAllowed(db.tables, db.operations[id], o))
    && (o.state == RUNNING ==> forall k | k in db.operations && k != id :: db.operations[k].state != RUNNING)
  }

  ghost predicate BackupAccepted(db: Db, id: Id, b: Backup) {
    && BackupRowValid(b)
    && b.semester in db.semesters
    && (b.restoredBy.Some? ==> ActiveAdmin(db.tables, b.restoredBy.value))
    && (id in db.backups ==> BackupUpdateAllowed(db.tables, db.backups[id], b))
  }

  /** The writes that are checked against foreign keys only. */
  predicate IsPlainWrite(step: Step) {
    || step.SetUserFlags? || step.InsertProfile? || step.InsertInvitation?
    || step.SetMatchDeleted? || step.InsertOwned? || step.InsertOutbox?
  }

  function PlainlyWritten(t: Tables, step: Step): Tables
    requires IsPlainWrite(step)
  {
    match step
    case SetUserFlags(id, isActive, deleted) => t.(users := UserFlagged(t.users, id, isActive, deleted))
    case InsertProfile(id, owner) => t.(profiles := Inserted(t.profiles, id, owner, owner in t.users))
    case InsertInvitation(id, invitation) => t.(invitations := Invited(t, id, invitation))
    case SetMatchDeleted(id, deleted) => t.(matches := MatchFlagged(t.matches, id, deleted))
    case InsertOwned(table, id, owner) => OwnedInserted(t, table, id, owner)
    case InsertOutbox(id, recipient) => t.(outbox := Addressed(t, id, recipient))
  }

  /** The effect of one write; a rejected one changes nothing. The grants leave the runtime role no
      other write on semesters than the two counter columns, and no DELETE on the three metadata
      tables; only a reset closes and opens semesters. */
  ghost function Apply(db: Db, step: Step): Db {
    if IsPlainWrite(step) then db.(tables := PlainlyWritten(db.tables, step)) else
    match step
    case InsertUser(id, user, now) => UserInserted(db, id, user, now).0
    case InsertMatch(id, m, semester) => MatchInserted(db, id, m, semester).0
    case InsertConversation(id, matchId, semester) => ConversationInserted(db, id, matchId, semester).0
    case InsertMessage(id, message) => MessageInserted(db, id, message).0
    case Delete(table, ids) =>
      if table.Users? && ids * db.tables.users.Keys * db.pinned != {} then db
      else db.(tables := DeleteRows(db.tables, table, ids))
    case UpdateCounter(id, accountsCreated, firstStudentAt) => CounterUpdated(db, id, accountsCreated, firstStudentAt)
    case StoreOperation(id, operation) => OperationStored(db, id, operation)
    case StoreBackup(id, backup) => BackupStored(db, id, backup)
    case Reset(request, barrierFree, now, newSemester) =>
      ResetApplied(db, request, barrierFree, now, newSemester)
  }

  ghost function CounterUpdated(db: Db, id: Id, accountsCreated: int, firstStudentAt: Option<int>): Db {
    if id !in db.semesters then db
    else
      var row := db.semesters[id].(accountsCreated := accountsCreated, firstStudentAt := firstStudentAt);
      if BoundaryUpdateAllowed(db.semesters[id], row) && SemesterRowValid(row) then
        db.(semesters := db.semesters[id := row])
      else db
  }

  ghost function OperationStored(db: Db, id: Id, operation: Operation): Db {
    if OperationAccepted(db, id, operation) then db.(operations := db.operations[id := operation]) else db
  }

  ghost function BackupStored(db: Db, id: Id, backup: Backup): Db {
    if BackupAccepted(db, id, backup) then db.(backups := db.backups[id := backup]) else db
  }

  ghost function ResetApplied(db: Db, request: Request, barrierFree: bool, now: int, newSemester: Id): Db {
    var r := Decision(db, request, barrierFree, now, newSemester);
    if r.Completed? then AfterReset(db, request, r.summary, now) else db
  }

  ghost function Run(db: Db, steps: seq<Step>): Db
    decreases |steps|
  {
    if steps == [] then db else Run(Apply(db, steps[0]), steps[1..])
  }

  /** Acceptance of an invitation is trusted to write matches that belong to their participants. */
  ghost predicate Trusted(db: Db, step: Step) {
    step.InsertMatch? && MatchInserted(db, step.id, step.m, step.semester).1 ==> MatchBelongs(db.tables, step.m)
  }

  ghost predicate TrustedRun(db: Db, steps: seq<Step>)
    decreases |steps|
  {
    steps != [] ==> Trusted(db, steps[0]) && TrustedRun(Apply(db, steps[0]), steps[1..])
  }

  // ---------------------------------------------------------------- exactly one CURRENT semester

  ghost predicate UsersStamped(db: Db) {
    forall u | u in db.tables.users ::
      && (db.tables.users[u].role == USER <==> db.tables.users[u].semester.Some?)
      && (db.tables.users[u].semester.Some? ==> db.tables.users[u].semester.value in db.semesters)
  }

  ghost predicate StudentsCounted(db: Db) {
    forall s | IsCurrent(db, s) :: |ClosingUsers(db.tables, s)| <= db.semesters[s].accountsCreated
  }

  ghost predicate Invariant(db: Db) {
    && Valid(db)
    && (exists s :: IsCurrent(db, s))
    && UsersStamped(db)
    && StudentsCounted(db)
  }

  // ---------------------------------------------------------------- every DELETE keeps the references

  lemma DeleteKeepsMatchUsers(t: Tables, table: Table, ids: set<Id>)
    requires WellFormed(t)
    ensures var t' := DeleteRows(t, table, ids);
            forall m | m in t'.matches :: t'.matches[m].userOne in t'.users && t'.matches[m].userTwo in t'.users
  {
  }

  lemma DeleteKeepsMatchParents(t: Tables, table: Table, ids: set<Id>)
    requires WellFormed(t)
    ensures var t' := DeleteRows(t, table, ids);
            forall m | m in t'.matches ::
              && t'.matches[m].profileOne in t'.profiles
              && t'.matches[m].profileTwo in t'.profiles
              && t'.matches[m].invitation in t'.invitations
  {
  }

  lemma DeleteKeepsMatchesWellFormed(t: Tables, table: Table, ids: set<Id>)
    requires WellFormed(t)
    ensures var t' := DeleteRows(t, table, ids);
            forall m | m in t'.matches :: MatchWellFormed(t', t'.matches[m])
  {
    DeleteKeepsMatchUsers(t, table, ids);
    DeleteKeepsMatchParents(t, table, ids);
    DeleteModifiesNothing(t, table, ids);
    SurvivingMatchesWellFormed(t, DeleteRows(t, table, ids));
  }

  lemma SurvivingMatchesWellFormed(t: Tables, t': Tables)
    requires WellFormed(t) && Unmodified(t', t)
    requires forall m | m in t'.matches ::
               && t'.matches[m].userOne in t'.users && t'.matches[m].userTwo in t'.users
               && t'.matches[m].profileOne in t'.profiles && t'.matches[m].profileTwo in t'.profiles
               && t'.matches[m].invitation in t'.invitations
    ensures forall m | m in t'.matches :: MatchWellFormed(t', t'.matches[m])
  {
    forall m | m in t'.matches ensures MatchWellFormed(t', t'.matches[m]) {
      assert MatchWellFormed(t, t.matches[m]);
    }
  }

  lemma DeleteKeepsConversationsWellFormed(t: Tables, table: Table, ids: set<Id>)
    requires WellFormed(t)
    ensures var t' := DeleteRows(t, table, ids);
            forall c | c in t'.conversations ::
              && t'.conversations[c].matchId in t'.matches
              && t'.conversations[c].semester == t'.matches[t'.conversations[c].matchId].semester
  {
  }

  lemma DeleteKeepsMessageHomes(t: Tables, table: Table, ids: set<Id>)
    requires WellFormed(t)
    ensures var t' := DeleteRows(t, table, ids);
            forall g | g in t'.messages :: t'.messages[g].conversation in t'.conversations
  {
  }

  /** What is left of the chats still stands where it stood. */
  ghost predicate ChatsShrink(t: Tables, t': Tables) {
    && Unmodified(t', t)
    && (forall c | c in t'.conversations :: t'.conversations[c].matchId in t'.matches)
    && (forall g | g in t'.messages :: t'.messages[g].conversation in t'.conversations)
  }

  lemma DeleteShrinksChats(t: Tables, table: Table, ids: set<Id>)
    requires WellFormed(t)
    ensures ChatsShrink(t, DeleteRows(t, table, ids))
  {
    DeleteKeepsConversationsWellFormed(t, table, ids);
    DeleteKeepsMessageHomes(t, table, ids);
    DeleteModifiesNothing(t, table, ids);
  }

  lemma DeleteKeepsMessagesWellFormed(t: Tables, table: Table, ids: set<Id>)
    requires WellFormed(t)
    ensures var t' := DeleteRows(t, table, ids);
            forall g | g in t'.messages :: MessageWellFormed(t', t'.messages[g])
  {
    DeleteShrinksChats(t, table, ids);
    MessagesFollow(t, DeleteRows(t, table, ids));
  }

  lemma MessagesFollow(t: Tables, t': Tables)
    requires WellFormed(t) && ChatsShrink(t, t')
    ensures forall g | g in t'.messages :: MessageWellFormed(t', t'.messages[g])
  {
    forall g | g in t'.messages ensures MessageWellFormed(t', t'.messages[g]) {
      assert MessageWellFormed(t, t.messages[g]);
    }
  }

  lemma DeleteKeepsOwners(t: Tables, table: Table, ids: set<Id>)
    requires WellFormed(t)
    ensures var t' := DeleteRows(t, table, ids);
            && (forall i | i in t'.invitations ::
                  t'.invitations[i].sender in t'.users && t'.invitations[i].recipient in t'.users)
            && (forall p | p in t'.profiles :: t'.profiles[p] in t'.users)
  {
  }

  /** Referential integrity survives any DELETE on any table: the cascades leave no dangling row. */
  lemma DeleteKeepsWellFormed(t: Tables, table: Table, ids: set<Id>)
    requires WellFormed(t)
    ensures WellFormed(DeleteRows(t, table, ids))
  {
    DeleteKeepsMatchesWellFormed(t, table, ids);
    DeleteKeepsConversationsWellFormed(t, table, ids);
    DeleteKeepsMessagesWellFormed(t, table, ids);
    DeleteKeepsOwners(t, table, ids);
  }

  lemma {:induction false} DeletesKeepWellFormed(t: Tables, s: Id, k: nat)
    requires WellFormed(t) && k <= |DELETE_ORDER|
    ensures WellFormed(AfterDeletes(t, s, k))
  {
    if k > 0 {
      DeletesKeepWellFormed(t, s, k - 1);
      var before := AfterDeletes(t, s, k - 1);
      DeleteKeepsWellFormed(before, DELETE_ORDER[k - 1], Closing(before, s, DELETE_ORDER[k - 1]));
    }
  }

  lemma NewMatchKeepsWellFormed(t: Tables, id: Id, m: Match)
    requires WellFormed(t) && id !in t.matches && MatchWellFormed(t, m)
    ensures WellFormed(t.(matches := t.matches[id := m]))
  {
    var t' := t.(matches := t.matches[id := m]);
    OldMessagesFollow(t, t');
    forall k | k in t'.matches ensures MatchWellFormed(t', t'.matches[k]) {
      assert MatchWellFormed(t, t'.matches[k]);
    }
  }

  lemma MatchInsertKeepsWellFormed(db: Db, id: Id, m: Match, semester: Option<Id>)
    requires WellFormed(db.tables)
    requires MatchInserted(db, id, m, semester).1 ==> MatchBelongs(db.tables, m)
    ensures WellFormed(MatchInserted(db, id, m, semester).0.tables)
  {
    if MatchInserted(db, id, m, semester).1 {
      NewMatchKeepsWellFormed(db.tables, id, m.(semester := db.tables.users[m.userOne].semester.value));
    }
  }

  /** Matches and conversations are only added. */
  ghost predicate ChatsGrow(t: Tables, t': Tables) {
    && (forall m | m in t.matches :: m in t'.matches && t'.matches[m] == t.matches[m])
    && (forall c | c in t.conversations :: c in t'.conversations && t'.conversations[c] == t.conversations[c])
  }

  lemma OldMessagesFollow(t: Tables, t': Tables)
    requires WellFormed(t) && ChatsGrow(t, t')
    ensures forall g | g in t.messages :: MessageWellFormed(t', t.messages[g])
  {
    forall g | g in t.messages ensures MessageWellFormed(t', t.messages[g]) {
      assert MessageWellFormed(t, t.messages[g]);
    }
  }

  /** Chats are added to, and each new one is well formed by itself. */
  ghost predicate ChatsAdded(t: Tables, t': Tables) {
    && t'.users == t.users && t'.profiles == t.profiles && t'.invitations == t.invitations && t'.matches == t.matches
    && (forall c | c in t.conversations :: c in t'.conversations && t'.conversations[c] == t.conversations[c])
    && (forall c | c in t'.conversations ::
          t'.conversations[c].matchId in t'.matches &&
          t'.conversations[c].semester == t'.matches[t'.conversations[c].matchId].semester)
    && (forall g | g in t'.messages ::
          (g in t.messages && t'.messages[g] == t.messages[g]) || MessageWellFormed(t', t'.messages[g]))
  }

  lemma AddedChatsKeepWellFormed(t: Tables, t': Tables)
    requires WellFormed(t) && ChatsAdded(t, t')
    ensures WellFormed(t')
  {
    MatchesFollow(t, t');
    OldMessagesFollow(t, t');
  }

  lemma NewConversationKeepsWellFormed(t: Tables, id: Id, c: Conversation)
    requires WellFormed(t) && id !in t.conversations
    requires c.matchId in t.matches && c.semester == t.matches[c.matchId].semester
    ensures WellFormed(t.(conversations := t.conversations[id := c]))
  {
    AddedChatsKeepWellFormed(t, t.(conversations := t.conversations[id := c]));
  }

  lemma NewMessageKeepsWellFormed(t: Tables, id: Id, g: Message)
    requires WellFormed(t) && id !in t.messages && SenderAllowed(t, g)
    ensures WellFormed(t.(messages := t.messages[id := g]))
  {
    AddedChatsKeepWellFormed(t, t.(messages := t.messages[id := g]));
  }

  lemma ConversationInsertKeepsWellFormed(db: Db, id: Id, matchId: Id, semester: Option<Id>)
    requires WellFormed(db.tables)
    ensures WellFormed(ConversationInserted(db, id, matchId, semester).0.tables)
  {
    if ConversationInserted(db, id, matchId, semester).1 {
      NewConversationKeepsWellFormed(db.tables, id, Conversation(matchId, db.tables.matches[matchId].semester));
    }
  }

  lemma MessageInsertKeepsWellFormed(db: Db, id: Id, g: Message)
    requires WellFormed(db.tables)
    ensures WellFormed(MessageInserted(db, id, g).0.tables)
  {
    if MessageInserted(db, id, g).1 {
      NewMessageKeepsWellFormed(db.tables, id, g);
    }
  }

  /** Accounts, profiles and invitations are only added, and accounts keep their semester. */
  ghost predicate AccountsGrow(t: Tables, t': Tables) {
    && (forall u | u in t.users :: u in t'.users && t'.users[u].semester == t.users[u].semester)
    && (forall p | p in t.profiles :: p in t'.profiles && t'.profiles[p] == t.profiles[p])
    && (forall i | i in t.invitations :: i in t'.invitations && t'.invitations[i] == t.invitations[i])
  }

  lemma MatchesFollow(t: Tables, t': Tables)
    requires WellFormed(t) && AccountsGrow(t, t') && t'.matches == t.matches
    ensures forall k | k in t'.matches :: MatchWellFormed(t', t'.matches[k])
  {
    forall k | k in t'.matches ensures MatchWellFormed(t', t'.matches[k]) {
      assert MatchWellFormed(t, t.matches[k]);
    }
  }

  lemma GrowingKeepsWellFormed(t: Tables, t': Tables)
    requires WellFormed(t) && AccountsGrow(t, t')
    requires t'.matches == t.matches && t'.conversations == t.conversations && t'.messages == t.messages
    requires forall i | i in t'.invitations ::
               t'.invitations[i].sender in t'.users && t'.invitations[i].recipient in t'.users
    requires forall p | p in t'.profiles :: t'.profiles[p] in t'.users
    ensures WellFormed(t')
  {
    MatchesFollow(t, t');
    OldMessagesFollow(t, t');
  }

  ghost predicate MetadataStep(step: Step) {
    step.UpdateCounter? || step.StoreOperation? || step.StoreBackup?
  }

  lemma MetadataStepsLeaveTables(db: Db, step: Step)
    requires MetadataStep(step)
    ensures Apply(db, step).tables == db.tables
  {
  }

  lemma RegistrationKeepsWellFormed(db: Db, id: Id, user: User, now: int)
    requires WellFormed(db.tables)
    ensures WellFormed(UserInserted(db, id, user, now).0.tables)
  {
    if id !in db.tables.users && Stamped(db, user).Some? {
      var stored := db.tables.(users := db.tables.users[id := Stamped(db, user).value]);
      GrowingKeepsWellFormed(db.tables, stored);
    }
  }

  lemma FlagsKeepWellFormed(t: Tables, id: Id, isActive: bool, deleted: bool)
    requires WellFormed(t)
    ensures WellFormed(t.(users := UserFlagged(t.users, id, isActive, deleted)))
  {
    GrowingKeepsWellFormed(t, t.(users := UserFlagged(t.users, id, isActive, deleted)));
  }

  lemma ProfileKeepsWellFormed(t: Tables, id: Id, owner: Id)
    requires WellFormed(t)
    ensures WellFormed(t.(profiles := Inserted(t.profiles, id, owner, owner in t.users)))
  {
    GrowingKeepsWellFormed(t, t.(profiles := Inserted(t.profiles, id, owner, owner in t.users)));
  }

  lemma InvitationKeepsWellFormed(t: Tables, id: Id, invitation: Invitation)
    requires WellFormed(t)
    ensures WellFormed(t.(invitations := Invited(t, id, invitation)))
  {
    GrowingKeepsWellFormed(t, t.(invitations := Invited(t, id, invitation)));
  }

  /** Nothing that well-formedness reads has changed. */
  ghost predicate SameCore(t: Tables, t': Tables) {
    && t'.users == t.users && t'.profiles == t.profiles && t'.invitations == t.invitations
    && t'.matches == t.matches && t'.conversations == t.conversations && t'.messages == t.messages
  }

  lemma AccountRowLeavesTheCore(t: Tables, table: Table, id: Id, owner: Id)
    ensures SameCore(t, AccountRowInserted(t, table, id, owner))
  {
    match table {
      case Tokens => assert SameCore(t, t.(tokens := Inserted(t.tokens, id, owner, owner in t.users)));
      case Sessions => assert SameCore(t, t.(sessions := Inserted(t.sessions, id, owner, owner in t.users)));
      case Registrations =>
        assert SameCore(t, t.(registrations := Inserted(t.registrations, id, owner, owner in t.users)));
      case _ =>
    }
  }

  lemma ProfileRowLeavesTheCore(t: Tables, table: Table, id: Id, owner: Id)
    ensures SameCore(t, ProfileRowInserted(t, table, id, owner))
  {
  }

  lemma OutboxRowLeavesTheCore(t: Tables, id: Id, recipient: Option<Id>)
    ensures SameCore(t, t.(outbox := Addressed(t, id, recipient)))
  {
  }

  lemma OwnedRowLeavesTheCore(t: Tables, step: Step)
    requires step.InsertOwned? || step.InsertOutbox?
    ensures SameCore(t, PlainlyWritten(t, step))
  {
    if step.InsertOwned? {
      AccountRowLeavesTheCore(t, step.table, step.id, step.owner);
      ProfileRowLeavesTheCore(t, step.table, step.id, step.owner);
    } else {
      OutboxRowLeavesTheCore(t, step.id, step.recipient);
    }
  }

  lemma SameCoreKeepsWellFormed(t: Tables, t': Tables)
    requires WellFormed(t) && SameCore(t, t')
    ensures WellFormed(t')
  {
    GrowingKeepsWellFormed(t, t');
  }

  /** The same but for the flag. */
  ghost predicate SameMatches(matches: map<Id, Match>, matches': map<Id, Match>) {
    && matches'.Keys == matches.Keys
    && forall m | m in matches :: matches'[m] == matches[m].(deleted := matches'[m].deleted)
  }

  lemma MatchFlagKeepsMatches(matches: map<Id, Match>, id: Id, deleted: bool)
    ensures SameMatches(matches, MatchFlagged(matches, id, deleted))
  {
  }

  lemma SameMatchesAreWellFormed(t: Tables, matches: map<Id, Match>)
    requires WellFormed(t) && SameMatches(t.matches, matches)
    ensures forall m | m in matches :: MatchWellFormed(t.(matches := matches), matches[m])
  {
    forall m | m in matches ensures MatchWellFormed(t.(matches := matches), matches[m]) {
      assert MatchWellFormed(t, t.matches[m]);
    }
  }

  lemma MessagesOfSameMatches(t: Tables, matches: map<Id, Match>)
    requires WellFormed(t) && SameMatches(t.matches, matches)
    ensures forall g | g in t.messages :: MessageWellFormed(t.(matches := matches), t.messages[g])
  {
    forall g | g in t.messages ensures MessageWellFormed(t.(matches := matches), t.messages[g]) {
      assert MessageWellFormed(t, t.messages[g]);
    }
  }

  lemma MatchFlagKeepsWellFormed(t: Tables, id: Id, deleted: bool)
    requires WellFormed(t)
    ensures WellFormed(t.(matches := MatchFlagged(t.matches, id, deleted)))
  {
    var matches := MatchFlagged(t.matches, id, deleted);
    MatchFlagKeepsMatches(t.matches, id, deleted);
    SameMatchesAreWellFormed(t, matches);
    MessagesOfSameMatches(t, matches);
  }

  lemma OwnedRowKeepsWellFormed(t: Tables, step: Step)
    requires WellFormed(t) && (step.InsertOwned? || step.InsertOutbox?)
    ensures WellFormed(PlainlyWritten(t, step))
  {
    OwnedRowLeavesTheCore(t, step);
    SameCoreKeepsWellFormed(t, PlainlyWritten(t, step));
  }

  lemma PlainWriteKeepsWellFormed(t: Tables, step: Step)
    requires WellFormed(t) && IsPlainWrite(step)
    ensures WellFormed(PlainlyWritten(t, step))
  {
    match step {
      case SetUserFlags(id, isActive, deleted) => FlagsKeepWellFormed(t, id, isActive, deleted);
      case InsertProfile(id, owner) => ProfileKeepsWellFormed(t, id, owner);
      case InsertInvitation(id, invitation) => InvitationKeepsWellFormed(t, id, invitation);
      case SetMatchDeleted(id, deleted) => MatchFlagKeepsWellFormed(t, id, deleted);
      case _ => OwnedRowKeepsWellFormed(t, step);
    }
  }

  lemma OnlyFlagsMove(t: Tables, step: Step)
    requires IsPlainWrite(step) && !step.InsertOwned? && !step.InsertOutbox?
    ensures AccountsShrink(t, PlainlyWritten(t, step))
  {
  }

  lemma PlainWriteAddsNoAccounts(t: Tables, step: Step)
    requires IsPlainWrite(step)
    ensures AccountsShrink(t, PlainlyWritten(t, step))
  {
    if step.InsertOwned? || step.InsertOutbox? {
      OwnedRowLeavesTheCore(t, step);
    } else {
      OnlyFlagsMove(t, step);
    }
  }

  lemma ResetKeepsWellFormed(db: Db, step: Step)
    requires WellFormed(db.tables) && step.Reset?
    ensures WellFormed(Apply(db, step).tables)
  {
    if Decision(db, step.request, step.barrierFree, step.now, step.newSemester).Completed? {
      DeletesKeepWellFormed(db.tables, db.operations[step.request.operation].semester, |DELETE_ORDER|);
    }
  }

  lemma AnyDeleteKeepsWellFormed(db: Db, step: Step)
    requires WellFormed(db.tables) && step.Delete?
    ensures WellFormed(Apply(db, step).tables)
  {
    DeleteKeepsWellFormed(db.tables, step.table, step.ids);
  }

  lemma GuardedInsertKeepsWellFormed(db: Db, step: Step)
    requires WellFormed(db.tables) && Trusted(db, step)
    requires step.InsertUser? || step.InsertMatch? || step.InsertConversation? || step.InsertMessage?
    ensures WellFormed(Apply(db, step).tables)
  {
    match step {
      case InsertUser(id, user, now) => RegistrationKeepsWellFormed(db, id, user, now);
      case InsertMatch(id, m, semester) => MatchInsertKeepsWellFormed(db, id, m, semester);
      case InsertConversation(id, matchId, semester) => ConversationInsertKeepsWellFormed(db, id, matchId, semester);
      case InsertMessage(id, message) => MessageInsertKeepsWellFormed(db, id, message);
    }
  }

  /** Every write keeps the facts that make a reset exact. */
  lemma StepKeepsWellFormed(db: Db, step: Step)
    requires WellFormed(db.tables) && Trusted(db, step)
    ensures WellFormed(Apply(db, step).tables)
  {
    if MetadataStep(step) {
      MetadataStepsLeaveTables(db, step);
    } else if step.Reset? {
      ResetKeepsWellFormed(db, step);
    } else if step.Delete? {
      AnyDeleteKeepsWellFormed(db, step);
    } else if IsPlainWrite(step) {
      PlainWriteKeepsWellFormed(db.tables, step);
    } else {
      GuardedInsertKeepsWellFormed(db, step);
    }
  }

  // ---------------------------------------------------------------- the semester invariant

  lemma FewerStudents(t: Tables, t': Tables, s: Id)
    requires forall u | u in t'.users ::
               u in t.users && t'.users[u].role == t.users[u].role && t'.users[u].semester == t.users[u].semester
    ensures |ClosingUsers(t', s)| <= |ClosingUsers(t, s)|
  {
    SubsetSize(ClosingUsers(t', s), ClosingUsers(t, s));
  }

  lemma OneMoreStudent(t: Tables, id: Id, user: User, s: Id)
    requires id !in t.users
    ensures |ClosingUsers(t.(users := t.users[id := user]), s)|
         <= |ClosingUsers(t, s)| + if user.semester == Some(s) then 1 else 0
  {
    var t' := t.(users := t.users[id := user]);
    if user.semester == Some(s) {
      SubsetSize(ClosingUsers(t', s), ClosingUsers(t, s) + {id});
    } else {
      SubsetSize(ClosingUsers(t', s), ClosingUsers(t, s));
    }
  }

  /** The same semesters, except that the counter of at most one CURRENT semester went up. */
  ghost predicate OnlyCountersMove(db: Db, db': Db) {
    && db'.semesters.Keys == db.semesters.Keys
    && forall s | s in db.semesters ::
         && db'.semesters[s].status == db.semesters[s].status
         && db'.semesters[s].accountsCreated >= db.semesters[s].accountsCreated
  }

  lemma CountersKeepTheCurrentSemester(db: Db, db': Db)
    requires Invariant(db) && OnlyCountersMove(db, db')
    ensures forall s :: IsCurrent(db', s) <==> IsCurrent(db, s)
    ensures exists s :: IsCurrent(db', s)
  {
    forall s ensures IsCurrent(db', s) <==> IsCurrent(db, s) {}
    var s :| IsCurrent(db, s);
    assert IsCurrent(db', s);
  }

  lemma UserStoredKeepsInvariant(db: Db, id: Id, user: User, now: int)
    requires Invariant(db) && id !in db.tables.users
    requires user.role == USER <==> user.semester.Some?
    requires user.semester.Some? ==> user.semester.value in db.semesters
    ensures Invariant(UserStored(db, id, user, now))
  {
    var db' := UserStored(db, id, user, now);
    CountersKeepTheCurrentSemester(db, db');
    forall s | IsCurrent(db', s)
      ensures |ClosingUsers(db'.tables, s)| <= db'.semesters[s].accountsCreated
    {
      OneMoreStudent(db.tables, id, user, s);
    }
  }

  lemma UserInsertKeepsInvariant(db: Db, id: Id, user: User, now: int)
    requires Invariant(db)
    ensures Invariant(UserInserted(db, id, user, now).0)
  {
    if id !in db.tables.users && Stamped(db, user).Some? {
      UserStoredKeepsInvariant(db, id, Stamped(db, user).value, now);
    }
  }

  /** No account is added, and those that stay keep their role and semester. */
  ghost predicate AccountsShrink(t: Tables, t': Tables) {
    forall u | u in t'.users ::
      u in t.users && t'.users[u].role == t.users[u].role && t'.users[u].semester == t.users[u].semester
  }

  lemma ShrinkingKeepsInvariant(db: Db, db': Db)
    requires Invariant(db) && Valid(db') && OnlyCountersMove(db, db') && AccountsShrink(db.tables, db'.tables)
    ensures Invariant(db')
  {
    CountersKeepTheCurrentSemester(db, db');
    forall s | IsCurrent(db', s)
      ensures |ClosingUsers(db'.tables, s)| <= db'.semesters[s].accountsCreated
    {
      FewerStudents(db.tables, db'.tables, s);
    }
  }

  /** A completed reset leaves the new semester as the only CURRENT one, with no student in it. */
  lemma ResetOpensAnEmptySemester(db: Db, request: Request, barrierFree: bool, now: int, newSemester: Id)
    requires Valid(db) && UsersStamped(db)
    requires Decision(db, request, barrierFree, now, newSemester).Completed?
    ensures var db' := AfterReset(db, request, SummaryOf(db, request, newSemester), now);
            && (forall s :: IsCurrent(db', s) <==> s == newSemester)
            && ClosingUsers(db'.tables, newSemester) == {}
            && db'.semesters[newSemester].accountsCreated == 0
  {
    var s := db.operations[request.operation].semester;
    UsersLeft(db.tables, s);
    var db' := AfterReset(db, request, SummaryOf(db, request, newSemester), now);
    assert IsCurrent(db, s);
    forall k ensures IsCurrent(db', k) <==> k == newSemester {
      if k != newSemester && IsCurrent(db', k) { assert IsCurrent(db, k); }
    }
  }

  lemma ResetKeepsInvariant(db: Db, request: Request, barrierFree: bool, now: int, newSemester: Id)
    requires Invariant(db)
    requires Decision(db, request, barrierFree, now, newSemester).Completed?
    ensures Invariant(ResetApplied(db, request, barrierFree, now, newSemester))
  {
    var s := db.operations[request.operation].semester;
    UsersLeft(db.tables, s);
    var db' := AfterReset(db, request, SummaryOf(db, request, newSemester), now);
    ResetOpensAnEmptySemester(db, request, barrierFree, now, newSemester);
    assert IsCurrent(db', newSemester);
    ClosingPassesItsGuards(db, request, SummaryOf(db, request, newSemester), now);
    CompletedKeepsValid(db, request, SummaryOf(db, request, newSemester), now);
  }

  lemma CounterUpdateMovesOnlyCounters(db: Db, id: Id, row: Semester)
    requires Valid(db) && id in db.semesters && row.status == db.semesters[id].status
    requires BoundaryUpdateAllowed(db.semesters[id], row) && SemesterRowValid(row)
    ensures Valid(db.(semesters := db.semesters[id := row]))
    ensures OnlyCountersMove(db, db.(semesters := db.semesters[id := row]))
  {
  }

  lemma CounterStepMovesOnlyCounters(db: Db, step: Step)
    requires Valid(db) && step.UpdateCounter?
    ensures var db' := Apply(db, step);
            Valid(db') && OnlyCountersMove(db, db') && db'.tables == db.tables
  {
    if step.id in db.semesters {
      var row := db.semesters[step.id].(accountsCreated := step.accountsCreated, firstStudentAt := step.firstStudentAt);
      if BoundaryUpdateAllowed(db.semesters[step.id], row) && SemesterRowValid(row) {
        CounterUpdateMovesOnlyCounters(db, step.id, row);
      }
    }
  }

  lemma MetadataStepsMoveOnlyCounters(db: Db, step: Step)
    requires Valid(db) && MetadataStep(step)
    ensures var db' := Apply(db, step);
            Valid(db') && OnlyCountersMove(db, db') && db'.tables == db.tables
  {
    if step.UpdateCounter? { CounterStepMovesOnlyCounters(db, step); }
  }

  lemma TableStepsLeaveMetadata(db: Db, step: Step)
    requires !MetadataStep(step) && !step.InsertUser? && !step.Reset?
    ensures Apply(db, step) == db.(tables := Apply(db, step).tables)
  {
  }

  lemma TableStepsAddNoAccounts(db: Db, step: Step)
    requires !MetadataStep(step) && !step.InsertUser? && !step.Delete? && !step.Reset?
    ensures AccountsShrink(db.tables, Apply(db, step).tables)
  {
    if IsPlainWrite(step) { PlainWriteAddsNoAccounts(db.tables, step); }
  }

  lemma TableStepKeepsInvariant(db: Db, step: Step)
    requires Invariant(db)
    requires !MetadataStep(step) && !step.InsertUser? && !step.Delete? && !step.Reset?
    ensures Invariant(Apply(db, step))
  {
    TableStepsLeaveMetadata(db, step);
    TableStepsAddNoAccounts(db, step);
    OtherTablesKeepInvariant(db, Apply(db, step).tables);
  }

  lemma OtherTablesKeepInvariant(db: Db, t': Tables)
    requires Invariant(db) && AccountsShrink(db.tables, t')
    ensures Invariant(db.(tables := t'))
  {
    ShrinkingKeepsInvariant(db, db.(tables := t'));
  }

  lemma DeleteKeepsInvariant(db: Db, table: Table, ids: set<Id>)
    requires Invariant(db)
    ensures Invariant(db.(tables := DeleteRows(db.tables, table, ids)))
  {
    DeleteModifiesNothing(db.tables, table, ids);
    OtherTablesKeepInvariant(db, DeleteRows(db.tables, table, ids));
  }

  lemma StepKeepsInvariant(db: Db, step: Step)
    requires Invariant(db)
    ensures Invariant(Apply(db, step))
  {
    if MetadataStep(step) {
      MetadataStepsMoveOnlyCounters(db, step);
      ShrinkingKeepsInvariant(db, Apply(db, step));
    } else if step.InsertUser? {
      UserInsertKeepsInvariant(db, step.id, step.user, step.now);
    } else if step.Delete? {
      DeleteKeepsInvariant(db, step.table, step.ids);
    } else if step.Reset? {
      if Decision(db, step.request, step.barrierFree, step.now, step.newSemester).Completed? {
        ResetKeepsInvariant(db, step.request, step.barrierFree, step.now, step.newSemester);
      }
    } else {
      TableStepKeepsInvariant(db, step);
    }
  }

  // ---------------------------------------------------------------- what no write can undo

  ghost predicate SemestersPreserved(before: map<Id, Semester>, after: map<Id, Semester>) {
    forall s | s in before :: s in after && BoundaryUpdateAllowed(before[s], after[s])
  }

  ghost predicate OperationsPreserved(before: map<Id, Operation>, after: map<Id, Operation>) {
    forall o | o in before ::
      && o in after
      && after[o].semester == before[o].semester
      && (before[o].state in {SUCCEEDED, FAILED} ==> after[o] == before[o])
  }

  ghost predicate BackupsPreserved(before: map<Id, Backup>, after: map<Id, Backup>) {
    forall b | b in before :: b in after && WriteOnceKept(before[b], after[b])
  }

  /** Closed semesters and finished operations are frozen, counters never drop, and a backup's
      verification and manifests are written once. */
  ghost predicate Preserved(db: Db, db': Db) {
    && SemestersPreserved(db.semesters, db'.semesters)
    && OperationsPreserved(db.operations, db'.operations)
    && BackupsPreserved(db.backups, db'.backups)
  }

  lemma UnchangedIsPreserved(db: Db)
    requires Valid(db)
    ensures Preserved(db, db)
  {
  }

  lemma CounterPreserves(db: Db, id: Id, row: Semester)
    requires Valid(db) && id in db.semesters && BoundaryUpdateAllowed(db.semesters[id], row)
    ensures SemestersPreserved(db.semesters, db.semesters[id := row])
  {
  }

  lemma CounterUpdatePreserves(db: Db, id: Id, accountsCreated: int, firstStudentAt: Option<int>)
    requires Valid(db)
    ensures Preserved(db, CounterUpdated(db, id, accountsCreated, firstStudentAt))
  {
    UnchangedIsPreserved(db);
    if id in db.semesters {
      var row := db.semesters[id].(accountsCreated := accountsCreated, firstStudentAt := firstStudentAt);
      if BoundaryUpdateAllowed(db.semesters[id], row) { CounterPreserves(db, id, row); }
    }
  }

  lemma OperationPreserves(db: Db, id: Id, o: Operation)
    requires Valid(db)
    ensures Preserved(db, OperationStored(db, id, o))
  {
    UnchangedIsPreserved(db);
  }

  lemma BackupPreserves(db: Db, id: Id, b: Backup)
    requires Valid(db)
    ensures Preserved(db, BackupStored(db, id, b))
  {
    UnchangedIsPreserved(db);
  }

  lemma ClosingKeepsSemesters(semesters: map<Id, Semester>, s: Id, closed: Semester, added: Id, current: Semester)
    requires s in semesters && BoundaryUpdateAllowed(semesters[s], closed) && added !in semesters
    requires forall k | k in semesters :: SemesterRowValid(semesters[k])
    ensures SemestersPreserved(semesters, semesters[s := closed][added := current])
  {
  }

  lemma FinishingKeepsOperations(operations: map<Id, Operation>, id: Id, done: Operation)
    requires id in operations && operations[id].state == RUNNING && done.semester == operations[id].semester
    ensures OperationsPreserved(operations, operations[id := done])
  {
  }

  lemma ClosingPreserves(db: Db, request: Request, summary: Summary, now: int)
    requires Valid(db) && request.operation in db.operations && summary.newSemester !in db.semesters
    requires var o := db.operations[request.operation];
             && o.state == RUNNING && o.semester in db.semesters && db.semesters[o.semester].status == CURRENT
             && ActiveAdmin(db.tables, o.admin)
    ensures var db' := AfterReset(db, request, summary, now);
            SemestersPreserved(db.semesters, db'.semesters) && OperationsPreserved(db.operations, db'.operations)
  {
    var o := db.operations[request.operation];
    var s := db.semesters[o.semester];
    ClosingPassesItsGuards(db, request, summary, now);
    ClosingKeepsSemesters(db.semesters, o.semester, Closed(s, request.operation, now), summary.newSemester,
        Opened(now));
    FinishingKeepsOperations(db.operations, request.operation, Succeeded(o, summary, now));
  }

  lemma ResetPreserves(db: Db, request: Request, barrierFree: bool, now: int, newSemester: Id)
    requires Valid(db)
    ensures Preserved(db, ResetApplied(db, request, barrierFree, now, newSemester))
  {
    UnchangedIsPreserved(db);
    if Decision(db, request, barrierFree, now, newSemester).Completed? {
      ClosingPreserves(db, request, SummaryOf(db, request, newSemester), now);
    }
  }

  lemma TableStepPreserves(db: Db, step: Step)
    requires Valid(db) && !MetadataStep(step) && !step.InsertUser? && !step.Reset?
    ensures Preserved(db, Apply(db, step))
  {
    TableStepsLeaveMetadata(db, step);
    UnchangedIsPreserved(db);
  }

  lemma StepPreserves(db: Db, step: Step)
    requires Valid(db)
    ensures Preserved(db, Apply(db, step))
  {
    if step.Reset? {
      ResetPreserves(db, step.request, step.barrierFree, step.now, step.newSemester);
    } else if MetadataStep(step) {
      MetadataStepPreserves(db, step);
    } else if step.InsertUser? {
      RegistrationPreserves(db, step.id, step.user, step.now);
    } else {
      TableStepPreserves(db, step);
    }
  }

  lemma MetadataStepPreserves(db: Db, step: Step)
    requires Valid(db) && MetadataStep(step)
    ensures Preserved(db, Apply(db, step))
  {
    match step {
      case UpdateCounter(id, accounts, first) => CounterUpdatePreserves(db, id, accounts, first);
      case StoreOperation(id, o) => OperationPreserves(db, id, o);
      case StoreBackup(id, b) => BackupPreserves(db, id, b);
    }
  }

  lemma RegistrationPreserves(db: Db, id: Id, user: User, now: int)
    requires Valid(db)
    ensures Preserved(db, UserInserted(db, id, user, now).0)
  {
    UnchangedIsPreserved(db);
    if id !in db.tables.users && Stamped(db, user).Some? {
      var semester := Stamped(db, user).value.semester;
      if semester.Some? && IsCurrent(db, semester.value) {
        CounterPreserves(db, semester.value, Counted(db.semesters[semester.value], now));
      }
    }
  }

  lemma PreservedPassesOn(a: Db, b: Db, c: Db)
    requires Preserved(a, b) && Preserved(b, c)
    ensures Preserved(a, c)
  {
  }

  // ---------------------------------------------------------------- over whole runs

  /** In every reachable state exactly one semester is CURRENT and its counter covers its students;
      closed semesters, finished operations and verified backups never change. */
  lemma {:induction false} RunKeepsInvariant(db: Db, steps: seq<Step>)
    requires Invariant(db)
    ensures Invariant(Run(db, steps))
    ensures Preserved(db, Run(db, steps))
    decreases |steps|
  {
    if steps != [] {
      var next := Apply(db, steps[0]);
      StepKeepsInvariant(db, steps[0]);
      StepPreserves(db, steps[0]);
      RunKeepsInvariant(next, steps[1..]);
      PreservedPassesOn(db, next, Run(next, steps[1..]));
    }
  }

  lemma {:induction false} RunKeepsWellFormed(db: Db, steps: seq<Step>)
    requires WellFormed(db.tables) && TrustedRun(db, steps)
    ensures WellFormed(Run(db, steps).tables)
    decreases |steps|
  {
    if steps != [] {
      StepKeepsWellFormed(db, steps[0]);
      RunKeepsWellFormed(Apply(db, steps[0]), steps[1..]);
    }
  }

  /** After any run one semester is CURRENT, and no other. */
  lemma ExactlyOneCurrent(db: Db, steps: seq<Step>)
    requires Invariant(db)
    ensures exists s :: IsCurrent(Run(db, steps), s) && forall s' | IsCurrent(Run(db, steps), s') :: s' == s
  {
    RunKeepsInvariant(db, steps);
    var s :| IsCurrent(Run(db, steps), s);
    assert forall s' | IsCurrent(Run(db, steps), s') :: s' == s;
  }

  /** The stray match is one that the triggers let in: on the well-formed database without it they accept
      the insertion, which only the trust in acceptance keeps from being a step. */
  lemma StrayInvitationIsAccepted(db: Db)
    requires db.tables == StrayInvitation().(matches := map[])
    ensures WellFormed(db.tables)
    ensures var step := InsertMatch(31, Match(3, 4, 13, 14, 21, 2, false), None);
            !Trusted(db, step) && Apply(db, step) == db.(tables := StrayInvitation())
  {
  }

  /** From any reachable state, a reset that completes leaves every table with exactly the rows that
      did not belong to the closed semester, and reports the size of what it removed. */
  lemma CompletedResetIsExact(db: Db, steps: seq<Step>, request: Request, barrierFree: bool, now: int, newSemester: Id)
    requires WellFormed(db.tables) && TrustedRun(db, steps)
    requires Decision(Run(db, steps), request, barrierFree, now, newSemester).Completed?
    ensures var before := Run(db, steps);
            var summary := SummaryOf(before, request, newSemester);
            var after := AfterReset(before, request, summary, now);
            && after.tables == Remaining(before.tables, summary.closedSemester)
            && forall table ::
                 && table in summary.deleted
                 && summary.deleted[table] == |Closing(before.tables, summary.closedSemester, table)|
  {
    var before := Run(db, steps);
    RunKeepsWellFormed(db, steps);
    ResetRemovesExactlyTheSemester(before.tables, before.operations[request.operation].semester);
    forall table ensures table in DELETE_ORDER {
      assert DELETE_ORDER[Position(table)] == table;
    }
  }

  /** Conservation: what a table loses is what the summary reports for it. */
  lemma RowsAreConserved(t: Tables, s: Id, table: Table)
    requires WellFormed(t)
    ensures |Keys(Final(t, s), table)| + |Closing(t, s, table)| == |Keys(t, table)|
  {
    ResetRemovesExactlyTheSemester(t, s);
    KeysLeft(t, s, table);
    SplitSize(Keys(t, table), Closing(t, s, table));
  }

  lemma KeysLeft(t: Tables, s: Id, table: Table)
    ensures Keys(Remaining(t, s), table) == Keys(t, table) - Closing(t, s, table)
    ensures Closing(t, s, table) <= Keys(t, table)
  {
  }

  /** Repeating a completed reset at any later state, whatever administrator, avatar count or clock it
      is repeated with, returns the stored summary. */
  lemma ReplayReturnsTheStoredSummary(db: Db, request: Request, barrierFree: bool, now: int, newSemester: Id,
                                      steps: seq<Step>, again: Request, now': int, newSemester': Id)
    requires Invariant(db)
    requires Decision(db, request, barrierFree, now, newSemester).Completed?
    requires again.operation == request.operation && again.backup == request.backup
    ensures var summary := SummaryOf(db, request, newSemester);
            var later := Run(ResetApplied(db, request, barrierFree, now, newSemester), steps);
            Decision(later, again, true, now', newSemester') == Replayed(Some(summary))
  {
    var after := ResetApplied(db, request, barrierFree, now, newSemester);
    ResetKeepsInvariant(db, request, barrierFree, now, newSemester);
    ResetIsRecorded(db, request, barrierFree, now, newSemester);
    ReplayedAfterAnyRun(after, steps, again, SummaryOf(db, request, newSemester), now', newSemester');
  }

  lemma ReplayedAfterAnyRun(after: Db, steps: seq<Step>, again: Request, summary: Summary, now: int, newSemester: Id)
    requires Invariant(after) && Recorded(after, again, summary)
    ensures Decision(Run(after, steps), again, true, now, newSemester) == Replayed(Some(summary))
  {
    RunKeepsInvariant(after, steps);
    RecordIsReplayed(after, Run(after, steps), again, summary, now, newSemester);
  }

  /** What a verified backup says can be relied on for ever: after any run its verification, its expiry
      and its two manifests, with their locations, checksums and counts, are the ones first written. */
  lemma VerifiedBackupIsFrozen(db: Db, steps: seq<Step>, id: Id)
    requires Invariant(db) && id in db.backups
    ensures var later := Run(db, steps).backups;
            && id in later
            && (db.backups[id].verifiedAt.Some? ==> later[id].verifiedAt == db.backups[id].verifiedAt)
            && (db.backups[id].expiresAt.Some? ==> later[id].expiresAt == db.backups[id].expiresAt)
            && (db.backups[id].databaseLocation.Some? ==>
                  && later[id].databaseLocation == db.backups[id].databaseLocation
                  && later[id].databaseChecksum == db.backups[id].databaseChecksum
                  && later[id].rowCounts == db.backups[id].rowCounts)
            && (db.backups[id].avatarLocation.Some? ==>
                  && later[id].avatarLocation == db.backups[id].avatarLocation
                  && later[id].avatarChecksum == db.backups[id].avatarChecksum
                  && later[id].avatarCount == db.backups[id].avatarCount)
  {
    RunKeepsInvariant(db, steps);
  }

  /** What a completed reset leaves for its replay to find. */
  ghost predicate Recorded(db: Db, request: Request, summary: Summary) {
    && request.operation in db.operations && request.backup in db.backups
    && var o := db.operations[request.operation];
    && o.state == SUCCEEDED && o.summary == Some(summary)
    && o.semester in db.semesters
    && ReplayConsistent(request, o, db.semesters[o.semester])
  }

  lemma ResetIsRecorded(db: Db, request: Request, barrierFree: bool, now: int, newSemester: Id)
    requires Decision(db, request, barrierFree, now, newSemester).Completed?
    ensures Recorded(ResetApplied(db, request, barrierFree, now, newSemester), request,
            SummaryOf(db, request, newSemester))
  {
  }

  lemma RecordIsReplayed(db: Db, later: Db, request: Request, summary: Summary, now: int, newSemester: Id)
    requires Recorded(db, request, summary) && Preserved(db, later)
    ensures Decision(later, request, true, now, newSemester) == Replayed(Some(summary))
  {
    var o := db.operations[request.operation];
    assert later.operations[request.operation] == o;
    assert later.semesters[o.semester] == db.semesters[o.semester];
  }

  /** Every reset that completes has been given the backup's avatar count, or none: SQL's comparisons with
      NULL do not raise. Without it the reset completes just the same and reports no number. */
  lemma MissingAvatarCountPasses(db: Db, request: Request, barrierFree: bool, now: int, newSemester: Id)
    requires Decision(db, request, barrierFree, now, newSemester).Completed?
    ensures var summary := Decision(db, request, barrierFree, now, newSemester).summary;
            && (summary.avatarsProcessed == Some(db.backups[request.backup].avatarCount) <==> request.avatars.Some?)
            && (summary.avatarsProcessed == None <==> request.avatars.None?)
    ensures var unasked := request.(avatars := None);
            && Decision(db, unasked, barrierFree, now, newSemester) == Completed(SummaryOf(db, unasked, newSemester))
            && SummaryOf(db, unasked, newSemester) == SummaryOf(db, request, newSemester).(avatarsProcessed := None)
    ensures forall count | count != db.backups[request.backup].avatarCount ::
              Decision(db, request.(avatars := Some(count)), barrierFree, now, newSemester) ==
              Raised(PreconditionFailed)
  {
  }

  /** A database with one administrator, whose reset of the empty semester 1 is ready to run against a
      backup of seven avatars. */
  function ReadyToReset(): Db {
    var tables := Tables(map[9 := User(ADMIN, None, true, false)], map[], map[], map[], map[], map[], map[], map[],
                         map[], map[], map[], map[], map[], map[], map[]);
    Db(tables, {9}, map[1 := Semester(CURRENT, 0, None, None, 0, None)],
       map[2 := Operation(RESET, RUNNING, 1, 9, Some(3), 0, Some(0), None, map[], None, None)],
       map[3 := Backup(1, 0, 2, CREATING, Some("location"), Some("checksum"), map table | table in DELETE_ORDER :: 0,
                       Some("location"), Some("checksum"), 7, Some(0), None, None, None, None, None)])
  }

  lemma NothingToClose(table: Table)
    ensures Closing(ReadyToReset().tables, 1, table) == {}
  {
    assert ClosingUsers(ReadyToReset().tables, 1) == {};
  }

  lemma ReadyKeepsInvariant()
    ensures Invariant(ReadyToReset())
  {
    var db := ReadyToReset();
    assert IsCurrent(db, 1);
    assert ClosingUsers(db.tables, 1) == {};
  }

  lemma ReadyCountsMatch()
    ensures CountsMatchBackup(Affected(ReadyToReset().tables, 1), ReadyToReset().backups[3])
  {
    forall table | table in DELETE_ORDER ensures Affected(ReadyToReset().tables, 1)[table] == 0 {
      NothingToClose(table);
    }
  }

  /** It completes with the right count and with none, and with no other. */
  lemma ReadyResetCompletes(avatars: Option<int>)
    ensures Invariant(ReadyToReset())
    ensures Decision(ReadyToReset(), Request(2, 3, 9, avatars), true, 0, 5).Completed? <==>
            avatars == None || avatars == Some(7)
  {
    ReadyKeepsInvariant();
    ReadyCountsMatch();
    NothingToClose(Users);
  }
}
