/** The semester reset as the program that runs behind the barrier: whatever others do in between, what it
    commits is the database without the rows of its semester. */
module BarrierReset {
  import opened SemesterTables
  import opened SemesterClosure
  import opened Wrappers
  import opened WriteBarrier
  import opened BarrierCounts

  // ---------------------------------------------------------------- the program

  /** The next row to delete, from the statements on: the first of them that selects any row picks one. */
  ghost function NextDelete(selected: Table -> set<Id>, statement: nat): Option<Key>
    requires statement <= |DELETE_ORDER|
    decreases |DELETE_ORDER| - statement
  {
    if statement == |DELETE_ORDER| then None
    else
      var table := DELETE_ORDER[statement];
      if selected(table) == {} then NextDelete(selected, statement + 1)
      else
        var id :| id in selected(table);
        Some(Key(table, id))
  }

  /** A row of the first table that selects any, or nothing when none does. */
  ghost predicate IsFirst(selected: Table -> set<Id>, next: Option<Key>) {
    match next
    case None => forall table :: selected(table) == {}
    case Some(key) =>
      key.id in selected(key.table) && forall table | Position(table) < Position(key.table) :: selected(table) == {}
  }

  lemma {:induction false} NextDeleteIsFirst(selected: Table -> set<Id>, statement: nat)
    requires statement <= |DELETE_ORDER|
    requires forall table | Position(table) < statement :: selected(table) == {}
    ensures IsFirst(selected, NextDelete(selected, statement))
    decreases |DELETE_ORDER| - statement
  {
    if statement < |DELETE_ORDER| {
      OrderHasNoRepeats(statement);
      if selected(DELETE_ORDER[statement]) == {} {
        forall table | Position(table) < statement + 1 ensures selected(table) == {} {
          assert DELETE_ORDER[Position(table)] == table;
        }
        NextDeleteIsFirst(selected, statement + 1);
      }
    }
  }

  /** What the fifteen statements select. */
  ghost function Selected(rows: Rows, s: Id): Table -> set<Id> {
    table => Closing(TablesOf(rows), s, table)
  }

  /** The fifteen statements in their order, each on the rows that it finds when its turn comes. */
  ghost function ResetProgram(s: Id): Program {
    (seen: seq<Rows>) => if seen == [] then None else NextDelete(Selected(seen[|seen| - 1], s), 0)
  }

  // ---------------------------------------------------------------- closing rows

  ghost predicate ClosesUser(rows: Rows, s: Id, id: Id) {
    && Key(Users, id) in rows && rows[Key(Users, id)].UserRow?
    && rows[Key(Users, id)].user.role == USER && rows[Key(Users, id)].user.semester == Some(s)
  }

  ghost predicate ClosesProfile(rows: Rows, s: Id, id: Id) {
    Key(Profiles, id) in rows && rows[Key(Profiles, id)].OwnedRow? && ClosesUser(rows, s, rows[Key(Profiles, id)].owner)
  }

  ghost predicate ClosesConversation(rows: Rows, s: Id, id: Id) {
    && Key(Conversations, id) in rows && rows[Key(Conversations, id)].ConversationRow?
    && rows[Key(Conversations, id)].conversation.semester == s
  }

  /** Does this row go? Read off the row and the rows of later tables that it refers to. */
  ghost predicate Closes(rows: Rows, s: Id, key: Key) {
    && key in rows
    && var row := rows[key];
       match key.table
       case Users => ClosesUser(rows, s, key.id)
       case Profiles => ClosesProfile(rows, s, key.id)
       case Conversations => ClosesConversation(rows, s, key.id)
       case Invitations =>
         && row.InvitationRow?
         && (ClosesUser(rows, s, row.invitation.sender) || ClosesUser(rows, s, row.invitation.recipient))
       case Matches => row.MatchRow? && row.buddyMatch.semester == s
       case Messages => row.MessageRow? && ClosesConversation(rows, s, row.message.conversation)
       case Outbox => row.OutboxRow? && row.recipient.Some? && ClosesUser(rows, s, row.recipient.value)
       case Tokens => row.OwnedRow? && ClosesUser(rows, s, row.owner)
       case Sessions => row.OwnedRow? && ClosesUser(rows, s, row.owner)
       case Registrations => row.OwnedRow? && ClosesUser(rows, s, row.owner)
       case _ => row.OwnedRow? && ClosesProfile(rows, s, row.owner)
  }

  lemma IdsAreKeys(rows: Rows, table: Table, id: Id)
    ensures id in Ids(rows, table) <==> Key(table, id) in rows
  {
    if Key(table, id) in rows { assert Key(table, id).id in Ids(rows, table); }
  }

  lemma UserIsRow(rows: Rows, id: Id)
    ensures id in UserRows(rows) <==> Key(Users, id) in rows && rows[Key(Users, id)].UserRow?
    ensures id in UserRows(rows) ==> UserRows(rows)[id] == rows[Key(Users, id)].user
  {
    IdsAreKeys(rows, Users, id);
  }

  lemma UsersClose(rows: Rows, s: Id)
    ensures forall id :: id in ClosingUsers(TablesOf(rows), s) <==> ClosesUser(rows, s, id)
  {
    forall id ensures id in ClosingUsers(TablesOf(rows), s) <==> ClosesUser(rows, s, id) { UserIsRow(rows, id); }
  }

  lemma ProfilesClose(rows: Rows, s: Id)
    ensures forall id :: id in ClosingProfiles(TablesOf(rows), s) <==> ClosesProfile(rows, s, id)
  {
    UsersClose(rows, s);
    forall id ensures id in ClosingProfiles(TablesOf(rows), s) <==> ClosesProfile(rows, s, id) {
      OwnedRow(rows, Profiles, id, ClosingUsers(TablesOf(rows), s));
    }
  }

  lemma OwnedRow(rows: Rows, table: Table, id: Id, owners: set<Id>)
    ensures id in OwnedBy(OwnedRows(rows, table), owners) <==>
            Key(table, id) in rows && rows[Key(table, id)].OwnedRow? && rows[Key(table, id)].owner in owners
  {
  }

  lemma ConversationsClose(rows: Rows, s: Id)
    ensures forall id :: id in ClosingConversations(TablesOf(rows), s) <==> ClosesConversation(rows, s, id)
  {
  }

  predicate OwnedByUsers(table: Table) {
    table.Tokens? || table.Sessions? || table.Registrations?
  }

  predicate OwnedByProfiles(table: Table) {
    table.Photos? || table.Interests? || table.Languages? || table.Activities? || table.Preferences?
  }

  lemma OwnedCloses(rows: Rows, s: Id, key: Key, owners: set<Id>)
    requires OwnedByUsers(key.table) || OwnedByProfiles(key.table)
    requires OwnedByUsers(key.table) ==> forall id :: id in owners <==> ClosesUser(rows, s, id)
    requires OwnedByProfiles(key.table) ==> forall id :: id in owners <==> ClosesProfile(rows, s, id)
    ensures Closes(rows, s, key) <==> key.id in OwnedBy(OwnedRows(rows, key.table), owners)
  {
  }

  lemma InvitationCloses(rows: Rows, s: Id, key: Key, users: set<Id>)
    requires key.table.Invitations? && forall id :: id in users <==> ClosesUser(rows, s, id)
    ensures Closes(rows, s, key) <==> key.id in InvitationsOf(InvitationRows(rows), users)
  {
  }

  lemma OutboxCloses(rows: Rows, s: Id, key: Key, users: set<Id>)
    requires key.table.Outbox? && forall id :: id in users <==> ClosesUser(rows, s, id)
    ensures Closes(rows, s, key) <==> key.id in OutboxOf(OutboxRows(rows), users)
  {
  }

  lemma MessageCloses(rows: Rows, s: Id, key: Key, conversations: set<Id>)
    requires key.table.Messages? && forall id :: id in conversations <==> ClosesConversation(rows, s, id)
    ensures Closes(rows, s, key) <==> key.id in MessagesIn(MessageRows(rows), conversations)
  {
  }

  lemma MatchCloses(rows: Rows, s: Id, key: Key)
    requires key.table.Matches?
    ensures Closes(rows, s, key) <==> key.id in ClosingMatches(TablesOf(rows), s)
  {
  }

  lemma AccountRowsSelected(rows: Rows, s: Id, table: Table)
    requires OwnedByUsers(table)
    ensures Closing(TablesOf(rows), s, table) == OwnedBy(OwnedRows(rows, table), ClosingUsers(TablesOf(rows), s))
  {
  }

  lemma AccountRowCloses(rows: Rows, s: Id, key: Key)
    requires OwnedByUsers(key.table)
    ensures Closes(rows, s, key) <==> key.id in Closing(TablesOf(rows), s, key.table)
  {
    AccountRowsSelected(rows, s, key.table);
    UsersClose(rows, s);
    OwnedCloses(rows, s, key, ClosingUsers(TablesOf(rows), s));
  }

  lemma ProfileRowsSelected(rows: Rows, s: Id, table: Table)
    requires OwnedByProfiles(table)
    ensures Closing(TablesOf(rows), s, table) == OwnedBy(OwnedRows(rows, table), ClosingProfiles(TablesOf(rows), s))
  {
  }

  lemma ProfileRowCloses(rows: Rows, s: Id, key: Key)
    requires OwnedByProfiles(key.table)
    ensures Closes(rows, s, key) <==> key.id in Closing(TablesOf(rows), s, key.table)
  {
    ProfileRowsSelected(rows, s, key.table);
    ProfilesClose(rows, s);
    OwnedCloses(rows, s, key, ClosingProfiles(TablesOf(rows), s));
  }

  lemma InvitationRowCloses(rows: Rows, s: Id, key: Key)
    requires key.table.Invitations?
    ensures Closes(rows, s, key) <==> key.id in ClosingInvitations(TablesOf(rows), s)
  {
    UsersClose(rows, s);
    InvitationCloses(rows, s, key, ClosingUsers(TablesOf(rows), s));
  }

  lemma OutboxRowCloses(rows: Rows, s: Id, key: Key)
    requires key.table.Outbox?
    ensures Closes(rows, s, key) <==> key.id in ClosingOutbox(TablesOf(rows), s)
  {
    UsersClose(rows, s);
    OutboxCloses(rows, s, key, ClosingUsers(TablesOf(rows), s));
  }

  lemma MessageRowCloses(rows: Rows, s: Id, key: Key)
    requires key.table.Messages?
    ensures Closes(rows, s, key) <==> key.id in ClosingMessages(TablesOf(rows), s)
  {
    ConversationsClose(rows, s);
    MessageCloses(rows, s, key, ClosingConversations(TablesOf(rows), s));
  }

  lemma UserRowCloses(rows: Rows, s: Id, key: Key)
    requires key.table.Users?
    ensures Closes(rows, s, key) <==> key.id in ClosingUsers(TablesOf(rows), s)
  {
    UsersClose(rows, s);
  }

  lemma ProfileCloses(rows: Rows, s: Id, key: Key)
    requires key.table.Profiles?
    ensures Closes(rows, s, key) <==> key.id in ClosingProfiles(TablesOf(rows), s)
  {
    ProfilesClose(rows, s);
  }

  lemma ConversationRowCloses(rows: Rows, s: Id, key: Key)
    requires key.table.Conversations?
    ensures Closes(rows, s, key) <==> key.id in ClosingConversations(TablesOf(rows), s)
  {
    ConversationsClose(rows, s);
  }

  /** The closing rows are those that the statements select. */
  lemma ClosesIffSelected(rows: Rows, s: Id, key: Key)
    ensures Closes(rows, s, key) <==> key.id in Closing(TablesOf(rows), s, key.table)
  {
    if OwnedByUsers(key.table) {
      AccountRowCloses(rows, s, key);
    } else if OwnedByProfiles(key.table) {
      ProfileRowCloses(rows, s, key);
    } else {
      match key.table {
        case Invitations => InvitationRowCloses(rows, s, key);
        case Outbox => OutboxRowCloses(rows, s, key);
        case Messages => MessageRowCloses(rows, s, key);
        case Users => UserRowCloses(rows, s, key);
        case Profiles => ProfileCloses(rows, s, key);
        case Conversations => ConversationRowCloses(rows, s, key);
        case Matches => MatchCloses(rows, s, key);
      }
    }
  }

  // ---------------------------------------------------------------- what the program leaves

  ghost predicate SomeOf(now: Rows, rows: Rows) {
    forall k | k in now :: k in rows && now[k] == rows[k]
  }

  /** Only closing rows are gone, and none of a table before the last closing row that is still there. */
  ghost predicate Emptying(rows: Rows, now: Rows, s: Id) {
    && SomeOf(now, rows)
    && (forall k | k in rows && k !in now :: Closes(rows, s, k))
    && (forall gone, k | gone in rows && gone !in now && k in now && Closes(rows, s, k) ::
          Position(gone.table) <= Position(k.table))
  }

  lemma FewerRowsCloseLess(rows: Rows, now: Rows, s: Id, key: Key)
    requires SomeOf(now, rows) && Closes(now, s, key)
    ensures Closes(rows, s, key)
  {
  }

  /** Nothing is gone from the tables after this one. */
  ghost predicate LaterTablesWhole(rows: Rows, now: Rows, table: Table) {
    forall k | k in rows && Position(table) < Position(k.table) :: k in now
  }

  lemma ClosingReadsLaterRows(rows: Rows, now: Rows, s: Id, key: Key)
    requires SomeOf(now, rows) && LaterTablesWhole(rows, now, key.table) && key in now && Closes(rows, s, key)
    ensures Closes(now, s, key)
  {
  }

  /** Children first: while the program runs, what closes now is what closed at first and is still there. */
  lemma StillClosing(rows: Rows, now: Rows, s: Id, key: Key)
    requires Emptying(rows, now, s)
    ensures Closes(now, s, key) <==> key in now && Closes(rows, s, key)
  {
    if Closes(now, s, key) {
      FewerRowsCloseLess(rows, now, s, key);
    } else if key in now && Closes(rows, s, key) {
      ClosingReadsLaterRows(rows, now, s, key);
    }
  }

  ghost predicate PicksFirstClosing(rows: Rows, s: Id, next: Option<Key>) {
    match next
    case None => forall k :: !Closes(rows, s, k)
    case Some(key) => Closes(rows, s, key) && forall k | Closes(rows, s, k) :: Position(key.table) <= Position(k.table)
  }

  lemma ResetPicksFirstClosing(rows: Rows, s: Id)
    ensures PicksFirstClosing(rows, s, NextDelete(Selected(rows, s), 0))
  {
    NextDeleteIsFirst(Selected(rows, s), 0);
    forall k ensures Closes(rows, s, k) <==> k.id in Selected(rows, s)(k.table) {
      ClosesIffSelected(rows, s, k);
    }
  }

  lemma ResetPicksSeenRows(s: Id)
    ensures PicksSeenRows(ResetProgram(s))
  {
    forall seen: seq<Rows> | seen != [] && ResetProgram(s)(seen).Some?
      ensures ResetProgram(s)(seen).value in seen[|seen| - 1]
    {
      ResetPicksFirstClosing(seen[|seen| - 1], s);
    }
  }

  lemma OneMoreGone(rows: Rows, now: Rows, s: Id, key: Key)
    requires Emptying(rows, now, s) && PicksFirstClosing(now, s, Some(key))
    ensures key in now && Emptying(rows, now - {key}, s)
  {
    forall k ensures Closes(now, s, k) <==> k in now && Closes(rows, s, k) { StillClosing(rows, now, s, k); }
  }

  /** The rows that do not close. */
  ghost function Staying(rows: Rows, s: Id): Rows {
    map k | k in rows && !Closes(rows, s, k) :: rows[k]
  }

  lemma NoneLeft(rows: Rows, now: Rows, s: Id)
    requires Emptying(rows, now, s) && PicksFirstClosing(now, s, None)
    ensures now == Staying(rows, s)
  {
    forall k | k in now ensures !Closes(rows, s, k) { StillClosing(rows, now, s, k); }
  }

  /** `kept` holds from look to look, and of the last look it leaves `left` only. */
  ghost predicate KeptUpTo(program: Program, kept: Rows -> bool, left: Rows)
    requires PicksSeenRows(program)
  {
    forall seen: seq<Rows> | seen != [] && kept(seen[|seen| - 1]) ::
      match program(seen)
      case None => seen[|seen| - 1] == left
      case Some(key) => kept(seen[|seen| - 1] - {key})
  }

  lemma {:induction false} LeavesWhatIsKept(program: Program, kept: Rows -> bool, left: Rows, seen: seq<Rows>)
    requires PicksSeenRows(program) && KeptUpTo(program, kept, left) && seen != [] && kept(seen[|seen| - 1])
    ensures Left(program, seen) == left
    decreases |seen[|seen| - 1]|
  {
    if program(seen).Some? {
      FewerRows(seen[|seen| - 1], program(seen).value);
      LeavesWhatIsKept(program, kept, left, seen + [seen[|seen| - 1] - {program(seen).value}]);
    }
  }

  /** Alone, the reset leaves exactly the rows that do not close. */
  lemma ResetLeavesStaying(rows: Rows, s: Id)
    requires PicksSeenRows(ResetProgram(s))
    ensures Left(ResetProgram(s), [rows]) == Staying(rows, s)
  {
    var kept := (now: Rows) => Emptying(rows, now, s);
    forall seen: seq<Rows> | seen != [] && kept(seen[|seen| - 1])
      ensures match ResetProgram(s)(seen)
              case None => seen[|seen| - 1] == Staying(rows, s)
              case Some(key) => kept(seen[|seen| - 1] - {key})
    {
      StepOfTheReset(rows, seen[|seen| - 1], s);
    }
    LeavesWhatIsKept(ResetProgram(s), kept, Staying(rows, s), [rows]);
  }

  lemma StepOfTheReset(rows: Rows, now: Rows, s: Id)
    requires Emptying(rows, now, s)
    ensures match NextDelete(Selected(now, s), 0)
            case None => now == Staying(rows, s)
            case Some(key) => Emptying(rows, now - {key}, s)
  {
    ResetPicksFirstClosing(now, s);
    match NextDelete(Selected(now, s), 0) {
      case None => NoneLeft(rows, now, s);
      case Some(key) => OneMoreGone(rows, now, s, key);
    }
  }

  // ---------------------------------------------------------------- the tables that stay

  /** `closing` are the ids of the closing rows of this table. */
  ghost predicate AreClosing(rows: Rows, s: Id, table: Table, closing: set<Id>) {
    forall id :: id in closing <==> Closes(rows, s, Key(table, id))
  }

  lemma SelectedAreClosing(rows: Rows, s: Id, table: Table)
    ensures AreClosing(rows, s, table, Closing(TablesOf(rows), s, table))
  {
    forall id ensures id in Closing(TablesOf(rows), s, table) <==> Closes(rows, s, Key(table, id)) {
      ClosesIffSelected(rows, s, Key(table, id));
    }
  }

  lemma IdsStay(rows: Rows, s: Id, table: Table, closing: set<Id>)
    requires AreClosing(rows, s, table, closing)
    ensures Ids(Staying(rows, s), table) == Ids(rows, table) - closing
  {
    forall id ensures id in Ids(Staying(rows, s), table) <==> id in Ids(rows, table) - closing {
      IdsAreKeys(rows, table, id);
      IdsAreKeys(Staying(rows, s), table, id);
    }
  }

  lemma OwnedRowsStay(rows: Rows, s: Id, table: Table, closing: set<Id>)
    requires AreClosing(rows, s, table, closing)
    ensures OwnedRows(Staying(rows, s), table) == OwnedRows(rows, table) - closing
  {
    IdsStay(rows, s, table, closing);
  }

  lemma UserRowsStay(rows: Rows, s: Id, closing: set<Id>)
    requires AreClosing(rows, s, Users, closing)
    ensures UserRows(Staying(rows, s)) == UserRows(rows) - closing
  {
    IdsStay(rows, s, Users, closing);
  }

  lemma InvitationRowsStay(rows: Rows, s: Id, closing: set<Id>)
    requires AreClosing(rows, s, Invitations, closing)
    ensures InvitationRows(Staying(rows, s)) == InvitationRows(rows) - closing
  {
    IdsStay(rows, s, Invitations, closing);
  }

  lemma MatchRowsStay(rows: Rows, s: Id, closing: set<Id>)
    requires AreClosing(rows, s, Matches, closing)
    ensures MatchRows(Staying(rows, s)) == MatchRows(rows) - closing
  {
    IdsStay(rows, s, Matches, closing);
  }

  lemma ConversationRowsStay(rows: Rows, s: Id, closing: set<Id>)
    requires AreClosing(rows, s, Conversations, closing)
    ensures ConversationRows(Staying(rows, s)) == ConversationRows(rows) - closing
  {
    IdsStay(rows, s, Conversations, closing);
  }

  lemma MessageRowsStay(rows: Rows, s: Id, closing: set<Id>)
    requires AreClosing(rows, s, Messages, closing)
    ensures MessageRows(Staying(rows, s)) == MessageRows(rows) - closing
  {
    IdsStay(rows, s, Messages, closing);
  }

  lemma OutboxRowsStay(rows: Rows, s: Id, closing: set<Id>)
    requires AreClosing(rows, s, Outbox, closing)
    ensures OutboxRows(Staying(rows, s)) == OutboxRows(rows) - closing
  {
    IdsStay(rows, s, Outbox, closing);
  }

  lemma OwnedTablesStay(rows: Rows, s: Id)
    ensures forall table: Table ::
              OwnedRows(Staying(rows, s), table) == OwnedRows(rows, table) - Closing(TablesOf(rows), s, table)
  {
    forall table: Table
      ensures OwnedRows(Staying(rows, s), table) == OwnedRows(rows, table) - Closing(TablesOf(rows), s, table)
    {
      SelectedAreClosing(rows, s, table);
      OwnedRowsStay(rows, s, table, Closing(TablesOf(rows), s, table));
    }
  }

  lemma PeopleStay(rows: Rows, s: Id)
    ensures UserRows(Staying(rows, s)) == UserRows(rows) - Closing(TablesOf(rows), s, Users)
    ensures InvitationRows(Staying(rows, s)) == InvitationRows(rows) - Closing(TablesOf(rows), s, Invitations)
    ensures OutboxRows(Staying(rows, s)) == OutboxRows(rows) - Closing(TablesOf(rows), s, Outbox)
  {
    SelectedAreClosing(rows, s, Users);
    SelectedAreClosing(rows, s, Invitations);
    SelectedAreClosing(rows, s, Outbox);
    UserRowsStay(rows, s, Closing(TablesOf(rows), s, Users));
    InvitationRowsStay(rows, s, Closing(TablesOf(rows), s, Invitations));
    OutboxRowsStay(rows, s, Closing(TablesOf(rows), s, Outbox));
  }

  lemma ChatsStay(rows: Rows, s: Id)
    ensures MatchRows(Staying(rows, s)) == MatchRows(rows) - Closing(TablesOf(rows), s, Matches)
    ensures ConversationRows(Staying(rows, s)) == ConversationRows(rows) - Closing(TablesOf(rows), s, Conversations)
    ensures MessageRows(Staying(rows, s)) == MessageRows(rows) - Closing(TablesOf(rows), s, Messages)
  {
    SelectedAreClosing(rows, s, Matches);
    SelectedAreClosing(rows, s, Conversations);
    SelectedAreClosing(rows, s, Messages);
    MatchRowsStay(rows, s, Closing(TablesOf(rows), s, Matches));
    ConversationRowsStay(rows, s, Closing(TablesOf(rows), s, Conversations));
    MessageRowsStay(rows, s, Closing(TablesOf(rows), s, Messages));
  }

  lemma StayingRemains(rows: Rows, s: Id)
    ensures TablesOf(Staying(rows, s)) == Remaining(TablesOf(rows), s)
  {
    OwnedTablesStay(rows, s);
    PeopleStay(rows, s);
    ChatsStay(rows, s);
  }

  // ---------------------------------------------------------------- what the reset commits

  /** Alone, the program of the reset takes its steps to the end. */
  lemma LoneResetIsWhole(s: Id, rows: Rows, mode: Mode, reset: Tx)
    ensures PicksSeenRows(ResetProgram(s))
    ensures WholeRun(ResetProgram(s), Alone(rows, reset), mode,
                     LoneSteps(ResetProgram(s), [GuardedPart(rows)], reset), reset)
  {
    ResetPicksSeenRows(s);
    LoneRunFinishes(ResetProgram(s), rows, mode, reset);
  }

  /** Whatever others do in between, the reset commits exactly the guarded rows that were not its
      semester's when it took the lock. */
  lemma ResetCommitsTheRemaining(s: Id, st: State, mode: Mode, steps: seq<Step>, reset: Tx)
    requires Invariant(st) && st.exclusive == Some(reset) && st.pending[reset] == map[]
    requires WholeRun(ResetProgram(s), st, mode, steps, reset)
    ensures var after := Next(Run(st, mode, steps), mode, Commit(reset)).committed;
            TablesOf(GuardedPart(after)) == Remaining(TablesOf(GuardedPart(st.committed)), s)
  {
    ResetPicksSeenRows(s);
    ResetCommitsAsIfAlone(ResetProgram(s), st, mode, steps, reset);
    ResetLeavesStaying(GuardedPart(st.committed), s);
    StayingRemains(GuardedPart(st.committed), s);
  }

  lemma RemainAlike(t: Tables, t': Tables, s: Id, table: Table)
    requires table != Users && SameRows(t, t', table) && Closing(t, s, table) == Closing(t', s, table)
    ensures SameRows(Remaining(t, s), Remaining(t', s), table)
  {
  }

  lemma GuardedTableIsWhole(rows: Rows, table: Table)
    requires table != Users
    ensures SameRows(TablesOf(GuardedPart(rows)), TablesOf(rows), table)
  {
    TablesOfGuardedPart(rows);
  }

  lemma GuardedRemain(rows: Rows, s: Id, table: Table)
    requires table != Users
    ensures SameRows(Remaining(TablesOf(GuardedPart(rows)), s), Remaining(TablesOf(rows), s), table)
  {
    ClosingReadsGuardedRows(rows, GuardedPart(rows), s, table);
    GuardedTableIsWhole(rows, table);
    RemainAlike(TablesOf(GuardedPart(rows)), TablesOf(rows), s, table);
  }

  lemma SameStudentsWithout(users: map<Id, User>, users': map<Id, User>, some: map<Id, User>, gone: set<Id>)
    requires SameStudents(users, some - gone) && SameStudents(users', some)
    ensures SameStudents(users, users' - gone)
  {
  }

  lemma StudentsRemain(before: Rows, after: Rows, s: Id)
    requires UserRows(GuardedPart(after)) ==
             UserRows(GuardedPart(before)) - ClosingUsers(TablesOf(GuardedPart(before)), s)
    ensures SameStudents(UserRows(after), UserRows(before) - ClosingUsers(TablesOf(before), s))
  {
    StudentsAreGuarded(before);
    StudentsAreGuarded(after);
    ClosingReadsGuardedRows(before, GuardedPart(before), s, Users);
    SameStudentsWithout(UserRows(after), UserRows(before), UserRows(GuardedPart(before)),
        ClosingUsers(TablesOf(before), s));
  }

  /** Where no cascade crosses a semester, that is what the fifteen statements with their cascades leave of
      the database that the reset found: every table but users as a whole, and every student. */
  lemma ResetCommitsItsStatements(s: Id, st: State, mode: Mode, steps: seq<Step>, reset: Tx)
    requires Invariant(st) && st.exclusive == Some(reset) && st.pending[reset] == map[]
    requires WholeRun(ResetProgram(s), st, mode, steps, reset) && CascadeClosed(TablesOf(st.committed), s)
    ensures var after := TablesOf(Next(Run(st, mode, steps), mode, Commit(reset)).committed);
            var final := Final(TablesOf(st.committed), s);
            && (forall table | table != Users :: SameRows(after, final, table))
            && SameStudents(after.users, final.users)
  {
    var after := Next(Run(st, mode, steps), mode, Commit(reset)).committed;
    ResetCommitsTheRemaining(s, st, mode, steps, reset);
    ResetIsExactIffClosed(TablesOf(st.committed), s);
    forall table | table != Users ensures SameRows(TablesOf(after), Final(TablesOf(st.committed), s), table) {
      GuardedTableIsWhole(after, table);
      GuardedRemain(st.committed, s, table);
    }
    StudentsRemain(st.committed, after, s);
  }
}
