/** What a reset counts while it holds the barrier: the fifteen tables that the barrier rows make up. */
module BarrierCounts {
  import opened SemesterTables
  import opened Wrappers
  import opened WriteBarrier

  function Ids(rows: Rows, table: Table): set<Id> {
    set k | k in rows && k.table == table :: k.id
  }

  function UserRows(rows: Rows): map<Id, User> {
    map id | id in Ids(rows, Users) && rows[Key(Users, id)].UserRow? :: rows[Key(Users, id)].user
  }

  function OwnedRows(rows: Rows, table: Table): map<Id, Id> {
    map id | id in Ids(rows, table) && rows[Key(table, id)].OwnedRow? :: rows[Key(table, id)].owner
  }

  function InvitationRows(rows: Rows): map<Id, Invitation> {
    map id | id in Ids(rows, Invitations) && rows[Key(Invitations, id)].InvitationRow? ::
      rows[Key(Invitations, id)].invitation
  }

  function MatchRows(rows: Rows): map<Id, Match> {
    map id | id in Ids(rows, Matches) && rows[Key(Matches, id)].MatchRow? :: rows[Key(Matches, id)].buddyMatch
  }

  function ConversationRows(rows: Rows): map<Id, Conversation> {
    map id | id in Ids(rows, Conversations) && rows[Key(Conversations, id)].ConversationRow? ::
      rows[Key(Conversations, id)].conversation
  }

  function MessageRows(rows: Rows): map<Id, Message> {
    map id | id in Ids(rows, Messages) && rows[Key(Messages, id)].MessageRow? :: rows[Key(Messages, id)].message
  }

  function OutboxRows(rows: Rows): map<Id, Option<Id>> {
    map id | id in Ids(rows, Outbox) && rows[Key(Outbox, id)].OutboxRow? :: rows[Key(Outbox, id)].recipient
  }

  function TablesOf(rows: Rows): Tables {
    Tables(UserRows(rows), OwnedRows(rows, Tokens), OwnedRows(rows, Sessions), OwnedRows(rows, Profiles),
           OwnedRows(rows, Photos), OwnedRows(rows, Interests), OwnedRows(rows, Languages),
           OwnedRows(rows, Activities), OwnedRows(rows, Preferences), OwnedRows(rows, Registrations),
           InvitationRows(rows), MatchRows(rows), ConversationRows(rows), MessageRows(rows), OutboxRows(rows))
  }

  // ---------------------------------------------------------------- administrators do not matter

  /** What a reset counts depends on barrier rows only. */
  lemma ClosingIgnoresAdministrators(t: Tables, t': Tables, s: Id, table: Table)
    requires t' == t.(users := t'.users)
    requires SameStudents(t.users, t'.users)
    ensures Closing(t, s, table) == Closing(t', s, table)
  {
    assert ClosingUsers(t, s) == ClosingUsers(t', s);
  }

  ghost predicate SameStudents(users: map<Id, User>, users': map<Id, User>) {
    && (forall u :: u in users && users[u].role == USER <==> u in users' && users'[u].role == USER)
    && (forall u | u in users && users[u].role == USER :: users'[u] == users[u])
  }

  lemma StudentsAreGuarded(rows: Rows)
    ensures SameStudents(UserRows(rows), UserRows(GuardedPart(rows)))
  {
    var guarded := GuardedPart(rows);
    forall u ensures u in UserRows(rows) && UserRows(rows)[u].role == USER <==>
                     u in UserRows(guarded) && UserRows(guarded)[u].role == USER {
      assert Key(Users, u) in guarded ==> guarded[Key(Users, u)] == rows[Key(Users, u)];
    }
  }

  lemma IdsAreGuarded(rows: Rows, table: Table)
    requires !table.Users?
    ensures Ids(GuardedPart(rows), table) == Ids(rows, table)
    ensures forall id | id in Ids(rows, table) ::
              Key(table, id) in GuardedPart(rows) && GuardedPart(rows)[Key(table, id)] == rows[Key(table, id)]
  {
    forall id | id in Ids(rows, table) ensures id in Ids(GuardedPart(rows), table) {
      assert Key(table, id) in GuardedPart(rows);
    }
  }

  lemma OwnedRowsAreGuarded(rows: Rows, table: Table)
    requires !table.Users?
    ensures OwnedRows(GuardedPart(rows), table) == OwnedRows(rows, table)
  {
    IdsAreGuarded(rows, table);
  }

  lemma ChatsAreGuarded(rows: Rows)
    ensures ConversationRows(GuardedPart(rows)) == ConversationRows(rows)
    ensures MessageRows(GuardedPart(rows)) == MessageRows(rows)
  {
    IdsAreGuarded(rows, Conversations);
    IdsAreGuarded(rows, Messages);
  }

  lemma MatchesAreGuarded(rows: Rows)
    ensures InvitationRows(GuardedPart(rows)) == InvitationRows(rows)
    ensures MatchRows(GuardedPart(rows)) == MatchRows(rows)
    ensures OutboxRows(GuardedPart(rows)) == OutboxRows(rows)
  {
    IdsAreGuarded(rows, Invitations);
    IdsAreGuarded(rows, Matches);
    IdsAreGuarded(rows, Outbox);
  }

  lemma OwnedTablesAreGuarded(rows: Rows)
    ensures forall table: Table | !table.Users? :: OwnedRows(GuardedPart(rows), table) == OwnedRows(rows, table)
  {
    forall table: Table | !table.Users? ensures OwnedRows(GuardedPart(rows), table) == OwnedRows(rows, table) {
      OwnedRowsAreGuarded(rows, table);
    }
  }

  /** The guarded part leaves out administrators and nothing else. */
  lemma TablesOfGuardedPart(rows: Rows)
    ensures TablesOf(GuardedPart(rows)) == TablesOf(rows).(users := UserRows(GuardedPart(rows)))
  {
    OwnedTablesAreGuarded(rows);
    MatchesAreGuarded(rows);
    ChatsAreGuarded(rows);
  }

  /** The closing rows of what a transaction sees are those of the barrier rows it sees. */
  lemma ClosingReadsGuardedRows(rows: Rows, guarded: Rows, s: Id, table: Table)
    requires guarded == GuardedPart(rows)
    ensures Closing(TablesOf(rows), s, table) == Closing(TablesOf(guarded), s, table)
  {
    TablesOfGuardedPart(rows);
    StudentsAreGuarded(rows);
    ClosingIgnoresAdministrators(TablesOf(rows), TablesOf(GuardedPart(rows)), s, table);
  }

  // ---------------------------------------------------------------- over every interleaving

  /** At every point of the interleaving the reset counts and selects, for each table, the rows that it
      would count and select at the corresponding point of a run without the others. */
  lemma CountsAreThoseAlone(program: Program, st: State, mode: Mode, steps: seq<Step>, reset: Tx, s: Id, table: Table)
    requires PicksSeenRows(program)
    requires Invariant(st) && st.exclusive == Some(reset) && st.pending[reset] == map[]
    requires ResetRun(program, st, mode, steps, [GuardedPart(st.committed)], reset)
    ensures var k := |Seen(program, st, mode, steps, [GuardedPart(st.committed)], reset)| - 1;
            var lone := LoneSteps(program, [GuardedPart(st.committed)], reset);
            && 0 <= k <= |lone|
            && var (now, alone) := (Run(st, mode, steps), Run(Alone(st.committed, reset), mode, lone[..k]));
            && reset in now.pending && reset in alone.pending
            && Closing(TablesOf(View(now, reset)), s, table) == Closing(TablesOf(View(alone, reset)), s, table)
  {
    SeesWhatALoneRunSees(program, st, mode, steps, reset);
    var k := |Seen(program, st, mode, steps, [GuardedPart(st.committed)], reset)| - 1;
    var lone := LoneSteps(program, [GuardedPart(st.committed)], reset);
    ViewsCountAlike(Run(st, mode, steps), Run(Alone(st.committed, reset), mode, lone[..k]), reset, s, table);
  }

  lemma ViewsCountAlike(st: State, st': State, reset: Tx, s: Id, table: Table)
    requires SameGuardedViews(st, st', reset)
    ensures Closing(TablesOf(View(st, reset)), s, table) == Closing(TablesOf(View(st', reset)), s, table)
  {
    ClosingReadsGuardedRows(View(st, reset), GuardedView(st, reset), s, table);
    ClosingReadsGuardedRows(View(st', reset), GuardedView(st, reset), s, table);
  }
}
