/** The fifteen cohort tables, the DELETE statements on them and their declared cascades.

    A row that only matters through one foreign key is kept as `row id -> referenced id`. */
module SemesterTables {
  import opened Wrappers

  type Id = nat

  datatype Role = USER | ADMIN

  datatype User = User(role: Role, semester: Option<Id>, isActive: bool, deleted: bool)
  datatype Invitation = Invitation(sender: Id, recipient: Id)
  datatype Match = Match(userOne: Id, userTwo: Id, profileOne: Id, profileTwo: Id,
                         invitation: Id, semester: Id, deleted: bool)
  datatype Conversation = Conversation(matchId: Id, semester: Id)
  datatype Message = Message(conversation: Id, sender: Id)

  datatype Tables = Tables(
    users: map<Id, User>,
    tokens: map<Id, Id>,           // email_verification_tokens -> users
    sessions: map<Id, Id>,         // refresh_sessions -> users
    profiles: map<Id, Id>,         // student_profiles -> users
    photos: map<Id, Id>,           // profile_photos -> student_profiles
    interests: map<Id, Id>,        // profile_interests -> student_profiles
    languages: map<Id, Id>,        // profile_languages -> student_profiles
    activities: map<Id, Id>,       // profile_activities -> student_profiles
    preferences: map<Id, Id>,      // profile_custom_preferences -> student_profiles
    registrations: map<Id, Id>,    // event_registrations -> users
    invitations: map<Id, Invitation>,
    matches: map<Id, Match>,
    conversations: map<Id, Conversation>,
    messages: map<Id, Message>,
    outbox: map<Id, Option<Id>>)   // transactional_outbox -> users, SET NULL

  datatype Table =
    | Users | Tokens | Sessions | Profiles | Photos | Interests | Languages | Activities
    | Preferences | Registrations | Invitations | Matches | Conversations | Messages | Outbox

  /** The order of the fifteen DELETE statements: children first. */
  const DELETE_ORDER: seq<Table> :=
    [Messages, Conversations, Matches, Invitations, Outbox, Registrations, Interests, Languages,
     Activities, Preferences, Photos, Profiles, Tokens, Sessions, Users]

  // ---------------------------------------------------------------- what a semester owns

  function ClosingUsers(t: Tables, s: Id): set<Id> {
    set u | u in t.users && t.users[u].role == USER && t.users[u].semester == Some(s)
  }

  function OwnedBy(rows: map<Id, Id>, owners: set<Id>): set<Id> {
    set r | r in rows && rows[r] in owners
  }

  function ClosingProfiles(t: Tables, s: Id): set<Id> {
    OwnedBy(t.profiles, ClosingUsers(t, s))
  }

  function InvitationsOf(invitations: map<Id, Invitation>, users: set<Id>): set<Id> {
    set i | i in invitations && (invitations[i].sender in users || invitations[i].recipient in users)
  }

  function ClosingInvitations(t: Tables, s: Id): set<Id> {
    InvitationsOf(t.invitations, ClosingUsers(t, s))
  }

  function ClosingMatches(t: Tables, s: Id): set<Id> {
    set m | m in t.matches && t.matches[m].semester == s
  }

  function ClosingConversations(t: Tables, s: Id): set<Id> {
    set c | c in t.conversations && t.conversations[c].semester == s
  }

  function MessagesIn(messages: map<Id, Message>, conversations: set<Id>): set<Id> {
    set g | g in messages && messages[g].conversation in conversations
  }

  function ClosingMessages(t: Tables, s: Id): set<Id> {
    MessagesIn(t.messages, ClosingConversations(t, s))
  }

  function OutboxOf(outbox: map<Id, Option<Id>>, users: set<Id>): set<Id> {
    set o | o in outbox && outbox[o].Some? && outbox[o].value in users
  }

  function ClosingOutbox(t: Tables, s: Id): set<Id> {
    OutboxOf(t.outbox, ClosingUsers(t, s))
  }

  /** The rows one DELETE statement selects, which is also what its count selects. */
  function Closing(t: Tables, s: Id, table: Table): set<Id> {
    match table
    case Users => ClosingUsers(t, s)
    case Tokens => OwnedBy(t.tokens, ClosingUsers(t, s))
    case Sessions => OwnedBy(t.sessions, ClosingUsers(t, s))
    case Profiles => ClosingProfiles(t, s)
    case Photos => OwnedBy(t.photos, ClosingProfiles(t, s))
    case Interests => OwnedBy(t.interests, ClosingProfiles(t, s))
    case Languages => OwnedBy(t.languages, ClosingProfiles(t, s))
    case Activities => OwnedBy(t.activities, ClosingProfiles(t, s))
    case Preferences => OwnedBy(t.preferences, ClosingProfiles(t, s))
    case Registrations => OwnedBy(t.registrations, ClosingUsers(t, s))
    case Invitations => ClosingInvitations(t, s)
    case Matches => ClosingMatches(t, s)
    case Conversations => ClosingConversations(t, s)
    case Messages => ClosingMessages(t, s)
    case Outbox => ClosingOutbox(t, s)
  }

  function Keys(t: Tables, table: Table): set<Id> {
    match table
    case Users => t.users.Keys
    case Tokens => t.tokens.Keys
    case Sessions => t.sessions.Keys
    case Profiles => t.profiles.Keys
    case Photos => t.photos.Keys
    case Interests => t.interests.Keys
    case Languages => t.languages.Keys
    case Activities => t.activities.Keys
    case Preferences => t.preferences.Keys
    case Registrations => t.registrations.Keys
    case Invitations => t.invitations.Keys
    case Matches => t.matches.Keys
    case Conversations => t.conversations.Keys
    case Messages => t.messages.Keys
    case Outbox => t.outbox.Keys
  }

  /** `t` with exactly the rows of semester `s` taken out of every table. */
  function Remaining(t: Tables, s: Id): Tables {
    Tables(t.users - Closing(t, s, Users),
           t.tokens - Closing(t, s, Tokens),
           t.sessions - Closing(t, s, Sessions),
           t.profiles - Closing(t, s, Profiles),
           t.photos - Closing(t, s, Photos),
           t.interests - Closing(t, s, Interests),
           t.languages - Closing(t, s, Languages),
           t.activities - Closing(t, s, Activities),
           t.preferences - Closing(t, s, Preferences),
           t.registrations - Closing(t, s, Registrations),
           t.invitations - Closing(t, s, Invitations),
           t.matches - Closing(t, s, Matches),
           t.conversations - Closing(t, s, Conversations),
           t.messages - Closing(t, s, Messages),
           t.outbox - Closing(t, s, Outbox))
  }

  // ---------------------------------------------------------------- DELETE with its cascades

  function DeleteMessages(t: Tables, ids: set<Id>): Tables {
    t.(messages := t.messages - ids)
  }

  function DeleteConversations(t: Tables, ids: set<Id>): Tables {
    DeleteMessages(t.(conversations := t.conversations - ids),
                   set m | m in t.messages && t.messages[m].conversation in ids)
  }

  function DeleteMatches(t: Tables, ids: set<Id>): Tables {
    DeleteConversations(t.(matches := t.matches - ids),
                        set c | c in t.conversations && t.conversations[c].matchId in ids)
  }

  function MatchesUnder(matches: map<Id, Match>, invitations: set<Id>): set<Id> {
    set m | m in matches && matches[m].invitation in invitations
  }

  function DeleteInvitations(t: Tables, ids: set<Id>): Tables {
    DeleteMatches(t.(invitations := t.invitations - ids), MatchesUnder(t.matches, ids))
  }

  function DeleteProfiles(t: Tables, ids: set<Id>): Tables {
    var t' := t.(profiles := t.profiles - ids,
                 photos := t.photos - OwnedBy(t.photos, ids),
                 interests := t.interests - OwnedBy(t.interests, ids),
                 languages := t.languages - OwnedBy(t.languages, ids),
                 activities := t.activities - OwnedBy(t.activities, ids),
                 preferences := t.preferences - OwnedBy(t.preferences, ids));
    DeleteMatches(t', set m | m in t.matches && (t.matches[m].profileOne in ids || t.matches[m].profileTwo in ids))
  }

  /** ON DELETE SET NULL on the recipient of an outbox row. */
  function ForgetRecipients(outbox: map<Id, Option<Id>>, ids: set<Id>): map<Id, Option<Id>> {
    map o | o in outbox :: if outbox[o].Some? && outbox[o].value in ids then None else outbox[o]
  }

  // The foreign keys onto users, one function for each group of them.

  function DropUserRows(t: Tables, ids: set<Id>): Tables {
    t.(users := t.users - ids,
       tokens := t.tokens - OwnedBy(t.tokens, ids),
       sessions := t.sessions - OwnedBy(t.sessions, ids),
       registrations := t.registrations - OwnedBy(t.registrations, ids),
       outbox := ForgetRecipients(t.outbox, ids))
  }

  function DropProfilesOf(t: Tables, ids: set<Id>): Tables {
    DeleteProfiles(t, OwnedBy(t.profiles, ids))
  }

  function DropInvitationsOf(t: Tables, ids: set<Id>): Tables {
    DeleteInvitations(t, InvitationsOf(t.invitations, ids))
  }

  function MatchesOf(matches: map<Id, Match>, users: set<Id>): set<Id> {
    set m | m in matches && (matches[m].userOne in users || matches[m].userTwo in users)
  }

  function DropMatchesOf(t: Tables, ids: set<Id>): Tables {
    DeleteMatches(t, MatchesOf(t.matches, ids))
  }

  function DropMessagesOf(t: Tables, ids: set<Id>): Tables {
    DeleteMessages(t, set g | g in t.messages && t.messages[g].sender in ids)
  }

  function DeleteUsers(t: Tables, ids: set<Id>): Tables {
    DropMessagesOf(DropMatchesOf(DropInvitationsOf(DropProfilesOf(DropUserRows(t, ids), ids), ids), ids), ids)
  }

  /** One DELETE statement: the selected rows go, and so does every row a cascade reaches. */
  function DeleteRows(t: Tables, table: Table, ids: set<Id>): Tables {
    match table
    case Users => DeleteUsers(t, ids)
    case Tokens => t.(tokens := t.tokens - ids)
    case Sessions => t.(sessions := t.sessions - ids)
    case Profiles => DeleteProfiles(t, ids)
    case Photos => t.(photos := t.photos - ids)
    case Interests => t.(interests := t.interests - ids)
    case Languages => t.(languages := t.languages - ids)
    case Activities => t.(activities := t.activities - ids)
    case Preferences => t.(preferences := t.preferences - ids)
    case Registrations => t.(registrations := t.registrations - ids)
    case Invitations => DeleteInvitations(t, ids)
    case Matches => DeleteMatches(t, ids)
    case Conversations => DeleteConversations(t, ids)
    case Messages => DeleteMessages(t, ids)
    case Outbox => t.(outbox := t.outbox - ids)
  }

  /** The tables after the first `k` DELETE statements of a reset of semester `s`. */
  function AfterDeletes(t: Tables, s: Id, k: nat): Tables
    requires k <= |DELETE_ORDER|
  {
    if k == 0 then t
    else
      var before := AfterDeletes(t, s, k - 1);
      DeleteRows(before, DELETE_ORDER[k - 1], Closing(before, s, DELETE_ORDER[k - 1]))
  }

  // ---------------------------------------------------------------- every ROW_COUNT check passes

  /** The place of a table in the order of the statements. */
  function Position(table: Table): (k: nat)
    ensures k < |DELETE_ORDER| && DELETE_ORDER[k] == table
  {
    match table
    case Messages => 0
    case Conversations => 1
    case Matches => 2
    case Invitations => 3
    case Outbox => 4
    case Registrations => 5
    case Interests => 6
    case Languages => 7
    case Activities => 8
    case Preferences => 9
    case Photos => 10
    case Profiles => 11
    case Tokens => 12
    case Sessions => 13
    case Users => 14
  }

  lemma OrderHasNoRepeats(k: nat)
    requires k < |DELETE_ORDER|
    ensures Position(DELETE_ORDER[k]) == k
  {
  }

  ghost predicate SameRows(t: Tables, t': Tables, table: Table) {
    match table
    case Users => t.users == t'.users
    case Tokens => t.tokens == t'.tokens
    case Sessions => t.sessions == t'.sessions
    case Profiles => t.profiles == t'.profiles
    case Photos => t.photos == t'.photos
    case Interests => t.interests == t'.interests
    case Languages => t.languages == t'.languages
    case Activities => t.activities == t'.activities
    case Preferences => t.preferences == t'.preferences
    case Registrations => t.registrations == t'.registrations
    case Invitations => t.invitations == t'.invitations
    case Matches => t.matches == t'.matches
    case Conversations => t.conversations == t'.conversations
    case Messages => t.messages == t'.messages
    case Outbox => t.outbox == t'.outbox
  }

  /** Children first: whatever rows the statement on `table` deletes, its cascades never reach a
      table whose own statement is still to come. */
  lemma CascadesReachBack(t: Tables, table: Table, ids: set<Id>, other: Table)
    requires Position(table) < Position(other)
    ensures SameRows(DeleteRows(t, table, ids), t, other)
  {
    match table {
      case Users =>
      case Profiles => ProfilesReachBack(t, ids);
      case Invitations =>
      case Matches =>
      case Conversations =>
      case _ =>
    }
  }

  lemma ProfilesReachBack(t: Tables, ids: set<Id>)
    ensures var t' := DeleteProfiles(t, ids);
            t'.users == t.users && t'.tokens == t.tokens && t'.sessions == t.sessions
  {
  }

  lemma {:induction false} LaterTablesUntouched(t: Tables, s: Id, k: nat, other: Table)
    requires k <= Position(other)
    ensures SameRows(AfterDeletes(t, s, k), t, other)
  {
    if k > 0 {
      LaterTablesUntouched(t, s, k - 1, other);
      var before := AfterDeletes(t, s, k - 1);
      OrderHasNoRepeats(k - 1);
      CascadesReachBack(before, DELETE_ORDER[k - 1], Closing(before, s, DELETE_ORDER[k - 1]), other);
    }
  }

  /** What a statement selects depends only on its own table and on tables deleted from later. */
  lemma ClosingReadsLaterTables(t: Tables, t': Tables, s: Id, table: Table)
    requires forall other | Position(table) <= Position(other) :: SameRows(t, t', other)
    ensures Closing(t, s, table) == Closing(t', s, table)
  {
    assert SameRows(t, t', table) && SameRows(t, t', Users);
    if table.Messages? {
      assert SameRows(t, t', Conversations);
    } else if table.Profiles? || Position(table) < Position(Profiles) {
      assert SameRows(t, t', Profiles);
    }
  }

  /** On any database at all, each statement removes exactly the rows that were counted for its
      table before the first of them ran. */
  lemma RowCountsAlwaysMatch(t: Tables, s: Id, table: Table)
    ensures Closing(AfterDeletes(t, s, Position(table)), s, table) == Closing(t, s, table)
  {
    var now := AfterDeletes(t, s, Position(table));
    forall other | Position(table) <= Position(other)
      ensures SameRows(now, t, other)
    {
      LaterTablesUntouched(t, s, Position(table), other);
    }
    ClosingReadsLaterTables(now, t, s, table);
  }
}
