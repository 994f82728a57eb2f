/** When a reset removes exactly the rows of its semester: if and only if no declared cascade leads
    from a closing row to a row of another semester. */
module SemesterClosure {
  import opened Wrappers
  import opened SemesterTables

  /** No row that stays refers, through a cascading key, to a row that goes. The keys not listed
      (tokens, sessions, profile rows, registrations, outbox, message -> conversation,
      invitation -> user) cannot break this: their rows are selected by that very key. */
  ghost predicate CascadeClosed(t: Tables, s: Id) {
    && (forall c | c in t.conversations && t.conversations[c].matchId in ClosingMatches(t, s) ::
          c in ClosingConversations(t, s))
    && (forall m | m in t.matches && MatchReached(t, s, t.matches[m]) :: m in ClosingMatches(t, s))
    && (forall g | g in t.messages && t.messages[g].sender in ClosingUsers(t, s) ::
          g in ClosingMessages(t, s))
  }

  ghost predicate MatchReached(t: Tables, s: Id, m: Match) {
    || m.invitation in ClosingInvitations(t, s)
    || m.profileOne in ClosingProfiles(t, s)
    || m.profileTwo in ClosingProfiles(t, s)
    || m.userOne in ClosingUsers(t, s)
    || m.userTwo in ClosingUsers(t, s)
  }

  // ---------------------------------------------------------------- closed => exact

  lemma MinusNothing<V>(m: map<Id, V>)
    ensures m - {} == m
  {
  }

  lemma NoMessagesBelow(t: Tables, ids: set<Id>)
    requires forall m | m in t.messages :: t.messages[m].conversation !in ids
    ensures DeleteConversations(t, ids) == t.(conversations := t.conversations - ids)
  {
    assert (set m | m in t.messages && t.messages[m].conversation in ids) == {};
    MinusNothing(t.messages);
  }

  lemma NoConversationsBelow(t: Tables, ids: set<Id>)
    requires forall c | c in t.conversations :: t.conversations[c].matchId !in ids
    ensures DeleteMatches(t, ids) == t.(matches := t.matches - ids)
  {
    assert (set c | c in t.conversations && t.conversations[c].matchId in ids) == {};
    var t' := t.(matches := t.matches - ids);
    NoMessagesBelow(t', {});
    MinusNothing(t'.conversations);
  }

  lemma NoMatchesNoChange(t: Tables)
    ensures DeleteMatches(t, {}) == t
  {
    NoConversationsBelow(t, {});
    MinusNothing(t.matches);
  }

  lemma NoMatchesBelow(t: Tables, ids: set<Id>)
    requires forall m | m in t.matches :: t.matches[m].invitation !in ids
    ensures DeleteInvitations(t, ids) == t.(invitations := t.invitations - ids)
  {
    assert MatchesUnder(t.matches, ids) == {};
    NoMatchesNoChange(t.(invitations := t.invitations - ids));
  }

  lemma NoInvitationsNoChange(t: Tables)
    ensures DeleteInvitations(t, {}) == t
  {
    NoMatchesBelow(t, {});
    MinusNothing(t.invitations);
  }

  ghost predicate NoneOwned(rows: map<Id, Id>, ids: set<Id>) {
    forall r | r in rows :: rows[r] !in ids
  }

  lemma NoneOwnedLeavesAll(rows: map<Id, Id>, ids: set<Id>)
    requires NoneOwned(rows, ids)
    ensures OwnedBy(rows, ids) == {} && rows - OwnedBy(rows, ids) == rows
  {
  }

  ghost predicate NothingBelowProfiles(t: Tables, ids: set<Id>) {
    && NoneOwned(t.photos, ids) && NoneOwned(t.interests, ids) && NoneOwned(t.languages, ids)
    && NoneOwned(t.activities, ids) && NoneOwned(t.preferences, ids)
    && forall m | m in t.matches :: t.matches[m].profileOne !in ids && t.matches[m].profileTwo !in ids
  }

  lemma NothingBelowProfilesGoes(t: Tables, ids: set<Id>)
    requires NothingBelowProfiles(t, ids)
    ensures DeleteProfiles(t, ids) == t.(profiles := t.profiles - ids)
  {
    NoneOwnedLeavesAll(t.photos, ids);
    NoneOwnedLeavesAll(t.interests, ids);
    NoneOwnedLeavesAll(t.languages, ids);
    NoneOwnedLeavesAll(t.activities, ids);
    NoneOwnedLeavesAll(t.preferences, ids);
    var reached := set m | m in t.matches && (t.matches[m].profileOne in ids || t.matches[m].profileTwo in ids);
    assert reached == {};
    var t' := t.(profiles := t.profiles - ids);
    assert DeleteProfiles(t, ids) == DeleteMatches(t', reached);
    NoMatchesNoChange(t');
  }

  lemma NoProfilesNoChange(t: Tables)
    ensures DeleteProfiles(t, {}) == t
  {
    NothingBelowProfilesGoes(t, {});
    MinusNothing(t.profiles);
  }

  ghost predicate NothingOwned(t: Tables, ids: set<Id>) {
    && NoneOwned(t.tokens, ids) && NoneOwned(t.sessions, ids) && NoneOwned(t.registrations, ids)
    && NoneOwned(t.profiles, ids)
    && forall o | o in t.outbox :: t.outbox[o].Some? ==> t.outbox[o].value !in ids
  }

  ghost predicate NothingBelowUsers(t: Tables, ids: set<Id>) {
    && NothingOwned(t, ids)
    && (forall i | i in t.invitations :: t.invitations[i].sender !in ids && t.invitations[i].recipient !in ids)
    && (forall m | m in t.matches :: t.matches[m].userOne !in ids && t.matches[m].userTwo !in ids)
    && (forall g | g in t.messages :: t.messages[g].sender !in ids)
  }

  lemma UserRowsAlone(t: Tables, ids: set<Id>)
    requires NothingBelowUsers(t, ids)
    ensures DropUserRows(t, ids) == t.(users := t.users - ids)
  {
    NoneOwnedLeavesAll(t.tokens, ids);
    NoneOwnedLeavesAll(t.sessions, ids);
    NoneOwnedLeavesAll(t.registrations, ids);
    assert ForgetRecipients(t.outbox, ids) == t.outbox;
  }

  lemma NoProfilesToDrop(t: Tables, ids: set<Id>)
    requires NoneOwned(t.profiles, ids)
    ensures DropProfilesOf(t, ids) == t
  {
    NoneOwnedLeavesAll(t.profiles, ids);
    NoProfilesNoChange(t);
  }

  lemma NoInvitationsToDrop(t: Tables, ids: set<Id>)
    requires forall i | i in t.invitations :: t.invitations[i].sender !in ids && t.invitations[i].recipient !in ids
    ensures DropInvitationsOf(t, ids) == t
  {
    assert InvitationsOf(t.invitations, ids) == {};
    NoInvitationsNoChange(t);
  }

  lemma NoMatchesToDrop(t: Tables, ids: set<Id>)
    requires NothingBelowUsers(t, ids)
    ensures DropMatchesOf(t, ids) == t
  {
    assert MatchesOf(t.matches, ids) == {};
    NoMatchesNoChange(t);
  }

  lemma NoMessagesToDrop(t: Tables, ids: set<Id>)
    requires NothingBelowUsers(t, ids)
    ensures DropMessagesOf(t, ids) == t
  {
    assert (set g | g in t.messages && t.messages[g].sender in ids) == {};
    MinusNothing(t.messages);
  }

  lemma NothingBelowUsersGoes(t: Tables, ids: set<Id>)
    requires NothingBelowUsers(t, ids)
    ensures DeleteUsers(t, ids) == t.(users := t.users - ids)
  {
    UserRowsAlone(t, ids);
    var t' := t.(users := t.users - ids);
    assert NothingBelowUsers(t', ids);
    NoProfilesToDrop(t', ids);
    NoInvitationsToDrop(t', ids);
    NoMatchesToDrop(t', ids);
    NoMessagesToDrop(t', ids);
  }

  /** `now` is what a reset has reached when only the rows of the statements before `table` went. */
  ghost predicate ExactUpTo(now: Tables, t: Tables, s: Id, k: nat) {
    && (forall other | Position(other) < k :: SameRows(now, Remaining(t, s), other))
    && (forall other | k <= Position(other) :: SameRows(now, t, other))
  }

  /** `t` without the rows `ids` of one table, and nothing else changed. */
  ghost function Without(t: Tables, table: Table, ids: set<Id>): Tables {
    match table
    case Users => t.(users := t.users - ids)
    case Profiles => t.(profiles := t.profiles - ids)
    case Invitations => t.(invitations := t.invitations - ids)
    case Matches => t.(matches := t.matches - ids)
    case Conversations => t.(conversations := t.conversations - ids)
    case Tokens => t.(tokens := t.tokens - ids)
    case Sessions => t.(sessions := t.sessions - ids)
    case Photos => t.(photos := t.photos - ids)
    case Interests => t.(interests := t.interests - ids)
    case Languages => t.(languages := t.languages - ids)
    case Activities => t.(activities := t.activities - ids)
    case Preferences => t.(preferences := t.preferences - ids)
    case Registrations => t.(registrations := t.registrations - ids)
    case Messages => t.(messages := t.messages - ids)
    case Outbox => t.(outbox := t.outbox - ids)
  }

  lemma CascadeFindsNothing(now: Tables, t: Tables, s: Id, table: Table)
    requires CascadeClosed(t, s)
    requires ExactUpTo(now, t, s, Position(table))
    ensures DeleteRows(now, table, Closing(t, s, table)) == Without(now, table, Closing(t, s, table))
  {
    var r := Remaining(t, s);
    var ids := Closing(t, s, table);
    match table {
      case Conversations =>
        assert SameRows(now, r, Messages);
        NoMessagesBelow(now, ids);
      case Matches =>
        assert SameRows(now, r, Conversations);
        NoConversationsBelow(now, ids);
      case Invitations =>
        assert SameRows(now, r, Matches);
        NoMatchesBelow(now, ids);
      case Profiles =>
        NothingBelowClosingProfiles(now, t, s);
        NothingBelowProfilesGoes(now, ids);
      case Users =>
        NothingBelowClosingUsers(now, t, s);
        NothingBelowUsersGoes(now, ids);
      case _ =>
    }
  }

  lemma NothingBelowClosingProfiles(now: Tables, t: Tables, s: Id)
    requires CascadeClosed(t, s)
    requires ExactUpTo(now, t, s, Position(Profiles))
    ensures NothingBelowProfiles(now, Closing(t, s, Profiles))
  {
    var r := Remaining(t, s);
    assert SameRows(now, r, Matches) && SameRows(now, r, Photos) && SameRows(now, r, Interests);
    assert SameRows(now, r, Languages) && SameRows(now, r, Activities) && SameRows(now, r, Preferences);
  }

  lemma NothingOwnedByClosingUsers(now: Tables, t: Tables, s: Id)
    requires ExactUpTo(now, t, s, Position(Users))
    ensures NothingOwned(now, ClosingUsers(t, s))
  {
    var r := Remaining(t, s);
    assert SameRows(now, r, Tokens) && SameRows(now, r, Sessions) && SameRows(now, r, Registrations);
    assert SameRows(now, r, Profiles) && SameRows(now, r, Outbox);
  }

  lemma NothingBelowClosingUsers(now: Tables, t: Tables, s: Id)
    requires CascadeClosed(t, s)
    requires ExactUpTo(now, t, s, Position(Users))
    ensures NothingBelowUsers(now, ClosingUsers(t, s))
  {
    NothingOwnedByClosingUsers(now, t, s);
    var r := Remaining(t, s);
    assert SameRows(now, r, Invitations) && SameRows(now, r, Matches) && SameRows(now, r, Messages);
  }

  lemma OtherTablesKept(now: Tables, table: Table, ids: set<Id>, other: Table)
    requires other != table
    ensures SameRows(Without(now, table, ids), now, other)
  {
    if table.Users? || table.Invitations? || table.Matches? || table.Conversations? || table.Messages? {
      CohortTableKeepsOthers(now, table, ids, other);
    } else if table.Profiles? || table.Photos? || table.Interests? || table.Languages? || table.Activities? {
      ProfileTableKeepsOthers(now, table, ids, other);
    } else {
      AccountTableKeepsOthers(now, table, ids, other);
    }
  }

  lemma CohortTableKeepsOthers(now: Tables, table: Table, ids: set<Id>, other: Table)
    requires table.Users? || table.Invitations? || table.Matches? || table.Conversations? || table.Messages?
    requires other != table
    ensures SameRows(Without(now, table, ids), now, other)
  {
  }

  lemma ProfileTableKeepsOthers(now: Tables, table: Table, ids: set<Id>, other: Table)
    requires table.Profiles? || table.Photos? || table.Interests? || table.Languages? || table.Activities?
    requires other != table
    ensures SameRows(Without(now, table, ids), now, other)
  {
  }

  lemma AccountTableKeepsOthers(now: Tables, table: Table, ids: set<Id>, other: Table)
    requires table.Preferences? || table.Registrations? || table.Tokens? || table.Sessions? || table.Outbox?
    requires other != table
    ensures SameRows(Without(now, table, ids), now, other)
  {
  }

  lemma OwnTableExact(now: Tables, t: Tables, s: Id, table: Table)
    requires SameRows(now, t, table)
    ensures SameRows(Without(now, table, Closing(t, s, table)), Remaining(t, s), table)
  {
  }

  lemma SameRowsPassesOn(a: Tables, b: Tables, c: Tables, table: Table)
    requires SameRows(a, b, table) && SameRows(b, c, table)
    ensures SameRows(a, c, table)
  {
  }

  lemma OnlySelectedRowsGo(now: Tables, t: Tables, s: Id, table: Table)
    requires CascadeClosed(t, s)
    requires ExactUpTo(now, t, s, Position(table))
    ensures ExactUpTo(DeleteRows(now, table, Closing(t, s, table)), t, s, Position(table) + 1)
  {
    CascadeFindsNothing(now, t, s, table);
    var after := Without(now, table, Closing(t, s, table));
    forall other | Position(other) < Position(table) + 1
      ensures SameRows(after, Remaining(t, s), other)
    {
      if other == table {
        OwnTableExact(now, t, s, table);
      } else {
        PlacesDiffer(table, other);
        OtherTablesKept(now, table, Closing(t, s, table), other);
        SameRowsPassesOn(after, now, Remaining(t, s), other);
      }
    }
    forall other | Position(table) + 1 <= Position(other)
      ensures SameRows(after, t, other)
    {
      OtherTablesKept(now, table, Closing(t, s, table), other);
      SameRowsPassesOn(after, now, t, other);
    }
  }

  lemma {:induction false} ExactAfterDeletes(t: Tables, s: Id, k: nat)
    requires k <= |DELETE_ORDER|
    requires CascadeClosed(t, s)
    ensures ExactUpTo(AfterDeletes(t, s, k), t, s, k)
  {
    if k > 0 {
      ExactAfterDeletes(t, s, k - 1);
      var table := DELETE_ORDER[k - 1];
      OrderHasNoRepeats(k - 1);
      RowCountsAlwaysMatch(t, s, table);
      OnlySelectedRowsGo(AfterDeletes(t, s, k - 1), t, s, table);
    }
  }

  lemma PlacesDiffer(table: Table, other: Table)
    requires table != other
    ensures Position(table) != Position(other)
  {
  }

  lemma SameEverywhere(t: Tables, t': Tables)
    requires forall other :: SameRows(t, t', other)
    ensures t == t'
  {
    assert SameRows(t, t', Users) && SameRows(t, t', Tokens) && SameRows(t, t', Sessions);
    assert SameRows(t, t', Profiles) && SameRows(t, t', Photos) && SameRows(t, t', Interests);
    assert SameRows(t, t', Languages) && SameRows(t, t', Activities) && SameRows(t, t', Preferences);
    assert SameRows(t, t', Registrations) && SameRows(t, t', Invitations) && SameRows(t, t', Matches);
    assert SameRows(t, t', Conversations) && SameRows(t, t', Messages) && SameRows(t, t', Outbox);
  }

  // ---------------------------------------------------------------- exact => closed

  lemma DeletesOnlyShrink(t: Tables, table: Table, ids: set<Id>, other: Table)
    ensures Keys(DeleteRows(t, table, ids), other) <= Keys(t, other)
  {
    match table {
      case Users => UserDeletesOnlyShrink(t, ids, other);
      case _ =>
    }
  }

  lemma UserDeletesOnlyShrink(t: Tables, ids: set<Id>, other: Table)
    ensures Keys(DeleteUsers(t, ids), other) <= Keys(t, other)
  {
  }

  lemma {:induction false} GoneStaysGone(t: Tables, s: Id, j: nat, k: nat, other: Table)
    requires j <= k <= |DELETE_ORDER|
    ensures Keys(AfterDeletes(t, s, k), other) <= Keys(AfterDeletes(t, s, j), other)
  {
    if j < k {
      GoneStaysGone(t, s, j, k - 1, other);
      var before := AfterDeletes(t, s, k - 1);
      DeletesOnlyShrink(before, DELETE_ORDER[k - 1], Closing(before, s, DELETE_ORDER[k - 1]), other);
    }
  }

  /** The state right after the statement on `table`, in terms of the state right before it. */
  lemma StatementEffect(t: Tables, s: Id, table: Table)
    ensures AfterDeletes(t, s, Position(table) + 1)
         == DeleteRows(AfterDeletes(t, s, Position(table)), table, Closing(t, s, table))
  {
    RowCountsAlwaysMatch(t, s, table);
  }

  /** A row that a cascade of some statement reaches is missing at the end. */
  lemma ReachedRowsGo(t: Tables, s: Id, table: Table, other: Table, row: Id)
    requires row !in Keys(DeleteRows(AfterDeletes(t, s, Position(table)), table, Closing(t, s, table)), other)
    ensures row !in Keys(AfterDeletes(t, s, |DELETE_ORDER|), other)
  {
    StatementEffect(t, s, table);
    GoneStaysGone(t, s, Position(table) + 1, |DELETE_ORDER|, other);
  }

  /** Rows that survive a DELETE are not modified by it. */
  ghost predicate Unmodified(t': Tables, t: Tables) {
    && (forall u | u in t'.users :: u in t.users && t'.users[u] == t.users[u])
    && (forall p | p in t'.profiles :: p in t.profiles && t'.profiles[p] == t.profiles[p])
    && (forall i | i in t'.invitations :: i in t.invitations && t'.invitations[i] == t.invitations[i])
    && (forall m | m in t'.matches :: m in t.matches && t'.matches[m] == t.matches[m])
    && (forall c | c in t'.conversations :: c in t.conversations && t'.conversations[c] == t.conversations[c])
    && (forall g | g in t'.messages :: g in t.messages && t'.messages[g] == t.messages[g])
  }

  lemma DeleteModifiesNothing(t: Tables, table: Table, ids: set<Id>)
    ensures Unmodified(DeleteRows(t, table, ids), t)
  {
  }

  lemma {:induction false} SurvivorsUnmodified(t: Tables, s: Id, k: nat)
    requires k <= |DELETE_ORDER|
    ensures Unmodified(AfterDeletes(t, s, k), t)
  {
    if k > 0 {
      SurvivorsUnmodified(t, s, k - 1);
      var before := AfterDeletes(t, s, k - 1);
      DeleteModifiesNothing(before, DELETE_ORDER[k - 1], Closing(before, s, DELETE_ORDER[k - 1]));
    }
  }

  function Final(t: Tables, s: Id): Tables {
    AfterDeletes(t, s, |DELETE_ORDER|)
  }

  // What one statement's cascades reach, from any state in which no row was modified.

  lemma ConversationsBelowGo(now: Tables, t: Tables, ids: set<Id>, c: Id)
    requires Unmodified(now, t)
    requires c in t.conversations && t.conversations[c].matchId in ids
    ensures c !in Keys(DeleteRows(now, Matches, ids), Conversations)
  {
  }

  lemma InvitedMatchesGo(now: Tables, t: Tables, ids: set<Id>, m: Id)
    requires Unmodified(now, t)
    requires m in t.matches && t.matches[m].invitation in ids
    ensures m !in Keys(DeleteRows(now, Invitations, ids), Matches)
  {
  }

  lemma ProfiledMatchesGo(now: Tables, t: Tables, ids: set<Id>, m: Id)
    requires Unmodified(now, t)
    requires m in t.matches && (t.matches[m].profileOne in ids || t.matches[m].profileTwo in ids)
    ensures m !in Keys(DeleteRows(now, Profiles, ids), Matches)
  {
  }

  lemma PairedMatchesGo(now: Tables, t: Tables, ids: set<Id>, m: Id)
    requires Unmodified(now, t)
    requires m in t.matches && (t.matches[m].userOne in ids || t.matches[m].userTwo in ids)
    ensures m !in Keys(DeleteRows(now, Users, ids), Matches)
  {
  }

  lemma SentMessagesGo(now: Tables, t: Tables, ids: set<Id>, g: Id)
    requires Unmodified(now, t)
    requires g in t.messages && t.messages[g].sender in ids
    ensures g !in Keys(DeleteRows(now, Users, ids), Messages)
  {
  }

  lemma ConversationOfClosingMatchGoes(t: Tables, s: Id, c: Id)
    requires c in t.conversations && t.conversations[c].matchId in ClosingMatches(t, s)
    ensures c !in Keys(Final(t, s), Conversations)
  {
    SurvivorsUnmodified(t, s, Position(Matches));
    ConversationsBelowGo(AfterDeletes(t, s, Position(Matches)), t, Closing(t, s, Matches), c);
    ReachedRowsGo(t, s, Matches, Conversations, c);
  }

  lemma MessageOfClosingSenderGoes(t: Tables, s: Id, g: Id)
    requires g in t.messages && t.messages[g].sender in ClosingUsers(t, s)
    ensures g !in Keys(Final(t, s), Messages)
  {
    SurvivorsUnmodified(t, s, Position(Users));
    SentMessagesGo(AfterDeletes(t, s, Position(Users)), t, Closing(t, s, Users), g);
    ReachedRowsGo(t, s, Users, Messages, g);
  }

  lemma MatchOfClosingInvitationGoes(t: Tables, s: Id, m: Id)
    requires m in t.matches && t.matches[m].invitation in ClosingInvitations(t, s)
    ensures m !in Keys(Final(t, s), Matches)
  {
    SurvivorsUnmodified(t, s, Position(Invitations));
    InvitedMatchesGo(AfterDeletes(t, s, Position(Invitations)), t, Closing(t, s, Invitations), m);
    ReachedRowsGo(t, s, Invitations, Matches, m);
  }

  lemma MatchOfClosingUserGoes(t: Tables, s: Id, m: Id)
    requires m in t.matches
             && (t.matches[m].userOne in ClosingUsers(t, s) || t.matches[m].userTwo in ClosingUsers(t, s))
    ensures m !in Keys(Final(t, s), Matches)
  {
    SurvivorsUnmodified(t, s, Position(Users));
    PairedMatchesGo(AfterDeletes(t, s, Position(Users)), t, Closing(t, s, Users), m);
    ReachedRowsGo(t, s, Users, Matches, m);
  }

  lemma MatchOfClosingProfileGoes(t: Tables, s: Id, m: Id)
    requires m in t.matches
    requires t.matches[m].profileOne in ClosingProfiles(t, s) || t.matches[m].profileTwo in ClosingProfiles(t, s)
    ensures m !in Keys(Final(t, s), Matches)
  {
    SurvivorsUnmodified(t, s, Position(Profiles));
    ProfiledMatchesGo(AfterDeletes(t, s, Position(Profiles)), t, Closing(t, s, Profiles), m);
    ReachedRowsGo(t, s, Profiles, Matches, m);
  }

  lemma ReachedMatchGoes(t: Tables, s: Id, m: Id)
    requires m in t.matches && MatchReached(t, s, t.matches[m])
    ensures m !in Keys(Final(t, s), Matches)
  {
    var row := t.matches[m];
    if row.invitation in ClosingInvitations(t, s) {
      MatchOfClosingInvitationGoes(t, s, m);
    } else if row.userOne in ClosingUsers(t, s) || row.userTwo in ClosingUsers(t, s) {
      MatchOfClosingUserGoes(t, s, m);
    } else {
      MatchOfClosingProfileGoes(t, s, m);
    }
  }

  // ---------------------------------------------------------------- the main results

  /** The fifteen statements and their cascades remove exactly the rows of the closing semester, in
      every table, if and only if its rows are closed under the declared cascades. */
  lemma ResetIsExactIffClosed(t: Tables, s: Id)
    ensures Final(t, s) == Remaining(t, s) <==> CascadeClosed(t, s)
  {
    if CascadeClosed(t, s) {
      ClosedIsExact(t, s);
    }
    if Final(t, s) == Remaining(t, s) {
      RemainingKeys(t, s);
      ExactIsClosed(t, s);
    }
  }

  lemma ClosedIsExact(t: Tables, s: Id)
    requires CascadeClosed(t, s)
    ensures Final(t, s) == Remaining(t, s)
  {
    ExactAfterDeletes(t, s, |DELETE_ORDER|);
    forall other ensures SameRows(Final(t, s), Remaining(t, s), other) {
      assert Position(other) < |DELETE_ORDER|;
    }
    SameEverywhere(Final(t, s), Remaining(t, s));
  }

  lemma RemainingKeys(t: Tables, s: Id)
    ensures Keys(Remaining(t, s), Conversations) == t.conversations.Keys - ClosingConversations(t, s)
    ensures Keys(Remaining(t, s), Matches) == t.matches.Keys - ClosingMatches(t, s)
    ensures Keys(Remaining(t, s), Messages) == t.messages.Keys - ClosingMessages(t, s)
  {
  }

  lemma ExactIsClosed(t: Tables, s: Id)
    requires Keys(Final(t, s), Conversations) == t.conversations.Keys - ClosingConversations(t, s)
    requires Keys(Final(t, s), Matches) == t.matches.Keys - ClosingMatches(t, s)
    requires Keys(Final(t, s), Messages) == t.messages.Keys - ClosingMessages(t, s)
    ensures CascadeClosed(t, s)
  {
    forall c | c in t.conversations && t.conversations[c].matchId in ClosingMatches(t, s)
      ensures c in ClosingConversations(t, s)
    {
      ConversationOfClosingMatchGoes(t, s, c);
    }
    forall m | m in t.matches && MatchReached(t, s, t.matches[m])
      ensures m in ClosingMatches(t, s)
    {
      ReachedMatchGoes(t, s, m);
    }
    forall g | g in t.messages && t.messages[g].sender in ClosingUsers(t, s)
      ensures g in ClosingMessages(t, s)
    {
      MessageOfClosingSenderGoes(t, s, g);
    }
  }

  lemma SelectedRowsGo(t: Tables, table: Table, ids: set<Id>)
    ensures ids !! Keys(DeleteRows(t, table, ids), table)
  {
  }

  lemma CountedRowsGo(t: Tables, s: Id, table: Table)
    ensures Closing(t, s, table) !! Keys(Final(t, s), table)
  {
    StatementEffect(t, s, table);
    SelectedRowsGo(AfterDeletes(t, s, Position(table)), table, Closing(t, s, table));
    GoneStaysGone(t, s, Position(table) + 1, |DELETE_ORDER|, table);
  }

  lemma OnlyUsersLoseUsers(t: Tables, table: Table, ids: set<Id>)
    ensures DeleteRows(t, table, ids).users == if table.Users? then t.users - ids else t.users
  {
  }

  /** Accounts that are not students of the semester survive on any database. */
  lemma UsersLeft(t: Tables, s: Id)
    ensures Final(t, s).users == t.users - ClosingUsers(t, s)
  {
    LaterTablesUntouched(t, s, Position(Users), Users);
    StatementEffect(t, s, Users);
    OnlyUsersLoseUsers(AfterDeletes(t, s, Position(Users)), Users, Closing(t, s, Users));
  }

  ghost predicate CohortGone(f: Tables, s: Id) {
    ClosingUsers(f, s) == {} && ClosingMatches(f, s) == {} && ClosingConversations(f, s) == {}
  }

  lemma NothingLeftOf(f: Tables, t: Tables, s: Id)
    requires Unmodified(f, t)
    requires ClosingUsers(t, s) !! Keys(f, Users)
    requires ClosingMatches(t, s) !! Keys(f, Matches)
    requires ClosingConversations(t, s) !! Keys(f, Conversations)
    ensures CohortGone(f, s)
  {
    assert ClosingUsers(f, s) <= ClosingUsers(t, s);
    assert ClosingConversations(f, s) <= ClosingConversations(t, s);
    assert ClosingMatches(f, s) <= ClosingMatches(t, s);
  }

  /** The post-delete verification cannot fail: on any database, nothing of the semester is left. */
  lemma NothingOfTheSemesterIsLeft(t: Tables, s: Id)
    ensures CohortGone(Final(t, s), s)
  {
    SurvivorsUnmodified(t, s, |DELETE_ORDER|);
    CountedRowsGo(t, s, Users);
    CountedRowsGo(t, s, Matches);
    CountedRowsGo(t, s, Conversations);
    NothingLeftOf(Final(t, s), t, s);
  }

  /** With the cohort's users, matches and conversations gone, no other table holds a row of it. */
  lemma NoRowWithoutItsCohort(t: Tables, s: Id, table: Table)
    requires CohortGone(t, s)
    ensures Closing(t, s, table) == {}
  {
    assert ClosingProfiles(t, s) == {};
  }

  // ---------------------------------------------------------------- well-formed databases are closed

  /** The foreign keys that cascade, plus what the stamping and sender triggers keep, plus what
      accepting an invitation writes: a match's invitation and profiles belong to its two users. */
  ghost predicate WellFormed(t: Tables) {
    && (forall m | m in t.matches :: MatchWellFormed(t, t.matches[m]))
    && (forall c | c in t.conversations ::
          && t.conversations[c].matchId in t.matches
          && t.conversations[c].semester == t.matches[t.conversations[c].matchId].semester)
    && (forall g | g in t.messages :: MessageWellFormed(t, t.messages[g]))
    && (forall i | i in t.invitations :: t.invitations[i].sender in t.users && t.invitations[i].recipient in t.users)
    && (forall p | p in t.profiles :: t.profiles[p] in t.users)
  }

  ghost predicate MatchWellFormed(t: Tables, m: Match) {
    && m.userOne in t.users && t.users[m.userOne].semester == Some(m.semester)
    && m.userTwo in t.users && t.users[m.userTwo].semester == Some(m.semester)
    && MatchBelongs(t, m)
  }

  /** What the acceptance of an invitation is trusted for; no trigger checks it. */
  predicate MatchBelongs(t: Tables, m: Match) {
    && m.invitation in t.invitations
    && {t.invitations[m.invitation].sender, t.invitations[m.invitation].recipient} == {m.userOne, m.userTwo}
    && m.profileOne in t.profiles && t.profiles[m.profileOne] == m.userOne
    && m.profileTwo in t.profiles && t.profiles[m.profileTwo] == m.userTwo
  }

  ghost predicate MessageWellFormed(t: Tables, g: Message) {
    && g.conversation in t.conversations
    && var c := t.conversations[g.conversation];
       c.matchId in t.matches && g.sender in {t.matches[c.matchId].userOne, t.matches[c.matchId].userTwo}
  }

  lemma MatchStaysInItsSemester(t: Tables, s: Id, m: Match)
    requires MatchWellFormed(t, m) && MatchReached(t, s, m)
    ensures m.semester == s
  {
    var invitation := t.invitations[m.invitation];
    assert invitation.sender in {m.userOne, m.userTwo} && invitation.recipient in {m.userOne, m.userTwo};
  }

  lemma MessageStaysInItsSemester(t: Tables, s: Id, g: Message)
    requires WellFormed(t) && MessageWellFormed(t, g) && g.sender in ClosingUsers(t, s)
    ensures g.conversation in ClosingConversations(t, s)
  {
    var c := t.conversations[g.conversation];
    assert MatchWellFormed(t, t.matches[c.matchId]);
  }

  lemma WellFormedIsClosed(t: Tables, s: Id)
    requires WellFormed(t)
    ensures CascadeClosed(t, s)
  {
    forall m | m in t.matches && MatchReached(t, s, t.matches[m])
      ensures m in ClosingMatches(t, s)
    {
      MatchStaysInItsSemester(t, s, t.matches[m]);
    }
    forall g | g in t.messages && t.messages[g].sender in ClosingUsers(t, s)
      ensures g in ClosingMessages(t, s)
    {
      MessageStaysInItsSemester(t, s, t.messages[g]);
    }
  }

  /** On a well-formed database a reset removes exactly the fifteen tables' rows of its semester. */
  lemma ResetRemovesExactlyTheSemester(t: Tables, s: Id)
    requires WellFormed(t)
    ensures Final(t, s) == Remaining(t, s)
  {
    WellFormedIsClosed(t, s);
    ResetIsExactIffClosed(t, s);
  }

  /** Two students of semester 2 are matched, but their match names the invitation that two students
      of semester 1 exchanged. */
  function StrayInvitation(): Tables {
    Tables(map[1 := User(USER, Some(1), true, false), 2 := User(USER, Some(1), true, false),
               3 := User(USER, Some(2), true, false), 4 := User(USER, Some(2), true, false)],
           map[], map[], map[13 := 3, 14 := 4], map[], map[], map[], map[], map[], map[],
           map[21 := Invitation(1, 2)],
           map[31 := Match(3, 4, 13, 14, 21, 2, false)],
           map[], map[], map[])
  }

  lemma StrayInvitationFacts()
    ensures 31 in StrayInvitation().matches && StrayInvitation().matches[31] == Match(3, 4, 13, 14, 21, 2, false)
    ensures 21 in ClosingInvitations(StrayInvitation(), 1)
  {
    assert 1 in ClosingUsers(StrayInvitation(), 1);
  }

  /** Without the trust placed in the acceptance of invitations the result is false: closing
      semester 1 silently takes a match of semester 2 with it. */
  lemma StrayInvitationLosesAMatch()
    ensures 31 in StrayInvitation().matches && StrayInvitation().matches[31].semester == 2
    ensures 31 !in Keys(Final(StrayInvitation(), 1), Matches)
  {
    StrayInvitationFacts();
    MatchOfClosingInvitationGoes(StrayInvitation(), 1, 31);
  }
}
