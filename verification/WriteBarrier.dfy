/** The advisory-lock barrier between writers of the cohort tables and a semester reset, over every
    interleaving of transactions. A transaction sees what is committed, overlaid with its own writes
    (READ COMMITTED). A row is locked by the transaction that updates, deletes or inserts it or has
    selected it FOR UPDATE, until that transaction ends. */
module WriteBarrier {
  import opened Wrappers
  import opened SemesterTables

  type Tx = nat

  /** Every row of the fifteen barrier tables. */
  datatype Key = Key(table: Table, id: Id)

  datatype Row =
    | UserRow(user: User)
    | OwnedRow(owner: Id)
    | InvitationRow(invitation: Invitation)
    | MatchRow(buddyMatch: Match)
    | ConversationRow(conversation: Conversation)
    | MessageRow(message: Message)
    | OutboxRow(recipient: Option<Id>)

  type Rows = map<Key, Row>
  type Writes = map<Key, Option<Row>>

  /** How the trigger asks for the shared lock: waiting (migration 0019) or raising (0020). */
  datatype Mode = Waiting | FailFast

  /** `locks` holds the row locks; `shared` and `exclusive` the two forms of the barrier. */
  datatype State = State(committed: Rows, pending: map<Tx, Writes>, locks: map<Key, Tx>, shared: set<Tx>,
                         exclusive: Option<Tx>)

  datatype Step =
    | Begin(tx: Tx)
    | Write(tx: Tx, key: Key, after: Option<Row>)
    | SelectForUpdate(tx: Tx, key: Key)
    | TryExclusive(tx: Tx)
    | Commit(tx: Tx)
    | Rollback(tx: Tx)

  /** The role that the trigger tests; only accounts have one. */
  function RoleOf(row: Row): Role {
    if row.UserRow? then row.user.role else USER
  }

  function Lookup(rows: Rows, key: Key): Option<Row> {
    if key in rows then Some(rows[key]) else None
  }

  function Overlay(rows: Rows, writes: Writes): Rows {
    map k | k in rows.Keys + writes.Keys && (k in writes ==> writes[k].Some?) ::
      if k in writes then writes[k].value else rows[k]
  }

  function View(st: State, tx: Tx): Rows
    requires tx in st.pending
  {
    Overlay(st.committed, st.pending[tx])
  }

  /** The test of acquire_semester_write_barrier: which row changes take the shared lock. */
  predicate NeedsLock(key: Key, before: Option<Row>, after: Option<Row>) {
    !(key.table.Users? &&
      (match (before, after)
       case (None, Some(new_)) => RoleOf(new_) != USER
       case (Some(old_), Some(new_)) => RoleOf(old_) != USER && RoleOf(new_) != USER
       case (Some(old_), None) => RoleOf(old_) != USER
       case (None, None) => false))
  }

  predicate RowLocked(st: State, tx: Tx, key: Key) {
    key in st.locks && st.locks[key] != tx
  }

  /** A lock holder never conflicts with itself. */
  predicate SharedAvailable(st: State, tx: Tx) {
    st.exclusive.None? || st.exclusive == Some(tx)
  }

  function Ended(st: State, tx: Tx): State {
    State(st.committed, st.pending - {tx}, map k | k in st.locks && st.locks[k] != tx :: st.locks[k], st.shared - {tx},
          if st.exclusive == Some(tx) then None else st.exclusive)
  }

  function WithRowLock(st: State, tx: Tx, key: Key): State {
    st.(locks := st.locks[key := tx])
  }

  function WithWrite(st: State, tx: Tx, key: Key, after: Option<Row>): State
    requires tx in st.pending
  {
    WithRowLock(st, tx, key).(pending := st.pending[tx := st.pending[tx][key := after]])
  }

  function WithShared(st: State, tx: Tx): State {
    st.(shared := st.shared + {tx})
  }

  /** The trigger, and the write behind it. An insert meets a row lock only here, at the unique index. */
  function Triggered(st: State, mode: Mode, tx: Tx, key: Key, after: Option<Row>): State
    requires tx in st.pending
  {
    var needed := NeedsLock(key, Lookup(View(st, tx), key), after);
    if needed && !SharedAvailable(st, tx) then
      if mode.Waiting? then st else Ended(st, tx)
    else
      var passed := if needed then WithShared(st, tx) else st;
      if RowLocked(passed, tx, key) then passed else WithWrite(passed, tx, key, after)
  }

  /** One step; a step that has to wait changes nothing more than the locks it has got, and an error
      ends its transaction. An UPDATE or DELETE locks its row before the trigger fires. */
  function Next(st: State, mode: Mode, step: Step): State {
    if step.Begin? then
      if step.tx in st.pending then st else st.(pending := st.pending[step.tx := map[]])
    else if step.tx !in st.pending then st
    else
      match step
      case Write(tx, key, after) =>
        var before := Lookup(View(st, tx), key);
        if before.None? && after.None? then st
        else if before.None? then Triggered(st, mode, tx, key, after)
        else if RowLocked(st, tx, key) then st
        else Triggered(WithRowLock(st, tx, key), mode, tx, key, after)
      case SelectForUpdate(tx, key) =>
        if key in View(st, tx) && !RowLocked(st, tx, key) then WithRowLock(st, tx, key) else st
      case TryExclusive(tx) =>
        if st.shared <= {tx} && SharedAvailable(st, tx) then st.(exclusive := Some(tx)) else Ended(st, tx)
      case Commit(tx) => Ended(st.(committed := View(st, tx)), tx)
      case Rollback(tx) => Ended(st, tx)
  }

  function Run(st: State, mode: Mode, steps: seq<Step>): State
    decreases |steps|
  {
    if steps == [] then st else Run(Next(st, mode, steps[0]), mode, steps[1..])
  }

  // ---------------------------------------------------------------- what the barrier protects

  predicate Guarded(key: Key, row: Row) {
    key.table.Users? ==> RoleOf(row) == USER
  }

  /** Student accounts and the rows of the fourteen other tables. */
  function GuardedPart(rows: Rows): Rows {
    map k | k in rows && Guarded(k, rows[k]) :: rows[k]
  }

  /** Only administrator accounts are written, on both sides of every change. */
  ghost predicate OnlyUnguardedWrites(rows: Rows, writes: Writes) {
    forall k | k in writes ::
      && k.table.Users?
      && (k in rows ==> RoleOf(rows[k]) != USER)
      && (writes[k].Some? ==> RoleOf(writes[k].value) != USER)
  }

  ghost predicate HoldsBarrier(st: State, tx: Tx) {
    tx in st.shared || st.exclusive == Some(tx)
  }

  ghost predicate Invariant(st: State) {
    && st.shared <= st.pending.Keys
    && (st.exclusive.Some? ==> st.exclusive.value in st.pending && st.shared <= {st.exclusive.value})
    && (forall k | k in st.locks :: st.locks[k] in st.pending)
    && (forall tx, k | tx in st.pending && k in st.pending[tx] :: k in st.locks && st.locks[k] == tx)
    && (forall tx | tx in st.pending && !HoldsBarrier(st, tx) :: OnlyUnguardedWrites(st.committed, st.pending[tx]))
  }

  lemma UnguardedWritesAreInvisible(rows: Rows, writes: Writes)
    requires OnlyUnguardedWrites(rows, writes)
    ensures GuardedPart(Overlay(rows, writes)) == GuardedPart(rows)
  {
  }

  lemma EndKeepsInvariant(st: State, tx: Tx)
    requires Invariant(st)
    ensures Invariant(Ended(st, tx))
  {
    var st' := Ended(st, tx);
    forall t | t in st'.pending && !HoldsBarrier(st', t)
      ensures OnlyUnguardedWrites(st'.committed, st'.pending[t])
    {
      assert !HoldsBarrier(st, t);
    }
  }

  /** Row locks keep a commit from changing the row behind another transaction's pending write. */
  lemma CommitKeepsInvariant(st: State, tx: Tx)
    requires Invariant(st) && tx in st.pending
    ensures Invariant(Ended(st.(committed := View(st, tx)), tx))
  {
    var st' := Ended(st.(committed := View(st, tx)), tx);
    forall t | t in st'.pending && !HoldsBarrier(st', t)
      ensures OnlyUnguardedWrites(st'.committed, st'.pending[t])
    {
      assert !HoldsBarrier(st, t);
      assert OnlyUnguardedWrites(st.committed, st.pending[t]);
      forall k | k in st'.pending[t] && k in st'.committed ensures RoleOf(st'.committed[k]) != USER {
        assert k in st.pending[t] && st.locks[k] == t;
        assert k !in st.pending[tx];
      }
    }
  }

  lemma ExemptWriteIsUnguarded(st: State, tx: Tx, key: Key, after: Option<Row>)
    requires tx in st.pending && OnlyUnguardedWrites(st.committed, st.pending[tx])
    requires var before := Lookup(View(st, tx), key);
             !NeedsLock(key, before, after) && (before.Some? || after.Some?)
    ensures OnlyUnguardedWrites(st.committed, st.pending[tx][key := after])
  {
    assert key.table.Users?;
    if key in st.committed && key !in st.pending[tx] {
      assert View(st, tx)[key] == st.committed[key];
    }
  }

  lemma RowLockKeepsInvariant(st: State, tx: Tx, key: Key)
    requires Invariant(st) && tx in st.pending && !RowLocked(st, tx, key)
    ensures Invariant(WithRowLock(st, tx, key))
  {
    var st' := WithRowLock(st, tx, key);
    forall t | t in st'.pending && !HoldsBarrier(st', t) ensures OnlyUnguardedWrites(st'.committed, st'.pending[t]) {
      assert !HoldsBarrier(st, t);
    }
  }

  lemma SharedKeepsInvariant(st: State, tx: Tx)
    requires Invariant(st) && tx in st.pending && SharedAvailable(st, tx)
    ensures Invariant(WithShared(st, tx))
  {
    var st' := WithShared(st, tx);
    forall t | t in st'.pending && !HoldsBarrier(st', t) ensures OnlyUnguardedWrites(st'.committed, st'.pending[t]) {
      assert !HoldsBarrier(st, t);
    }
  }

  lemma ExclusiveKeepsInvariant(st: State, tx: Tx)
    requires Invariant(st) && tx in st.pending && SharedAvailable(st, tx) && st.shared <= {tx}
    ensures Invariant(st.(exclusive := Some(tx)))
  {
    var st' := st.(exclusive := Some(tx));
    forall t | t in st'.pending && !HoldsBarrier(st', t) ensures OnlyUnguardedWrites(st'.committed, st'.pending[t]) {
      assert !HoldsBarrier(st, t);
    }
  }

  lemma PassedWriteKeepsInvariant(st: State, tx: Tx, key: Key, after: Option<Row>)
    requires Invariant(st) && tx in st.pending && !RowLocked(st, tx, key)
    requires var before := Lookup(View(st, tx), key);
             (before.Some? || after.Some?) && (NeedsLock(key, before, after) ==> HoldsBarrier(st, tx))
    ensures Invariant(WithWrite(st, tx, key, after))
  {
    var st' := WithWrite(st, tx, key, after);
    forall t | t in st'.pending && !HoldsBarrier(st', t) ensures OnlyUnguardedWrites(st'.committed, st'.pending[t]) {
      assert !HoldsBarrier(st, t) && OnlyUnguardedWrites(st.committed, st.pending[t]);
      if t == tx { ExemptWriteIsUnguarded(st, tx, key, after); }
    }
  }

  lemma TriggerKeepsInvariant(st: State, mode: Mode, tx: Tx, key: Key, after: Option<Row>)
    requires Invariant(st) && tx in st.pending && (Lookup(View(st, tx), key).Some? || after.Some?)
    ensures Invariant(Triggered(st, mode, tx, key, after))
  {
    EndKeepsInvariant(st, tx);
    var needed := NeedsLock(key, Lookup(View(st, tx), key), after);
    if !needed || SharedAvailable(st, tx) {
      if needed { SharedKeepsInvariant(st, tx); }
      var passed := if needed then WithShared(st, tx) else st;
      if !RowLocked(passed, tx, key) { PassedWriteKeepsInvariant(passed, tx, key, after); }
    }
  }

  lemma WriteKeepsInvariant(st: State, mode: Mode, tx: Tx, key: Key, after: Option<Row>)
    requires Invariant(st) && tx in st.pending
    ensures Invariant(Next(st, mode, Write(tx, key, after)))
  {
    var before := Lookup(View(st, tx), key);
    if before.Some? && !RowLocked(st, tx, key) {
      RowLockKeepsInvariant(st, tx, key);
      TriggerKeepsInvariant(WithRowLock(st, tx, key), mode, tx, key, after);
    } else if before.None? && after.Some? {
      TriggerKeepsInvariant(st, mode, tx, key, after);
    }
  }

  lemma StepKeepsInvariant(st: State, mode: Mode, step: Step)
    requires Invariant(st)
    ensures Invariant(Next(st, mode, step))
  {
    match step {
      case Begin(tx) =>
        var st' := Next(st, mode, step);
        forall t | t in st'.pending && !HoldsBarrier(st', t)
          ensures OnlyUnguardedWrites(st'.committed, st'.pending[t])
        {
          if t in st.pending { assert !HoldsBarrier(st, t); }
        }
      case Write(tx, key, after) =>
        if tx in st.pending { WriteKeepsInvariant(st, mode, tx, key, after); }
      case SelectForUpdate(tx, key) =>
        if tx in st.pending && !RowLocked(st, tx, key) { RowLockKeepsInvariant(st, tx, key); }
      case TryExclusive(tx) =>
        EndKeepsInvariant(st, tx);
        if tx in st.pending && SharedAvailable(st, tx) && st.shared <= {tx} { ExclusiveKeepsInvariant(st, tx); }
      case Commit(tx) => if tx in st.pending { CommitKeepsInvariant(st, tx); }
      case Rollback(tx) => EndKeepsInvariant(st, tx);
    }
  }

  lemma {:induction false} RunKeepsInvariant(st: State, mode: Mode, steps: seq<Step>)
    requires Invariant(st)
    ensures Invariant(Run(st, mode, steps))
    decreases |steps|
  {
    if steps != [] {
      StepKeepsInvariant(st, mode, steps[0]);
      RunKeepsInvariant(Next(st, mode, steps[0]), mode, steps[1..]);
    }
  }

  // ---------------------------------------------------------------- while a reset holds the barrier

  /** No other transaction has a student account or another barrier row pending. */
  ghost predicate OthersStayOut(st: State, reset: Tx) {
    forall tx | tx in st.pending && tx != reset :: OnlyUnguardedWrites(st.committed, st.pending[tx])
  }

  /** Taking the lock succeeds exactly when no other transaction holds it in either form, and from
      then on nobody else has an uncommitted write that the reset's counts could miss. */
  lemma TakingTheBarrier(st: State, mode: Mode, reset: Tx)
    requires Invariant(st) && reset in st.pending
    ensures var st' := Next(st, mode, TryExclusive(reset));
            && (st'.exclusive == Some(reset) <==> forall tx | tx != reset :: !HoldsBarrier(st, tx))
            && (st'.exclusive == Some(reset) ==> OthersStayOut(st', reset) && st'.committed == st.committed)
  {
    var st' := Next(st, mode, TryExclusive(reset));
    StepKeepsInvariant(st, mode, TryExclusive(reset));
    if st'.exclusive == Some(reset) {
      forall tx | tx in st'.pending && tx != reset
        ensures OnlyUnguardedWrites(st'.committed, st'.pending[tx])
      {
        assert !HoldsBarrier(st', tx);
      }
    } else if forall tx | tx != reset :: !HoldsBarrier(st, tx) {
      forall tx | tx in st.shared ensures tx == reset {
        assert HoldsBarrier(st, tx);
      }
      if st.exclusive.Some? { assert HoldsBarrier(st, st.exclusive.value); }
    }
  }

  ghost predicate EndsReset(step: Step, reset: Tx) {
    step.tx == reset && (step.Commit? || step.Rollback?)
  }

  /** What a step that does not end the reset leaves of it. */
  ghost predicate StillHeld(st: State, st': State, reset: Tx) {
    && st'.exclusive == Some(reset) && reset in st.pending && reset in st'.pending
    && GuardedPart(st'.committed) == GuardedPart(st.committed)
  }

  lemma TriggerWhileHeld(st: State, mode: Mode, tx: Tx, key: Key, after: Option<Row>, reset: Tx)
    requires Invariant(st) && st.exclusive == Some(reset) && tx in st.pending
    ensures StillHeld(st, Triggered(st, mode, tx, key, after), reset)
    ensures tx != reset ==> Triggered(st, mode, tx, key, after).pending[reset] == st.pending[reset]
  {
  }

  lemma WriteWhileHeld(st: State, mode: Mode, step: Step, reset: Tx)
    requires Invariant(st) && st.exclusive == Some(reset) && step.Write?
    ensures StillHeld(st, Next(st, mode, step), reset)
    ensures step.tx != reset ==> Next(st, mode, step).pending[reset] == st.pending[reset]
  {
    if step.tx in st.pending {
      TriggerWhileHeld(st, mode, step.tx, step.key, step.after, reset);
      if !RowLocked(st, step.tx, step.key) {
        var locked := WithRowLock(st, step.tx, step.key);
        RowLockKeepsInvariant(st, step.tx, step.key);
        TriggerWhileHeld(locked, mode, step.tx, step.key, step.after, reset);
      }
    }
  }

  lemma StepWhileHeld(st: State, mode: Mode, step: Step, reset: Tx)
    requires Invariant(st) && st.exclusive == Some(reset) && !EndsReset(step, reset)
    ensures StillHeld(st, Next(st, mode, step), reset)
    ensures step.tx != reset ==> Next(st, mode, step).pending[reset] == st.pending[reset]
  {
    if step.Write? {
      WriteWhileHeld(st, mode, step, reset);
    } else if step.Commit? && step.tx in st.pending {
      assert !HoldsBarrier(st, step.tx);
      UnguardedWritesAreInvisible(st.committed, st.pending[step.tx]);
    }
  }

  /** Over every interleaving, until the reset commits: it keeps the lock, no other transaction
      commits a change to a barrier row, and none has one pending. */
  lemma {:induction false} NobodyElseWrites(st: State, mode: Mode, steps: seq<Step>, reset: Tx)
    requires Invariant(st) && st.exclusive == Some(reset)
    requires forall k | 0 <= k < |steps| :: !EndsReset(steps[k], reset)
    ensures var st' := Run(st, mode, steps);
            && st'.exclusive == Some(reset)
            && GuardedPart(st'.committed) == GuardedPart(st.committed)
            && OthersStayOut(st', reset)
    decreases |steps|
  {
    if steps == [] {
      forall tx | tx in st.pending && tx != reset
        ensures OnlyUnguardedWrites(st.committed, st.pending[tx])
      {
        assert !HoldsBarrier(st, tx);
      }
    } else {
      StepKeepsInvariant(st, mode, steps[0]);
      StepWhileHeld(st, mode, steps[0], reset);
      NobodyElseWrites(Next(st, mode, steps[0]), mode, steps[1..], reset);
    }
  }

  // ---------------------------------------------------------------- the reset runs as if alone

  /** The barrier rows a transaction sees. */
  function GuardedView(st: State, tx: Tx): Rows
    requires tx in st.pending
  {
    GuardedPart(View(st, tx))
  }

  /** A reset decides by what it has seen: from the barrier rows it saw at each of its steps, the last
      of them now, it picks the next row to delete, or has finished. */
  type Program = seq<Rows> -> Option<Key>

  ghost predicate PicksSeenRows(program: Program) {
    forall seen: seq<Rows> | seen != [] && program(seen).Some? :: program(seen).value in seen[|seen| - 1]
  }

  /** What the program, having seen `seen`, sees to its end when nobody else is there: at each look one
      row less. */
  ghost function LoneSeen(program: Program, seen: seq<Rows>): (all: seq<Rows>)
    requires PicksSeenRows(program) && seen != []
    ensures seen <= all
    decreases |seen[|seen| - 1]|
  {
    var now := seen[|seen| - 1];
    match program(seen)
    case None => seen
    case Some(key) =>
      FewerRows(now, key);
      LoneSeen(program, seen + [now - {key}])
  }

  /** The barrier rows that the program leaves when nobody else is there. */
  ghost function Left(program: Program, seen: seq<Rows>): Rows
    requires PicksSeenRows(program) && seen != []
  {
    var all := LoneSeen(program, seen);
    all[|all| - 1]
  }

  lemma FewerRows(rows: Rows, key: Key)
    requires key in rows
    ensures |rows - {key}| < |rows|
  {
    assert (rows - {key}).Keys == rows.Keys - {key};
  }

  /** In the state `st`, where the reset has seen `seen`, this step is not the reset's, or it is the
      delete that its program picks. */
  ghost predicate FollowsProgram(program: Program, seen: seq<Rows>, step: Step, reset: Tx) {
    step.tx == reset ==> program(seen).Some? && step == Write(reset, program(seen).value, None)
  }

  /** What the reset has seen after one more step; a step that waits shows it nothing new. */
  function SeenAfter(st: State, st': State, seen: seq<Rows>, reset: Tx): seq<Rows>
    requires reset in st.pending && reset in st'.pending
  {
    if GuardedView(st', reset) == GuardedView(st, reset) then seen else seen + [GuardedView(st', reset)]
  }

  /** Every step of the reset in the interleaving follows its program. */
  ghost predicate ResetRun(program: Program, st: State, mode: Mode, steps: seq<Step>, seen: seq<Rows>, reset: Tx)
    decreases |steps|
  {
    && reset in st.pending
    && (steps != [] ==>
          && FollowsProgram(program, seen, steps[0], reset)
          && var st' := Next(st, mode, steps[0]);
             reset in st'.pending && ResetRun(program, st', mode, steps[1..], SeenAfter(st, st', seen, reset), reset))
  }

  ghost function Seen(program: Program, st: State, mode: Mode, steps: seq<Step>, seen: seq<Rows>, reset: Tx): seq<Rows>
    requires ResetRun(program, st, mode, steps, seen, reset)
    decreases |steps|
  {
    if steps == [] then seen
    else
      var st' := Next(st, mode, steps[0]);
      Seen(program, st', mode, steps[1..], SeenAfter(st, st', seen, reset), reset)
  }

  /** The reset has only deleted barrier rows so far, and sees what is left of them. */
  ghost predicate OnlyDeleted(st: State, reset: Tx) {
    && reset in st.pending
    && forall k | k in st.pending[reset] :: st.pending[reset][k].None? && k in GuardedPart(st.committed)
  }

  ghost predicate Underway(st: State, seen: seq<Rows>, reset: Tx) {
    && Invariant(st) && st.exclusive == Some(reset) && OnlyDeleted(st, reset)
    && seen != [] && seen[|seen| - 1] == GuardedView(st, reset)
  }

  lemma ViewIsWhatIsLeft(st: State, reset: Tx)
    requires OnlyDeleted(st, reset)
    ensures GuardedView(st, reset) == GuardedPart(st.committed) - st.pending[reset].Keys
  {
    var g := GuardedPart(st.committed);
    forall k ensures k in GuardedView(st, reset) <==> k in g && k !in st.pending[reset] {}
    forall k | k in GuardedView(st, reset) ensures GuardedView(st, reset)[k] == g[k] {}
  }

  /** The reset's own delete passes the barrier it holds; it waits exactly for a row lock of another. */
  lemma OwnDeletePasses(st: State, mode: Mode, reset: Tx, key: Key)
    requires Invariant(st) && st.exclusive == Some(reset) && OnlyDeleted(st, reset)
    requires key in GuardedView(st, reset)
    ensures Next(st, mode, Write(reset, key, None)) ==
            if RowLocked(st, reset, key) then st else WithShared(WithWrite(st, reset, key, None), reset)
  {
    assert key in View(st, reset) && Guarded(key, View(st, reset)[key]);
    assert st.locks[key := reset][key := reset] == st.locks[key := reset];
  }

  lemma OwnStepShowsOneRowLess(st: State, mode: Mode, reset: Tx, key: Key)
    requires Invariant(st) && st.exclusive == Some(reset) && OnlyDeleted(st, reset)
    requires key in GuardedView(st, reset)
    ensures var st' := Next(st, mode, Write(reset, key, None));
            && OnlyDeleted(st', reset)
            && GuardedView(st', reset) ==
               if RowLocked(st, reset, key) then GuardedView(st, reset) else GuardedView(st, reset) - {key}
  {
    var st' := Next(st, mode, Write(reset, key, None));
    OwnDeletePasses(st, mode, reset, key);
    ViewIsWhatIsLeft(st, reset);
    ViewIsWhatIsLeft(st', reset);
  }

  /** The next state is where the program alone would have the reset. */
  ghost predicate OnCourse(program: Program, st: State, st': State, seen: seq<Rows>, reset: Tx)
    requires PicksSeenRows(program) && seen != [] && reset in st.pending
  {
    && reset in st'.pending
    && var seen' := SeenAfter(st, st', seen, reset);
       Underway(st', seen', reset) && LoneSeen(program, seen') == LoneSeen(program, seen)
  }

  lemma OwnStepStaysOnCourse(program: Program, st: State, mode: Mode, step: Step, seen: seq<Rows>, reset: Tx)
    requires PicksSeenRows(program) && Underway(st, seen, reset) && step.tx == reset
    requires FollowsProgram(program, seen, step, reset)
    ensures OnCourse(program, st, Next(st, mode, step), seen, reset)
  {
    StepKeepsInvariant(st, mode, step);
    StepWhileHeld(st, mode, step, reset);
    OwnStepShowsOneRowLess(st, mode, reset, step.key);
    UnderwayAfterOwnStep(program, st, Next(st, mode, step), seen, reset);
  }

  lemma OtherStepStaysOnCourse(program: Program, st: State, mode: Mode, step: Step, seen: seq<Rows>, reset: Tx)
    requires PicksSeenRows(program) && Underway(st, seen, reset) && step.tx != reset
    ensures OnCourse(program, st, Next(st, mode, step), seen, reset)
  {
    StepKeepsInvariant(st, mode, step);
    StepWhileHeld(st, mode, step, reset);
    SameViewAfterOthers(st, Next(st, mode, step), reset);
  }

  lemma StepStaysOnCourse(program: Program, st: State, mode: Mode, step: Step, seen: seq<Rows>, reset: Tx)
    requires PicksSeenRows(program) && Underway(st, seen, reset) && FollowsProgram(program, seen, step, reset)
    ensures OnCourse(program, st, Next(st, mode, step), seen, reset)
  {
    if step.tx == reset {
      OwnStepStaysOnCourse(program, st, mode, step, seen, reset);
    } else {
      OtherStepStaysOnCourse(program, st, mode, step, seen, reset);
    }
  }

  lemma SameViewAfterOthers(st: State, st': State, reset: Tx)
    requires OnlyDeleted(st, reset) && reset in st'.pending && st'.pending[reset] == st.pending[reset]
    requires GuardedPart(st'.committed) == GuardedPart(st.committed)
    ensures OnlyDeleted(st', reset) && GuardedView(st', reset) == GuardedView(st, reset)
  {
    ViewIsWhatIsLeft(st, reset);
    ViewIsWhatIsLeft(st', reset);
  }

  lemma UnderwayAfterOwnStep(program: Program, st: State, st': State, seen: seq<Rows>, reset: Tx)
    requires PicksSeenRows(program) && Underway(st, seen, reset) && program(seen).Some?
    requires Invariant(st') && st'.exclusive == Some(reset) && OnlyDeleted(st', reset)
    requires GuardedView(st', reset) == GuardedView(st, reset) ||
             GuardedView(st', reset) == GuardedView(st, reset) - {program(seen).value}
    ensures var seen' := SeenAfter(st, st', seen, reset);
            Underway(st', seen', reset) && LoneSeen(program, seen') == LoneSeen(program, seen)
  {
  }

  lemma {:induction false} RunStaysUnderway(program: Program, st: State, mode: Mode, steps: seq<Step>,
                                            seen: seq<Rows>, reset: Tx)
    requires PicksSeenRows(program) && Underway(st, seen, reset)
    requires ResetRun(program, st, mode, steps, seen, reset)
    ensures Underway(Run(st, mode, steps), Seen(program, st, mode, steps, seen, reset), reset)
    ensures LoneSeen(program, Seen(program, st, mode, steps, seen, reset)) == LoneSeen(program, seen)
    decreases |steps|
  {
    if steps != [] {
      var st' := Next(st, mode, steps[0]);
      StepStaysOnCourse(program, st, mode, steps[0], seen, reset);
      RunStaysUnderway(program, st', mode, steps[1..], SeenAfter(st, st', seen, reset), reset);
    }
  }

  /** At every point of the interleaving the reset has seen what its program sees up to there when nobody
      else is there, and the barrier rows before it are the last of that. */
  lemma SeesAsIfAlone(program: Program, st: State, mode: Mode, steps: seq<Step>, reset: Tx)
    requires PicksSeenRows(program)
    requires Invariant(st) && st.exclusive == Some(reset) && st.pending[reset] == map[]
    requires ResetRun(program, st, mode, steps, [GuardedPart(st.committed)], reset)
    ensures var seen := Seen(program, st, mode, steps, [GuardedPart(st.committed)], reset);
            && seen <= LoneSeen(program, [GuardedPart(st.committed)])
            && SeesLast(Run(st, mode, steps), seen, reset)
  {
    StartsUnderway(st, reset);
    RunStaysUnderway(program, st, mode, steps, [GuardedPart(st.committed)], reset);
    UnderwaySeesLast(Run(st, mode, steps), Seen(program, st, mode, steps, [GuardedPart(st.committed)], reset), reset);
  }

  ghost predicate SeesLast(st: State, seen: seq<Rows>, reset: Tx) {
    reset in st.pending && seen != [] && seen[|seen| - 1] == GuardedPart(View(st, reset))
  }

  lemma UnderwaySeesLast(st: State, seen: seq<Rows>, reset: Tx)
    requires Underway(st, seen, reset)
    ensures SeesLast(st, seen, reset)
  {
  }

  lemma StartsUnderway(st: State, reset: Tx)
    requires Invariant(st) && st.exclusive == Some(reset) && st.pending[reset] == map[]
    ensures Underway(st, [GuardedPart(st.committed)], reset)
  {
    ViewIsWhatIsLeft(st, reset);
  }

  /** Every step of the reset in this interleaving is one of its program, up to the last. */
  ghost predicate WholeRun(program: Program, st: State, mode: Mode, steps: seq<Step>, reset: Tx) {
    var seen := [GuardedPart(st.committed)];
    && ResetRun(program, st, mode, steps, seen, reset)
    && program(Seen(program, st, mode, steps, seen, reset)).None?
  }

  /** The reset takes the barrier in a database of which the guarded rows are `GuardedPart(st.committed)`.
      Whatever the other transactions do before its program has finished, it then commits exactly the
      guarded rows that the program leaves when nobody else is there. */
  lemma ResetCommitsAsIfAlone(program: Program, st: State, mode: Mode, steps: seq<Step>, reset: Tx)
    requires PicksSeenRows(program)
    requires Invariant(st) && st.exclusive == Some(reset) && st.pending[reset] == map[]
    requires WholeRun(program, st, mode, steps, reset)
    ensures GuardedPart(Next(Run(st, mode, steps), mode, Commit(reset)).committed) ==
            Left(program, [GuardedPart(st.committed)])
  {
    StartsUnderway(st, reset);
    RunStaysUnderway(program, st, mode, steps, [GuardedPart(st.committed)], reset);
  }

  // ---------------------------------------------------------------- the reset really alone

  /** The database with nobody but the reset in it. */
  function Alone(rows: Rows, reset: Tx): State {
    State(rows, map[reset := map[]], map[], {}, Some(reset))
  }

  ghost function LoneSteps(program: Program, seen: seq<Rows>, reset: Tx): seq<Step>
    requires PicksSeenRows(program) && seen != []
    decreases |seen[|seen| - 1]|
  {
    var now := seen[|seen| - 1];
    match program(seen)
    case None => []
    case Some(key) =>
      FewerRows(now, key);
      [Write(reset, key, None)] + LoneSteps(program, seen + [now - {key}], reset)
  }

  lemma LoneStep(program: Program, st: State, mode: Mode, seen: seq<Rows>, reset: Tx)
    requires PicksSeenRows(program) && Underway(st, seen, reset) && st.pending.Keys == {reset}
    requires program(seen).Some?
    ensures var key := program(seen).value;
            var st' := Next(st, mode, Write(reset, key, None));
            var seen' := seen + [seen[|seen| - 1] - {key}];
            && st'.pending.Keys == {reset} && Underway(st', seen', reset)
            && SeenAfter(st, st', seen, reset) == seen'
  {
    var key := program(seen).value;
    OwnDeletePasses(st, mode, reset, key);
    OwnStepShowsOneRowLess(st, mode, reset, key);
    StepStaysOnCourse(program, st, mode, Write(reset, key, None), seen, reset);
    assert key !in GuardedView(st, reset) - {key};
  }

  lemma TailOfTake<T>(first: T, rest: seq<T>, k: nat)
    requires 0 < k <= 1 + |rest|
    ensures ([first] + rest)[..k][1..] == rest[..k - 1]
  {
  }

  lemma RestOfLoneSteps(program: Program, seen: seq<Rows>, reset: Tx, k: nat)
    requires PicksSeenRows(program) && seen != [] && 0 < k <= |LoneSteps(program, seen, reset)|
    ensures program(seen).Some?
    ensures var (now, lone) := (seen[|seen| - 1], LoneSteps(program, seen, reset));
            var rest := LoneSteps(program, seen + [now - {program(seen).value}], reset);
            && |lone| == 1 + |rest| && lone[0] == Write(reset, program(seen).value, None)
            && lone[..k][1..] == rest[..k - 1]
  {
    if program(seen).Some? {
      var (now, lone) := (seen[|seen| - 1], LoneSteps(program, seen, reset));
      FewerRows(now, program(seen).value);
      var rest := LoneSteps(program, seen + [now - {program(seen).value}], reset);
      assert lone == [lone[0]] + rest;
      TailOfTake(lone[0], rest, k);
    }
  }

  /** The first `k` steps of a reset that is alone follow its program, each with a new look, and all of
      them finish it. */
  lemma {:induction false} LoneRunFollows(program: Program, st: State, mode: Mode, seen: seq<Rows>, reset: Tx, k: nat)
    requires PicksSeenRows(program) && Underway(st, seen, reset) && st.pending.Keys == {reset}
    requires k <= |LoneSteps(program, seen, reset)|
    ensures var lone := LoneSteps(program, seen, reset);
            && ResetRun(program, st, mode, lone[..k], seen, reset)
            && var later := Seen(program, st, mode, lone[..k], seen, reset);
               |later| == |seen| + k && (k == |lone| ==> program(later).None?)
    decreases k
  {
    var steps := LoneSteps(program, seen, reset)[..k];
    if k == 0 {
      assert steps == [];
    } else {
      RestOfLoneSteps(program, seen, reset, k);
      var key := program(seen).value;
      var (st', seen') := (Next(st, mode, Write(reset, key, None)), seen + [seen[|seen| - 1] - {key}]);
      assert steps[0] == Write(reset, key, None) && steps[1..] == LoneSteps(program, seen', reset)[..k - 1];
      LoneStep(program, st, mode, seen, reset);
      LoneRunFollows(program, st', mode, seen', reset, k - 1);
    }
  }

  lemma {:induction false} OneStepForEachLook(program: Program, seen: seq<Rows>, reset: Tx)
    requires PicksSeenRows(program) && seen != []
    ensures |LoneSeen(program, seen)| == |seen| + |LoneSteps(program, seen, reset)|
    decreases |seen[|seen| - 1]|
  {
    if program(seen).Some? {
      FewerRows(seen[|seen| - 1], program(seen).value);
      OneStepForEachLook(program, seen + [seen[|seen| - 1] - {program(seen).value}], reset);
    }
  }

  lemma AloneStartsUnderway(rows: Rows, reset: Tx)
    ensures Invariant(Alone(rows, reset)) && Underway(Alone(rows, reset), [GuardedPart(rows)], reset)
  {
    assert OnlyUnguardedWrites(rows, map[]);
    StartsUnderway(Alone(rows, reset), reset);
  }

  lemma LoneRunFinishes(program: Program, rows: Rows, mode: Mode, reset: Tx)
    requires PicksSeenRows(program)
    ensures WholeRun(program, Alone(rows, reset), mode, LoneSteps(program, [GuardedPart(rows)], reset), reset)
  {
    AloneStartsUnderway(rows, reset);
    var lone := LoneSteps(program, [GuardedPart(rows)], reset);
    LoneRunFollows(program, Alone(rows, reset), mode, [GuardedPart(rows)], reset, |lone|);
    assert lone[..|lone|] == lone;
  }

  lemma LoneRunCommits(program: Program, rows: Rows, mode: Mode, reset: Tx)
    requires PicksSeenRows(program)
    ensures var lone := LoneSteps(program, [GuardedPart(rows)], reset);
            GuardedPart(Next(Run(Alone(rows, reset), mode, lone), mode, Commit(reset)).committed) ==
            Left(program, [GuardedPart(rows)])
  {
    AloneStartsUnderway(rows, reset);
    LoneRunFinishes(program, rows, mode, reset);
    ResetCommitsAsIfAlone(program, Alone(rows, reset), mode, LoneSteps(program, [GuardedPart(rows)], reset), reset);
  }

  /** After `k` steps alone the reset sees look `k` of its program. */
  lemma LoneRunSees(program: Program, rows: Rows, mode: Mode, reset: Tx, k: nat)
    requires PicksSeenRows(program) && k <= |LoneSteps(program, [GuardedPart(rows)], reset)|
    ensures var alone := Run(Alone(rows, reset), mode, LoneSteps(program, [GuardedPart(rows)], reset)[..k]);
            var looks := LoneSeen(program, [GuardedPart(rows)]);
            k < |looks| && reset in alone.pending && GuardedView(alone, reset) == looks[k]
  {
    AloneStartsUnderway(rows, reset);
    LoneRunFollows(program, Alone(rows, reset), mode, [GuardedPart(rows)], reset, k);
    SeesAsIfAlone(program, Alone(rows, reset), mode, LoneSteps(program, [GuardedPart(rows)], reset)[..k], reset);
  }

  ghost predicate SameGuardedViews(st: State, st': State, reset: Tx) {
    reset in st.pending && reset in st'.pending && GuardedView(st, reset) == GuardedView(st', reset)
  }

  /** At every point of the interleaving, the reset that would run alone from the moment the lock was
      taken comes to a point where it sees the same guarded rows: after one step for every row gone. */
  lemma SeesWhatALoneRunSees(program: Program, st: State, mode: Mode, steps: seq<Step>, reset: Tx)
    requires PicksSeenRows(program)
    requires Invariant(st) && st.exclusive == Some(reset) && st.pending[reset] == map[]
    requires ResetRun(program, st, mode, steps, [GuardedPart(st.committed)], reset)
    ensures var k := |Seen(program, st, mode, steps, [GuardedPart(st.committed)], reset)| - 1;
            var lone := LoneSteps(program, [GuardedPart(st.committed)], reset);
            && 0 <= k <= |lone|
            && SameGuardedViews(Run(st, mode, steps), Run(Alone(st.committed, reset), mode, lone[..k]), reset)
  {
    var first := [GuardedPart(st.committed)];
    var k := |Seen(program, st, mode, steps, first, reset)| - 1;
    SeesAsIfAlone(program, st, mode, steps, reset);
    OneStepForEachLook(program, first, reset);
    LoneRunSees(program, st.committed, mode, reset, k);
  }

  /** So an interleaved reset and one that runs alone from the moment the lock was taken commit the same
      guarded rows. */
  lemma InterleavedLikeAlone(program: Program, st: State, mode: Mode, steps: seq<Step>, reset: Tx)
    requires PicksSeenRows(program)
    requires Invariant(st) && st.exclusive == Some(reset) && st.pending[reset] == map[]
    requires WholeRun(program, st, mode, steps, reset)
    ensures var lone := LoneSteps(program, [GuardedPart(st.committed)], reset);
            var mixed := Next(Run(st, mode, steps), mode, Commit(reset));
            var alone := Next(Run(Alone(st.committed, reset), mode, lone), mode, Commit(reset));
            GuardedPart(mixed.committed) == GuardedPart(alone.committed)
  {
    ResetCommitsAsIfAlone(program, st, mode, steps, reset);
    LoneRunCommits(program, st.committed, mode, reset);
  }

  // ---------------------------------------------------------------- when the reset waits for a row

  /** Every row lock is that of a write. */
  ghost predicate LocksAreWrites(st: State) {
    forall k | k in st.locks :: st.locks[k] in st.pending && k in st.pending[st.locks[k]]
  }

  /** A write that the trigger lets through leaves no lock without its write. */
  lemma FailFastTriggerLocksAreWrites(st: State, tx: Tx, key: Key, after: Option<Row>)
    requires tx in st.pending && !RowLocked(st, tx, key)
    requires forall k | k in st.locks && k != key :: st.locks[k] in st.pending && k in st.pending[st.locks[k]]
    ensures LocksAreWrites(Triggered(st, FailFast, tx, key, after))
  {
  }

  lemma FailFastLocksAreWrites(st: State, step: Step)
    requires Invariant(st) && LocksAreWrites(st) && !step.SelectForUpdate?
    ensures LocksAreWrites(Next(st, FailFast, step))
  {
    if step.Write? && step.tx in st.pending {
      if !RowLocked(st, step.tx, step.key) {
        FailFastTriggerLocksAreWrites(st, step.tx, step.key, step.after);
        FailFastTriggerLocksAreWrites(WithRowLock(st, step.tx, step.key), step.tx, step.key, step.after);
      }
    }
  }

  lemma {:induction false} FailFastRunLocksAreWrites(st: State, steps: seq<Step>)
    requires Invariant(st) && LocksAreWrites(st) && forall k | 0 <= k < |steps| :: !steps[k].SelectForUpdate?
    ensures LocksAreWrites(Run(st, FailFast, steps))
    decreases |steps|
  {
    if steps != [] {
      StepKeepsInvariant(st, FailFast, steps[0]);
      FailFastLocksAreWrites(st, steps[0]);
      FailFastRunLocksAreWrites(Next(st, FailFast, steps[0]), steps[1..]);
    }
  }

  lemma LockedRowIsUnguarded(st: State, reset: Tx, key: Key)
    requires Invariant(st) && LocksAreWrites(st) && st.exclusive == Some(reset) && RowLocked(st, reset, key)
    ensures key !in GuardedPart(st.committed)
  {
    assert !HoldsBarrier(st, st.locks[key]);
    assert OnlyUnguardedWrites(st.committed, st.pending[st.locks[key]]);
  }

  lemma FailFastDeleteGoesThrough(st: State, reset: Tx, key: Key)
    requires Invariant(st) && LocksAreWrites(st) && st.exclusive == Some(reset) && OnlyDeleted(st, reset)
    requires key in GuardedView(st, reset)
    ensures !RowLocked(st, reset, key)
    ensures GuardedView(Next(st, FailFast, Write(reset, key, None)), reset) == GuardedView(st, reset) - {key}
  {
    ViewIsWhatIsLeft(st, reset);
    if RowLocked(st, reset, key) { LockedRowIsUnguarded(st, reset, key); }
    OwnStepShowsOneRowLess(st, FailFast, reset, key);
  }

  /** In the fail-fast form, over every interleaving in which no row is selected FOR UPDATE, no delete of
      the reset ever waits. */
  lemma FailFastResetNeverWaits(st: State, steps: seq<Step>, reset: Tx, key: Key)
    requires Invariant(st) && LocksAreWrites(st) && forall k | 0 <= k < |steps| :: !steps[k].SelectForUpdate?
    requires var now := Run(st, FailFast, steps);
             now.exclusive == Some(reset) && OnlyDeleted(now, reset) && key in GuardedView(now, reset)
    ensures var now := Run(st, FailFast, steps);
            && !RowLocked(now, reset, key)
            && GuardedView(Next(now, FailFast, Write(reset, key, None)), reset) == GuardedView(now, reset) - {key}
  {
    RunKeepsInvariant(st, FailFast, steps);
    FailFastRunLocksAreWrites(st, steps);
    FailFastDeleteGoesThrough(Run(st, FailFast, steps), reset, key);
  }

  /** In the waiting form a writer that meets the reset on a row that the reset has yet to delete locks
      that row and waits; the reset then waits for the row, and neither gets on. */
  lemma WaitingWriterBlocksTheReset(st: State, reset: Tx, tx: Tx, key: Key, after: Option<Row>)
    requires Invariant(st) && st.exclusive == Some(reset) && OnlyDeleted(st, reset) && tx in st.pending && tx != reset
    requires key in GuardedView(st, reset) && key in View(st, tx) && key !in st.locks
    requires NeedsLock(key, Lookup(View(st, tx), key), after)
    ensures var blocked := Next(st, Waiting, Write(tx, key, after));
            && blocked == WithRowLock(st, tx, key)
            && Next(blocked, Waiting, Write(reset, key, None)) == blocked
            && Next(blocked, Waiting, Write(tx, key, after)) == blocked
  {
    assert st.locks[key := tx][key := tx] == st.locks[key := tx];
  }

  /** A student account, and nobody at work. */
  function OneStudent(): State {
    State(map[Key(Users, 1) := UserRow(User(USER, Some(1), true, false))], map[], map[], {}, None)
  }

  /** The reset takes the barrier; then a writer wants to deactivate the account. */
  function WriterAfterReset(): seq<Step> {
    [Begin(0), TryExclusive(0), Begin(2), Write(2, Key(Users, 1), Some(UserRow(User(USER, Some(1), false, false))))]
  }

  lemma AfterFirst(st: State, mode: Mode, first: Step, rest: seq<Step>)
    ensures Run(st, mode, [first] + rest) == Run(Next(st, mode, first), mode, rest)
  {
    assert ([first] + rest)[1..] == rest;
  }

  lemma AfterFour(st: State, mode: Mode, a: Step, b: Step, c: Step, d: Step)
    ensures Run(st, mode, [a, b, c, d]) == Next(Next(Next(Next(st, mode, a), mode, b), mode, c), mode, d)
  {
    assert [a, b, c, d] == [a] + ([b] + ([c] + ([d] + [])));
    AfterFirst(st, mode, a, [b] + ([c] + ([d] + [])));
    AfterFirst(Next(st, mode, a), mode, b, [c] + ([d] + []));
    AfterFirst(Next(Next(st, mode, a), mode, b), mode, c, [d] + []);
    AfterFirst(Next(Next(Next(st, mode, a), mode, b), mode, c), mode, d, []);
  }

  /** From nobody at work four steps lead there: the writer cannot go on, and the reset cannot delete the
      account. */
  lemma WriterAndResetAreStuck()
    ensures Invariant(OneStudent())
    ensures var stuck := Run(OneStudent(), Waiting, WriterAfterReset());
            && stuck.exclusive == Some(0) && Key(Users, 1) in GuardedPart(stuck.committed)
            && Next(stuck, Waiting, WriterAfterReset()[3]) == stuck
            && Next(stuck, Waiting, Write(0, Key(Users, 1), None)) == stuck
  {
    var steps := WriterAfterReset();
    AfterFour(OneStudent(), Waiting, steps[0], steps[1], steps[2], steps[3]);
    var key := Key(Users, 1);
    var held := State(OneStudent().committed, map[0 := map[], 2 := map[]], map[], {}, Some(0));
    assert Next(Next(Next(OneStudent(), Waiting, steps[0]), Waiting, steps[1]), Waiting, steps[2]) == held;
    assert OnlyUnguardedWrites(held.committed, map[]);
    assert View(held, 0)[key] == held.committed[key] && View(held, 2)[key] == held.committed[key];
    WaitingWriterBlocksTheReset(held, 0, 2, key, steps[3].after);
  }

  /** In the fail-fast form that writer is undone, and the reset deletes the row. */
  lemma FailingWriterGivesWay(st: State, reset: Tx, tx: Tx, key: Key, after: Option<Row>)
    requires Invariant(st) && st.exclusive == Some(reset) && OnlyDeleted(st, reset) && tx in st.pending && tx != reset
    requires key in GuardedView(st, reset) && key in View(st, tx) && key !in st.locks
    requires NeedsLock(key, Lookup(View(st, tx), key), after)
    ensures var undone := Next(st, FailFast, Write(tx, key, after));
            && undone == Ended(st, tx) && key in GuardedView(undone, reset)
            && GuardedView(Next(undone, FailFast, Write(reset, key, None)), reset) == GuardedView(st, reset) - {key}
  {
    assert Ended(WithRowLock(st, tx, key), tx).locks == Ended(st, tx).locks;
    EndKeepsInvariant(st, tx);
    OwnStepShowsOneRowLess(Ended(st, tx), FailFast, reset, key);
  }

  /** In the fail-fast form a writer that meets a reset raises: its whole transaction is undone. In the
      waiting form it has changed no row. */
  lemma WriterRaisesDuringReset(st: State, reset: Tx, tx: Tx, key: Key, after: Option<Row>)
    requires Invariant(st) && st.exclusive == Some(reset) && tx in st.pending && tx != reset
    requires NeedsLock(key, Lookup(View(st, tx), key), after) && (key in View(st, tx) || after.Some?)
    requires !RowLocked(st, tx, key)
    ensures Next(st, FailFast, Write(tx, key, after)) == Ended(st, tx)
    ensures var waiting := Next(st, Waiting, Write(tx, key, after));
            waiting.committed == st.committed && waiting.pending == st.pending
  {
  }
}
