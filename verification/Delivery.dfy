/** The outbox, its workers and an idempotent mail provider together: which keys are ever sent.

    A delivery is one job of one worker invocation. The provider is the set of the idempotency keys it
    has accepted; accepting a key again changes nothing. Bodies of emails are not modelled. */
module Delivery {
  import opened Wrappers
  import opened EmailOutbox

  datatype JobId = JobId(invocation: nat, row: Id)

  /** Where a delivery stands: claimed, answered by the provider, or about to report a failure. */
  datatype Phase = Claimed | Answered(message: string) | Failing(retryable: bool, code: string)

  datatype Job = Job(worker: string, key: string, phase: Phase)

  datatype Send = Send(row: Id, key: string)

  datatype State = State(rows: Rows, jobs: map<JobId, Job>, accepted: set<string>, sends: seq<Send>)

  datatype Step =
    | Enqueue(row: Id, key: string, now: int)
    | ClaimBatch(invocation: nat, worker: string, now: int, locked: set<Id>, batch: int, ids: set<Id>)
    | FailsUnsent(job: JobId, retryable: bool, code: string)
    | SendAnswered(job: JobId, message: string)
    | SendUnanswered(job: JobId, reached: bool, retryable: bool, code: string)
    | Complete(job: JobId, now: int)
    | CompleteUnanswered(job: JobId, now: int, committed: bool)
    | ReportFailure(job: JobId, now: int)
    | Crash(job: JobId)

  /** JavaScript's String.prototype.trim. */
  predicate IsWhitespace(c: char) {
    c in " \t\n\r" || c as int in {11, 12, 0xA0, 0x1680, 0x2028, 0x2029, 0x202F, 0x205F, 0x3000, 0xFEFF} ||
    0x2000 <= c as int <= 0x200A
  }

  function Trim(s: string): string {
    if s != [] && IsWhitespace(s[0]) then Trim(s[1..])
    else if s != [] && IsWhitespace(s[|s| - 1]) then Trim(s[..|s| - 1])
    else s
  }

  predicate KeySendable(key: string) {
    1 <= |Trim(key)| <= 256 && NoLineBreak(Trim(key))
  }

  predicate InPhase(st: State, job: JobId, claimed: bool) {
    job in st.jobs && (st.jobs[job].phase.Claimed? <==> claimed)
  }

  function Moved(st: State, job: JobId, phase: Phase): State
    requires job in st.jobs
  {
    st.(jobs := st.jobs[job := st.jobs[job].(phase := phase)])
  }

  function JobsOf(rows: Rows, invocation: nat, worker: string, ids: set<Id>): map<JobId, Job>
    requires ids <= rows.Keys
  {
    map j | j in (set id | id in ids :: JobId(invocation, id)) :: Job(worker, rows[j.row].idempotencyKey, Claimed)
  }

  /** One step; a step that its delivery cannot take changes nothing. A key the provider client
      refuses is reported as a permanent failure before anything is sent. */
  ghost function Next(st: State, step: Step): State {
    match step
    case Enqueue(row, key, now) =>
      st.(rows := Enqueued(st.rows, row, key, now))
    case ClaimBatch(invocation, worker, now, locked, batch, ids) =>
      if && WorkerIdValid(worker) && 1 <= batch <= 100 && FirstCandidates(st.rows, now, locked, batch, ids)
         && forall j | j in st.jobs :: j.invocation != invocation
      then
        st.(rows := Leased(st.rows, ids, worker, now), jobs := st.jobs + JobsOf(st.rows, invocation, worker, ids))
      else st
    case FailsUnsent(job, retryable, code) =>
      if InPhase(st, job, true) then Moved(st, job, Failing(retryable, code)) else st
    case SendAnswered(job, message) =>
      if !InPhase(st, job, true) then st
      else if !KeySendable(st.jobs[job].key) then Moved(st, job, Failing(false, "invalid_idempotency_key"))
      else
        var key := Trim(st.jobs[job].key);
        Moved(st, job, Answered(message)).(accepted := st.accepted + {key}, sends := st.sends + [Send(job.row, key)])
    case SendUnanswered(job, reached, retryable, code) =>
      if !InPhase(st, job, true) then st
      else if !KeySendable(st.jobs[job].key) then Moved(st, job, Failing(false, "invalid_idempotency_key"))
      else
        var key := Trim(st.jobs[job].key);
        Moved(st, job, Failing(retryable, code))
          .(accepted := if reached then st.accepted + {key} else st.accepted, sends := st.sends + [Send(job.row, key)])
    case Complete(job, now) =>
      if InPhase(st, job, false) && st.jobs[job].phase.Answered? then
        st.(rows := Completed(st.rows, job.row, st.jobs[job].worker, st.jobs[job].phase.message, now).0,
            jobs := st.jobs - {job})
      else st
    case CompleteUnanswered(job, now, committed) =>
      if InPhase(st, job, false) && st.jobs[job].phase.Answered? then
        Moved(st, job, Failing(true, "worker_unavailable"))
          .(rows :=
              if committed then Completed(st.rows, job.row, st.jobs[job].worker, st.jobs[job].phase.message, now).0
              else st.rows)
      else st
    case ReportFailure(job, now) =>
      if InPhase(st, job, false) && st.jobs[job].phase.Failing? then
        var (worker, phase) := (st.jobs[job].worker, st.jobs[job].phase);
        st.(rows := FailedDelivery(st.rows, job.row, worker, phase.retryable, phase.code, now).0,
            jobs := st.jobs - {job})
      else st
    case Crash(job) => st.(jobs := st.jobs - {job})
  }

  ghost function Run(st: State, steps: seq<Step>): State
    decreases |steps|
  {
    if steps == [] then st else Run(Next(st, steps[0]), steps[1..])
  }

  // ---------------------------------------------------------------- the invariant

  ghost predicate JobCarriesRowKey(rows: Rows, accepted: set<string>, j: JobId, job: Job) {
    && j.row in rows
    && job.key == rows[j.row].idempotencyKey
    && (job.phase.Answered? ==> Trim(job.key) in accepted)
  }

  ghost predicate JobsCarryRowKeys(st: State) {
    forall j | j in st.jobs :: JobCarriesRowKey(st.rows, st.accepted, j, st.jobs[j])
  }

  ghost predicate SendsCarryRowKeys(st: State) {
    forall k | 0 <= k < |st.sends| ::
      st.sends[k].row in st.rows && st.sends[k].key == Trim(st.rows[st.sends[k].row].idempotencyKey)
  }

  ghost predicate SentKeysAccepted(st: State) {
    forall id | id in st.rows && st.rows[id].sentAt.Some? :: Trim(st.rows[id].idempotencyKey) in st.accepted
  }

  ghost predicate Invariant(st: State) {
    JobsCarryRowKeys(st) && SendsCarryRowKeys(st) && SentKeysAccepted(st)
  }

  /** Rows are only added, and never change their key. */
  ghost predicate KeysKept(rows: Rows, rows': Rows) {
    rows.Keys <= rows'.Keys && forall id | id in rows :: rows'[id].idempotencyKey == rows[id].idempotencyKey
  }

  lemma StepKeepsKeys(st: State, step: Step)
    ensures KeysKept(st.rows, Next(st, step).rows)
    ensures st.accepted <= Next(st, step).accepted
  {
  }

  predicate MovesAJob(step: Step) {
    step.FailsUnsent? || step.SendAnswered? || step.SendUnanswered? || step.CompleteUnanswered?
  }

  /** A moved job keeps its key, and is only answered when its key has been accepted. */
  lemma MovedJobCarriesRowKey(st: State, step: Step, j: JobId)
    requires JobsCarryRowKeys(st) && MovesAJob(step) && j in Next(st, step).jobs
    ensures var next := Next(st, step);
            && j in st.jobs && next.jobs[j].key == st.jobs[j].key
            && (next.jobs[j].phase.Answered? ==> Trim(st.jobs[j].key) in next.accepted)
  {
    assert JobCarriesRowKey(st.rows, st.accepted, j, st.jobs[j]);
  }

  lemma JobIsNewOrOld(st: State, step: Step, j: JobId)
    requires JobsCarryRowKeys(st) && !MovesAJob(step) && j in Next(st, step).jobs
    ensures var job := Next(st, step).jobs[j];
            || (j in st.jobs && job == st.jobs[j])
            || (step.ClaimBatch? && j.row in st.rows && job == Job(step.worker, st.rows[j.row].idempotencyKey, Claimed))
  {
  }

  lemma StepKeepsJobs(st: State, step: Step)
    requires JobsCarryRowKeys(st)
    ensures JobsCarryRowKeys(Next(st, step))
  {
    var next := Next(st, step);
    StepKeepsKeys(st, step);
    forall j | j in next.jobs ensures JobCarriesRowKey(next.rows, next.accepted, j, next.jobs[j]) {
      if MovesAJob(step) { MovedJobCarriesRowKey(st, step, j); } else { JobIsNewOrOld(st, step, j); }
      if j in st.jobs { assert JobCarriesRowKey(st.rows, st.accepted, j, st.jobs[j]); }
    }
  }

  lemma StepKeepsSends(st: State, step: Step)
    requires JobsCarryRowKeys(st) && SendsCarryRowKeys(st)
    ensures SendsCarryRowKeys(Next(st, step))
  {
    StepKeepsKeys(st, step);
  }

  ghost predicate MarkedSentBy(st: State, step: Step, id: Id) {
    && (step.Complete? || step.CompleteUnanswered?)
    && step.job.row == id && step.job in st.jobs && st.jobs[step.job].phase.Answered?
  }

  lemma SentBeforeOrMarked(st: State, step: Step, id: Id)
    requires id in Next(st, step).rows && Next(st, step).rows[id].sentAt.Some?
    ensures (id in st.rows && st.rows[id].sentAt.Some?) || MarkedSentBy(st, step, id)
  {
  }

  /** A row is only marked sent by the job whose send the provider answered. */
  lemma StepKeepsSent(st: State, step: Step)
    requires JobsCarryRowKeys(st) && SentKeysAccepted(st)
    ensures SentKeysAccepted(Next(st, step))
  {
    StepKeepsKeys(st, step);
    var next := Next(st, step);
    forall id | id in next.rows && next.rows[id].sentAt.Some?
      ensures Trim(next.rows[id].idempotencyKey) in next.accepted
    {
      SentBeforeOrMarked(st, step, id);
      if MarkedSentBy(st, step, id) {
        assert JobCarriesRowKey(st.rows, st.accepted, step.job, st.jobs[step.job]);
      }
    }
  }

  lemma StepKeepsInvariant(st: State, step: Step)
    requires Invariant(st)
    ensures Invariant(Next(st, step))
  {
    StepKeepsJobs(st, step);
    StepKeepsSends(st, step);
    StepKeepsSent(st, step);
  }

  /** Over every run, with any number of new rows, retries, crashes and lease takeovers: every send of
      a row carries that row's one key, and a row marked sent has had its key accepted. */
  lemma {:induction false} RunKeepsInvariant(st: State, steps: seq<Step>)
    requires Invariant(st)
    ensures Invariant(Run(st, steps))
    ensures KeysKept(st.rows, Run(st, steps).rows)
    decreases |steps|
  {
    if steps != [] {
      StepKeepsKeys(st, steps[0]);
      StepKeepsInvariant(st, steps[0]);
      RunKeepsInvariant(Next(st, steps[0]), steps[1..]);
    }
  }

  // ---------------------------------------------------------------- when two rows share a key

  /** With no assumption on the keys: two sends of a run carry the same key exactly when the keys of
      their rows are equal after trimming. */
  lemma SendsShareAKeyIffTrimsAgree(st: State, steps: seq<Step>, a: nat, b: nat)
    requires Invariant(st)
    requires a < |Run(st, steps).sends| && b < |Run(st, steps).sends|
    ensures var end := Run(st, steps);
            && end.sends[a].row in end.rows && end.sends[b].row in end.rows
            && (end.sends[a].key == end.sends[b].key <==>
                Trim(end.rows[end.sends[a].row].idempotencyKey) == Trim(end.rows[end.sends[b].row].idempotencyKey))
  {
    RunKeepsInvariant(st, steps);
  }

  function Fresh(rows: Rows): State {
    State(rows, map[], {}, [])
  }

  /** Two sends for different rows carry one key. */
  ghost predicate RowsShareAKey(st: State) {
    exists a, b :: 0 <= a < |st.sends| && 0 <= b < |st.sends| &&
                   st.sends[a].row != st.sends[b].row && st.sends[a].key == st.sends[b].key
  }

  /** A row that can still be delivered, under a key that the client does not refuse. */
  predicate Deliverable(rows: Rows, id: Id) {
    id in rows && Live(rows[id]) && KeySendable(rows[id].idempotencyKey)
  }

  /** Trimming keeps the keys of the deliverable rows apart. */
  ghost predicate TrimmedKeysUnique(rows: Rows) {
    forall x, y | Deliverable(rows, x) && Deliverable(rows, y) && x != y ::
      Trim(rows[x].idempotencyKey) != Trim(rows[y].idempotencyKey)
  }

  ghost predicate NothingEnqueued(steps: seq<Step>) {
    forall k | 0 <= k < |steps| :: !steps[k].Enqueue?
  }

  /** No row comes to life, and every key stays. */
  ghost predicate RowsOnlyFinish(rows: Rows, rows': Rows) {
    && rows'.Keys == rows.Keys
    && forall id | id in rows ::
         rows'[id].idempotencyKey == rows[id].idempotencyKey && (Live(rows'[id]) ==> Live(rows[id]))
  }

  ghost predicate JobsFor(jobs: map<JobId, Job>, rows: Rows) {
    forall j | j in jobs :: j.row in rows && Live(rows[j.row]) && jobs[j].key == rows[j.row].idempotencyKey
  }

  ghost predicate SendsFor(sends: seq<Send>, rows: Rows) {
    forall k | 0 <= k < |sends| ::
      Deliverable(rows, sends[k].row) && sends[k].key == Trim(rows[sends[k].row].idempotencyKey)
  }

  /** Everything under way is for a row that was live in `rows`. */
  ghost predicate OnlyFor(st: State, rows: Rows) {
    RowsOnlyFinish(rows, st.rows) && JobsFor(st.jobs, rows) && SendsFor(st.sends, rows)
  }

  lemma StepFinishesRows(st: State, step: Step)
    requires !step.Enqueue?
    ensures RowsOnlyFinish(st.rows, Next(st, step).rows)
  {
  }

  lemma StepOnlyFinishes(st: State, rows: Rows, step: Step)
    requires RowsOnlyFinish(rows, st.rows) && !step.Enqueue?
    ensures RowsOnlyFinish(rows, Next(st, step).rows)
  {
    StepFinishesRows(st, step);
  }

  lemma JobsKeepTheirKeys(st: State, step: Step, j: JobId)
    requires !step.ClaimBatch? && j in Next(st, step).jobs
    ensures j in st.jobs && Next(st, step).jobs[j].key == st.jobs[j].key
  {
  }

  lemma NewJobIsForALiveRow(st: State, step: Step, j: JobId)
    requires step.ClaimBatch? && j in Next(st, step).jobs && j !in st.jobs
    ensures j.row in st.rows && Live(st.rows[j.row])
    ensures Next(st, step).jobs[j].key == st.rows[j.row].idempotencyKey
  {
    assert j.row in Candidates(st.rows, step.now, step.locked);
  }

  lemma StepKeepsJobsFor(st: State, rows: Rows, step: Step)
    requires RowsOnlyFinish(rows, st.rows) && JobsFor(st.jobs, rows) && !step.Enqueue?
    ensures JobsFor(Next(st, step).jobs, rows)
  {
    var next := Next(st, step);
    forall j | j in next.jobs
      ensures j.row in rows && Live(rows[j.row]) && next.jobs[j].key == rows[j.row].idempotencyKey
    {
      if !step.ClaimBatch? {
        JobsKeepTheirKeys(st, step, j);
      } else if j !in st.jobs {
        NewJobIsForALiveRow(st, step, j);
      }
    }
  }

  lemma StepKeepsSendsFor(st: State, rows: Rows, step: Step)
    requires JobsFor(st.jobs, rows) && SendsFor(st.sends, rows)
    ensures SendsFor(Next(st, step).sends, rows)
  {
  }

  lemma {:induction false} RunStaysFor(st: State, rows: Rows, steps: seq<Step>)
    requires OnlyFor(st, rows) && NothingEnqueued(steps)
    ensures OnlyFor(Run(st, steps), rows)
    decreases |steps|
  {
    if steps != [] {
      StepOnlyFinishes(st, rows, steps[0]);
      StepKeepsJobsFor(st, rows, steps[0]);
      StepKeepsSendsFor(st, rows, steps[0]);
      RunStaysFor(Next(st, steps[0]), rows, steps[1..]);
    }
  }

  /** One claim of two rows that are ready, and an answered send for each. */
  function TwoSends(rows: Rows, x: Id, y: Id, now: int): seq<Step> {
    [ClaimBatch(0, "worker", now, rows.Keys - {x, y}, 2, {x, y}),
     SendAnswered(JobId(0, x), "message"),
     SendAnswered(JobId(0, y), "message")]
  }

  lemma BothAreClaimed(rows: Rows, x: Id, y: Id, now: int)
    requires x in rows && y in rows && x != y && Ready(rows[x], now) && Ready(rows[y], now)
    ensures Next(Fresh(rows), TwoSends(rows, x, y, now)[0]) ==
            State(Leased(rows, {x, y}, "worker", now), JobsOf(rows, 0, "worker", {x, y}), {}, [])
  {
    assert Candidates(rows, now, rows.Keys - {x, y}) == {x, y};
    assert FirstCandidates(rows, now, rows.Keys - {x, y}, 2, {x, y});
    assert map[] + JobsOf(rows, 0, "worker", {x, y}) == JobsOf(rows, 0, "worker", {x, y});
  }

  lemma AfterFirst(st: State, first: Step, rest: seq<Step>)
    ensures Run(st, [first] + rest) == Run(Next(st, first), rest)
  {
    assert ([first] + rest)[1..] == rest;
  }

  lemma AfterThree(st: State, a: Step, b: Step, c: Step)
    ensures Run(st, [a, b, c]) == Next(Next(Next(st, a), b), c)
  {
    AfterFirst(st, a, [b, c]);
    AfterFirst(Next(st, a), b, [c]);
    AfterFirst(Next(Next(st, a), b), c, []);
    assert [a] + [b, c] == [a, b, c] && [b] + [c] == [b, c] && [c] + [] == [c];
  }

  /** Two deliverable rows whose trimmed keys are equal are both sent, under that one key. */
  lemma EqualTrimsCollide(rows: Rows, x: Id, y: Id, now: int)
    requires Deliverable(rows, x) && Deliverable(rows, y) && x != y
    requires Trim(rows[x].idempotencyKey) == Trim(rows[y].idempotencyKey)
    requires Ready(rows[x], now) && Ready(rows[y], now)
    ensures var key := Trim(rows[x].idempotencyKey);
            Run(Fresh(rows), TwoSends(rows, x, y, now)).sends == [Send(x, key), Send(y, key)]
  {
    var steps := TwoSends(rows, x, y, now);
    AfterThree(Fresh(rows), steps[0], steps[1], steps[2]);
    BothAreClaimed(rows, x, y, now);
    var claimed := Next(Fresh(rows), steps[0]);
    assert JobId(0, x) in claimed.jobs && JobId(0, y) in claimed.jobs;
  }

  /** Exactly when trimming keeps the keys of the deliverable rows apart, no run shares a key between
      two rows. */
  lemma KeysStayApartIffTrimmedKeysUnique(rows: Rows)
    ensures (forall steps | NothingEnqueued(steps) :: !RowsShareAKey(Run(Fresh(rows), steps))) <==>
            TrimmedKeysUnique(rows)
  {
    if TrimmedKeysUnique(rows) {
      forall steps | NothingEnqueued(steps) ensures !RowsShareAKey(Run(Fresh(rows), steps)) {
        UniqueTrimsStayApart(rows, steps);
      }
    } else {
      var x, y :| Deliverable(rows, x) && Deliverable(rows, y) && x != y &&
                  Trim(rows[x].idempotencyKey) == Trim(rows[y].idempotencyKey);
      var (a, b) := (NextChance(rows[x]), NextChance(rows[y]));
      var steps := TwoSends(rows, x, y, if a < b then b else a);
      EqualTrimsCollide(rows, x, y, if a < b then b else a);
      var end := Run(Fresh(rows), steps);
      assert end.sends[0].row != end.sends[1].row && end.sends[0].key == end.sends[1].key;
      assert NothingEnqueued(steps) && RowsShareAKey(end);
    }
  }

  lemma UniqueTrimsStayApart(rows: Rows, steps: seq<Step>)
    requires TrimmedKeysUnique(rows) && NothingEnqueued(steps)
    ensures !RowsShareAKey(Run(Fresh(rows), steps))
  {
    RunStaysFor(Fresh(rows), rows, steps);
    ApartWhileUnique(rows, Run(Fresh(rows), steps));
  }

  lemma ApartWhileUnique(rows: Rows, st: State)
    requires TrimmedKeysUnique(rows) && OnlyFor(st, rows)
    ensures !RowsShareAKey(st)
  {
    forall a, b | 0 <= a < |st.sends| && 0 <= b < |st.sends| && st.sends[a].row != st.sends[b].row
      ensures st.sends[a].key != st.sends[b].key
    {
      assert Deliverable(rows, st.sends[a].row) && Deliverable(rows, st.sends[b].row);
    }
  }

  // ---------------------------------------------------------------- which keys the service stores

  /** What Python's str.strip takes off: it keeps U+FEFF, and takes four separators and U+0085 that
      JavaScript keeps. */
  predicate IsPythonSpace(c: char) {
    (IsWhitespace(c) && c as int != 0xFEFF) || 0x1C <= c as int <= 0x1F || c as int == 0x85
  }

  predicate IsStripped(key: string) {
    key != [] && !IsPythonSpace(key[0]) && !IsPythonSpace(key[|key| - 1])
  }

  predicate IsMark(c: char) {
    c as int == 0xFEFF
  }

  /** A key that the service has stripped is changed by trimming only for a U+FEFF at one of its ends;
      so without one, the unique keys of the table stay apart. */
  lemma StrippedKeyIsTrimmed(key: string)
    requires IsStripped(key)
    ensures Trim(key) == key <==> !IsMark(key[0]) && !IsMark(key[|key| - 1])
  {
    if IsMark(key[0]) {
      TrimIsShorter(key[1..]);
    } else if IsMark(key[|key| - 1]) {
      TrimIsShorter(key[..|key| - 1]);
    }
  }

  lemma {:induction false} TrimIsShorter(s: string)
    ensures |Trim(s)| <= |s|
  {
    if s != [] && IsWhitespace(s[0]) {
      TrimIsShorter(s[1..]);
    } else if s != [] && IsWhitespace(s[|s| - 1]) {
      TrimIsShorter(s[..|s| - 1]);
    }
  }

  /** Two rows with the keys "k" and "k" followed by U+FEFF, both as the service would store them. */
  function MarkedRows(): Rows {
    map[1 := NewRow("k", 0), 2 := NewRow(['k', 0xFEFF as char], 0)]
  }

  /** The table tells the two keys apart and the provider does not: the second row's email is swallowed
      as a repetition of the first. */
  lemma OuterWhitespaceCollides()
    ensures MarkedRows()[1].idempotencyKey != MarkedRows()[2].idempotencyKey
    ensures IsStripped(MarkedRows()[1].idempotencyKey) && IsStripped(MarkedRows()[2].idempotencyKey)
    ensures Run(Fresh(MarkedRows()), TwoSends(MarkedRows(), 1, 2, 0)).sends == [Send(1, "k"), Send(2, "k")]
  {
    var marked := ['k', 0xFEFF as char];
    assert Trim("k") == "k";
    assert marked[..1] == "k" && Trim(marked) == "k";
    EqualTrimsCollide(MarkedRows(), 1, 2, 0);
  }
}
