/** The leased email outbox: claim, complete and fail, and every run of them. Times are in seconds. */
module EmailOutbox {
  import opened Sets
  import opened Wrappers

  type Id = nat

  const LEASE_SECONDS := 300
  const MAX_ATTEMPTS := 5

  datatype Row = Row(idempotencyKey: string, attempts: int, nextAttemptAt: int,
                     leaseOwner: Option<string>, leaseExpiresAt: Option<int>,
                     sentAt: Option<int>, failedAt: Option<int>, deletedAt: Option<int>,
                     providerMessageId: Option<string>, lastErrorCode: Option<string>)

  type Rows = map<Id, Row>

  datatype Outcome = Sent | Retry | Failed | Skipped
  datatype InputError = InvalidWorkerId | InvalidBatchSize | InvalidMessageId | InvalidErrorCode

  // ---------------------------------------------------------------- input checks

  /** SQL btrim: spaces only. */
  function BTrim(s: string): string {
    if s != [] && s[0] == ' ' then BTrim(s[1..])
    else if s != [] && s[|s| - 1] == ' ' then BTrim(s[..|s| - 1])
    else s
  }

  predicate NoLineBreak(s: string) {
    '\r' !in s && '\n' !in s
  }

  predicate WorkerIdValid(worker: string) {
    1 <= |BTrim(worker)| <= 100 && NoLineBreak(worker)
  }

  predicate MessageIdValid(message: string) {
    1 <= |BTrim(message)| <= 200 && NoLineBreak(message)
  }

  predicate ErrorCodeValid(code: string) {
    1 <= |code| <= 100 && forall c | c in code :: 'a' <= c <= 'z' || '0' <= c <= '9' || c == '_'
  }

  // ---------------------------------------------------------------- what the three functions do

  predicate Live(r: Row) {
    r.deletedAt.None? && r.sentAt.None? && r.failedAt.None?
  }

  predicate Ready(r: Row, now: int) {
    Live(r) && r.nextAttemptAt <= now && (r.leaseExpiresAt.None? || r.leaseExpiresAt.value <= now)
  }

  /** From when on a live row is ready, if nobody touches it. */
  function NextChance(r: Row): int {
    if r.leaseExpiresAt.Some? && r.leaseExpiresAt.value > r.nextAttemptAt then r.leaseExpiresAt.value
    else r.nextAttemptAt
  }

  predicate HeldBy(rows: Rows, id: Id, worker: string) {
    id in rows && Live(rows[id]) && rows[id].leaseOwner == Some(worker)
  }

  function Candidates(rows: Rows, now: int, locked: set<Id>): set<Id> {
    set id | id in rows && id !in locked && Ready(rows[id], now)
  }

  /** ORDER BY next_attempt_at, id. */
  predicate Before(rows: Rows, a: Id, b: Id)
    requires a in rows && b in rows
  {
    rows[a].nextAttemptAt < rows[b].nextAttemptAt || (rows[a].nextAttemptAt == rows[b].nextAttemptAt && a < b)
  }

  /** `ids` are the first `batch` candidates; rows locked by another session are skipped. */
  ghost predicate FirstCandidates(rows: Rows, now: int, locked: set<Id>, batch: int, ids: set<Id>) {
    var all := Candidates(rows, now, locked);
    && ids <= all
    && |ids| == (if |all| < batch then |all| else batch)
    && forall a, b | a in ids && b in all - ids :: Before(rows, a, b)
  }

  function LeasedRow(r: Row, worker: string, now: int): Row {
    r.(leaseOwner := Some(worker), leaseExpiresAt := Some(now + LEASE_SECONDS))
  }

  function Leased(rows: Rows, ids: set<Id>, worker: string, now: int): Rows {
    map id | id in rows :: if id in ids then LeasedRow(rows[id], worker, now) else rows[id]
  }

  function SentRow(r: Row, message: string, now: int): Row {
    r.(attempts := r.attempts + 1, leaseOwner := None, leaseExpiresAt := None, sentAt := Some(now),
       providerMessageId := Some(message), lastErrorCode := None)
  }

  function Completed(rows: Rows, id: Id, worker: string, message: string, now: int): (Rows, Outcome) {
    if HeldBy(rows, id, worker) then (rows[id := SentRow(rows[id], message, now)], Sent) else (rows, Skipped)
  }

  function Pow2(n: nat): nat {
    if n == 0 then 1 else 2 * Pow2(n - 1)
  }

  /** LEAST(2 ^ GREATEST(attempts, 0), 60) minutes. */
  function RetryDelay(attempts: int): int {
    var p := Pow2(if attempts < 0 then 0 else attempts);
    60 * (if p < 60 then p else 60)
  }

  predicate Retries(r: Row, retryable: bool) {
    retryable && r.attempts + 1 < MAX_ATTEMPTS
  }

  function FailedRow(r: Row, retryable: bool, code: string, now: int): Row {
    r.(attempts := r.attempts + 1, leaseOwner := None, leaseExpiresAt := None,
       nextAttemptAt := if Retries(r, retryable) then now + RetryDelay(r.attempts) else r.nextAttemptAt,
       failedAt := if Retries(r, retryable) then None else Some(now),
       lastErrorCode := Some(code))
  }

  function FailedDelivery(rows: Rows, id: Id, worker: string, retryable: bool, code: string, now: int)
    : (Rows, Outcome)
  {
    if HeldBy(rows, id, worker) then
      (rows[id := FailedRow(rows[id], retryable, code, now)], if Retries(rows[id], retryable) then Retry else Failed)
    else (rows, Skipped)
  }

  // ---------------------------------------------------------------- new rows

  /** A row as it is inserted. */
  function NewRow(key: string, now: int): Row {
    Row(key, 0, now, None, None, None, None, None, None, None)
  }

  /** The unique key of the table. */
  predicate KeyIsNew(rows: Rows, key: string) {
    forall id | id in rows :: rows[id].idempotencyKey != key
  }

  /** An insert, which the primary key and the unique key may refuse. */
  function Enqueued(rows: Rows, id: Id, key: string, now: int): Rows {
    if id !in rows && KeyIsNew(rows, key) then rows[id := NewRow(key, now)] else rows
  }

  // ---------------------------------------------------------------- the table

  class Outbox {
    var rows: Rows

    constructor (rows: Rows)
      ensures this.rows == rows
    {
      this.rows := rows;
    }

    /** The first candidate in claim order. */
    method Earliest(candidates: set<Id>) returns (first: Id)
      requires candidates != {} && candidates <= rows.Keys
      ensures first in candidates
      ensures forall other | other in candidates && other != first :: Before(rows, first, other)
    {
      first :| first in candidates;
      var rest := candidates - {first};
      while rest != {}
        invariant first in candidates && rest <= candidates && first !in rest
        invariant forall other | other in candidates - rest && other != first :: Before(rows, first, other)
        decreases |rest|
      {
        var next :| next in rest;
        rest := rest - {next};
        if Before(rows, next, first) {
          assert forall other | other in candidates - rest && other != next ::
              other == first || Before(rows, first, other);
          first := next;
        }
      }
    }

    method Claim(worker: string, batch: int, now: int, locked: set<Id>) returns (claimed: Result<set<Id>, InputError>)
      modifies this
      ensures claimed.Err? <==> !WorkerIdValid(worker) || !(1 <= batch <= 100)
      ensures claimed.Err? ==> rows == old(rows)
      ensures claimed.Ok? ==> FirstCandidates(old(rows), now, locked, batch, claimed.value)
      ensures claimed.Ok? ==> rows == Leased(old(rows), claimed.value, BTrim(worker), now)
    {
      if !WorkerIdValid(worker) { return Err(InvalidWorkerId); }
      if !(1 <= batch <= 100) { return Err(InvalidBatchSize); }
      var all := Candidates(rows, now, locked);
      var ids: set<Id> := {};
      while |ids| < batch && ids != all
        invariant rows == old(rows)
        invariant ids <= all && |ids| <= batch
        invariant forall a, b | a in ids && b in all - ids :: Before(rows, a, b)
        decreases |all - ids|
      {
        assert all - ids != {};
        var first := Earliest(all - ids);
        ids := ids + {first};
      }
      SubsetSize(ids, all);
      rows := Leased(rows, ids, BTrim(worker), now);
      return Ok(ids);
    }

    method Complete(id: Id, worker: string, message: string, now: int) returns (r: Result<Outcome, InputError>)
      modifies this
      ensures r.Err? <==> !WorkerIdValid(worker) || !MessageIdValid(message)
      ensures r.Err? ==> rows == old(rows)
      ensures r.Ok? ==> (rows, r.value) == Completed(old(rows), id, BTrim(worker), BTrim(message), now)
    {
      if !WorkerIdValid(worker) { return Err(InvalidWorkerId); }
      if !MessageIdValid(message) { return Err(InvalidMessageId); }
      if HeldBy(rows, id, BTrim(worker)) {
        rows := rows[id := SentRow(rows[id], BTrim(message), now)];
        return Ok(Sent);
      }
      return Ok(Skipped);
    }

    method Fail(id: Id, worker: string, retryable: bool, code: string, now: int)
      returns (r: Result<Outcome, InputError>)
      modifies this
      ensures r.Err? <==> !WorkerIdValid(worker) || !ErrorCodeValid(code)
      ensures r.Err? ==> rows == old(rows)
      ensures r.Ok? ==> (rows, r.value) == FailedDelivery(old(rows), id, BTrim(worker), retryable, code, now)
    {
      if !WorkerIdValid(worker) { return Err(InvalidWorkerId); }
      if !ErrorCodeValid(code) { return Err(InvalidErrorCode); }
      if !HeldBy(rows, id, BTrim(worker)) { return Ok(Skipped); }
      var failed := FailedRow(rows[id], retryable, code, now);
      rows := rows[id := failed];
      return Ok(if failed.failedAt.None? then Retry else Failed);
    }
  }

  /** An unlocked ready row is claimed as soon as fewer than `batch` candidates come before it. */
  lemma WaitingRowIsClaimed(rows: Rows, now: int, locked: set<Id>, batch: nat, ids: set<Id>, id: Id)
    requires FirstCandidates(rows, now, locked, batch, ids)
    requires id in Candidates(rows, now, locked)
    requires |set other | other in Candidates(rows, now, locked) && Before(rows, other, id)| < batch
    ensures id in ids
  {
    var all := Candidates(rows, now, locked);
    var earlier := set other | other in all && Before(rows, other, id);
    if id !in ids {
      assert ids <= earlier;
      SubsetSize(ids, earlier);
      ProperSubsetSize(ids, all);
    }
  }
}
