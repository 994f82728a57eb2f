/** Every run of new rows, claims, completions and failures, by any number of workers, any of which may stop at
    any point. Worker names are the trimmed ones that the table stores. */
module OutboxRuns {
  import opened Wrappers
  import opened EmailOutbox

  datatype Call =
    | Enqueue(id: Id, key: string, now: int)
    | Claim(worker: string, batch: nat, now: int, locked: set<Id>, ids: set<Id>)
    | Complete(id: Id, worker: string, message: string, now: int)
    | Fail(id: Id, worker: string, retryable: bool, code: string, now: int)

  /** What a completion or failure answered, and the delay a retry was given. */
  datatype Event = Event(id: Id, worker: string, outcome: Outcome, delay: int)

  ghost predicate Possible(rows: Rows, call: Call) {
    call.Claim? ==> FirstCandidates(rows, call.now, call.locked, call.batch, call.ids)
  }

  function Next(rows: Rows, call: Call): Rows {
    match call
    case Enqueue(id, key, now) => Enqueued(rows, id, key, now)
    case Claim(worker, _, now, _, ids) => Leased(rows, ids, worker, now)
    case Complete(id, worker, message, now) => Completed(rows, id, worker, message, now).0
    case Fail(id, worker, retryable, code, now) => FailedDelivery(rows, id, worker, retryable, code, now).0
  }

  function Answer(rows: Rows, call: Call): seq<Event> {
    match call
    case Enqueue(_, _, _) => []
    case Claim(_, _, _, _, _) => []
    case Complete(id, worker, message, now) =>
      [Event(id, worker, Completed(rows, id, worker, message, now).1, 0)]
    case Fail(id, worker, retryable, code, now) =>
      var outcome := FailedDelivery(rows, id, worker, retryable, code, now).1;
      [Event(id, worker, outcome, if outcome.Retry? then RetryDelay(rows[id].attempts) else 0)]
  }

  function Run(rows: Rows, calls: seq<Call>): Rows
    decreases |calls|
  {
    if calls == [] then rows else Run(Next(rows, calls[0]), calls[1..])
  }

  function Log(rows: Rows, calls: seq<Call>): seq<Event>
    decreases |calls|
  {
    if calls == [] then [] else Answer(rows, calls[0]) + Log(Next(rows, calls[0]), calls[1..])
  }

  /** The outcomes of one row, without the skipped calls. */
  function OutcomesOf(log: seq<Event>, id: Id): seq<Event> {
    if log == [] then []
    else (if log[0].id == id && !log[0].outcome.Skipped? then [log[0]] else []) + OutcomesOf(log[1..], id)
  }

  ghost predicate PossibleRun(rows: Rows, calls: seq<Call>, start: int)
    decreases |calls|
  {
    calls != [] ==>
      && calls[0].now >= start
      && Possible(rows, calls[0])
      && PossibleRun(Next(rows, calls[0]), calls[1..], calls[0].now)
  }

  lemma {:induction false} OutcomesOfConcat(a: seq<Event>, b: seq<Event>, id: Id)
    ensures OutcomesOf(a + b, id) == OutcomesOf(a, id) + OutcomesOf(b, id)
  {
    if a == [] {
      assert a + b == b;
    } else {
      assert (a + b)[1..] == a[1..] + b;
      OutcomesOfConcat(a[1..], b, id);
    }
  }

  // ---------------------------------------------------------------- finished rows

  /** A sent, failed or deleted row is never touched again: every call on it is skipped. */
  lemma {:induction false} FinishedRowIsFrozen(rows: Rows, calls: seq<Call>, start: int, id: Id)
    requires id in rows && !Live(rows[id]) && PossibleRun(rows, calls, start)
    ensures id in Run(rows, calls) && Run(rows, calls)[id] == rows[id]
    ensures OutcomesOf(Log(rows, calls), id) == []
    decreases |calls|
  {
    if calls != [] {
      FinishedRowIsFrozen(Next(rows, calls[0]), calls[1..], calls[0].now, id);
      OutcomesOfConcat(Answer(rows, calls[0]), Log(Next(rows, calls[0]), calls[1..]), id);
    }
  }

  // ---------------------------------------------------------------- the history of one row

  /** `events` are what a row with `attempts` earlier attempts can still be answered: retries with
      doubling delays, and at most one final outcome, which ends the history. */
  ghost predicate History(events: seq<Event>, attempts: nat) {
    && attempts + |events| <= MAX_ATTEMPTS
    && (forall k | 0 <= k < |events| - 1 :: events[k].outcome.Retry?)
    && (forall k | 0 <= k < |events| && events[k].outcome.Retry? ::
          attempts + k + 1 < MAX_ATTEMPTS && events[k].delay == 60 * Pow2(attempts + k))
  }

  lemma ExactDelay(attempts: nat)
    requires attempts + 1 < MAX_ATTEMPTS
    ensures RetryDelay(attempts) == 60 * Pow2(attempts)
  {
    assert Pow2(3) == 8 && Pow2(2) == 4 && Pow2(1) == 2 && Pow2(0) == 1;
  }

  ghost predicate AllRetries(events: seq<Event>) {
    forall k | 0 <= k < |events| :: events[k].outcome.Retry?
  }

  /** At most one more event in front: a retry, or a final outcome with nothing after it. */
  lemma HistoryGrows(events: seq<Event>, rest: seq<Event>, attempts: nat)
    requires |events| <= 1 && attempts < MAX_ATTEMPTS
    requires AllRetries(events) ==> History(rest, attempts + |events|)
    requires !AllRetries(events) ==> rest == []
    requires forall k | 0 <= k < |events| && events[k].outcome.Retry? ::
               attempts + 1 < MAX_ATTEMPTS && events[k].delay == 60 * Pow2(attempts)
    ensures History(events + rest, attempts)
    ensures AllRetries(events + rest) <==> AllRetries(events) && AllRetries(rest)
  {
    var all := events + rest;
    assert forall k | 0 <= k < |events| :: all[k] == events[k];
    forall k | AllRetries(all) && 0 <= k < |rest| ensures rest[k].outcome.Retry? {
      assert all[k + |events|] == rest[k];
    }
    forall k | 0 <= k < |all| && all[k].outcome.Retry?
      ensures attempts + k + 1 < MAX_ATTEMPTS && all[k].delay == 60 * Pow2(attempts + k)
    {
      if k >= |events| { assert all[k] == rest[k - |events|]; }
    }
  }

  /** `events` take a live row to `after`. */
  ghost predicate Explains(before: Row, after: Row, events: seq<Event>) {
    && 0 <= before.attempts < MAX_ATTEMPTS
    && after.attempts == before.attempts + |events|
    && History(events, before.attempts)
    && (Live(after) <==> AllRetries(events))
  }

  lemma ExplanationsCompose(before: Row, middle: Row, after: Row, events: seq<Event>, rest: seq<Event>)
    requires Explains(before, middle, events) && |events| <= 1
    requires if Live(middle) then Explains(middle, after, rest) else rest == [] && after == middle
    ensures Explains(before, after, events + rest)
  {
    if !Live(middle) { assert events + rest == events; }
    HistoryGrows(events, rest, before.attempts);
  }

  lemma OutcomesOfOne(event: Event, id: Id)
    ensures OutcomesOf([event], id) == if event.id == id && !event.outcome.Skipped? then [event] else []
  {
    assert [event][1..] == [];
  }

  /** One call on one row: nothing for the row, a retry, or its final outcome. */
  lemma OneCall(rows: Rows, call: Call, id: Id)
    requires id in rows && Live(rows[id]) && 0 <= rows[id].attempts < MAX_ATTEMPTS
    ensures var events := OutcomesOf(Answer(rows, call), id);
            id in Next(rows, call) && |events| <= 1 && Explains(rows[id], Next(rows, call)[id], events)
  {
    if rows[id].attempts + 1 < MAX_ATTEMPTS { ExactDelay(rows[id].attempts); }
    if call.Complete? || call.Fail? { OutcomesOfOne(Answer(rows, call)[0], id); }
  }

  /** Over every run, the attempts of a row are its non-skipped outcomes, at most five in all; only
      the last of them can be final, and then the row is finished; the retry delays are the doubling
      ones. */
  lemma {:induction false} RowHistory(rows: Rows, calls: seq<Call>, start: int, id: Id)
    requires id in rows && Live(rows[id]) && 0 <= rows[id].attempts < MAX_ATTEMPTS
    requires PossibleRun(rows, calls, start)
    ensures id in Run(rows, calls)
    ensures Explains(rows[id], Run(rows, calls)[id], OutcomesOf(Log(rows, calls), id))
    decreases |calls|
  {
    if calls != [] {
      var next := Next(rows, calls[0]);
      var rest := Log(next, calls[1..]);
      OneCall(rows, calls[0], id);
      if Live(next[id]) {
        RowHistory(next, calls[1..], calls[0].now, id);
      } else {
        FinishedRowIsFrozen(next, calls[1..], calls[0].now, id);
      }
      OutcomesOfConcat(Answer(rows, calls[0]), rest, id);
      ExplanationsCompose(rows[id], next[id], Run(rows, calls)[id], OutcomesOf(Answer(rows, calls[0]), id),
          OutcomesOf(rest, id));
    }
  }

  function TotalDelay(events: seq<Event>): int {
    if events == [] then 0 else (if events[0].outcome.Retry? then events[0].delay else 0) + TotalDelay(events[1..])
  }

  lemma {:induction false} HistoryDelay(events: seq<Event>, attempts: nat)
    requires History(events, attempts) && attempts <= MAX_ATTEMPTS
    ensures attempts == MAX_ATTEMPTS ==> events == []
    ensures attempts < MAX_ATTEMPTS ==> TotalDelay(events) <= 60 * (Pow2(4) - Pow2(attempts))
    decreases |events|
  {
    if events != [] {
      assert Pow2(0) == 1 && Pow2(1) == 2 && Pow2(2) == 4 && Pow2(3) == 8 && Pow2(4) == 16;
      var rest := events[1..];
      if events[0].outcome.Retry? {
        assert forall k | 0 <= k < |rest| :: rest[k] == events[k + 1];
        HistoryDelay(rest, attempts + 1);
      } else {
        assert rest == [];
      }
    }
  }

  ghost predicate DelaysBounded(events: seq<Event>) {
    && TotalDelay(events) <= 15 * 60
    && forall k | 0 <= k < |events| && events[k].outcome.Retry? ::
         k < 4 && events[k].delay == [60, 120, 240, 480][k]
  }

  lemma FreshHistory(events: seq<Event>)
    requires History(events, 0)
    ensures DelaysBounded(events)
  {
    HistoryDelay(events, 0);
    assert Pow2(0) == 1 && Pow2(1) == 2 && Pow2(2) == 4 && Pow2(3) == 8 && Pow2(4) == 16;
  }

  /** A row that starts with no attempts is granted at most fifteen minutes of delay over any run; its
      k-th retry waits 1, 2, 4 or 8 minutes, so the sixty-minute cap is never reached. */
  lemma RetriesAreBounded(rows: Rows, calls: seq<Call>, start: int, id: Id)
    requires id in rows && Live(rows[id]) && rows[id].attempts == 0
    requires PossibleRun(rows, calls, start)
    ensures DelaysBounded(OutcomesOf(Log(rows, calls), id))
  {
    RowHistory(rows, calls, start, id);
    FreshHistory(OutcomesOf(Log(rows, calls), id));
  }

  // ---------------------------------------------------------------- lost leases

  ghost predicate NeverClaims(calls: seq<Call>, worker: string, id: Id) {
    forall k | 0 <= k < |calls| && calls[k].Claim? && calls[k].worker == worker :: id !in calls[k].ids
  }

  /** Once another worker holds a row, or nobody does, a worker that does not claim it again never
      affects it: its late calls are skipped and leave the whole table as it is. */
  lemma {:induction false} LostLeaseIsSkipped(rows: Rows, calls: seq<Call>, worker: string, id: Id,
                                             message: string, retryable: bool, code: string, now: int)
    requires id in rows && rows[id].leaseOwner != Some(worker)
    requires NeverClaims(calls, worker, id)
    ensures var later := Run(rows, calls);
            && Completed(later, id, worker, message, now) == (later, Skipped)
            && FailedDelivery(later, id, worker, retryable, code, now) == (later, Skipped)
    decreases |calls|
  {
    if calls != [] {
      assert NeverClaims(calls[1..], worker, id);
      LostLeaseIsSkipped(Next(rows, calls[0]), calls[1..], worker, id, message, retryable, code, now);
    }
  }

  /** A live lease keeps the row from every other claim. */
  lemma LeaseExcludes(rows: Rows, now: int, locked: set<Id>, batch: int, ids: set<Id>, id: Id)
    requires id in rows && rows[id].leaseExpiresAt.Some? && now < rows[id].leaseExpiresAt.value
    requires FirstCandidates(rows, now, locked, batch, ids)
    ensures id !in ids
  {
    assert ids <= Candidates(rows, now, locked);
  }

  // ---------------------------------------------------------------- nothing is stranded

  lemma RetryDelayBound(attempts: int)
    requires 0 <= attempts && attempts + 1 < MAX_ATTEMPTS
    ensures RetryDelay(attempts) <= 480
  {
    assert Pow2(0) == 1 && Pow2(1) == 2 && Pow2(2) == 4 && Pow2(3) == 8;
  }

  ghost function LastTime(calls: seq<Call>, start: int): int {
    if calls == [] then start else calls[|calls| - 1].now
  }

  /** Whoever crashes, an unfinished row is a candidate again at the latest eight minutes after the
      last call of the run, and it stays one until it is claimed. */
  lemma {:induction false} NothingIsStranded(rows: Rows, calls: seq<Call>, start: int, id: Id)
    requires id in rows && 0 <= rows[id].attempts < MAX_ATTEMPTS && Live(rows[id])
    requires NextChance(rows[id]) <= start + 480
    requires PossibleRun(rows, calls, start)
    ensures var rows' := Run(rows, calls);
            id in rows' && (Live(rows'[id]) ==>
              && NextChance(rows'[id]) <= LastTime(calls, start) + 480
              && forall t | t >= NextChance(rows'[id]) :: Ready(rows'[id], t))
    decreases |calls|
  {
    if calls != [] {
      var rows' := Next(rows, calls[0]);
      OneCall(rows, calls[0], id);
      if Live(rows'[id]) {
        if rows[id].attempts + 1 < MAX_ATTEMPTS { RetryDelayBound(rows[id].attempts); }
        NothingIsStranded(rows', calls[1..], calls[0].now, id);
        assert LastTime(calls, start) == LastTime(calls[1..], calls[0].now);
      } else {
        FinishedRowIsFrozen(rows', calls[1..], calls[0].now, id);
      }
    }
  }
}
