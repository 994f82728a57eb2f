/** Account lockout over a store of expiring counters. */
module LoginLockout {
  import opened Wrappers

  const FAILED_LOGIN_THRESHOLD := 5
  const LOGIN_LOCKOUT_SECONDS := 900.0

  /** The two keys of an account. */
  datatype Key = Failed(id: string) | Locked(id: string)

  datatype Counter = Counter(value: nat, expiry: real)

  type Store = map<Key, Counter>

  // ---------------------------------------------------------------- the store

  predicate IsLive(store: Store, key: Key, now: real) {
    key in store && now < store[key].expiry
  }

  function Get(store: Store, key: Key, now: real): nat {
    if IsLive(store, key, now) then store[key].value else 0
  }

  function GetExpiry(store: Store, key: Key, now: real): real {
    if IsLive(store, key, now) then store[key].expiry else now
  }

  /** The first increment sets the expiry; later ones leave it. */
  function Incr(store: Store, key: Key, now: real): Store {
    store[key := if IsLive(store, key, now) then Counter(store[key].value + 1, store[key].expiry)
                 else Counter(1, now + LOGIN_LOCKOUT_SECONDS)]
  }

  function Clear(store: Store, key: Key): Store {
    store - {key}
  }

  // ---------------------------------------------------------------- the three operations

  /** `Refused` carries the time the lock is said to end. */
  datatype Verdict = Passed | Refused(until: real)

  function Checked(store: Store, id: string, now: real): (Store, Verdict) {
    if Get(store, Locked(id), now) > 0 then (store, Refused(GetExpiry(store, Locked(id), now)))
    else if Get(store, Failed(id), now) >= FAILED_LOGIN_THRESHOLD then
      var locked := Incr(store, Locked(id), now);
      (locked, Refused(GetExpiry(locked, Locked(id), now)))
    else (store, Passed)
  }

  /** A failure is counted at one moment, and the lock it may lead to is set at a later one. */
  function Recorded(store: Store, id: string, counted: real, finished: real): Store {
    var store1 := Incr(store, Failed(id), counted);
    if Get(store1, Failed(id), counted) >= FAILED_LOGIN_THRESHOLD then
      Clear(Incr(store1, Locked(id), finished), Failed(id))
    else store1
  }

  class AuthRateLimiter {
    var store: Store

    constructor ()
      ensures store == map[]
    {
      store := map[];
    }

    method EnsureLoginUnlocked(id: string, now: real) returns (verdict: Verdict)
      modifies this
      ensures (store, verdict) == Checked(old(store), id, now)
    {
      if Get(store, Locked(id), now) > 0 {
        return Refused(GetExpiry(store, Locked(id), now));
      }
      if Get(store, Failed(id), now) >= FAILED_LOGIN_THRESHOLD {
        store := Incr(store, Locked(id), now);
        return Refused(GetExpiry(store, Locked(id), now));
      }
      return Passed;
    }

    method LoginFailed(id: string, counted: real, finished: real)
      modifies this
      ensures store == Recorded(old(store), id, counted, finished)
    {
      store := Incr(store, Failed(id), counted);
      var count := Get(store, Failed(id), counted);
      if count >= FAILED_LOGIN_THRESHOLD {
        store := Incr(store, Locked(id), finished);
        store := Clear(store, Failed(id));
      }
    }

    /** Afterwards the account has no failures at any time, and nothing else has changed: its lock and
        every other account are as they were. */
    method LoginSucceeded(id: string)
      modifies this
      ensures forall now :: Get(store, Failed(id), now) == 0
      ensures store.Keys == old(store).Keys - {Failed(id)}
      ensures forall key | key in store :: store[key] == old(store)[key]
    {
      store := Clear(store, Failed(id));
    }
  }

  // ---------------------------------------------------------------- failures one after another

  /** One failed login: checked, then counted, then finished. */
  datatype Attempt = Attempt(check: real, counted: real, finished: real)

  /** A failure that passed the check, with its place in the counter it went into. */
  datatype Failure = Failure(attempt: Attempt, place: nat, since: real)

  datatype Run = Run(store: Store, log: seq<Failure>)

  /** Only an attempt that passes the check goes on to be counted. */
  function Next(run: Run, id: string, a: Attempt): Run {
    var (store, verdict) := Checked(run.store, id, a.check);
    if verdict.Refused? then Run(store, run.log)
    else
      var counter := Incr(store, Failed(id), a.counted)[Failed(id)];
      Run(Recorded(store, id, a.counted, a.finished),
          run.log + [Failure(a, counter.value, counter.expiry - LOGIN_LOCKOUT_SECONDS)])
  }

  function After(id: string, attempts: seq<Attempt>): Run {
    if attempts == [] then Run(map[], [])
    else Next(After(id, attempts[..|attempts| - 1]), id, attempts[|attempts| - 1])
  }

  predicate OneAtATime(attempts: seq<Attempt>) {
    && (forall a | a in attempts :: a.check <= a.counted <= a.finished)
    && forall i, j | 0 <= i < j < |attempts| :: attempts[i].finished <= attempts[j].check
  }

  /** How one failure follows another: into the same counter, or into a new one after the old one has
      expired, or after the lock that the fifth failure set. */
  predicate Follows(f: Failure, g: Failure) {
    && f.attempt.check <= f.attempt.counted <= f.attempt.finished <= g.attempt.check <= g.attempt.counted
    && if f.place < FAILED_LOGIN_THRESHOLD then
         || (g.place == f.place + 1 && g.since == f.since)
         || (g.place == 1 && g.since == g.attempt.counted && g.since >= f.since + LOGIN_LOCKOUT_SECONDS)
       else
         && g.place == 1 && g.since == g.attempt.counted
         && g.attempt.check >= f.attempt.finished + LOGIN_LOCKOUT_SECONDS
  }

  /** A failure goes into a counter that has not expired. */
  predicate CountedInTime(f: Failure) {
    f.since <= f.attempt.counted < f.since + LOGIN_LOCKOUT_SECONDS
  }

  predicate Chained(log: seq<Failure>) {
    && (forall k | 0 <= k < |log| :: 1 <= log[k].place <= FAILED_LOGIN_THRESHOLD && CountedInTime(log[k]))
    && (forall k | 0 <= k < |log| :: log[k].place == 1 ==> log[k].since == log[k].attempt.counted)
    && (forall k | 0 < k < |log| :: Follows(log[k - 1], log[k]))
  }

  /** What the store holds after the last failure. */
  predicate Matches(store: Store, id: string, last: Option<Failure>) {
    match last
    case None => store == map[]
    case Some(f) =>
      && f.attempt.check <= f.attempt.counted <= f.attempt.finished
      && if f.place < FAILED_LOGIN_THRESHOLD then
           && Failed(id) in store && store[Failed(id)] == Counter(f.place, f.since + LOGIN_LOCKOUT_SECONDS)
           && (Locked(id) in store ==> store[Locked(id)].expiry <= f.attempt.check)
         else
           && Failed(id) !in store && Locked(id) in store && store[Locked(id)].value > 0
           && store[Locked(id)].expiry == f.attempt.finished + LOGIN_LOCKOUT_SECONDS
  }

  function Last(log: seq<Failure>): Option<Failure> {
    if log == [] then None else Some(log[|log| - 1])
  }

  predicate Invariant(run: Run, id: string) {
    && Chained(run.log) && Matches(run.store, id, Last(run.log))
  }

  lemma CheckReadsTheLastFailure(store: Store, id: string, last: Option<Failure>, now: real)
    requires Matches(store, id, last) && (last.Some? ==> last.value.attempt.finished <= now)
    requires last.Some? ==> last.value.place <= FAILED_LOGIN_THRESHOLD
    ensures var (next, verdict) := Checked(store, id, now);
            && next == store
            && (verdict.Passed? <==>
                last.None? || last.value.place < FAILED_LOGIN_THRESHOLD ||
                now >= last.value.attempt.finished + LOGIN_LOCKOUT_SECONDS)
  {
  }

  lemma PassedFailureFollows(run: Run, id: string, a: Attempt)
    requires Invariant(run, id) && a.check <= a.counted <= a.finished
    requires run.log != [] ==> run.log[|run.log| - 1].attempt.finished <= a.check
    requires Checked(run.store, id, a.check).1.Passed?
    ensures Invariant(Next(run, id, a), id)
  {
    CheckReadsTheLastFailure(run.store, id, Last(run.log), a.check);
    var next := Next(run, id, a);
    var f := next.log[|run.log|];
    if run.log != [] { assert Follows(run.log[|run.log| - 1], f); }
    assert Matches(next.store, id, Some(f));
  }

  lemma {:induction false} RunKeepsInvariant(id: string, attempts: seq<Attempt>)
    requires OneAtATime(attempts)
    ensures Invariant(After(id, attempts), id)
    ensures forall f | f in After(id, attempts).log :: f.attempt in attempts
  {
    if attempts != [] {
      var (before, a) := (attempts[..|attempts| - 1], attempts[|attempts| - 1]);
      assert attempts == before + [a];
      RunKeepsInvariant(id, before);
      var run := After(id, before);
      if run.log != [] { assert run.log[|run.log| - 1] in run.log; }
      CheckReadsTheLastFailure(run.store, id, Last(run.log), a.check);
      if Checked(run.store, id, a.check).1.Passed? { PassedFailureFollows(run, id, a); }
    }
  }

  // ---------------------------------------------------------------- how many fit in 900 seconds

  lemma {:induction false} InOrder(log: seq<Failure>, i: nat, j: nat)
    requires Chained(log) && i < j < |log|
    ensures log[i].attempt.counted <= log[i].attempt.finished <= log[j].attempt.check <= log[j].attempt.counted
    ensures log[i].attempt.check <= log[i].attempt.counted
    decreases j - i
  {
    assert Follows(log[j - 1], log[j]);
    if i < j - 1 { InOrder(log, i, j - 1); }
  }

  /** Failures in one counter take its places in order. */
  lemma {:induction false} PlacesInOrder(log: seq<Failure>, i: nat, j: nat)
    requires Chained(log) && i <= j < |log|
    requires forall k | i < k <= j :: log[k].place != 1
    ensures log[j].place == log[i].place + (j - i) && log[j].since == log[i].since
    decreases j - i
  {
    if i < j {
      PlacesInOrder(log, i, j - 1);
      assert Follows(log[j - 1], log[j]);
    }
  }

  /** Two counters open at least 900 seconds apart. */
  lemma {:induction false} OpeningsAreApart(log: seq<Failure>, i: nat, j: nat)
    requires Chained(log) && i < j < |log| && log[i].place == 1 && log[j].place == 1
    ensures log[j].attempt.counted >= log[i].attempt.counted + LOGIN_LOCKOUT_SECONDS
    decreases j - i
  {
    if k :| i < k < j && log[k].place == 1 {
      OpeningsAreApart(log, k, j);
      InOrder(log, i, k);
    } else {
      PlacesInOrder(log, i, j - 1);
      assert Follows(log[j - 1], log[j]);
      if i < j - 1 { InOrder(log, i, j - 1); }
    }
  }

  /** After a fifth failure nothing passes for 900 seconds. */
  lemma FifthIsFollowedLate(log: seq<Failure>, i: nat, j: nat)
    requires Chained(log) && i < j < |log| && log[i].place == FAILED_LOGIN_THRESHOLD
    ensures log[j].attempt.check >= log[i].attempt.finished + LOGIN_LOCKOUT_SECONDS
  {
    assert Follows(log[i], log[i + 1]);
    if i + 1 < j { InOrder(log, i + 1, j); }
  }

  /** Within four failures on from one, a counter is used up or a new one has opened. */
  lemma NextOpening(log: seq<Failure>, i: nat) returns (k: nat)
    requires Chained(log) && i < |log| && log[i].place < FAILED_LOGIN_THRESHOLD && i + 5 - log[i].place < |log|
    requires forall m | i <= m < i + 5 - log[i].place :: log[m].place < FAILED_LOGIN_THRESHOLD
    ensures i < k <= i + 5 - log[i].place && (log[k].place == 1 || log[k].place == FAILED_LOGIN_THRESHOLD)
  {
    k := i + 5 - log[i].place;
    if m :| i < m <= k && log[m].place == 1 {
      k := m;
    } else {
      PlacesInOrder(log, i, k);
    }
  }

  /** Any nine failures in a row that passed the check are counted over at least 900 seconds, so an
      interval that long, without its end, holds at most eight. */
  lemma NineSpanTheLockout(id: string, attempts: seq<Attempt>, i: nat)
    requires OneAtATime(attempts) && i + 8 < |After(id, attempts).log|
    ensures var log := After(id, attempts).log;
            log[i + 8].attempt.counted >= log[i].attempt.counted + LOGIN_LOCKOUT_SECONDS
  {
    RunKeepsInvariant(id, attempts);
    var log := After(id, attempts).log;
    if m :| i <= m < i + 8 && log[m].place == FAILED_LOGIN_THRESHOLD {
      FifthIsFollowedLate(log, m, i + 8);
      InOrder(log, m, i + 8);
      if i < m { InOrder(log, i, m); }
    } else {
      var j := TwoOpenings(log, i);
    }
  }

  /** Eight failures without a fifth among them hold two openings, unless the first one opens late. */
  lemma TwoOpenings(log: seq<Failure>, i: nat) returns (j: nat)
    requires Chained(log) && i + 8 < |log|
    requires forall m | i <= m < i + 8 :: log[m].place < FAILED_LOGIN_THRESHOLD
    ensures i < j <= i + 8 && log[j].attempt.counted >= log[i].attempt.counted + LOGIN_LOCKOUT_SECONDS
    ensures log[i + 8].attempt.counted >= log[i].attempt.counted + LOGIN_LOCKOUT_SECONDS
  {
    j := NextOpening(log, i);
    if log[i].place == 1 {
      OpeningsAreApart(log, i, j);
    } else {
      var first := j;
      j := NextOpening(log, first);
      OpeningsAreApart(log, first, j);
      InOrder(log, i, first);
    }
    if j < i + 8 { InOrder(log, j, i + 8); }
  }

  /** Failures counted at one instant go into one counter, so there are at most five of them. */
  lemma {:induction false} OneInstantOneCounter(log: seq<Failure>, i: nat, j: nat)
    requires Chained(log) && i <= j < |log| && log[i].attempt.counted == log[j].attempt.counted
    ensures log[j].place == log[i].place + (j - i)
    decreases j - i
  {
    if i < j {
      assert Follows(log[j - 1], log[j]);
      assert CountedInTime(log[j - 1]);
      if i < j - 1 { InOrder(log, i, j - 1); }
      OneInstantOneCounter(log, i, j - 1);
    }
  }

  /** A counter opens later than every failure before it was counted. */
  lemma OpensLater(log: seq<Failure>, i: nat, j: nat)
    requires Chained(log) && i < j < |log| && log[j].place == 1
    ensures log[j].attempt.counted > log[i].attempt.counted
  {
    assert Follows(log[j - 1], log[j]) && CountedInTime(log[j - 1]);
    if i < j - 1 { InOrder(log, i, j - 1); }
  }

  /** Among nine failures of which the tenth comes within 900 seconds of the first there is a fifth. */
  lemma TenHoldAFifth(log: seq<Failure>, i: nat) returns (m: nat)
    requires Chained(log) && i + 9 < |log|
    requires log[i + 9].attempt.counted <= log[i].attempt.counted + LOGIN_LOCKOUT_SECONDS
    ensures i <= m <= i + 8 && log[m].place == FAILED_LOGIN_THRESHOLD
  {
    if m' :| i <= m' <= i + 8 && log[m'].place == FAILED_LOGIN_THRESHOLD {
      m := m';
    } else {
      var first := NextOpening(log, i);
      var second := NextOpening(log, first);
      OpensLater(log, i, first);
      OpeningsAreApart(log, first, second);
      InOrder(log, second, i + 9);
      assert false;
    }
  }

  /** Ten failures fit into a closed interval of 900 seconds in one way only: five are counted at its
      start and five at its end. */
  lemma TenMeanFiveAtEachEnd(id: string, attempts: seq<Attempt>, i: nat)
    requires OneAtATime(attempts) && i + 9 < |After(id, attempts).log|
    ensures var log := After(id, attempts).log;
            log[i + 9].attempt.counted <= log[i].attempt.counted + LOGIN_LOCKOUT_SECONDS ==>
              && (forall k | i <= k <= i + 4 :: log[k].attempt.counted == log[i].attempt.counted)
              && (forall k | i + 5 <= k <= i + 9 ::
                    log[k].attempt.counted == log[i].attempt.counted + LOGIN_LOCKOUT_SECONDS)
  {
    RunKeepsInvariant(id, attempts);
    if After(id, attempts).log[i + 9].attempt.counted <=
       After(id, attempts).log[i].attempt.counted + LOGIN_LOCKOUT_SECONDS {
      FiveAtEachEnd(After(id, attempts).log, i);
    }
  }

  lemma FiveAtEachEnd(log: seq<Failure>, i: nat)
    requires Chained(log) && i + 9 < |log|
    requires log[i + 9].attempt.counted <= log[i].attempt.counted + LOGIN_LOCKOUT_SECONDS
    ensures log[i + 1].attempt.counted == log[i + 4].attempt.counted == log[i].attempt.counted
    ensures log[i + 5].attempt.counted == log[i].attempt.counted + LOGIN_LOCKOUT_SECONDS
    ensures forall k | i <= k <= i + 4 :: log[k].attempt.counted == log[i].attempt.counted
    ensures forall k | i + 5 <= k <= i + 9 :: log[k].attempt.counted == log[i].attempt.counted + LOGIN_LOCKOUT_SECONDS
  {
    var m := TenHoldAFifth(log, i);
    FifthIsFollowedLate(log, m, m + 1);
    forall k | i <= k <= i + 9
      ensures log[k].attempt.counted == log[i].attempt.counted + if k <= m then 0.0 else LOGIN_LOCKOUT_SECONDS
    {
      if i < k { InOrder(log, i, k); }
      if k < i + 9 { InOrder(log, k, i + 9); }
      if k < m { InOrder(log, k, m); }
      if m + 1 < k { InOrder(log, m + 1, k); }
      InOrder(log, m, m + 1);
      if i < m { InOrder(log, i, m); }
      if m + 1 < i + 9 { InOrder(log, m + 1, i + 9); }
    }
    OneInstantOneCounter(log, i, m);
    OneInstantOneCounter(log, m + 1, i + 9);
  }

  /** Any eleven failures that passed the check are counted over more than 900 seconds, so a closed
      interval that long holds at most ten. */
  lemma ElevenSpanMore(id: string, attempts: seq<Attempt>, i: nat)
    requires OneAtATime(attempts) && i + 10 < |After(id, attempts).log|
    ensures var log := After(id, attempts).log;
            log[i + 10].attempt.counted > log[i].attempt.counted + LOGIN_LOCKOUT_SECONDS
  {
    RunKeepsInvariant(id, attempts);
    ElevenAreLonger(After(id, attempts).log, i);
  }

  lemma ElevenAreLonger(log: seq<Failure>, i: nat)
    requires Chained(log) && i + 10 < |log|
    ensures log[i + 10].attempt.counted > log[i].attempt.counted + LOGIN_LOCKOUT_SECONDS
  {
    InOrder(log, i + 9, i + 10);
    InOrder(log, i, i + 1);
    if log[i + 10].attempt.counted <= log[i].attempt.counted + LOGIN_LOCKOUT_SECONDS {
      FiveAtEachEnd(log, i);
      FiveAtEachEnd(log, i + 1);
    }
  }

  /** Counted by any moment between check and record, an interval of 900 seconds without its end holds
      at most nine: the tenth check comes that long after the first of ten failures was finished. */
  lemma TenSpanTheLockout(id: string, attempts: seq<Attempt>, i: nat)
    requires OneAtATime(attempts) && i + 9 < |After(id, attempts).log|
    ensures var log := After(id, attempts).log;
            log[i + 9].attempt.check >= log[i].attempt.finished + LOGIN_LOCKOUT_SECONDS
  {
    RunKeepsInvariant(id, attempts);
    var log := After(id, attempts).log;
    if m :| i <= m < i + 9 && log[m].place == FAILED_LOGIN_THRESHOLD {
      FifthIsFollowedLate(log, m, i + 9);
      if i < m { InOrder(log, i, m); }
    } else {
      var first := NextOpening(log, i);
      var second := NextOpening(log, first);
      OpeningsAreApart(log, first, second);
      InOrder(log, i, first);
      InOrder(log, second, i + 9);
    }
  }

  /** One attempt at a time never meets the gap between the fifth count and its lock: a refusal always
      comes from a lock that is already set. */
  lemma GapIsNeverMet(id: string, attempts: seq<Attempt>, now: real)
    requires OneAtATime(attempts) && forall a | a in attempts :: a.finished <= now
    ensures Get(After(id, attempts).store, Failed(id), now) < FAILED_LOGIN_THRESHOLD
    ensures Checked(After(id, attempts).store, id, now).0 == After(id, attempts).store
  {
    RunKeepsInvariant(id, attempts);
    var run := After(id, attempts);
    if run.log != [] { assert run.log[|run.log| - 1] in run.log; }
    CheckReadsTheLastFailure(run.store, id, Last(run.log), now);
  }

  // ---------------------------------------------------------------- the bounds are reached

  /** `n` failures are in a counter that lives until `e`, and no lock is live. */
  predicate Counting(store: Store, id: string, now: real, n: nat, e: real) {
    && !IsLive(store, Locked(id), now)
    && if n == 0 then !IsLive(store, Failed(id), now) && e == now + LOGIN_LOCKOUT_SECONDS
       else IsLive(store, Failed(id), now) && store[Failed(id)] == Counter(n, e)
  }

  function Instant(t: real): Attempt {
    Attempt(t, t, t)
  }

  lemma OneMoreCounted(run: Run, id: string, t: real, n: nat, e: real)
    requires Counting(run.store, id, t, n, e) && n < FAILED_LOGIN_THRESHOLD
    ensures var next := Next(run, id, Instant(t));
            && |next.log| == |run.log| + 1 && run.log <= next.log && next.log[|run.log|].attempt == Instant(t)
            && if n < 4 then Counting(next.store, id, t, n + 1, e)
               else Failed(id) !in next.store && Locked(id) in next.store &&
                    next.store[Locked(id)].expiry == t + LOGIN_LOCKOUT_SECONDS
  {
  }

  lemma AfterOneMore(id: string, before: seq<Attempt>, a: Attempt)
    ensures After(id, before + [a]) == Next(After(id, before), id, a)
  {
    assert (before + [a])[..|before|] == before;
  }

  /** `k` failures at once. */
  function Burst(t: real, k: nat): seq<Attempt> {
    if k == 0 then [] else Burst(t, k - 1) + [Instant(t)]
  }

  predicate AllInstant(log: seq<Failure>, start: nat, t: real) {
    forall i | start <= i < |log| :: log[i].attempt == Instant(t)
  }

  /** `k` failures at `t` have been counted since the log was `was`, when the counter stood at `n`. */
  predicate Grown(was: seq<Failure>, run: Run, id: string, t: real, n: nat, e: real, k: nat) {
    && |run.log| == |was| + k && was <= run.log && AllInstant(run.log, |was|, t)
    && if n + k < FAILED_LOGIN_THRESHOLD then Counting(run.store, id, t, n + k, e)
       else Failed(id) !in run.store && Locked(id) in run.store &&
            run.store[Locked(id)].expiry == t + LOGIN_LOCKOUT_SECONDS
  }

  lemma GrowsByOne(was: seq<Failure>, run: Run, id: string, t: real, n: nat, e: real, k: nat)
    requires Grown(was, run, id, t, n, e, k) && n + k < FAILED_LOGIN_THRESHOLD
    ensures Grown(was, Next(run, id, Instant(t)), id, t, n, e, k + 1)
  {
    OneMoreCounted(run, id, t, n + k, e);
  }

  function Iterate<S>(step: S -> S, s: S, k: nat): S {
    if k == 0 then s else step(Iterate(step, s, k - 1))
  }

  lemma {:induction false} Iterated<S(!new)>(step: S -> S, s: S, k: nat, holds: (S, nat) -> bool)
    requires holds(s, 0) && forall r, j: nat | j < k && holds(r, j) :: holds(step(r), j + 1)
    ensures holds(Iterate(step, s, k), k)
  {
    if k > 0 { Iterated(step, s, k - 1, holds); }
  }

  lemma {:induction false} StepsAreIterated<S>(f: nat -> S, step: S -> S, start: S, k: nat)
    requires f(0) == start && forall j: nat | j < k :: f(j + 1) == step(f(j))
    ensures f(k) == Iterate(step, start, k)
  {
    if k > 0 {
      StepsAreIterated(f, step, start, k - 1);
      var j := k - 1;
      assert f(j + 1) == step(f(j));
    }
  }

  lemma AfterLongerBurst(id: string, before: seq<Attempt>, t: real, j: nat)
    ensures After(id, before + Burst(t, j + 1)) == Next(After(id, before + Burst(t, j)), id, Instant(t))
  {
    assert before + Burst(t, j + 1) == before + Burst(t, j) + [Instant(t)];
    AfterOneMore(id, before + Burst(t, j), Instant(t));
  }

  lemma AfterBurst(id: string, before: seq<Attempt>, t: real, k: nat)
    ensures After(id, before + Burst(t, k)) == Iterate((r: Run) => Next(r, id, Instant(t)), After(id, before), k)
  {
    var f := (j: nat) => After(id, before + Burst(t, j));
    var step := (r: Run) => Next(r, id, Instant(t));
    forall j: nat | j < k ensures f(j + 1) == step(f(j)) {
      AfterLongerBurst(id, before, t, j);
    }
    assert f(0) == After(id, before) by { assert before + Burst(t, 0) == before; }
    StepsAreIterated(f, step, After(id, before), k);
  }

  lemma BurstIsCounted(id: string, before: seq<Attempt>, t: real, n: nat, e: real, k: nat)
    requires Counting(After(id, before).store, id, t, n, e) && n < FAILED_LOGIN_THRESHOLD
             && n + k <= FAILED_LOGIN_THRESHOLD
    ensures Grown(After(id, before).log, After(id, before + Burst(t, k)), id, t, n, e, k)
  {
    var run := After(id, before);
    BurstGrows(run, id, t, n, e, k);
    AfterBurst(id, before, t, k);
  }

  lemma BurstGrows(run: Run, id: string, t: real, n: nat, e: real, k: nat)
    requires Counting(run.store, id, t, n, e) && n < FAILED_LOGIN_THRESHOLD && n + k <= FAILED_LOGIN_THRESHOLD
    ensures Grown(run.log, Iterate((r: Run) => Next(r, id, Instant(t)), run, k), id, t, n, e, k)
  {
    var step := (r: Run) => Next(r, id, Instant(t));
    var holds := (r: Run, j: nat) => Grown(run.log, r, id, t, n, e, j);
    forall r, j: nat | j < k && holds(r, j) ensures holds(step(r), j + 1) {
      GrowsByOne(run.log, r, id, t, n, e, j);
    }
    Iterated(step, run, k, holds);
  }

  /** One failure, three more just before its counter expires, and five right after: the last eight lie
      within 900 seconds. */
  lemma EightAreReached(id: string)
    ensures var log := After(id, Burst(0.0, 1) + Burst(899.0, 3) + Burst(900.0, 5)).log;
            && |log| == 9
            && (forall i | 1 <= i < 9 :: 899.0 <= log[i].attempt.counted < 899.0 + LOGIN_LOCKOUT_SECONDS)
  {
    BurstIsCounted(id, [], 0.0, 0, 900.0, 1);
    assert [] + Burst(0.0, 1) == Burst(0.0, 1);
    BurstIsCounted(id, Burst(0.0, 1), 899.0, 1, 900.0, 3);
    BurstIsCounted(id, Burst(0.0, 1) + Burst(899.0, 3), 900.0, 0, 1800.0, 5);
  }

  /** A closed interval may hold ten: five at its start and five at its end. */
  lemma ClosedIntervalHoldsTen(id: string)
    ensures var log := After(id, Burst(0.0, 5) + Burst(900.0, 5)).log;
            |log| == 10 && forall i | 0 <= i < 10 :: 0.0 <= log[i].attempt.counted <= LOGIN_LOCKOUT_SECONDS
  {
    FirstFiveAreCounted(id);
    BurstIsCounted(id, Burst(0.0, 5), 900.0, 0, 1800.0, 5);
  }

  lemma FirstFiveAreCounted(id: string)
    ensures Grown([], After(id, Burst(0.0, 5)), id, 0.0, 0, 900.0, 5)
  {
    BurstIsCounted(id, [], 0.0, 0, 900.0, 5);
    assert [] + Burst(0.0, 5) == Burst(0.0, 5);
  }

  // ---------------------------------------------------------------- a lock, whatever happens

  /** The single accesses to the store that the operations are made of, in any interleaving. */
  datatype Access =
    | Check(id: string, now: real)
    | CountFailure(id: string, now: real)
    | SetLock(id: string, now: real)
    | ClearFailures(id: string, now: real)

  function Accessed(store: Store, access: Access): Store {
    match access
    case Check(id, now) => Checked(store, id, now).0
    case CountFailure(id, now) => Incr(store, Failed(id), now)
    case SetLock(id, now) => Incr(store, Locked(id), now)
    case ClearFailures(id, now) => Clear(store, Failed(id))
  }

  function AccessedAll(store: Store, accesses: seq<Access>): Store
    decreases |accesses|
  {
    if accesses == [] then store else AccessedAll(Accessed(store, accesses[0]), accesses[1..])
  }

  /** The expiry of a lock is fixed when it is set: until then no failure, success or check of any
      account moves or removes it, and every check of its account is refused up to that time. */
  lemma {:induction false} LockIsFixed(store: Store, id: string, accesses: seq<Access>)
    requires Locked(id) in store && store[Locked(id)].value > 0
    requires forall a | a in accesses :: a.now < store[Locked(id)].expiry
    ensures var expiry := store[Locked(id)].expiry;
            var later := AccessedAll(store, accesses);
            && Locked(id) in later && later[Locked(id)].expiry == expiry
            && forall now | now < expiry :: Checked(later, id, now).1 == Refused(expiry)
    decreases |accesses|
  {
    if accesses == [] {
    } else {
      LockIsFixed(Accessed(store, accesses[0]), id, accesses[1..]);
    }
  }
}
