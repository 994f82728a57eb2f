/** The bounded-concurrency loop of the email worker under every schedule of its consumers. Code
    between two awaits runs without interruption, so a schedule is a sequence of two kinds of turns:
    a consumer goes around its loop, or the operation it awaits settles. */
module WorkerConcurrency {
  import opened Wrappers
  import opened EmailOutbox

  datatype Consumer = Looping | Awaiting(index: nat) | Rejected(index: nat) | Done

  /** `started` lists the indices in the order in which their operations were started. */
  datatype State<R> = State(cursor: nat, results: seq<Option<R>>, consumers: seq<Consumer>, started: seq<nat>)

  /** A settled operation either produced a value or was rejected. */
  datatype Turn<R> = Loop(consumer: nat) | Settle(consumer: nat, outcome: Option<R>)

  function Min(a: nat, b: nat): nat {
    if a < b then a else b
  }

  function Start<R>(count: nat, concurrency: nat): (st: State<R>)
    ensures Valid(st) && |st.results| == count
  {
    State(0, seq(count, _ => None), seq(Min(concurrency, count), _ => Looping), [])
  }

  predicate Enabled<R>(st: State<R>, turn: Turn<R>) {
    && turn.consumer < |st.consumers|
    && (turn.Loop? ==> st.consumers[turn.consumer].Looping?)
    && (turn.Settle? ==> st.consumers[turn.consumer].Awaiting?)
  }

  function Next<R>(st: State<R>, turn: Turn<R>): State<R>
    requires Enabled(st, turn)
    requires forall k | 0 <= k < |st.consumers| && st.consumers[k].Awaiting? :: st.consumers[k].index < |st.results|
  {
    var k := turn.consumer;
    match turn
    case Loop(_) =>
      if st.cursor < |st.results| then
        st.(cursor := st.cursor + 1, consumers := st.consumers[k := Awaiting(st.cursor)],
            started := st.started + [st.cursor])
      else st.(consumers := st.consumers[k := Done])
    case Settle(_, outcome) =>
      var index := st.consumers[k].index;
      if outcome.Some? then st.(results := st.results[index := outcome], consumers := st.consumers[k := Looping])
      else st.(consumers := st.consumers[k := Rejected(index)])
  }

  /** Cursor, results and consumers as the shared mutable state that the loop keeps. */
  class ConcurrentMap<R> {
    var cursor: nat
    var results: seq<Option<R>>
    var consumers: seq<Consumer>
    ghost var started: seq<nat>

    ghost function Contents(): State<R>
      reads this
    {
      State(cursor, results, consumers, started)
    }

    constructor (count: nat, concurrency: nat)
      ensures Contents() == Start(count, concurrency)
    {
      cursor, started := 0, [];
      results := seq(count, _ => None);
      consumers := seq(Min(concurrency, count), _ => Looping);
    }

    /** A turn of the while loop, up to the await. */
    method GoAround(k: nat) returns (index: Option<nat>)
      requires Enabled(Contents(), Turn<R>.Loop(k)) && Valid(Contents())
      modifies this
      ensures Contents() == Next(old(Contents()), Turn<R>.Loop(k))
      ensures index == if old(cursor) < |old(results)| then Some(old(cursor)) else None
    {
      if cursor < |results| {
        index := Some(cursor);
        started := started + [cursor];
        consumers := consumers[k := Awaiting(cursor)];
        cursor := cursor + 1;
      } else {
        consumers := consumers[k := Done];
        index := None;
      }
    }

    /** The await returns: the result is stored under the index that this consumer took. */
    method Resume(k: nat, outcome: Option<R>)
      requires Enabled(Contents(), Settle(k, outcome)) && Valid(Contents())
      modifies this
      ensures Contents() == Next(old(Contents()), Settle(k, outcome))
    {
      var index := consumers[k].index;
      if outcome.Some? {
        results := results[index := outcome];
        consumers := consumers[k := Looping];
      } else {
        consumers := consumers[k := Rejected(index)];
      }
    }
  }

  // ---------------------------------------------------------------- the invariant

  predicate Holds(c: Consumer, index: nat) {
    (c.Awaiting? || c.Rejected?) && c.index == index
  }

  predicate IsHeld(consumers: seq<Consumer>, index: nat) {
    exists k :: 0 <= k < |consumers| && Holds(consumers[k], index)
  }

  predicate IsHolder(c: Consumer) {
    c.Awaiting? || c.Rejected?
  }

  ghost predicate HoldersAreOpen<R>(st: State<R>) {
    && st.cursor <= |st.results|
    && forall k | 0 <= k < |st.consumers| && IsHolder(st.consumers[k]) ::
         st.consumers[k].index < st.cursor && st.results[st.consumers[k].index].None?
  }

  ghost predicate HoldersDiffer<R>(st: State<R>) {
    forall a, b | 0 <= a < b < |st.consumers| && IsHolder(st.consumers[a]) ::
      !Holds(st.consumers[b], st.consumers[a].index)
  }

  ghost predicate OpenAreHeld<R>(st: State<R>) {
    && st.cursor <= |st.results|
    && forall i | 0 <= i < st.cursor && st.results[i].None? :: IsHeld(st.consumers, i)
  }

  ghost predicate StartedInOrder<R>(st: State<R>) {
    |st.started| == st.cursor && forall i | 0 <= i < st.cursor :: st.started[i] == i
  }

  ghost predicate RestIsOpen<R>(st: State<R>) {
    forall i | st.cursor <= i < |st.results| :: st.results[i].None?
  }

  ghost predicate DoneAtTheEnd<R>(st: State<R>) {
    forall k | 0 <= k < |st.consumers| && st.consumers[k].Done? :: st.cursor == |st.results|
  }

  /** Every started index has a result or exactly one consumer on it; no other index has either. */
  ghost predicate Valid<R>(st: State<R>) {
    && StartedInOrder(st) && HoldersAreOpen(st) && HoldersDiffer(st)
    && OpenAreHeld(st) && RestIsOpen(st) && DoneAtTheEnd(st)
  }

  lemma LoopKeepsCover<R>(st: State<R>, k: nat)
    requires Valid(st) && Enabled(st, Turn<R>.Loop(k))
    ensures OpenAreHeld(Next(st, Turn<R>.Loop(k)))
  {
    var st' := Next(st, Turn<R>.Loop(k));
    forall i | 0 <= i < st'.cursor && st'.results[i].None? ensures IsHeld(st'.consumers, i) {
      if i == st.cursor {
        assert Holds(st'.consumers[k], i);
      } else {
        assert IsHeld(st.consumers, i);
        var j :| 0 <= j < |st.consumers| && Holds(st.consumers[j], i);
        assert Holds(st'.consumers[j], i);
      }
    }
  }

  lemma LoopKeepsHolders<R>(st: State<R>, k: nat)
    requires Valid(st) && Enabled(st, Turn<R>.Loop(k))
    ensures HoldersAreOpen(Next(st, Turn<R>.Loop(k))) && HoldersDiffer(Next(st, Turn<R>.Loop(k)))
  {
  }

  lemma LoopKeepsValid<R>(st: State<R>, k: nat)
    requires Valid(st) && Enabled(st, Turn<R>.Loop(k))
    ensures Valid(Next(st, Turn<R>.Loop(k)))
  {
    LoopKeepsCover(st, k);
    LoopKeepsHolders(st, k);
  }

  lemma SettleKeepsHolders<R>(st: State<R>, k: nat, outcome: Option<R>)
    requires Valid(st) && Enabled(st, Settle(k, outcome))
    ensures HoldersAreOpen(Next(st, Settle(k, outcome))) && HoldersDiffer(Next(st, Settle(k, outcome)))
  {
    var index := st.consumers[k].index;
    assert Holds(st.consumers[k], index);
  }

  lemma SettleKeepsCover<R>(st: State<R>, k: nat, outcome: Option<R>)
    requires Valid(st) && Enabled(st, Settle(k, outcome))
    ensures OpenAreHeld(Next(st, Settle(k, outcome)))
  {
    var st' := Next(st, Settle(k, outcome));
    forall i | 0 <= i < st'.cursor && st'.results[i].None? ensures IsHeld(st'.consumers, i) {
      assert IsHeld(st.consumers, i);
      var j :| 0 <= j < |st.consumers| && Holds(st.consumers[j], i);
      assert Holds(st'.consumers[j], i);
    }
  }

  lemma SettleKeepsValid<R>(st: State<R>, k: nat, outcome: Option<R>)
    requires Valid(st) && Enabled(st, Settle(k, outcome))
    ensures Valid(Next(st, Settle(k, outcome)))
  {
    SettleKeepsHolders(st, k, outcome);
    SettleKeepsCover(st, k, outcome);
  }

  // ---------------------------------------------------------------- schedules

  /** An operation started on `values[i]` can only produce what `produces` relates to that value. */
  ghost predicate Schedule<T(!new), R(!new)>(values: seq<T>, produces: (T, R) -> bool, st: State<R>,
                                             turns: seq<Turn<R>>)
    requires Valid(st) && |st.results| == |values|
    decreases |turns|
  {
    turns != [] ==>
      && Enabled(st, turns[0])
      && (turns[0].Settle? && turns[0].outcome.Some? ==>
            produces(values[st.consumers[turns[0].consumer].index], turns[0].outcome.value))
      && (TurnKeepsValid(st, turns[0]); Schedule(values, produces, Next(st, turns[0]), turns[1..]))
  }

  lemma TurnKeepsValid<R>(st: State<R>, turn: Turn<R>)
    requires Valid(st) && Enabled(st, turn)
    ensures Valid(Next(st, turn)) && |Next(st, turn).results| == |st.results|
            && |Next(st, turn).consumers| == |st.consumers|
  {
    match turn {
      case Loop(k) => LoopKeepsValid(st, k);
      case Settle(k, outcome) => SettleKeepsValid(st, k, outcome);
    }
  }

  function Run<T(!new), R(!new)>(values: seq<T>, ghost produces: (T, R) -> bool, st: State<R>,
                                 turns: seq<Turn<R>>): State<R>
    requires Valid(st) && |st.results| == |values| && Schedule(values, produces, st, turns)
    decreases |turns|
  {
    if turns == [] then st
    else
      TurnKeepsValid(st, turns[0]);
      Run(values, produces, Next(st, turns[0]), turns[1..])
  }

  ghost predicate ResultsMatch<T, R>(values: seq<T>, produces: (T, R) -> bool, results: seq<Option<R>>) {
    |results| == |values| &&
    forall i | 0 <= i < |results| && results[i].Some? :: produces(values[i], results[i].value)
  }

  lemma {:induction false} RunKeepsResults<T(!new), R(!new)>(values: seq<T>, produces: (T, R) -> bool, st: State<R>,
                                                             turns: seq<Turn<R>>)
    requires Valid(st) && ResultsMatch(values, produces, st.results) && Schedule(values, produces, st, turns)
    ensures var end := Run(values, produces, st, turns);
            Valid(end) && ResultsMatch(values, produces, end.results) && |end.consumers| == |st.consumers|
    decreases |turns|
  {
    if turns != [] {
      TurnKeepsValid(st, turns[0]);
      RunKeepsResults(values, produces, Next(st, turns[0]), turns[1..]);
    }
  }

  /** How many operations are awaited. */
  function InFlight(consumers: seq<Consumer>): nat {
    if consumers == [] then 0 else (if consumers[0].Awaiting? then 1 else 0) + InFlight(consumers[1..])
  }

  lemma {:induction false} InFlightBound(consumers: seq<Consumer>)
    ensures InFlight(consumers) <= |consumers|
  {
    if consumers != [] { InFlightBound(consumers[1..]); }
  }

  /** Under every schedule: operations start once each, in order; at most `concurrency` are in flight;
      and once all consumers are done, result i was produced from value i, for every i. */
  lemma EveryScheduleIsCorrect<T(!new), R(!new)>(values: seq<T>, concurrency: nat, produces: (T, R) -> bool,
                                                 turns: seq<Turn<R>>)
    requires concurrency >= 1
    requires Schedule(values, produces, Start(|values|, concurrency), turns)
    ensures var end := Run(values, produces, Start(|values|, concurrency), turns);
            && (forall i | 0 <= i < |end.started| :: end.started[i] == i)
            && InFlight(end.consumers) <= concurrency
            && ((forall k | 0 <= k < |end.consumers| :: end.consumers[k].Done?) ==>
                  && |end.started| == |values| == |end.results|
                  && forall i | 0 <= i < |values| :: end.results[i].Some? && produces(values[i], end.results[i].value))
  {
    var start := Start<R>(|values|, concurrency);
    RunKeepsResults(values, produces, start, turns);
    var end := Run(values, produces, start, turns);
    InFlightBound(end.consumers);
    if forall k | 0 <= k < |end.consumers| :: end.consumers[k].Done? {
      if |values| > 0 { assert end.consumers[0].Done?; }
    }
  }

  // ---------------------------------------------------------------- no schedule goes on for ever

  function Weight(c: Consumer): nat {
    match c
    case Looping => 1
    case Awaiting(_) => 2
    case Rejected(_) => 0
    case Done => 0
  }

  function Weights(consumers: seq<Consumer>): nat {
    if consumers == [] then 0 else Weight(consumers[0]) + Weights(consumers[1..])
  }

  lemma {:induction false} WeightsUpdate(consumers: seq<Consumer>, k: nat, c: Consumer)
    requires k < |consumers|
    ensures Weights(consumers[k := c]) == Weights(consumers) - Weight(consumers[k]) + Weight(c)
  {
    if k > 0 {
      assert consumers[k := c][1..] == consumers[1..][k - 1 := c];
      WeightsUpdate(consumers[1..], k - 1, c);
    } else {
      assert consumers[0 := c][1..] == consumers[1..];
    }
  }

  function Work<R>(st: State<R>): int {
    2 * (|st.results| - st.cursor) + Weights(st.consumers)
  }

  lemma {:induction false} StartWeight(n: nat)
    ensures Weights(seq(n, _ => Looping)) == n
  {
    var s := seq(n, _ => Looping);
    if n > 0 {
      assert s[1..] == seq(n - 1, _ => Looping);
      StartWeight(n - 1);
    }
  }

  lemma {:induction false} RunIsShort<T(!new), R(!new)>(values: seq<T>, produces: (T, R) -> bool, st: State<R>,
                                                        turns: seq<Turn<R>>)
    requires Valid(st) && |st.results| == |values| && Schedule(values, produces, st, turns)
    ensures |turns| + Work(Run(values, produces, st, turns)) <= Work(st)
    decreases |turns|
  {
    if turns != [] {
      var turn := turns[0];
      var next := Next(st, turn);
      WeightsUpdate(st.consumers, turn.consumer, next.consumers[turn.consumer]);
      assert next.consumers == st.consumers[turn.consumer := next.consumers[turn.consumer]];
      TurnKeepsValid(st, turn);
      RunIsShort(values, produces, next, turns[1..]);
    }
  }

  /** Every schedule ends: n operations and c consumers allow at most 2n + c turns. */
  lemma EveryScheduleEnds<T(!new), R(!new)>(values: seq<T>, concurrency: nat, produces: (T, R) -> bool,
                                            turns: seq<Turn<R>>)
    requires Schedule(values, produces, Start(|values|, concurrency), turns)
    ensures |turns| <= 2 * |values| + Min(concurrency, |values|)
  {
    var start := Start<R>(|values|, concurrency);
    StartWeight(Min(concurrency, |values|));
    RunIsShort(values, produces, start, turns);
    RunKeepsWork(values, produces, start, turns);
  }

  lemma {:induction false} RunKeepsWork<T(!new), R(!new)>(values: seq<T>, produces: (T, R) -> bool, st: State<R>,
                                                          turns: seq<Turn<R>>)
    requires Valid(st) && |st.results| == |values| && Schedule(values, produces, st, turns)
    ensures Work(Run(values, produces, st, turns)) >= 0
    decreases |turns|
  {
    if turns != [] {
      TurnKeepsValid(st, turns[0]);
      RunKeepsWork(values, produces, Next(st, turns[0]), turns[1..]);
    }
  }

  // ---------------------------------------------------------------- the worker's report

  datatype Report = Report(claimed: nat, sent: nat, retryScheduled: nat, terminalFailed: nat, skipped: nat)

  function Count(outcomes: seq<Outcome>, outcome: Outcome): nat {
    if outcomes == [] then 0 else (if outcomes[0] == outcome then 1 else 0) + Count(outcomes[1..], outcome)
  }

  function ReportOf(jobs: nat, outcomes: seq<Outcome>): Report {
    Report(jobs, Count(outcomes, Sent), Count(outcomes, Retry), Count(outcomes, Failed), Count(outcomes, Skipped))
  }

  lemma {:induction false} CountsAddUp(outcomes: seq<Outcome>)
    ensures Count(outcomes, Sent) + Count(outcomes, Retry) + Count(outcomes, Failed)
            + Count(outcomes, Skipped) == |outcomes|
  {
    if outcomes != [] { CountsAddUp(outcomes[1..]); }
  }

  function Values<R>(results: seq<Option<R>>): seq<R>
    requires forall i | 0 <= i < |results| :: results[i].Some?
  {
    seq(|results|, i requires 0 <= i < |results| => results[i].value)
  }

  /** When every delivery is answered, each claimed job is counted exactly once. */
  lemma ReportIsComplete<T(!new)>(jobs: seq<T>, concurrency: nat, produces: (T, Outcome) -> bool,
                                  turns: seq<Turn<Outcome>>)
    requires concurrency >= 1
    requires Schedule(jobs, produces, Start(|jobs|, concurrency), turns)
    requires forall k | 0 <= k < |Run(jobs, produces, Start(|jobs|, concurrency), turns).consumers| ::
               Run(jobs, produces, Start(|jobs|, concurrency), turns).consumers[k].Done?
    ensures var end := Run(jobs, produces, Start(|jobs|, concurrency), turns);
            && (forall i | 0 <= i < |end.results| :: end.results[i].Some?)
            && var report := ReportOf(|jobs|, Values(end.results));
               report.claimed == report.sent + report.retryScheduled + report.terminalFailed + report.skipped
  {
    EveryScheduleIsCorrect(jobs, concurrency, produces, turns);
    CountsAddUp(Values(Run(jobs, produces, Start(|jobs|, concurrency), turns).results));
  }
}
