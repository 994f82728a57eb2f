/** The chatbot's slots: who gives a slot back, and when, while requests time out and jobs run on. */
module ChatbotLeases {
  import opened Counting
  import opened Wrappers

  /** How far the request that holds the lease has come: `Submitted`, `Marked` and `Attached` are the
      points inside `submit` and `transfer` between which other threads may run. */
  datatype Stage = Working | Submitted | Marked | Attached | Ended

  /** A cancelled future is done like any other. */
  datatype Job = NoJob | Pending | Done

  datatype Releaser = Middleware | Callback

  /** `due` says that the release callback is registered and has not been called. */
  datatype Lease = Lease(stage: Stage, job: Job, transferred: bool, due: bool, releasedBy: Option<Releaser>)

  /** `overReleased` is set when the bounded semaphore would raise. */
  datatype State = State(free: nat, leases: seq<Lease>, overReleased: bool)

  /** Each step is one that the threads take without interruption. */
  datatype Step =
    | Admit
    | Submit(lease: nat)
    | Mark(lease: nat)
    | Attach(lease: nat)
    | End(lease: nat)
    | Finish(lease: nat)
    | Call(lease: nat)

  // ---------------------------------------------------------------- the semaphore and the lease

  /** What giving back one slot leaves free, and whether the semaphore refuses. */
  function GivenBack(free: nat, limit: nat): (nat, bool) {
    if free >= limit then (free, true) else (free + 1, false)
  }

  class BoundedSemaphore {
    const limit: nat
    var free: nat

    constructor (limit: nat)
      ensures this.limit == limit == free
    {
      this.limit, free := limit, limit;
    }

    method Acquire() returns (taken: bool)
      modifies this
      ensures taken == (old(free) > 0) && free == old(free) - if taken then 1 else 0
    {
      if free == 0 { return false; }
      free := free - 1;
      return true;
    }

    method Release() returns (refused: bool)
      modifies this
      ensures (free, refused) == GivenBack(old(free), limit)
    {
      if free >= limit { return true; }
      free := free + 1;
      return false;
    }
  }

  class LeaseObject {
    const slots: BoundedSemaphore
    var released: bool
    var transferred: bool

    constructor (slots: BoundedSemaphore)
      ensures this.slots == slots && !released && !transferred
    {
      this.slots, released, transferred := slots, false, false;
    }

    /** Gives the slot back the first time, and does nothing after that. */
    method Release() returns (refused: bool)
      modifies this, slots
      ensures released && transferred == old(transferred)
      ensures (slots.free, refused) ==
              if old(released) then (old(slots.free), false) else GivenBack(old(slots.free), slots.limit)
    {
      refused := false;
      if !released {
        released := true;
        refused := slots.Release();
      }
    }

    /** Marks the lease; the callback is called at once when the future is already done, and registered otherwise. */
    method Transfer(done: bool) returns (registered: bool, refused: bool)
      modifies this, slots
      ensures transferred && registered == !done && released == (old(released) || done)
      ensures (slots.free, refused) ==
              if old(released) || !done then (old(slots.free), false) else GivenBack(old(slots.free), slots.limit)
    {
      transferred := true;
      registered, refused := !done, false;
      if done {
        refused := Release();
      }
    }
  }

  // ---------------------------------------------------------------- steps

  function WithLease(s: State, i: nat, lease: Lease): State
    requires i < |s.leases|
  {
    s.(leases := s.leases[i := lease])
  }

  /** `release` of lease `i`, after `lease` has been written. */
  function Releasing(s: State, limit: nat, i: nat, lease: Lease, who: Releaser): State
    requires i < |s.leases|
  {
    if lease.releasedBy.Some? then WithLease(s, i, lease)
    else
      var (free, refused) := GivenBack(s.free, limit);
      State(free, s.leases[i := lease.(releasedBy := Some(who))], s.overReleased || refused)
  }

  predicate Enabled(s: State, step: Step) {
    match step
    case Admit => s.free > 0
    case Submit(i) => i < |s.leases| && s.leases[i].stage == Working
    case Mark(i) => i < |s.leases| && s.leases[i].stage == Submitted
    case Attach(i) => i < |s.leases| && s.leases[i].stage == Marked
    case End(i) => i < |s.leases| && (s.leases[i].stage == Working || s.leases[i].stage == Attached)
    case Finish(i) => i < |s.leases| && s.leases[i].job == Pending
    case Call(i) => i < |s.leases| && s.leases[i].job == Done && s.leases[i].due
  }

  function Next(s: State, limit: nat, step: Step): State {
    if !Enabled(s, step) then s
    else
      match step
      case Admit => State(s.free - 1, s.leases + [Lease(Working, NoJob, false, false, None)], s.overReleased)
      case Submit(i) => WithLease(s, i, s.leases[i].(stage := Submitted, job := Pending))
      case Mark(i) => WithLease(s, i, s.leases[i].(stage := Marked, transferred := true))
      case Attach(i) =>
        if s.leases[i].job == Done then Releasing(s, limit, i, s.leases[i].(stage := Attached), Callback)
        else WithLease(s, i, s.leases[i].(stage := Attached, due := true))
      case End(i) =>
        var ended := s.leases[i].(stage := Ended);
        if s.leases[i].transferred then WithLease(s, i, ended) else Releasing(s, limit, i, ended, Middleware)
      case Finish(i) => WithLease(s, i, s.leases[i].(job := Done))
      case Call(i) => Releasing(s, limit, i, s.leases[i].(due := false), Callback)
  }

  function After(limit: nat, steps: seq<Step>): State {
    if steps == [] then State(limit, [], false)
    else Next(After(limit, steps[..|steps| - 1]), limit, steps[|steps| - 1])
  }

  // ---------------------------------------------------------------- counting leases

  const HELD: Lease -> bool := (lease: Lease) => lease.releasedBy.None?
  const UNFINISHED: Lease -> bool := (lease: Lease) => lease.job == Pending

  // ---------------------------------------------------------------- the invariant

  /** Before its request has ended or attached it, a lease is held; after that it is either the
      middleware's or the callback's. */
  predicate LeaseOk(lease: Lease) {
    match lease.stage
    case Working => lease == Lease(Working, NoJob, false, false, None)
    case Submitted => lease.job != NoJob && lease == Lease(Submitted, lease.job, false, false, None)
    case Marked => lease.job != NoJob && lease == Lease(Marked, lease.job, true, false, None)
    case Attached => Handed(lease)
    case Ended => Handed(lease) || lease == Lease(Ended, NoJob, false, false, Some(Middleware))
  }

  /** The callback is due, or it has been called because the job is done. */
  predicate Handed(lease: Lease) {
    && lease.transferred && lease.job != NoJob
    && if lease.due then lease.releasedBy == None else lease.job == Done && lease.releasedBy == Some(Callback)
  }

  ghost predicate Invariant(s: State, limit: nat) {
    && !s.overReleased
    && s.free + CountOf(s.leases, HELD) == limit
    && forall i | 0 <= i < |s.leases| :: LeaseOk(s.leases[i])
  }

  lemma WritingKeepsInvariant(s: State, limit: nat, i: nat, lease: Lease)
    requires Invariant(s, limit) && i < |s.leases|
    requires LeaseOk(lease) && HELD(lease) == HELD(s.leases[i])
    ensures Invariant(WithLease(s, i, lease), limit)
  {
    CountOfUpdate(s.leases, i, lease, HELD);
  }

  /** A lease that is held when it is released is counted, so the semaphore has room. */
  lemma ReleasingKeepsInvariant(s: State, limit: nat, i: nat, lease: Lease, who: Releaser)
    requires Invariant(s, limit) && i < |s.leases|
    requires HELD(s.leases[i]) && HELD(lease) && LeaseOk(lease.(releasedBy := Some(who)))
    ensures Invariant(Releasing(s, limit, i, lease, who), limit)
  {
    CountOfSome(s.leases, i, HELD);
    CountOfUpdate(s.leases, i, lease.(releasedBy := Some(who)), HELD);
  }

  lemma StepKeepsInvariant(s: State, limit: nat, step: Step)
    requires Invariant(s, limit)
    ensures Invariant(Next(s, limit, step), limit)
  {
    if Enabled(s, step) {
      if step == Admit {
        CountOfOneMore(s.leases, Lease(Working, NoJob, false, false, None), HELD);
      } else {
        var i := step.lease;
        var lease := s.leases[i];
        assert LeaseOk(lease);
        match step
        case Submit(_) => WritingKeepsInvariant(s, limit, i, lease.(stage := Submitted, job := Pending));
        case Mark(_) => WritingKeepsInvariant(s, limit, i, lease.(stage := Marked, transferred := true));
        case Attach(_) =>
          if lease.job == Done { ReleasingKeepsInvariant(s, limit, i, lease.(stage := Attached), Callback); }
          else { WritingKeepsInvariant(s, limit, i, lease.(stage := Attached, due := true)); }
        case End(_) =>
          if lease.transferred { WritingKeepsInvariant(s, limit, i, lease.(stage := Ended)); }
          else { ReleasingKeepsInvariant(s, limit, i, lease.(stage := Ended), Middleware); }
        case Finish(_) => WritingKeepsInvariant(s, limit, i, lease.(job := Done));
        case Call(_) => ReleasingKeepsInvariant(s, limit, i, lease.(due := false), Callback);
      }
    }
  }

  lemma {:induction false} RunKeepsInvariant(limit: nat, steps: seq<Step>)
    ensures Invariant(After(limit, steps), limit)
  {
    if steps != [] {
      RunKeepsInvariant(limit, steps[..|steps| - 1]);
      StepKeepsInvariant(After(limit, steps[..|steps| - 1]), limit, steps[|steps| - 1]);
    }
  }

  // ---------------------------------------------------------------- results

  /** Free slots and held leases add up to the limit in every reachable state, and the semaphore never refuses. */
  lemma SlotsAreConserved(limit: nat, steps: seq<Step>)
    ensures var s := After(limit, steps);
            s.free + CountOf(s.leases, HELD) == limit && !s.overReleased
  {
    RunKeepsInvariant(limit, steps);
  }

  /** A job holds its slot until it is done, also when its request has long timed out. */
  lemma UnfinishedJobsAreBounded(limit: nat, steps: seq<Step>)
    ensures CountOf(After(limit, steps).leases, UNFINISHED) <= limit
  {
    RunKeepsInvariant(limit, steps);
    var s := After(limit, steps);
    forall lease | lease in s.leases && UNFINISHED(lease) ensures HELD(lease) {
      assert LeaseOk(lease);
    }
    CountOfFewer(s.leases, UNFINISHED, HELD);
  }

  /** Who gave a slot back: the middleware at the end of a request that never handed its lease over,
      and otherwise the callback after the job was done. */
  lemma ReleasedByTheRightOne(limit: nat, steps: seq<Step>, i: nat)
    requires i < |After(limit, steps).leases|
    ensures var lease := After(limit, steps).leases[i];
            && (lease.releasedBy == Some(Middleware) <==> !lease.transferred && lease.stage == Ended)
            && (lease.releasedBy == Some(Callback) <==>
                lease.transferred && lease.job == Done && !lease.due && lease.stage != Marked)
  {
    RunKeepsInvariant(limit, steps);
    assert LeaseOk(After(limit, steps).leases[i]);
  }

  /** A slot is given back at most once: what a lease records about it never changes again. */
  lemma ReleasedOnce(s: State, limit: nat, step: Step, i: nat)
    requires Invariant(s, limit) && i < |s.leases| && s.leases[i].releasedBy.Some?
    ensures var next := Next(s, limit, step);
            && i < |next.leases| && next.leases[i].releasedBy == s.leases[i].releasedBy
            && (Enabled(s, step) && step != Admit && step.lease == i ==> next.free == s.free)
  {
    assert LeaseOk(s.leases[i]);
  }

  /** How many steps the lease has yet to take at most. */
  function Rank(lease: Lease): nat {
    (match lease.stage case Working => 6 case Submitted => 4 case Marked => 3 case Attached => 1 case Ended => 0) +
    (if lease.job == Pending then 1 else 0) + (if lease.due then 1 else 0)
  }

  function StepOf(lease: Lease, i: nat): Step {
    if lease.job == Pending then Finish(i)
    else match lease.stage
         case Working => End(i)
         case Submitted => Mark(i)
         case Marked => Attach(i)
         case _ => Call(i)
  }

  /** No slot is lost: a held lease always has a step to take, and every step it takes uses up its rank. */
  lemma HeldLeaseMovesOn(s: State, limit: nat, i: nat, step: Step)
    requires Invariant(s, limit) && i < |s.leases|
    ensures s.leases[i].releasedBy.None? ==> Enabled(s, StepOf(s.leases[i], i))
    ensures Enabled(s, step) && step != Admit && step.lease == i ==>
            Rank(Next(s, limit, step).leases[i]) < Rank(s.leases[i])
    ensures step == Admit || step.lease != i ==> Next(s, limit, step).leases[i] == s.leases[i]
  {
    assert LeaseOk(s.leases[i]);
  }

  /** When every request has ended and every job and callback is over, all slots are free again. */
  lemma AllSlotsComeBack(limit: nat, steps: seq<Step>)
    requires forall lease | lease in After(limit, steps).leases :: Rank(lease) == 0
    ensures After(limit, steps).free == limit
  {
    RunKeepsInvariant(limit, steps);
    var s := After(limit, steps);
    forall lease | lease in s.leases ensures !HELD(lease) {
      assert LeaseOk(lease);
    }
    CountOfNone(s.leases, HELD);
  }
}
