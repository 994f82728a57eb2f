/** Events counted in fixed windows, and what that says about any interval as long as a window. */
module SlidingWindows {
  import opened Counting
  import opened Wrappers

  /** An event and the start of the window it was counted in. */
  datatype Stamp = Stamp(time: real, start: real)

  /** The window now counting, if there is one. */
  datatype Window = Window(start: real, count: nat)

  function CountAt(log: seq<Stamp>, start: real): nat {
    CountOf(log, (s: Stamp) => s.start == start)
  }

  function CountWithin(log: seq<Stamp>, from: real, to: real): nat {
    CountOf(log, (s: Stamp) => from <= s.time <= to)
  }

  /** Every event lies in its window, and two windows do not overlap. */
  ghost predicate Spaced(log: seq<Stamp>, length: real) {
    && (forall s | s in log :: s.start <= s.time < s.start + length)
    && (forall s, t | s in log && t in log ::
          s.start == t.start || s.start + length <= t.start || t.start + length <= s.start)
  }

  ghost predicate Bounded(log: seq<Stamp>, limit: nat) {
    forall start :: CountAt(log, start) <= limit
  }

  /** The log and the window now counting: the windows before it had ended when it was opened. */
  ghost predicate Kept(log: seq<Stamp>, current: Option<Window>, now: real, length: real, limit: nat) {
    && Spaced(log, length) && Bounded(log, limit)
    && (forall s | s in log :: s.start + length <= (if current.Some? then current.value.start else now) ||
                               (current.Some? && s.start == current.value.start))
    && (current.Some? ==>
        current.value.start <= now && CountAt(log, current.value.start) == current.value.count <= limit)
  }

  /** No three windows meet a closed interval as long as a window. */
  lemma OnlyTwoWindows(log: seq<Stamp>, length: real, from: real, s: Stamp, t: Stamp, u: Stamp)
    requires length > 0.0 && Spaced(log, length) && s in log && t in log && u in log
    requires from <= s.time <= from + length && from <= t.time <= from + length && from <= u.time <= from + length
    ensures s.start == t.start || t.start == u.start || u.start == s.start
  {
  }

  /** A closed interval as long as a window meets at most two windows, so it holds at most twice the limit. */
  lemma AtMostTwice(log: seq<Stamp>, length: real, limit: nat, from: real)
    requires length > 0.0 && Spaced(log, length) && Bounded(log, limit)
    ensures CountWithin(log, from, from + length) <= 2 * limit
  {
    var pick := (s: Stamp) => from <= s.time <= from + length;
    if s :| s in log && pick(s) {
      if t :| t in log && pick(t) && t.start != s.start {
        forall u | u in log && pick(u) ensures u.start == s.start || u.start == t.start {
          OnlyTwoWindows(log, length, from, s, t, u);
        }
        TwoWindowsCount(log, pick, limit, s.start, t.start);
      } else {
        TwoWindowsCount(log, pick, limit, s.start, s.start);
      }
    } else {
      CountOfNone(log, pick);
    }
  }

  lemma TwoWindowsCount(log: seq<Stamp>, pick: Stamp -> bool, limit: nat, one: real, other: real)
    requires Bounded(log, limit)
    requires forall s | s in log && pick(s) :: s.start == one || s.start == other
    ensures CountOf(log, pick) <= 2 * limit
  {
    CountOfEither(log, pick, (s: Stamp) => s.start == one, (s: Stamp) => s.start == other);
    assert CountAt(log, one) <= limit && CountAt(log, other) <= limit;
  }

  // ---------------------------------------------------------------- what keeps it

  lemma KeptLater(log: seq<Stamp>, current: Option<Window>, was: real, now: real, length: real, limit: nat)
    requires Kept(log, current, was, length, limit) && was <= now
    ensures Kept(log, current, now, length, limit)
  {
  }

  lemma KeptWhenClosed(log: seq<Stamp>, current: Option<Window>, now: real, length: real, limit: nat)
    requires Kept(log, current, now, length, limit)
    requires current.Some? ==> current.value.start + length <= now
    ensures Kept(log, None, now, length, limit)
  {
  }

  lemma KeptWhenOpened(log: seq<Stamp>, now: real, length: real, limit: nat)
    requires length > 0.0 && Kept(log, None, now, length, limit)
    ensures Kept(log, Some(Window(now, 0)), now, length, limit)
  {
    CountOfNone(log, (s: Stamp) => s.start == now);
  }

  lemma KeptWhenCounted(log: seq<Stamp>, window: Window, now: real, length: real, limit: nat)
    requires length > 0.0 && Kept(log, Some(window), now, length, limit)
    requires now < window.start + length && window.count < limit
    ensures Kept(log + [Stamp(now, window.start)], Some(Window(window.start, window.count + 1)), now, length, limit)
  {
    var stamp := Stamp(now, window.start);
    var more := log + [stamp];
    forall start ensures CountAt(more, start) == CountAt(log, start) + if start == window.start then 1 else 0 {
      CountOfOneMore(log, stamp, (s: Stamp) => s.start == start);
    }
    assert forall s | s in more :: s in log || s == stamp;
  }
}
