/** Weekly availability: overnight slots are split, sorted and checked neighbour by neighbour, judged
    against the minutes of the week they mean. */
module WeeklyAvailability {
  import opened Wrappers

  const DAY := 1440
  const MAX_SLOTS := 100

  /** A slot that does not end after it starts runs past midnight into the next weekday. */
  datatype Slot = Slot(weekday: int, start: int, end: int)

  /** What the schema admits. */
  predicate Valid(slot: Slot) {
    1 <= slot.weekday <= 7 && 0 <= slot.start <= 1439 && 0 <= slot.end <= DAY && slot.start != slot.end
  }

  predicate AllValid(slots: seq<Slot>) {
    forall s | s in slots :: Valid(s)
  }

  function NextDay(weekday: int): int {
    if weekday == 7 then 1 else weekday + 1
  }

  // ---------------------------------------------------------------- the minutes a slot means

  /** Does the slot mean minute `m` of weekday `d`? */
  predicate Covers(slot: Slot, d: int, m: int) {
    if slot.end > slot.start then d == slot.weekday && slot.start <= m < slot.end
    else (d == slot.weekday && slot.start <= m < DAY) || (d == NextDay(slot.weekday) && 0 <= m < slot.end)
  }

  /** How many slots mean that minute. */
  function Times(slots: seq<Slot>, d: int, m: int): nat {
    if slots == [] then 0 else (if Covers(slots[0], d, m) then 1 else 0) + Times(slots[1..], d, m)
  }

  ghost predicate NeverTwice(slots: seq<Slot>) {
    forall d, m :: Times(slots, d, m) <= 1
  }

  function Length(slot: Slot): int {
    if slot.end > slot.start then slot.end - slot.start else DAY - slot.start + slot.end
  }

  function Minutes(slots: seq<Slot>): int {
    if slots == [] then 0 else Length(slots[0]) + Minutes(slots[1..])
  }

  /** The same minutes, each as often, and as many in all. */
  ghost predicate SameMeaning(a: seq<Slot>, b: seq<Slot>) {
    (forall d, m :: Times(a, d, m) == Times(b, d, m)) && Minutes(a) == Minutes(b)
  }

  lemma {:induction false} MeaningOfConcat(a: seq<Slot>, b: seq<Slot>)
    ensures forall d, m :: Times(a + b, d, m) == Times(a, d, m) + Times(b, d, m)
    ensures Minutes(a + b) == Minutes(a) + Minutes(b)
  {
    if a == [] {
      assert a + b == b;
    } else {
      MeaningOfConcat(a[1..], b);
      assert (a + b)[1..] == a[1..] + b;
    }
  }

  // ---------------------------------------------------------------- splitting

  function Pieces(slot: Slot): seq<Slot> {
    if slot.end > slot.start then [slot]
    else if slot.end > 0 then [Slot(slot.weekday, slot.start, DAY), Slot(NextDay(slot.weekday), 0, slot.end)]
    else [Slot(slot.weekday, slot.start, DAY)]
  }

  function Split(slots: seq<Slot>): seq<Slot> {
    if slots == [] then [] else Split(slots[..|slots| - 1]) + Pieces(slots[|slots| - 1])
  }

  predicate Within(slots: seq<Slot>) {
    forall s | s in slots :: Valid(s) && s.start < s.end
  }

  lemma MeaningOfOne(slot: Slot, d: int, m: int)
    ensures Times([slot], d, m) == if Covers(slot, d, m) then 1 else 0
    ensures Minutes([slot]) == Length(slot)
  {
  }

  lemma PiecesMean(slot: Slot)
    requires Valid(slot)
    ensures SameMeaning(Pieces(slot), [slot]) && Within(Pieces(slot))
  {
    if slot.end < slot.start && slot.end > 0 {
      var (evening, morning) := (Slot(slot.weekday, slot.start, DAY), Slot(NextDay(slot.weekday), 0, slot.end));
      assert Pieces(slot) == [evening] + [morning];
      MeaningOfConcat([evening], [morning]);
      forall d, m ensures Times([evening], d, m) + Times([morning], d, m) == Times([slot], d, m) {
        MeaningOfOne(evening, d, m);
        MeaningOfOne(morning, d, m);
        MeaningOfOne(slot, d, m);
      }
    }
  }

  lemma {:induction false} SplitMeans(slots: seq<Slot>)
    requires AllValid(slots)
    ensures SameMeaning(Split(slots), slots) && Within(Split(slots))
  {
    if slots != [] {
      var (shorter, last) := (slots[..|slots| - 1], slots[|slots| - 1]);
      assert slots == shorter + [last];
      SplitMeans(shorter);
      PiecesMean(last);
      MeaningOfConcat(Split(shorter), Pieces(last));
      MeaningOfConcat(shorter, [last]);
    }
  }

  // ---------------------------------------------------------------- sorting

  predicate Before(a: Slot, b: Slot) {
    || a.weekday < b.weekday
    || (a.weekday == b.weekday && (a.start < b.start || (a.start == b.start && a.end <= b.end)))
  }

  predicate Sorted(slots: seq<Slot>) {
    forall i, j | 0 <= i < j < |slots| :: Before(slots[i], slots[j])
  }

  function Insert(slot: Slot, slots: seq<Slot>): seq<Slot> {
    if slots == [] || Before(slot, slots[0]) then [slot] + slots else [slots[0]] + Insert(slot, slots[1..])
  }

  /** The sorted slots; SortIsUnique says that no other algorithm could end with another order. */
  function Sort(slots: seq<Slot>): seq<Slot> {
    if slots == [] then [] else Insert(slots[0], Sort(slots[1..]))
  }

  lemma SortedInFront(slot: Slot, slots: seq<Slot>)
    requires Sorted(slots) && (slots == [] || Before(slot, slots[0]) || forall s | s in slots :: Before(slot, s))
    ensures Sorted([slot] + slots)
  {
    forall j | 0 < j < |slots| + 1 ensures Before(slot, ([slot] + slots)[j]) {
      assert j > 1 ==> Before(slots[0], slots[j - 1]);
      assert slots[j - 1] in slots;
    }
  }

  lemma {:induction false} InsertSorts(slot: Slot, slots: seq<Slot>)
    requires Sorted(slots)
    ensures Sorted(Insert(slot, slots)) && multiset(Insert(slot, slots)) == multiset(slots) + multiset{slot}
  {
    if slots != [] && !Before(slot, slots[0]) {
      var (head, rest) := (slots[0], slots[1..]);
      assert slots == [head] + rest;
      InsertSorts(slot, rest);
      var inserted := Insert(slot, rest);
      forall s | s in inserted ensures Before(head, s) {
        assert s in multiset(inserted);
      }
      SortedInFront(head, inserted);
    } else if slots != [] {
      SortedInFront(slot, slots);
    }
  }

  lemma {:induction false} InsertMeans(slot: Slot, slots: seq<Slot>)
    ensures SameMeaning(Insert(slot, slots), [slot] + slots)
  {
    MeaningOfConcat([slot], slots);
    if slots != [] && !Before(slot, slots[0]) {
      InsertMeans(slot, slots[1..]);
      MeaningOfConcat([slots[0]], Insert(slot, slots[1..]));
      MeaningOfConcat([slot], slots[1..]);
      assert slots == [slots[0]] + slots[1..];
      MeaningOfConcat([slots[0]], slots[1..]);
    }
  }

  lemma {:induction false} SortSorts(slots: seq<Slot>)
    ensures Sorted(Sort(slots)) && multiset(Sort(slots)) == multiset(slots)
  {
    if slots != [] {
      SortSorts(slots[1..]);
      InsertSorts(slots[0], Sort(slots[1..]));
      assert slots == [slots[0]] + slots[1..];
    }
  }

  lemma {:induction false} SortMeans(slots: seq<Slot>)
    ensures SameMeaning(Sort(slots), slots)
  {
    if slots != [] {
      SortMeans(slots[1..]);
      InsertMeans(slots[0], Sort(slots[1..]));
      assert slots == [slots[0]] + slots[1..];
      MeaningOfConcat([slots[0]], Sort(slots[1..]));
      MeaningOfConcat([slots[0]], slots[1..]);
    }
  }

  lemma {:induction false} SortIsUnique(slots: seq<Slot>, other: seq<Slot>)
    requires Sorted(slots) && Sorted(other) && multiset(slots) == multiset(other)
    ensures slots == other
  {
    assert |slots| == |multiset(slots)| == |multiset(other)| == |other|;
    if slots != [] {
      assert slots[0] in multiset(other) && other[0] in multiset(slots);
      assert slots[0] == other[0];
      assert slots == [slots[0]] + slots[1..] && other == [other[0]] + other[1..];
      assert multiset(slots[1..]) == multiset(slots) - multiset{slots[0]};
      assert multiset(other[1..]) == multiset(other) - multiset{other[0]};
      SortIsUnique(slots[1..], other[1..]);
    }
  }

  // ---------------------------------------------------------------- the neighbour check

  predicate Clash(previous: Slot, slot: Slot) {
    previous.weekday == slot.weekday && slot.start < previous.end
  }

  predicate NoClash(slots: seq<Slot>) {
    forall k | 0 < k < |slots| :: !Clash(slots[k - 1], slots[k])
  }

  predicate Disjoint(slots: seq<Slot>) {
    forall i, j | 0 <= i < j < |slots| :: slots[i].weekday == slots[j].weekday ==> slots[i].end <= slots[j].start
  }

  /** In sorted order, neighbours that do not clash mean that no two slots do. */
  lemma {:induction false} NeighboursSuffice(slots: seq<Slot>, i: nat, j: nat)
    requires Sorted(slots) && Within(slots) && NoClash(slots)
    requires i < j < |slots| && slots[i].weekday == slots[j].weekday
    ensures slots[i].end <= slots[j].start
    decreases j
  {
    if i < j - 1 {
      assert Before(slots[i], slots[j - 1]) && Before(slots[j - 1], slots[j]);
      NeighboursSuffice(slots, i, j - 1);
      assert slots[j - 1] in slots;
    }
    assert !Clash(slots[j - 1], slots[j]);
  }

  lemma {:induction false} DisjointNeverTwice(slots: seq<Slot>, d: int, m: int)
    requires Within(slots) && Disjoint(slots)
    ensures Times(slots, d, m) <= 1
  {
    if slots != [] {
      DisjointNeverTwice(slots[1..], d, m);
      if Covers(slots[0], d, m) {
        forall s | s in slots[1..] ensures !Covers(s, d, m) {
          var j :| 0 < j < |slots| && slots[j] == s;
          assert slots[0].weekday == slots[j].weekday ==> slots[0].end <= slots[j].start;
        }
        NoneCovers(slots[1..], d, m);
      }
    }
  }

  lemma {:induction false} NoneCovers(slots: seq<Slot>, d: int, m: int)
    requires forall s | s in slots :: !Covers(s, d, m)
    ensures Times(slots, d, m) == 0
  {
    if slots != [] { NoneCovers(slots[1..], d, m); }
  }

  lemma {:induction false} CoveredIsCounted(slots: seq<Slot>, k: nat, d: int, m: int)
    requires k < |slots| && Covers(slots[k], d, m)
    ensures Times(slots, d, m) >= 1
    ensures k + 1 < |slots| && Covers(slots[k + 1], d, m) ==> Times(slots, d, m) >= 2
  {
    if k > 0 {
      CoveredIsCounted(slots[1..], k - 1, d, m);
    } else if |slots| > 1 && Covers(slots[1], d, m) {
      assert slots[1..][0] == slots[1];
    }
  }

  /** A clash of neighbours is a minute that both mean. */
  lemma ClashMeansTwice(slots: seq<Slot>, k: nat)
    requires Sorted(slots) && Within(slots) && 0 < k < |slots| && Clash(slots[k - 1], slots[k])
    ensures Times(slots, slots[k].weekday, slots[k].start) >= 2
  {
    assert slots[k - 1] in slots && slots[k] in slots && Before(slots[k - 1], slots[k]);
    CoveredIsCounted(slots, k - 1, slots[k].weekday, slots[k].start);
  }

  lemma NoClashIffNeverTwice(slots: seq<Slot>)
    requires Sorted(slots) && Within(slots)
    ensures NoClash(slots) <==> NeverTwice(slots)
    ensures NoClash(slots) <==> Disjoint(slots)
  {
    if NoClash(slots) {
      forall i, j | 0 <= i < j < |slots| && slots[i].weekday == slots[j].weekday
        ensures slots[i].end <= slots[j].start
      {
        NeighboursSuffice(slots, i, j);
      }
      forall d, m ensures Times(slots, d, m) <= 1 {
        DisjointNeverTwice(slots, d, m);
      }
    } else {
      var k :| 0 < k < |slots| && Clash(slots[k - 1], slots[k]);
      ClashMeansTwice(slots, k);
    }
  }

  // ---------------------------------------------------------------- normalising

  function Normalized(slots: seq<Slot>): Option<seq<Slot>> {
    var sorted := Sort(Split(slots));
    if NoClash(sorted) then Some(sorted) else None
  }

  method Normalize(slots: seq<Slot>) returns (r: Option<seq<Slot>>)
    ensures r == Normalized(slots)
  {
    var normalized: seq<Slot> := [];
    for i := 0 to |slots|
      invariant normalized == Split(slots[..i])
    {
      var slot := slots[i];
      assert slots[..i + 1][..i] == slots[..i];
      if slot.end > slot.start {
        normalized := normalized + [slot];
        continue;
      }
      ghost var before := normalized;
      normalized := normalized + [Slot(slot.weekday, slot.start, DAY)];
      if slot.end > 0 {
        normalized := normalized + [Slot(if slot.weekday == 7 then 1 else slot.weekday + 1, 0, slot.end)];
      }
      assert normalized == before + Pieces(slot);
    }
    assert slots[..|slots|] == slots;
    normalized := Sort(normalized);
    var previous: Option<Slot> := None;
    for i := 0 to |normalized|
      invariant previous == if i == 0 then None else Some(normalized[i - 1])
      invariant forall k | 0 < k < i :: !Clash(normalized[k - 1], normalized[k])
    {
      var slot := normalized[i];
      if previous.Some? && previous.value.weekday == slot.weekday && slot.start < previous.value.end {
        assert Clash(normalized[i - 1], normalized[i]);
        return None;
      }
      previous := Some(slot);
    }
    return Some(normalized);
  }

  lemma NormalizedIsSorted(slots: seq<Slot>)
    requires AllValid(slots)
    ensures var sorted := Sort(Split(slots));
            Sorted(sorted) && Within(sorted) && SameMeaning(sorted, slots)
  {
    SplitMeans(slots);
    SortSorts(Split(slots));
    SortMeans(Split(slots));
    forall s | s in Sort(Split(slots)) ensures s in Split(slots) {
      assert s in multiset(Sort(Split(slots)));
    }
  }

  /** Normalising succeeds exactly when no minute of the week is meant twice; the result means the same
      minutes, as many in all, in sorted slots that stay within their day and do not overlap. */
  lemma NormalizedKeepsTheMeaning(slots: seq<Slot>)
    requires AllValid(slots)
    ensures Normalized(slots).Some? <==> NeverTwice(slots)
    ensures Normalized(slots).Some? ==>
              var out := Normalized(slots).value;
              SameMeaning(out, slots) && Sorted(out) && Within(out) && Disjoint(out)
  {
    NormalizedIsSorted(slots);
    NoClashIffNeverTwice(Sort(Split(slots)));
  }

  /** Normalising a normalised week changes nothing. */
  lemma NormalizedAgain(slots: seq<Slot>)
    requires AllValid(slots) && Normalized(slots).Some?
    ensures Normalized(Normalized(slots).value) == Normalized(slots)
  {
    var out := Normalized(slots).value;
    NormalizedIsSorted(slots);
    SplitWithin(out);
    SortSorts(out);
    SortIsUnique(Sort(out), out);
  }

  lemma {:induction false} SplitWithin(slots: seq<Slot>)
    requires Within(slots)
    ensures Split(slots) == slots
  {
    if slots != [] {
      SplitWithin(slots[..|slots| - 1]);
      assert slots == slots[..|slots| - 1] + [slots[|slots| - 1]];
    }
  }

  // ---------------------------------------------------------------- how much longer the list gets

  /** A slot that goes on after midnight; one that ends at midnight does not. */
  predicate GoesOn(slot: Slot) {
    0 < slot.end < slot.start
  }

  function Overnight(slots: seq<Slot>): nat {
    if slots == [] then 0 else Overnight(slots[..|slots| - 1]) + if GoesOn(slots[|slots| - 1]) then 1 else 0
  }

  lemma {:induction false} SplitLength(slots: seq<Slot>)
    requires AllValid(slots)
    ensures |Split(slots)| == |slots| + Overnight(slots)
  {
    if slots != [] {
      var last := slots[|slots| - 1];
      SplitLength(slots[..|slots| - 1]);
      assert last in slots;
    }
  }

  /** The normal form is longer than the input by its overnight slots, so it stays within a hundred
      slots, which is what the schema admits when it reads the list again, exactly when the two numbers
      together do. */
  lemma NormalizedLength(slots: seq<Slot>)
    requires AllValid(slots) && Normalized(slots).Some?
    ensures |Normalized(slots).value| == |slots| + Overnight(slots)
    ensures |Normalized(slots).value| <= MAX_SLOTS <==> |slots| + Overnight(slots) <= MAX_SLOTS
  {
    SplitLength(slots);
    SortSorts(Split(slots));
    assert |Sort(Split(slots))| == |multiset(Sort(Split(slots)))| == |multiset(Split(slots))|;
  }

  function OvernightOn(slots: seq<Slot>, d: int): nat {
    if slots == [] then 0
    else OvernightOn(slots[..|slots| - 1], d) +
         if GoesOn(slots[|slots| - 1]) && slots[|slots| - 1].weekday == d then 1 else 0
  }

  lemma {:induction false} OvernightMeansTheLastMinute(slots: seq<Slot>, d: int)
    requires AllValid(slots)
    ensures OvernightOn(slots, d) <= Times(slots, d, DAY - 1)
  {
    if slots != [] {
      var (shorter, last) := (slots[..|slots| - 1], slots[|slots| - 1]);
      assert last in slots;
      OvernightMeansTheLastMinute(shorter, d);
      assert slots == shorter + [last];
      MeaningOfConcat(shorter, [last]);
      MeaningOfOne(last, d, DAY - 1);
    }
  }

  lemma {:induction false} OvernightByDay(slots: seq<Slot>)
    requires AllValid(slots)
    ensures Overnight(slots) ==
            OvernightOn(slots, 1) + OvernightOn(slots, 2) + OvernightOn(slots, 3) + OvernightOn(slots, 4) +
            OvernightOn(slots, 5) + OvernightOn(slots, 6) + OvernightOn(slots, 7)
  {
    if slots != [] {
      OvernightByDay(slots[..|slots| - 1]);
      assert slots[|slots| - 1] in slots;
    }
  }

  /** A week has at most one slot that runs past each midnight, so seven slots more is all it can get. */
  lemma AtMostSevenMore(slots: seq<Slot>)
    requires AllValid(slots) && Normalized(slots).Some?
    ensures |Normalized(slots).value| <= |slots| + 7
  {
    NormalizedKeepsTheMeaning(slots);
    forall d ensures OvernightOn(slots, d) <= 1 {
      OvernightMeansTheLastMinute(slots, d);
      assert Times(slots, d, DAY - 1) <= 1;
    }
    OvernightByDay(slots);
    NormalizedLength(slots);
  }

  /** One slot from 23:00 to 1:00 on each of the first `k` weekdays. */
  function Nights(k: nat): seq<Slot> {
    if k == 0 then [] else Nights(k - 1) + [Slot(k, 1380, 60)]
  }

  lemma {:induction false} NightsMean(k: nat, d: int, m: int)
    requires k <= 7
    ensures Times(Nights(k), d, m) ==
            (if 1 <= d <= k && 1380 <= m < DAY then 1 else 0) +
            (if ((k > 0 && 2 <= d <= k + 1 && d <= 7) || (d == 1 && k == 7)) && 0 <= m < 60 then 1 else 0)
  {
    if k > 0 {
      NightsMean(k - 1, d, m);
      MeaningOfConcat(Nights(k - 1), [Slot(k, 1380, 60)]);
      MeaningOfOne(Slot(k, 1380, 60), d, m);
    }
  }

  lemma {:induction false} NightsCount(k: nat)
    requires k <= 7
    ensures |Nights(k)| == k && AllValid(Nights(k)) && Overnight(Nights(k)) == k
  {
    if k > 0 {
      NightsCount(k - 1);
      assert Nights(k)[..k - 1] == Nights(k - 1);
    }
  }

  /** Seven more are reached by a week of nights. */
  lemma SevenMoreAreReached()
    ensures AllValid(Nights(7)) && Normalized(Nights(7)).Some?
    ensures |Nights(7)| == 7 && |Normalized(Nights(7)).value| == 14
  {
    NightsCount(7);
    forall d, m ensures Times(Nights(7), d, m) <= 1 {
      NightsMean(7, d, m);
    }
    NormalizedKeepsTheMeaning(Nights(7));
    NormalizedLength(Nights(7));
  }

  /** `k` short slots on a Monday. */
  function Mondays(k: nat): seq<Slot> {
    if k == 0 then [] else Mondays(k - 1) + [Slot(1, 10 * k, 10 * k + 5)]
  }

  lemma {:induction false} MondaysMean(k: nat, d: int, m: int)
    requires k <= 100
    ensures Times(Mondays(k), d, m) <= if d == 1 && 0 <= m < 10 * k + 5 then 1 else 0
  {
    if k > 0 {
      MondaysMean(k - 1, d, m);
      MeaningOfConcat(Mondays(k - 1), [Slot(1, 10 * k, 10 * k + 5)]);
      MeaningOfOne(Slot(1, 10 * k, 10 * k + 5), d, m);
    }
  }

  lemma {:induction false} MondaysCount(k: nat)
    requires k <= 100
    ensures |Mondays(k)| == k && AllValid(Mondays(k)) && Overnight(Mondays(k)) == 0
  {
    if k > 0 {
      MondaysCount(k - 1);
      assert Mondays(k)[..k - 1] == Mondays(k - 1);
    }
  }

  /** 99 short slots on a Monday and one Tuesday night. */
  function FullWeek(): seq<Slot> {
    Mondays(99) + [Slot(2, 1380, 60)]
  }

  /** A full list of a hundred slots is accepted, and its normal form is too long to be read again. */
  lemma FullWeekGrowsTooLong()
    ensures AllValid(FullWeek()) && |FullWeek()| == MAX_SLOTS
    ensures Normalized(FullWeek()).Some? && |Normalized(FullWeek()).value| == MAX_SLOTS + 1
  {
    MondaysCount(99);
    assert FullWeek()[..99] == Mondays(99);
    forall d, m ensures Times(FullWeek(), d, m) <= 1 {
      MondaysMean(99, d, m);
      MeaningOfConcat(Mondays(99), [Slot(2, 1380, 60)]);
      MeaningOfOne(Slot(2, 1380, 60), d, m);
    }
    NormalizedKeepsTheMeaning(FullWeek());
    NormalizedLength(FullWeek());
  }
}
