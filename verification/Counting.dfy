/** How many elements of a sequence a test picks. */
module Counting {
  function CountOf<T>(s: seq<T>, pick: T -> bool): (n: nat)
    ensures n <= |s|
  {
    if s == [] then 0 else CountOf(s[..|s| - 1], pick) + if pick(s[|s| - 1]) then 1 else 0
  }

  lemma CountOfOneMore<T>(s: seq<T>, x: T, pick: T -> bool)
    ensures CountOf(s + [x], pick) == CountOf(s, pick) + if pick(x) then 1 else 0
  {
    assert (s + [x])[..|s|] == s;
  }

  lemma {:induction false} CountOfUpdate<T>(s: seq<T>, i: nat, x: T, pick: T -> bool)
    requires i < |s|
    ensures CountOf(s[i := x], pick) == CountOf(s, pick) - (if pick(s[i]) then 1 else 0) + (if pick(x) then 1 else 0)
  {
    var n := |s| - 1;
    if i == n {
      assert s[i := x][..n] == s[..n];
    } else {
      CountOfUpdate(s[..n], i, x, pick);
      assert s[i := x][..n] == s[..n][i := x];
    }
  }

  lemma {:induction false} CountOfEither<T>(s: seq<T>, pick: T -> bool, one: T -> bool, other: T -> bool)
    requires forall x | x in s && pick(x) :: one(x) || other(x)
    ensures CountOf(s, pick) <= CountOf(s, one) + CountOf(s, other)
  {
    if s != [] {
      assert s == s[..|s| - 1] + [s[|s| - 1]];
      CountOfEither(s[..|s| - 1], pick, one, other);
    }
  }

  lemma {:induction false} CountOfNone<T>(s: seq<T>, pick: T -> bool)
    requires forall x | x in s :: !pick(x)
    ensures CountOf(s, pick) == 0
  {
    if s != [] {
      assert s == s[..|s| - 1] + [s[|s| - 1]];
      CountOfNone(s[..|s| - 1], pick);
    }
  }

  lemma CountOfFewer<T>(s: seq<T>, few: T -> bool, many: T -> bool)
    requires forall x | x in s && few(x) :: many(x)
    ensures CountOf(s, few) <= CountOf(s, many)
  {
    var none := (x: T) => false;
    CountOfEither(s, few, many, none);
    CountOfNone(s, none);
  }

  lemma {:induction false} CountOfSome<T>(s: seq<T>, i: nat, pick: T -> bool)
    requires i < |s| && pick(s[i])
    ensures CountOf(s, pick) >= 1
  {
    if i < |s| - 1 { CountOfSome(s[..|s| - 1], i, pick); }
  }
}
