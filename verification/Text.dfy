/** Whole-string replacement, and substitution character by character. */
module Text {
  /** Every occurrence of one character replaced, from left to right. */
  function ReplaceAll(s: string, c: char, put: string): string {
    if s == [] then [] else (if s[0] == c then put else [s[0]]) + ReplaceAll(s[1..], c, put)
  }

  ghost predicate Occurs(part: string, s: string) {
    exists i :: 0 <= i <= |s| && part <= s[i..]
  }

  function FlatMap(s: string, f: char -> string): string {
    if s == [] then [] else f(s[0]) + FlatMap(s[1..], f)
  }

  function Replacing(c: char, put: string): char -> string {
    x => if x == c then put else [x]
  }

  lemma {:induction false} ReplaceAllIsFlatMap(s: string, c: char, put: string)
    ensures ReplaceAll(s, c, put) == FlatMap(s, Replacing(c, put))
  {
    if s != [] { ReplaceAllIsFlatMap(s[1..], c, put); }
  }

  lemma {:induction false} FlatMapConcat(a: string, b: string, f: char -> string)
    ensures FlatMap(a + b, f) == FlatMap(a, f) + FlatMap(b, f)
  {
    if a == [] {
      assert a + b == b;
    } else {
      FlatMapConcat(a[1..], b, f);
      FlatMapHead(a[0], a[1..] + b, f);
      assert a + b == [a[0]] + (a[1..] + b);
      Associate(f(a[0]), FlatMap(a[1..], f), FlatMap(b, f));
    }
  }

  lemma FlatMapHead(c: char, rest: string, f: char -> string)
    ensures FlatMap([c] + rest, f) == f(c) + FlatMap(rest, f)
  {
    assert ([c] + rest)[1..] == rest;
  }

  lemma Associate(a: string, b: string, c: string)
    ensures a + (b + c) == (a + b) + c
  {
  }

  /** Two passes make one. */
  lemma {:induction false} FlatMapTwice(s: string, f: char -> string, g: char -> string)
    ensures FlatMap(FlatMap(s, f), g) == FlatMap(s, x => FlatMap(f(x), g))
  {
    if s != [] {
      FlatMapTwice(s[1..], f, g);
      FlatMapConcat(f(s[0]), FlatMap(s[1..], f), g);
    }
  }

  lemma {:induction false} FlatMapSame(s: string, f: char -> string, g: char -> string)
    requires forall x | x in s :: f(x) == g(x)
    ensures FlatMap(s, f) == FlatMap(s, g)
  {
    if s != [] { FlatMapSame(s[1..], f, g); }
  }

  // ---------------------------------------------------------------- several passes

  type Table = map<char, string>

  function Subst(table: Table): char -> string {
    x => if x in table then table[x] else [x]
  }

  lemma {:induction false} Untouched(s: string, c: char, put: string)
    requires c !in s
    ensures ReplaceAll(s, c, put) == s
  {
    if s != [] { Untouched(s[1..], c, put); }
  }

  lemma Single(x: char, c: char, put: string)
    ensures ReplaceAll([x], c, put) == if x == c then put else [x]
  {
    assert ReplaceAll([x][1..], c, put) == [];
  }

  /** A pass for a character that no earlier pass has put in only adds that character to the table. */
  lemma OneMorePass(s: string, table: Table, c: char, put: string)
    requires c !in table && forall x | x in table :: c !in table[x]
    ensures ReplaceAll(FlatMap(s, Subst(table)), c, put) == FlatMap(s, Subst(table[c := put]))
  {
    var f, g := Subst(table), Subst(table[c := put]);
    ReplaceAllIsFlatMap(FlatMap(s, f), c, put);
    FlatMapTwice(s, f, Replacing(c, put));
    forall x ensures FlatMap(f(x), Replacing(c, put)) == g(x) {
      ReplaceAllIsFlatMap(f(x), c, put);
      if x in table { Untouched(table[x], c, put); } else { Single(x, c, put); }
    }
    FlatMapSame(s, x => FlatMap(f(x), Replacing(c, put)), g);
  }

  /** The passes of a list, one after another. */
  function ReplaceEach(s: string, passes: seq<(char, string)>): string {
    if passes == [] then s
    else
      var last := passes[|passes| - 1];
      ReplaceAll(ReplaceEach(s, passes[..|passes| - 1]), last.0, last.1)
  }

  function TableOf(passes: seq<(char, string)>): Table {
    if passes == [] then map[]
    else
      var last := passes[|passes| - 1];
      TableOf(passes[..|passes| - 1])[last.0 := last.1]
  }

  lemma OnePassMore(s: string, passes: seq<(char, string)>, c: char, put: string)
    ensures ReplaceEach(s, passes + [(c, put)]) == ReplaceAll(ReplaceEach(s, passes), c, put)
    ensures TableOf(passes + [(c, put)]) == TableOf(passes)[c := put]
  {
    assert (passes + [(c, put)])[..|passes|] == passes;
  }

  /** No pass looks for what an earlier one looked for or put in. */
  predicate Independent(passes: seq<(char, string)>) {
    forall i, j | 0 <= i < j < |passes| :: passes[i].0 != passes[j].0 && passes[j].0 !in passes[i].1
  }

  lemma {:induction false} TableHoldsPasses(passes: seq<(char, string)>, x: char)
    requires x in TableOf(passes)
    ensures exists i :: 0 <= i < |passes| && passes[i].0 == x && TableOf(passes)[x] == passes[i].1
  {
    var n := |passes| - 1;
    if x != passes[n].0 {
      TableHoldsPasses(passes[..n], x);
      var i :| 0 <= i < n && passes[..n][i].0 == x && TableOf(passes[..n])[x] == passes[..n][i].1;
      assert passes[i].0 == x;
    }
  }

  lemma {:induction false} SubstNothing(s: string)
    ensures FlatMap(s, Subst(map[])) == s
  {
    if s != [] { SubstNothing(s[1..]); }
  }

  /** Independent passes over the whole string are one substitution, character by character. */
  lemma {:induction false} PassesAreOne(s: string, passes: seq<(char, string)>)
    requires Independent(passes)
    ensures ReplaceEach(s, passes) == FlatMap(s, Subst(TableOf(passes)))
  {
    if passes == [] {
      SubstNothing(s);
    } else {
      var (before, last) := (passes[..|passes| - 1], passes[|passes| - 1]);
      PassesAreOne(s, before);
      forall x | x in TableOf(before) ensures x != last.0 && last.0 !in TableOf(before)[x] {
        TableHoldsPasses(before, x);
      }
      OneMorePass(s, TableOf(before), last.0, last.1);
    }
  }
}
