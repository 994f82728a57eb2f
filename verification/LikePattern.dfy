/** The user search: a LIKE pattern built by three whole-string replacements (section 9.7.1 of the
    PostgreSQL manual). */
module LikePattern {
  import opened Text
  import opened Wrappers

  /** `_escaped_contains`. */
  function EscapedContains(value: string): string {
    "%" + ReplaceAll(ReplaceAll(ReplaceAll(value, '\\', "\\\\"), '%', "\\%"), '_', "\\_") + "%"
  }

  /** Does `pattern`, with backslash as its escape character, match the whole text? A pattern that ends
      in a lone escape character is an error, which counts as no match. */
  predicate Like(text: string, pattern: string)
    decreases |pattern| + |text|
  {
    if pattern == [] then text == []
    else if pattern[0] == '%' then Like(text, pattern[1..]) || (text != [] && Like(text[1..], pattern))
    else if pattern[0] == '_' then text != [] && Like(text[1..], pattern[1..])
    else if pattern[0] == '\\' then
      |pattern| > 1 && text != [] && text[0] == pattern[1] && Like(text[1..], pattern[2..])
    else text != [] && text[0] == pattern[0] && Like(text[1..], pattern[1..])
  }

  // ---------------------------------------------------------------- three passes are one

  predicate IsSpecial(c: char) {
    c == '\\' || c == '%' || c == '_'
  }

  function Literal(c: char): string {
    if IsSpecial(c) then ['\\', c] else [c]
  }

  lemma EscapeIsOnePass(value: string)
    ensures EscapedContains(value) == "%" + FlatMap(value, Literal) + "%"
  {
    var p := [('\\', "\\\\"), ('%', "\\%"), ('_', "\\_")];
    OnePassMore(value, [], '\\', "\\\\");
    assert [] + [p[0]] == p[..1];
    OnePassMore(value, p[..1], '%', "\\%");
    assert p[..1] + [p[1]] == p[..2];
    OnePassMore(value, p[..2], '_', "\\_");
    assert p[..2] + [p[2]] == p;
    PassesAreOne(value, p);
    FlatMapSame(value, Subst(TableOf(p)), Literal);
  }

  // ---------------------------------------------------------------- what the pattern matches

  lemma {:induction false} AnythingMatches(text: string)
    ensures Like(text, "%")
  {
    assert "%"[1..] == [];
    if text != [] { AnythingMatches(text[1..]); }
  }

  /** The escaped search matches itself, and the last wildcard the rest. */
  lemma {:induction false} PrefixMatches(text: string, search: string)
    ensures Like(text, FlatMap(search, Literal) + "%") <==> search <= text
  {
    if search == [] {
      assert [] + "%" == "%";
      AnythingMatches(text);
    } else {
      var (c, rest) := (search[0], FlatMap(search[1..], Literal) + "%");
      var pattern := FlatMap(search, Literal) + "%";
      assert pattern == Literal(c) + rest;
      LiteralMatches(text, c, rest);
      if text != [] {
        PrefixMatches(text[1..], search[1..]);
        PrefixOfTail(text, search);
      }
    }
  }

  lemma LiteralMatches(text: string, c: char, rest: string)
    ensures Like(text, Literal(c) + rest) <==> text != [] && text[0] == c && Like(text[1..], rest)
  {
    var pattern := Literal(c) + rest;
    if IsSpecial(c) {
      assert pattern[2..] == rest && pattern[0] == '\\' && pattern[1] == c;
    } else {
      assert pattern[1..] == rest && pattern[0] == c;
    }
  }

  lemma PrefixOfTail(text: string, search: string)
    requires text != [] && search != []
    ensures search <= text <==> search[0] == text[0] && search[1..] <= text[1..]
  {
    if search[0] == text[0] && search[1..] <= text[1..] {
      assert search == [search[0]] + search[1..] && text == [text[0]] + text[1..];
    }
  }

  /** The first wildcard lets the rest of the pattern match at any place. */
  lemma {:induction false} WildcardMatches(text: string, pattern: string)
    ensures Like(text, "%" + pattern) <==> exists i :: 0 <= i <= |text| && Like(text[i..], pattern)
  {
    assert ("%" + pattern)[1..] == pattern && ("%" + pattern)[0] == '%';
    assert text[0..] == text;
    if text != [] {
      WildcardMatches(text[1..], pattern);
      forall i | 0 <= i < |text| ensures text[1..][i..] == text[i + 1..] {}
      if i :| 0 <= i <= |text| && Like(text[i..], pattern) {
        if i > 0 { assert Like(text[1..][i - 1..], pattern); }
      }
    }
  }

  /** The pattern matches exactly the texts in which the search occurs literally. */
  lemma MatchesExactlyTheOccurrences(text: string, search: string)
    ensures Like(text, EscapedContains(search)) <==> Occurs(search, text)
  {
    EscapeIsOnePass(search);
    var rest := FlatMap(search, Literal) + "%";
    Associate("%", FlatMap(search, Literal), "%");
    WildcardMatches(text, rest);
    forall i | 0 <= i <= |text| ensures Like(text[i..], rest) <==> search <= text[i..] {
      PrefixMatches(text[i..], search);
    }
  }

  // ---------------------------------------------------------------- the filter

  function StripLeft(s: string, isSpace: char -> bool): string {
    if s != [] && isSpace(s[0]) then StripLeft(s[1..], isSpace) else s
  }

  function StripRight(s: string, isSpace: char -> bool): string {
    if s != [] && isSpace(s[|s| - 1]) then StripRight(s[..|s| - 1], isSpace) else s
  }

  function Strip(s: string, isSpace: char -> bool): string {
    StripRight(StripLeft(s, isSpace), isSpace)
  }

  /** The pattern of `_search_filter`, or nothing for no search. */
  function SearchPattern(search: Option<string>, isSpace: char -> bool): Option<string> {
    var normalized := if search.Some? then Strip(search.value, isSpace) else "";
    if normalized == [] then None else Some(EscapedContains(normalized))
  }

  /** The searched columns of an account, already folded; the names may be missing. */
  datatype Account = Account(email: string, fullName: Option<string>, displayName: Option<string>)

  /** The three alternatives; a missing name matches nothing. */
  predicate Found(account: Account, pattern: string) {
    || Like(account.email, pattern)
    || (account.fullName.Some? && Like(account.fullName.value, pattern))
    || (account.displayName.Some? && Like(account.displayName.value, pattern))
  }

  lemma {:induction false} StripRightKeepsNonSpace(s: string, isSpace: char -> bool)
    ensures StripRight(s, isSpace) <= s
    ensures StripRight(s, isSpace) == [] <==> forall c | c in s :: isSpace(c)
  {
    if s != [] && isSpace(s[|s| - 1]) {
      StripRightKeepsNonSpace(s[..|s| - 1], isSpace);
      assert s == s[..|s| - 1] + [s[|s| - 1]];
    }
  }

  lemma {:induction false} StripLeftKeepsNonSpace(s: string, isSpace: char -> bool)
    ensures StripLeft(s, isSpace) == [] || !isSpace(StripLeft(s, isSpace)[0])
    ensures (forall c | c in StripLeft(s, isSpace) :: isSpace(c)) <==> forall c | c in s :: isSpace(c)
  {
    if s != [] && isSpace(s[0]) {
      StripLeftKeepsNonSpace(s[1..], isSpace);
      assert s == [s[0]] + s[1..];
    }
  }

  /** A search of blanks is no search; any other finds exactly the accounts of which one column
      contains the stripped search. */
  lemma SearchFindsOccurrences(search: string, isSpace: char -> bool, account: Account)
    ensures SearchPattern(Some(search), isSpace).None? <==> forall c | c in search :: isSpace(c)
    ensures var pattern := SearchPattern(Some(search), isSpace);
            var stripped := Strip(search, isSpace);
            pattern.Some? ==>
              (Found(account, pattern.value) <==>
               || Occurs(stripped, account.email)
               || (account.fullName.Some? && Occurs(stripped, account.fullName.value))
               || (account.displayName.Some? && Occurs(stripped, account.displayName.value)))
  {
    StripLeftKeepsNonSpace(search, isSpace);
    StripRightKeepsNonSpace(StripLeft(search, isSpace), isSpace);
    var stripped := Strip(search, isSpace);
    MatchesExactlyTheOccurrences(account.email, stripped);
    if account.fullName.Some? { MatchesExactlyTheOccurrences(account.fullName.value, stripped); }
    if account.displayName.Some? { MatchesExactlyTheOccurrences(account.displayName.value, stripped); }
  }
}
