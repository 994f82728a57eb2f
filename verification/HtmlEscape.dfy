/** HTML escaping in five passes over the whole string. */
module HtmlEscape {
  import opened Text

  /** `escapeHtml`. */
  function Escape(value: string): string {
    ReplaceAll(ReplaceAll(ReplaceAll(ReplaceAll(ReplaceAll(value,
      '&', "&amp;"), '<', "&lt;"), '>', "&gt;"), '"', "&quot;"), '\'', "&#x27;")
  }

  /** What each single character stands as. */
  function Entity(c: char): string {
    if c == '&' then "&amp;"
    else if c == '<' then "&lt;"
    else if c == '>' then "&gt;"
    else if c == '"' then "&quot;"
    else if c == '\'' then "&#x27;"
    else [c]
  }

  const PASSES: seq<(char, string)> :=
    [('&', "&amp;"), ('<', "&lt;"), ('>', "&gt;"), ('"', "&quot;"), ('\'', "&#x27;")]

  const TABLE: Table := map['&' := "&amp;", '<' := "&lt;", '>' := "&gt;", '"' := "&quot;", '\'' := "&#x27;"]

  lemma EscapeIsPasses(value: string)
    ensures Escape(value) == ReplaceEach(value, PASSES) && TableOf(PASSES) == TABLE
  {
    var p := PASSES;
    OnePassMore(value, [], '&', "&amp;");
    assert [] + [p[0]] == p[..1];
    OnePassMore(value, p[..1], '<', "&lt;");
    assert p[..1] + [p[1]] == p[..2];
    OnePassMore(value, p[..2], '>', "&gt;");
    assert p[..2] + [p[2]] == p[..3];
    OnePassMore(value, p[..3], '"', "&quot;");
    assert p[..3] + [p[3]] == p[..4];
    OnePassMore(value, p[..4], '\'', "&#x27;");
    assert p[..4] + [p[4]] == p;
  }

  lemma PassesAreIndependent()
    ensures Independent(PASSES)
  {
  }

  /** The five passes in this order are one substitution: no pass touches what an earlier one put in. */
  lemma EscapeIsOnePass(value: string)
    ensures Escape(value) == FlatMap(value, Entity)
  {
    EscapeIsPasses(value);
    PassesAreIndependent();
    PassesAreOne(value, PASSES);
    FlatMapSame(value, Subst(TABLE), Entity);
  }

  // ---------------------------------------------------------------- what the result is like

  predicate StartsWith(s: string, prefix: string) {
    |prefix| <= |s| && s[..|prefix|] == prefix
  }

  /** None of the four characters is left, and every ampersand starts one of the five entities. */
  ghost predicate Safe(s: string) {
    && (forall c | c in s :: c != '<' && c != '>' && c != '"' && c != '\'')
    && (forall i | 0 <= i < |s| && s[i] == '&' :: exists c :: c in TABLE && StartsWith(s[i..], TABLE[c]))
  }

  predicate OnlyLeadingAmpersand(s: string) {
    && s != [] && s[0] == '&'
    && forall i | 0 < i < |s| :: s[i] != '&' && s[i] != '<' && s[i] != '>' && s[i] != '"' && s[i] != '\''
  }

  lemma EntitiesLeadWithAmpersand(c: char)
    requires c in TABLE
    ensures OnlyLeadingAmpersand(TABLE[c])
  {
    assert OnlyLeadingAmpersand("&amp;");
    assert OnlyLeadingAmpersand("&lt;") && OnlyLeadingAmpersand("&gt;");
    assert OnlyLeadingAmpersand("&quot;") && OnlyLeadingAmpersand("&#x27;");
  }

  lemma LeadingIsSafe(s: string, c: char)
    requires c in TABLE && s == TABLE[c] && OnlyLeadingAmpersand(s)
    ensures Safe(s)
  {
    assert s[0..] == s && StartsWith(s, TABLE[c]);
  }

  lemma EntityIsInTable(c: char)
    ensures if c in TABLE then Entity(c) == TABLE[c] else Entity(c) == [c]
  {
  }

  lemma EntityIsSafe(c: char)
    ensures Safe(Entity(c))
  {
    EntityIsInTable(c);
    if c in TABLE {
      EntitiesLeadWithAmpersand(c);
      LeadingIsSafe(Entity(c), c);
    } else {
      assert forall i | 0 <= i < |Entity(c)| :: Entity(c)[i] == c;
    }
  }

  lemma SafeConcat(a: string, b: string)
    requires Safe(a) && Safe(b)
    ensures Safe(a + b)
  {
    var s := a + b;
    forall i | 0 <= i < |s| && s[i] == '&' ensures exists c :: c in TABLE && StartsWith(s[i..], TABLE[c]) {
      if i < |a| {
        var c :| c in TABLE && StartsWith(a[i..], TABLE[c]);
        assert s[i..] == a[i..] + b;
      } else {
        assert s[i..] == b[i - |a|..];
      }
    }
  }

  lemma {:induction false} SubstitutedIsSafe(value: string)
    ensures Safe(FlatMap(value, Entity))
  {
    if value != [] {
      SubstitutedIsSafe(value[1..]);
      EntityIsSafe(value[0]);
      SafeConcat(Entity(value[0]), FlatMap(value[1..], Entity));
    }
  }

  /** The escaped string can stand as text or in a quoted attribute. */
  lemma EscapedIsSafe(value: string)
    ensures Safe(Escape(value))
  {
    EscapeIsOnePass(value);
    SubstitutedIsSafe(value);
  }

  // ---------------------------------------------------------------- reading it back

  /** Replaces entities from left to right, as a reader of HTML does. */
  function Unescape(s: string): string {
    if s == [] then []
    else if StartsWith(s, "&amp;") then ['&'] + Unescape(s[5..])
    else if StartsWith(s, "&lt;") then ['<'] + Unescape(s[4..])
    else if StartsWith(s, "&gt;") then ['>'] + Unescape(s[4..])
    else if StartsWith(s, "&quot;") then ['"'] + Unescape(s[6..])
    else if StartsWith(s, "&#x27;") then ['\''] + Unescape(s[6..])
    else [s[0]] + Unescape(s[1..])
  }

  lemma StartsTwice(s: string, one: string, other: string)
    requires |one| > 1 && |other| > 1 && StartsWith(s, one) && StartsWith(s, other)
    ensures one[1] == other[1]
  {
    assert s[1] == s[..|one|][1] == one[1] && s[1] == s[..|other|][1] == other[1];
  }

  lemma StartsFirst(s: string, prefix: string)
    requires |prefix| > 0 && StartsWith(s, prefix)
    ensures s[0] == prefix[0]
  {
    assert s[..|prefix|][0] == prefix[0];
  }

  lemma NotBoth(s: string, one: string, other: string)
    requires |one| > 1 && |other| > 1 && StartsWith(s, one) && one[1] != other[1]
    ensures !StartsWith(s, other)
  {
    if StartsWith(s, other) { StartsTwice(s, one, other); }
  }

  lemma UnescapeOne(c: char, rest: string)
    ensures Unescape(Entity(c) + rest) == [c] + Unescape(rest)
  {
    var e := Entity(c);
    var s := e + rest;
    assert s[|e|..] == rest && s[..|e|] == e && StartsWith(s, e);
    if c == '&' {
    } else if c == '<' {
      NotBoth(s, e, "&amp;");
    } else if c == '>' {
      NotBoth(s, e, "&amp;");
      NotBoth(s, e, "&lt;");
    } else if c == '"' {
      NotBoth(s, e, "&amp;");
      NotBoth(s, e, "&lt;");
      NotBoth(s, e, "&gt;");
    } else if c == '\'' {
      NotBoth(s, e, "&amp;");
      NotBoth(s, e, "&lt;");
      NotBoth(s, e, "&gt;");
      NotBoth(s, e, "&quot;");
    } else {
      NoEntityStarts(s);
    }
  }

  lemma NoEntityStarts(s: string)
    requires s != [] && s[0] != '&'
    ensures !StartsWith(s, "&amp;") && !StartsWith(s, "&lt;") && !StartsWith(s, "&gt;")
    ensures !StartsWith(s, "&quot;") && !StartsWith(s, "&#x27;")
  {
    if StartsWith(s, "&amp;") { StartsFirst(s, "&amp;"); }
    if StartsWith(s, "&lt;") { StartsFirst(s, "&lt;"); }
    if StartsWith(s, "&gt;") { StartsFirst(s, "&gt;"); }
    if StartsWith(s, "&quot;") { StartsFirst(s, "&quot;"); }
    if StartsWith(s, "&#x27;") { StartsFirst(s, "&#x27;"); }
  }

  lemma {:induction false} UnescapeSubstituted(value: string)
    ensures Unescape(FlatMap(value, Entity)) == value
  {
    if value != [] {
      UnescapeOne(value[0], FlatMap(value[1..], Entity));
      UnescapeSubstituted(value[1..]);
    }
  }

  /** Escaping loses nothing. */
  lemma UnescapeReturnsTheOriginal(value: string)
    ensures Unescape(Escape(value)) == value
  {
    EscapeIsOnePass(value);
    UnescapeSubstituted(value);
  }

  lemma AmpersandFirst(rest: string)
    requires '&' !in rest
    ensures ReplaceAll("&" + rest, '&', "&amp;") == "&amp;" + rest
  {
    assert ("&" + rest)[1..] == rest;
    Untouched(rest, '&', "&amp;");
  }

  /** The order matters: with the ampersand replaced last, an escaped bracket is escaped again. */
  lemma AmpersandLastEscapesTwice()
    ensures ReplaceAll(ReplaceAll("<", '<', "&lt;"), '&', "&amp;") == "&amp;lt;" && Escape("<") == "&lt;"
  {
    Single('<', '<', "&lt;");
    AmpersandFirst("lt;");
    Associate("&", "amp;", "lt;");
    BracketIsEscaped();
  }

  lemma BracketIsEscaped()
    ensures Escape("<") == "&lt;"
  {
    EscapeIsOnePass("<");
    FlatMapHead('<', "", Entity);
    assert ['<'] + "" == "<";
  }
}
