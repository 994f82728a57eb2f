/** Which keys and strings of an audit payload are redacted. */
module AuditKeys {
  import opened AuditRedaction
  import opened Text
  import opened Wrappers

  /** Library calls: case folding and the letter-or-digit test of one character, and the keys of the
      query of a URL, or nothing where the URL cannot be split. */
  datatype Library = Library(fold: char -> string, isAlnum: char -> bool, queryKeys: string -> Option<seq<string>>)

  const SENSITIVE_KEY_PARTS: set<string> :=
    {"password", "passphrase", "secret", "token", "credential", "authorization", "cookie", "csrf", "privatekey",
     "apikey", "signedurl", "signature", "databaseurl", "redisuri", "connectionstring"}

  const PROFILE_CONTENT_KEYS: set<string> :=
    {"profile", "profiledata", "email", "fullname", "displayname", "bio", "nationality", "contact", "phone", "address",
     "birthdate", "major", "studyyear", "interests", "hobbies", "languages", "availability", "schedule", "preferences",
     "avatar", "avatarurl", "photo", "photourl"}

  const PROFILE_OPERATIONAL_KEYS: set<string> :=
    {"completionstatus", "deletedat", "emailverified", "isactive", "matchingeligible", "role", "status"}

  const SIGNED_URL_QUERY_KEYS: set<string> :=
    {"credential", "jwt", "key", "sig", "signature", "token", "xamzcredential", "xamzsignature", "xgoogcredential",
     "xgoogsignature", "xgoogsignedheaders"}

  function Kept(s: string, lib: Library): string {
    FlatMap(s, c => if lib.isAlnum(c) then [c] else [])
  }

  /** The folded letters and digits of a key. */
  function NormalizedKey(key: string, lib: Library): string {
    Kept(FlatMap(key, lib.fold), lib)
  }

  ghost predicate EndsWith(s: string, suffix: string) {
    |suffix| <= |s| && s[|s| - |suffix|..] == suffix
  }

  ghost predicate ContainsOneOf(parts: set<string>, s: string) {
    exists part :: part in parts && Occurs(part, s)
  }

  ghost predicate EndsWithOneOf(parts: set<string>, s: string) {
    exists part :: part in parts && EndsWith(s, part)
  }

  ghost predicate IsSensitiveKey(key: string, lib: Library) {
    ContainsOneOf(SENSITIVE_KEY_PARTS, NormalizedKey(key, lib))
  }

  ghost predicate IsProfileContentKey(key: string, lib: Library) {
    EndsWithOneOf(PROFILE_CONTENT_KEYS, NormalizedKey(key, lib))
  }

  ghost predicate IsRedacted(key: string, profileRestricted: bool, lib: Library) {
    || IsSensitiveKey(key, lib)
    || IsProfileContentKey(key, lib)
    || (profileRestricted && NormalizedKey(key, lib) !in PROFILE_OPERATIONAL_KEYS)
  }

  ghost function UrlVerdictOf(value: string, lib: Library): UrlVerdict {
    match lib.queryKeys(value)
    case None => Malformed
    case Some(keys) =>
      if exists k :: 0 <= k < |keys|
          && (NormalizedKey(keys[k], lib) in SIGNED_URL_QUERY_KEYS || IsSensitiveKey(keys[k], lib))
      then Signed else Plain
  }

  ghost function PolicyFor(profileRestricted: bool, lib: Library): Policy {
    Policy(key => IsRedacted(key, profileRestricted, lib), value => UrlVerdictOf(value, lib))
  }

  // ---------------------------------------------------------------- what cannot hide a key

  lemma NormalizedConcat(a: string, b: string, lib: Library)
    ensures NormalizedKey(a + b, lib) == NormalizedKey(a, lib) + NormalizedKey(b, lib)
  {
    FlatMapConcat(a, b, lib.fold);
    FlatMapConcat(FlatMap(a, lib.fold), FlatMap(b, lib.fold), c => if lib.isAlnum(c) then [c] else []);
  }

  lemma OccursInside(part: string, before: string, s: string, after: string)
    requires Occurs(part, s)
    ensures Occurs(part, before + s + after)
  {
    var i :| 0 <= i <= |s| && part <= s[i..];
    var all := before + s + after;
    assert all[|before| + i..] == s[i..] + after;
  }

  lemma WrappedContainsOneOf(parts: set<string>, before: string, s: string, after: string)
    requires ContainsOneOf(parts, s)
    ensures ContainsOneOf(parts, before + s + after)
  {
    var part :| part in parts && Occurs(part, s);
    OccursInside(part, before, s, after);
  }

  lemma PrefixedEndsWithOneOf(parts: set<string>, before: string, s: string)
    requires EndsWithOneOf(parts, s)
    ensures EndsWithOneOf(parts, before + s)
  {
    var part :| part in parts && EndsWith(s, part);
    assert EndsWith(before + s, part);
  }

  /** Nothing put around a sensitive key makes it harmless, and nothing put before a key that ends in a
      profile field does; in either mode it stays redacted. */
  lemma WrappingHidesNothing(before: string, key: string, after: string, profileRestricted: bool, lib: Library)
    ensures IsSensitiveKey(key, lib) ==> IsRedacted(before + key + after, profileRestricted, lib)
    ensures IsProfileContentKey(key, lib) ==> IsRedacted(before + key, profileRestricted, lib)
  {
    NormalizedConcat(before, key, lib);
    NormalizedConcat(before + key, after, lib);
    if IsSensitiveKey(key, lib) {
      WrappedContainsOneOf(SENSITIVE_KEY_PARTS, NormalizedKey(before, lib), NormalizedKey(key, lib),
          NormalizedKey(after, lib));
    }
    if IsProfileContentKey(key, lib) {
      PrefixedEndsWithOneOf(PROFILE_CONTENT_KEYS, NormalizedKey(before, lib), NormalizedKey(key, lib));
    }
  }

  /** Separators inside a key change nothing. */
  lemma SeparatorsChangeNothing(a: string, separator: char, b: string, profileRestricted: bool, lib: Library)
    requires forall c | c in lib.fold(separator) :: !lib.isAlnum(c)
    ensures IsRedacted(a + [separator] + b, profileRestricted, lib) == IsRedacted(a + b, profileRestricted, lib)
  {
    NormalizedConcat(a, [separator], lib);
    NormalizedConcat(a + [separator], b, lib);
    NormalizedConcat(a, b, lib);
    assert [separator][1..] == [];
    assert FlatMap([separator], lib.fold)
        == lib.fold(separator) + FlatMap([separator][1..], lib.fold)
        == lib.fold(separator);
    NothingKept(lib.fold(separator), lib);
    assert NormalizedKey(a, lib) + [] == NormalizedKey(a, lib);
  }

  lemma {:induction false} NothingKept(s: string, lib: Library)
    requires forall c | c in s :: !lib.isAlnum(c)
    ensures Kept(s, lib) == []
  {
    if s != [] { NothingKept(s[1..], lib); }
  }

  // ---------------------------------------------------------------- the service's own policy

  /** Text that no URL with a query or a host can be. */
  predicate Unmarked(s: string) {
    '?' !in s && '/' !in s
  }

  /** Such text can be split, and has no query. */
  ghost predicate SplitsUnmarked(lib: Library) {
    forall s | Unmarked(s) :: lib.queryKeys(s) == Some([])
  }

  lemma UnmarkedIsPlain(profileRestricted: bool, lib: Library)
    requires SplitsUnmarked(lib)
    ensures forall s | Unmarked(s) :: PolicyFor(profileRestricted, lib).url(s) == Plain
  {
  }

  /** Every decimal, UUID, date or time that the walk visits is printed without those marks. */
  ghost predicate VisitedPrintUnmarked(h: Heap, policy: Policy, v: Value) {
    forall path: seq<Value> | IsPath(h, policy, path) && path[0] == v && path[|path| - 1].Rendered? ::
      Unmarked(path[|path| - 1].printed)
  }

  lemma UnmarkedPrintPlainly(h: Heap, policy: Policy, v: Value)
    requires forall s | Unmarked(s) :: policy.url(s) == Plain
    requires VisitedPrintUnmarked(h, policy, v)
    ensures policy.url(REDACTED) == Plain && VisitedPrintPlainly(h, policy, v)
  {
    assert Unmarked(REDACTED);
    forall path: seq<Value> | IsPath(h, policy, path) && path[0] == v
      ensures PrintsPlainly(policy, path[|path| - 1])
    {
      var last: Value := path[|path| - 1];
      assert last.Rendered? ==> Unmarked(last.printed);
    }
  }

  /** With the service's own keys and URLs, in either mode, a sanitised payload is sanitised for good. */
  lemma AuditPayloadSanitizedAgain(h: Heap, profileRestricted: bool, lib: Library, v: Value, g: Heap, w: Value)
    requires SplitsUnmarked(lib) && VisitedPrintUnmarked(h, PolicyFor(profileRestricted, lib), v)
    requires Sanitized(h, PolicyFor(profileRestricted, lib), v, {}, 0).Ok?
    requires Represents(g, w, Sanitized(h, PolicyFor(profileRestricted, lib), v, {}, 0).value, {})
    ensures Sanitized(g, PolicyFor(profileRestricted, lib), w, {}, 0) ==
            Sanitized(h, PolicyFor(profileRestricted, lib), v, {}, 0)
  {
    UnmarkedIsPlain(profileRestricted, lib);
    UnmarkedPrintPlainly(h, PolicyFor(profileRestricted, lib), v);
    SanitizedAgain(h, PolicyFor(profileRestricted, lib), v, g, w);
  }

  lemma {:induction false} RedactedMember(h: Heap, policy: Policy, items: seq<(Key, Value)>,
                                          seen: set<Id>, depth: nat, key: string)
    requires policy.redacts(key) && SanitizedItems(h, policy, items, seen, depth).Ok?
    ensures var members := SanitizedItems(h, policy, items, seen, depth).value;
            key in members ==> members[key] == JText(REDACTED)
    decreases |items|
  {
    if items != [] { RedactedMember(h, policy, items[..|items| - 1], seen, depth, key); }
  }

  /** Wherever an accepted mapping stands, a member whose key wraps a sensitive one holds the marker. */
  lemma WrappedMemberIsRedacted(h: Heap, profileRestricted: bool, lib: Library,
                                items: seq<(Key, Value)>, seen: set<Id>, depth: nat,
                                before: string, key: string, after: string)
    requires IsSensitiveKey(key, lib)
    requires SanitizedItems(h, PolicyFor(profileRestricted, lib), items, seen, depth).Ok?
    ensures var members := SanitizedItems(h, PolicyFor(profileRestricted, lib), items, seen, depth).value;
            before + key + after in members ==> members[before + key + after] == JText(REDACTED)
  {
    WrappingHidesNothing(before, key, after, profileRestricted, lib);
    RedactedMember(h, PolicyFor(profileRestricted, lib), items, seen, depth, before + key + after);
  }
}
