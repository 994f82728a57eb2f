/** The reading loop by itself: parts are read one after another, and what stands behind each of them
    says whether another follows. */
module PartLoop {
  import opened Wrappers

  datatype Turn<E> = Close | Another | Fail(error: E)

  /** Reading and turning only move forward, and not past the end. */
  ghost predicate Forward<P(!new), E(!new)>(read: nat -> Result<(P, nat), E>, turn: nat -> Turn<E>, end: nat) {
    && (forall c: nat | read(c).Ok? :: c < read(c).value.1 <= end)
    && (forall a: nat | turn(a) == Another :: a + 2 <= end)
  }

  function InFront<P, E>(parts: seq<P>, rest: Result<seq<P>, E>): Result<seq<P>, E> {
    if rest.Err? then rest else Ok(parts + rest.value)
  }

  function PartsFrom<P(!new), E(!new)>(read: nat -> Result<(P, nat), E>, turn: nat -> Turn<E>, end: nat, cursor: nat)
    : Result<seq<P>, E>
    requires Forward(read, turn, end) && cursor <= end
    decreases end - cursor
  {
    match read(cursor)
    case Err(error) => Err(error)
    case Ok((part, after)) =>
      match turn(after)
      case Close => Ok([part])
      case Fail(error) => Err(error)
      case Another => InFront([part], PartsFrom(read, turn, end, after + 2))
  }

  lemma InFrontTwice<P, E>(parts: seq<P>, part: P, rest: Result<seq<P>, E>)
    ensures InFront(parts, InFront([part], rest)) == InFront(parts + [part], rest)
  {
    if rest.Ok? { assert parts + ([part] + rest.value) == (parts + [part]) + rest.value; }
  }

  lemma InFrontOfNothing<P, E>(rest: Result<seq<P>, E>)
    ensures InFront([], rest) == rest
  {
    if rest.Ok? { assert [] + rest.value == rest.value; }
  }

  /** The loop: the cursor only moves forward and finished parts are appended. */
  method ReadParts<P(!new), E(!new)>(read: nat -> Result<(P, nat), E>, turn: nat -> Turn<E>, ghost end: nat, start: nat)
    returns (r: Result<seq<P>, E>)
    requires Forward(read, turn, end) && start <= end
    ensures r == PartsFrom(read, turn, end, start)
    ensures r.Ok? ==> r.value != []
  {
    var cursor := start;
    var parsed: seq<P> := [];
    InFrontOfNothing(PartsFrom(read, turn, end, start));
    while true
      invariant cursor <= end
      invariant PartsFrom(read, turn, end, start) == InFront(parsed, PartsFrom(read, turn, end, cursor))
      decreases end - cursor
    {
      var one := read(cursor);
      if one.Err? { return Err(one.error); }
      var (part, after) := one.value;
      if turn(after) == Another { InFrontTwice(parsed, part, PartsFrom(read, turn, end, after + 2)); }
      parsed := parsed + [part];
      cursor := after;
      var next := turn(cursor);
      if next.Close? { break; }
      if next.Fail? { return Err(next.error); }
      cursor := cursor + 2;
    }
    return Ok(parsed);
  }

  /** `shown` is built up part by part in the way the loop takes parts off. */
  ghost predicate ShownAt<P(!new), E(!new)>(read: nat -> Result<(P, nat), E>, turn: nat -> Turn<E>,
                                             shown: (seq<P>, nat) -> bool, parts: seq<P>, c: nat)
  {
    shown(parts, c) <==>
    && parts != [] && read(c).Ok? && read(c).value.0 == parts[0]
    && var after := read(c).value.1;
       if |parts| == 1 then turn(after) == Close else turn(after) == Another && shown(parts[1..], after + 2)
  }

  ghost predicate ShownInTurn<P(!new), E(!new)>(read: nat -> Result<(P, nat), E>, turn: nat -> Turn<E>, end: nat,
                                                 shown: (seq<P>, nat) -> bool)
  {
    forall parts: seq<P>, c: nat | c <= end :: ShownAt(read, turn, shown, parts, c)
  }

  /** Then the loop ends with exactly the parts that are shown. */
  lemma {:induction false} ReadsWhatIsShown<P(!new), E(!new)>(
      read: nat -> Result<(P, nat), E>, turn: nat -> Turn<E>, end: nat, shown: (seq<P>, nat) -> bool, parts: seq<P>,
      cursor: nat)
    requires Forward(read, turn, end) && cursor <= end
    requires ShownInTurn(read, turn, end, shown)
    ensures PartsFrom(read, turn, end, cursor) == Ok(parts) <==> shown(parts, cursor)
    decreases end - cursor
  {
    assert ShownAt(read, turn, shown, parts, cursor);
    if read(cursor).Ok? {
      var (part, after) := read(cursor).value;
      OneOrMore(part, parts);
      if turn(after) == Another {
        ReadsWhatIsShown(read, turn, end, shown, [], after + 2);
        HeadAndRest(part, PartsFrom(read, turn, end, after + 2), parts);
        if parts != [] { ReadsWhatIsShown(read, turn, end, shown, parts[1..], after + 2); }
      }
    }
  }

  lemma OneOrMore<P>(part: P, parts: seq<P>)
    ensures |parts| == 1 <==> parts != [] && parts[1..] == []
    ensures parts == [part] <==> |parts| == 1 && parts[0] == part
  {
  }

  lemma HeadAndRest<P, E>(part: P, rest: Result<seq<P>, E>, parts: seq<P>)
    ensures InFront([part], rest) == Ok(parts) <==> parts != [] && part == parts[0] && rest == Ok(parts[1..])
  {
    if rest.Ok? { assert ([part] + rest.value)[1..] == rest.value && ([part] + rest.value)[0] == part; }
    if parts != [] { assert parts == [parts[0]] + parts[1..]; }
  }
}

/** The bounded multipart reader, against a printer of multipart bodies (section 5.1.1 of RFC 2046). */
module Multipart {
  import opened PartLoop
  import opened Wrappers

  /** Bytes are only ever compared, so nothing here depends on their range. */
  type Bytes = seq<int>

  const MAX_IMAGE_BYTES := 5 * 1024 * 1024
  const MAX_PART_HEADERS_BYTES := 8 * 1024
  const MAX_TEXT_FIELD_BYTES := 1024
  const CRLF: Bytes := [13, 10]
  const HEADER_END: Bytes := [13, 10, 13, 10]
  const DASHES: Bytes := [45, 45]

  datatype ParseError =
    | BodyMalformed | HeadersInvalid | ClosingMissing | TrailingData | BoundaryMalformed | PartCount

  datatype Part = Part(header: Bytes, content: Bytes)

  function Marker(boundary: Bytes): Bytes {
    DASHES + boundary
  }

  function Delimiter(boundary: Bytes): Bytes {
    CRLF + Marker(boundary)
  }

  function Opening(boundary: Bytes): Bytes {
    Marker(boundary) + CRLF
  }

  /** The length and character check of a boundary. */
  predicate BoundaryOk(boundary: Bytes) {
    1 <= |boundary| <= 70 && forall k | 0 <= k < |boundary| :: 32 < boundary[k] < 127
  }

  // ---------------------------------------------------------------- searching

  predicate MatchesAt(s: Bytes, pattern: Bytes, i: nat) {
    i + |pattern| <= |s| && forall k | 0 <= k < |pattern| :: s[i + k] == pattern[k]
  }

  /** bytes.find: the first match at or after `from`. */
  function Find(s: Bytes, pattern: Bytes, from: nat): (r: Option<nat>)
    ensures r.Some? ==> from <= r.value && r.value + |pattern| <= |s|
    decreases |s| - from
  {
    if MatchesAt(s, pattern, from) then Some(from)
    else if from >= |s| then None
    else Find(s, pattern, from + 1)
  }

  lemma {:induction false} FindIsFirst(s: Bytes, pattern: Bytes, from: nat)
    ensures var r := Find(s, pattern, from);
            && (r.Some? ==> MatchesAt(s, pattern, r.value))
            && forall i | from <= i < (if r.Some? then r.value else |s| + 1) :: !MatchesAt(s, pattern, i)
    decreases |s| - from
  {
    if !MatchesAt(s, pattern, from) && from < |s| { FindIsFirst(s, pattern, from + 1); }
  }

  // ---------------------------------------------------------------- parsing

  /** The part whose header starts at `cursor`, and where the delimiter behind it ends; `headerOk`
      stands for the header parser. */
  function PartFrom(body: Bytes, boundary: Bytes, headerOk: Bytes -> bool, cursor: nat)
    : (r: Result<(Part, nat), ParseError>)
    ensures r.Ok? ==> cursor < r.value.1 <= |body|
  {
    PartUpTo(body, HEADER_END, Delimiter(boundary), headerOk, cursor)
  }

  function PartUpTo(body: Bytes, emptyLine: Bytes, delimiter: Bytes, headerOk: Bytes -> bool, cursor: nat)
    : (r: Result<(Part, nat), ParseError>)
    ensures r.Ok? ==> cursor + |emptyLine| + |delimiter| <= r.value.1 <= |body|
  {
    var headerEnd := Find(body, emptyLine, cursor);
    if headerEnd.None? || headerEnd.value - cursor > MAX_PART_HEADERS_BYTES then Err(HeadersInvalid)
    else if !headerOk(body[cursor..headerEnd.value]) then Err(HeadersInvalid)
    else
      var contentStart := headerEnd.value + |emptyLine|;
      var next := Find(body, delimiter, contentStart);
      if next.None? then Err(ClosingMissing)
      else Ok((Part(body[cursor..headerEnd.value], body[contentStart..next.value]), next.value + |delimiter|))
  }

  /** How the body goes on behind a delimiter: closed, or with a line break and another part. */
  function TurnAt(body: Bytes, after: nat): (turn: Turn<ParseError>)
    ensures turn == Another ==> after + 2 <= |body|
  {
    if MatchesAt(body, DASHES, after) then
      if body[after + 2..] == [] || body[after + 2..] == CRLF then Close else Fail(TrailingData)
    else if !MatchesAt(body, CRLF, after) then Fail(BoundaryMalformed)
    else Another
  }

  function Parse(body: Bytes, boundary: Bytes, headerOk: Bytes -> bool): Result<seq<Part>, ParseError> {
    if !MatchesAt(body, Opening(boundary), 0) then Err(BodyMalformed)
    else
      var parts := PartsFrom(c => PartFrom(body, boundary, headerOk, c), a => TurnAt(body, a), |body|,
          |Opening(boundary)|);
      if parts.Ok? && |parts.value| > 4 then Err(PartCount) else parts
  }

  method Parts(body: Bytes, boundary: Bytes, headerOk: Bytes -> bool) returns (r: Result<seq<Part>, ParseError>)
    ensures r == Parse(body, boundary, headerOk)
  {
    if !MatchesAt(body, Opening(boundary), 0) { return Err(BodyMalformed); }
    var cursor := |Opening(boundary)|;
    var parsed := ReadParts(c => PartFrom(body, boundary, headerOk, c), a => TurnAt(body, a), |body|, cursor);
    if parsed.Ok? && (parsed.value == [] || |parsed.value| > 4) { return Err(PartCount); }
    return parsed;
  }

  // ---------------------------------------------------------------- printing

  function PrintPart(part: Part, boundary: Bytes): Bytes {
    part.header + HEADER_END + part.content + Delimiter(boundary)
  }

  /** What stands behind the delimiter of the first of `parts`. */
  function PrintTail(parts: seq<Part>, boundary: Bytes, finalCrlf: bool): Bytes
    requires parts != []
    decreases |parts|, 0
  {
    if |parts| == 1 then DASHES + (if finalCrlf then CRLF else [])
    else CRLF + PrintFrom(parts[1..], boundary, finalCrlf)
  }

  function PrintFrom(parts: seq<Part>, boundary: Bytes, finalCrlf: bool): Bytes
    requires parts != []
    decreases |parts|, 1
  {
    PrintPart(parts[0], boundary) + PrintTail(parts, boundary, finalCrlf)
  }

  function Print(parts: seq<Part>, boundary: Bytes, finalCrlf: bool): Bytes
    requires parts != []
  {
    Opening(boundary) + PrintFrom(parts, boundary, finalCrlf)
  }

  ghost predicate FreeOf(content: Bytes, pattern: Bytes) {
    forall i: nat :: !MatchesAt(content, pattern, i)
  }

  /** The first match of `pattern` in `s + pattern` is the one at the end. */
  ghost predicate EndsAtFirst(s: Bytes, pattern: Bytes) {
    forall i: nat | i < |s| :: !MatchesAt(s + pattern, pattern, i)
  }

  /** A header block ends at the first empty line, and a content holds no delimiter. */
  ghost predicate PartOk(part: Part, boundary: Bytes, headerOk: Bytes -> bool) {
    && |part.header| <= MAX_PART_HEADERS_BYTES
    && headerOk(part.header)
    && EndsAtFirst(part.header, HEADER_END)
    && FreeOf(part.content, Delimiter(boundary))
  }

  ghost predicate PartsOk(parts: seq<Part>, boundary: Bytes, headerOk: Bytes -> bool) {
    forall k | 0 <= k < |parts| :: PartOk(parts[k], boundary, headerOk)
  }

  // ---------------------------------------------------------------- matches and concatenation

  lemma MatchConcat(s: Bytes, a: Bytes, b: Bytes, i: nat)
    ensures MatchesAt(s, a + b, i) <==> MatchesAt(s, a, i) && MatchesAt(s, b, i + |a|)
  {
    if i + |a| + |b| <= |s| {
      var all, x, y := s[i..i + |a| + |b|], s[i..i + |a|], s[i + |a|..i + |a| + |b|];
      assert all == x + y;
      assert |x| == |a| && all[..|a|] == x && all[|a|..] == y;
      assert (a + b)[..|a|] == a && (a + b)[|a|..] == b;
    }
  }

  lemma MatchIsSlice(s: Bytes, a: Bytes, i: nat)
    requires MatchesAt(s, a, i)
    ensures s[i..i + |a|] == a
  {
  }

  /** `s` reads `a`, `b`, `c`, `d` in a row from `i`. */
  predicate InARow(s: Bytes, a: Bytes, b: Bytes, c: Bytes, d: Bytes, i: nat) {
    && MatchesAt(s, a, i)
    && MatchesAt(s, b, i + |a|)
    && MatchesAt(s, c, i + |a| + |b|)
    && MatchesAt(s, d, i + |a| + |b| + |c|)
  }

  lemma MatchConcat4(s: Bytes, a: Bytes, b: Bytes, c: Bytes, d: Bytes, i: nat)
    ensures MatchesAt(s, a + b + c + d, i) <==> InARow(s, a, b, c, d, i)
  {
    MatchConcat(s, a + b + c, d, i);
    MatchConcat(s, a + b, c, i);
    MatchConcat(s, a, b, i);
  }

  predicate ReadsPart(s: Bytes, part: Part, boundary: Bytes, i: nat) {
    InARow(s, part.header, HEADER_END, part.content, Delimiter(boundary), i)
  }

  lemma PrintReadsPart(s: Bytes, part: Part, boundary: Bytes, i: nat)
    ensures MatchesAt(s, PrintPart(part, boundary), i) <==> ReadsPart(s, part, boundary, i)
  {
    MatchConcat4(s, part.header, HEADER_END, part.content, Delimiter(boundary), i);
  }

  function PartLength(part: Part, boundary: Bytes): (n: nat)
    ensures n == |PrintPart(part, boundary)|
  {
    |part.header| + 4 + |part.content| + |Delimiter(boundary)|
  }

  /** Where `s` reads `piece`, it has the matches that `piece` has. */
  lemma MatchInside(s: Bytes, piece: Bytes, at: nat, pattern: Bytes, i: nat)
    requires MatchesAt(s, piece, at) && i + |pattern| <= |piece|
    ensures MatchesAt(piece, pattern, i) <==> MatchesAt(s, pattern, at + i)
  {
    var a, b := piece[i..i + |pattern|], s[at + i..at + i + |pattern|];
    forall k | 0 <= k < |pattern| ensures a[k] == b[k] {
      assert s[at..at + |piece|][i + k] == s[at + i + k];
    }
    assert a == b;
  }

  /** `s` reads `rest` from `at` to its end. */
  predicate EndsWith(s: Bytes, rest: Bytes, at: nat) {
    MatchesAt(s, rest, at) && at + |rest| == |s|
  }

  lemma EndsWithConcat(s: Bytes, a: Bytes, b: Bytes, at: nat)
    ensures EndsWith(s, a + b, at) <==> MatchesAt(s, a, at) && EndsWith(s, b, at + |a|)
  {
    MatchConcat(s, a, b, at);
  }

  lemma FindFirst(s: Bytes, pattern: Bytes, from: nat, at: nat)
    requires from <= at && MatchesAt(s, pattern, at)
    requires forall i: nat | from <= i < at :: !MatchesAt(s, pattern, i)
    ensures from <= |s| && Find(s, pattern, from) == Some(at)
  {
    FindIsFirst(s, pattern, from);
  }

  /** A piece whose first match is at its end, found in its place. */
  lemma FindAtEnd(s: Bytes, piece: Bytes, pattern: Bytes, from: nat)
    requires MatchesAt(s, piece, from) && MatchesAt(s, pattern, from + |piece|) && EndsAtFirst(piece, pattern)
    ensures Find(s, pattern, from) == Some(from + |piece|)
  {
    MatchConcat(s, piece, pattern, from);
    forall i: nat | from <= i < from + |piece|
      ensures !MatchesAt(s, pattern, i)
    {
      if i + |pattern| <= from + |piece| + |pattern| { MatchInside(s, piece + pattern, from, pattern, i - from); }
      assert !MatchesAt(piece + pattern, pattern, i - from);
    }
    FindFirst(s, pattern, from, from + |piece|);
  }

  /** The converse: what a search skipped, followed by what it found. */
  lemma FoundAtEnd(s: Bytes, pattern: Bytes, from: nat)
    requires pattern != [] && from <= |s| && Find(s, pattern, from).Some?
    ensures var at := Find(s, pattern, from).value;
            && MatchesAt(s, s[from..at], from) && MatchesAt(s, pattern, at)
            && EndsAtFirst(s[from..at], pattern) && FreeOf(s[from..at], pattern)
  {
    var at := Find(s, pattern, from).value;
    var piece := s[from..at];
    FindIsFirst(s, pattern, from);
    MatchConcat(s, piece, pattern, from);
    forall i: nat | i < |piece| ensures !MatchesAt(piece + pattern, pattern, i) {
      if i + |pattern| <= |piece + pattern| { MatchInside(s, piece + pattern, from, pattern, i); }
    }
    forall i: nat ensures !MatchesAt(piece, pattern, i) {
      if i + |pattern| <= |piece| {
        MatchInside(s, piece, from, pattern, i);
      }
    }
  }

  // ---------------------------------------------------------------- one part, read and printed

  lemma ReadPartIsPrinted(body: Bytes, p: Bytes, q: Bytes, headerOk: Bytes -> bool, cursor: nat)
    requires p != [] && q != [] && PartUpTo(body, p, q, headerOk, cursor).Ok?
    ensures var (part, after) := PartUpTo(body, p, q, headerOk, cursor).value;
            && |part.header| <= MAX_PART_HEADERS_BYTES && headerOk(part.header)
            && EndsAtFirst(part.header, p) && FreeOf(part.content, q)
            && InARow(body, part.header, p, part.content, q, cursor)
            && after == cursor + |part.header| + |p| + |part.content| + |q|
  {
    FoundAtEnd(body, p, cursor);
    FoundAtEnd(body, q, Find(body, p, cursor).value + |p|);
  }

  /** The characters of a checked boundary are no carriage return, so only the first byte of a
      delimiter is one, and two delimiters cannot overlap. */
  lemma DelimiterCannotOverlap(content: Bytes, boundary: Bytes)
    requires BoundaryOk(boundary) && FreeOf(content, Delimiter(boundary))
    ensures EndsAtFirst(content, Delimiter(boundary))
  {
    var d := Delimiter(boundary);
    forall i: nat | i < |content| ensures !MatchesAt(content + d, d, i) {
      if MatchesAt(content + d, d, i) { OverlapNeedsCarriageReturn(content, d, i); }
    }
  }

  lemma OverlapNeedsCarriageReturn(content: Bytes, d: Bytes, i: nat)
    requires i < |content| && d != [] && MatchesAt(content + d, d, i)
    ensures MatchesAt(content, d, i) || exists k | 0 < k < |d| :: d[k] == d[0]
  {
    var s := content + d;
    if i + |d| <= |content| {
      forall k | 0 <= k < |d| ensures content[i + k] == d[k] {
        assert s[i + k] == d[k];
      }
    } else {
      var k := |content| - i;
      assert s[i + k] == d[k] && s[|content|] == d[0];
    }
  }

  /** A piece that the pattern ends is found, whole, up to the pattern. */
  lemma PieceIsRead(s: Bytes, piece: Bytes, pattern: Bytes, from: nat)
    requires MatchesAt(s, piece, from) && MatchesAt(s, pattern, from + |piece|) && EndsAtFirst(piece, pattern)
    ensures Find(s, pattern, from) == Some(from + |piece|) && s[from..from + |piece|] == piece
  {
    MatchIsSlice(s, piece, from);
    FindAtEnd(s, piece, pattern, from);
  }

  lemma PrintedPartIsRead(body: Bytes, p: Bytes, q: Bytes, headerOk: Bytes -> bool, cursor: nat, part: Part)
    requires InARow(body, part.header, p, part.content, q, cursor)
    requires |part.header| <= MAX_PART_HEADERS_BYTES && headerOk(part.header)
    requires EndsAtFirst(part.header, p) && EndsAtFirst(part.content, q)
    ensures PartUpTo(body, p, q, headerOk, cursor) == Ok((part, cursor + |part.header| + |p| + |part.content| + |q|))
  {
    var contentStart := cursor + |part.header| + |p|;
    PieceIsRead(body, part.header, p, cursor);
    PieceIsRead(body, part.content, q, contentStart);
  }

  /** A part is read exactly where a well-formed part is printed, whatever follows it. */
  lemma PartIsReadWherePrinted(body: Bytes, boundary: Bytes, cursor: nat, headerOk: Bytes -> bool, part: Part)
    requires BoundaryOk(boundary)
    ensures ReadsPart(body, part, boundary, cursor) && PartOk(part, boundary, headerOk) <==>
            PartFrom(body, boundary, headerOk, cursor) == Ok((part, cursor + PartLength(part, boundary)))
    ensures PartFrom(body, boundary, headerOk, cursor).Ok?
            && PartFrom(body, boundary, headerOk, cursor).value.0 == part ==>
            PartFrom(body, boundary, headerOk, cursor).value.1 == cursor + PartLength(part, boundary)
  {
    if PartFrom(body, boundary, headerOk, cursor).Ok? {
      ReadPartIsPrinted(body, HEADER_END, Delimiter(boundary), headerOk, cursor);
    }
    if ReadsPart(body, part, boundary, cursor) && PartOk(part, boundary, headerOk) {
      DelimiterCannotOverlap(part.content, boundary);
      PrintedPartIsRead(body, HEADER_END, Delimiter(boundary), headerOk, cursor, part);
    }
  }

  // ---------------------------------------------------------------- all parts

  lemma CloseIsPrinted(body: Bytes, after: nat)
    ensures TurnAt(body, after) == Close <==> EndsWith(body, DASHES + [], after) || EndsWith(body, DASHES + CRLF, after)
  {
    EndsWithConcat(body, DASHES, [], after);
    EndsWithConcat(body, DASHES, CRLF, after);
    if after + 2 <= |body| { SuffixIs(body, CRLF, after + 2); }
  }

  lemma SuffixIs(s: Bytes, rest: Bytes, at: nat)
    requires at <= |s|
    ensures s[at..] == rest <==> EndsWith(s, rest, at)
  {
    if EndsWith(s, rest, at) {
      forall k | 0 <= k < |rest| ensures s[at..][k] == rest[k] {
        assert s[at + k] == rest[k];
      }
    } else if s[at..] == rest {
      forall k | 0 <= k < |rest| ensures s[at + k] == rest[k] {
        assert s[at..][k] == rest[k];
      }
      assert false;
    }
  }

  lemma CrlfIsNoDashes(s: Bytes, i: nat)
    requires MatchesAt(s, CRLF, i)
    ensures !MatchesAt(s, DASHES, i)
  {
    assert s[i + 0] == CRLF[0] != DASHES[0];
  }

  lemma AnotherIsPrinted(body: Bytes, after: nat, rest: Bytes)
    ensures TurnAt(body, after) == Another && EndsWith(body, rest, after + 2) <==> EndsWith(body, CRLF + rest, after)
  {
    EndsWithConcat(body, CRLF, rest, after);
    if MatchesAt(body, CRLF, after) { CrlfIsNoDashes(body, after); }
  }

  lemma TailOfOne(parts: seq<Part>, boundary: Bytes, finalCrlf: bool)
    requires |parts| == 1
    ensures PrintTail(parts, boundary, finalCrlf) == DASHES + (if finalCrlf then CRLF else [])
  {
  }

  lemma TailOfMore(parts: seq<Part>, boundary: Bytes, finalCrlf: bool)
    requires |parts| > 1
    ensures PrintTail(parts, boundary, finalCrlf) == CRLF + PrintFrom(parts[1..], boundary, finalCrlf)
  {
  }

  ghost predicate EndsWithPrint(body: Bytes, boundary: Bytes, parts: seq<Part>, cursor: nat) {
    && parts != []
    && (EndsWith(body, PrintFrom(parts, boundary, false), cursor)
        || EndsWith(body, PrintFrom(parts, boundary, true), cursor))
  }

  ghost predicate EndsWithTail(body: Bytes, boundary: Bytes, parts: seq<Part>, after: nat) {
    && parts != []
    && (EndsWith(body, PrintTail(parts, boundary, false), after)
        || EndsWith(body, PrintTail(parts, boundary, true), after))
  }

  lemma FirstPartOfPrint(body: Bytes, boundary: Bytes, parts: seq<Part>, cursor: nat)
    requires parts != []
    ensures EndsWithPrint(body, boundary, parts, cursor) <==>
            ReadsPart(body, parts[0], boundary, cursor) &&
            EndsWithTail(body, boundary, parts, cursor + PartLength(parts[0], boundary))
  {
    PrintReadsPart(body, parts[0], boundary, cursor);
    EndsWithConcat(body, PrintPart(parts[0], boundary), PrintTail(parts, boundary, false), cursor);
    EndsWithConcat(body, PrintPart(parts[0], boundary), PrintTail(parts, boundary, true), cursor);
  }

  lemma TailOfPrint(body: Bytes, boundary: Bytes, parts: seq<Part>, after: nat)
    requires parts != []
    ensures EndsWithTail(body, boundary, parts, after) <==>
            if |parts| == 1 then TurnAt(body, after) == Close
            else TurnAt(body, after) == Another && EndsWithPrint(body, boundary, parts[1..], after + 2)
  {
    if |parts| == 1 {
      TailOfOne(parts, boundary, false);
      TailOfOne(parts, boundary, true);
      CloseIsPrinted(body, after);
    } else {
      TailOfMore(parts, boundary, false);
      TailOfMore(parts, boundary, true);
      AnotherIsPrinted(body, after, PrintFrom(parts[1..], boundary, false));
      AnotherIsPrinted(body, after, PrintFrom(parts[1..], boundary, true));
    }
  }

  /** The body ends with the print of these well-formed parts. */
  ghost predicate Shown(body: Bytes, boundary: Bytes, headerOk: Bytes -> bool, parts: seq<Part>, cursor: nat) {
    PartsOk(parts, boundary, headerOk) && EndsWithPrint(body, boundary, parts, cursor)
  }

  lemma FirstShown(body: Bytes, boundary: Bytes, headerOk: Bytes -> bool, parts: seq<Part>, cursor: nat)
    requires parts != []
    ensures Shown(body, boundary, headerOk, parts, cursor) <==>
            && ReadsPart(body, parts[0], boundary, cursor) && PartOk(parts[0], boundary, headerOk)
            && var after := cursor + PartLength(parts[0], boundary);
               if |parts| == 1 then TurnAt(body, after) == Close
               else TurnAt(body, after) == Another && Shown(body, boundary, headerOk, parts[1..], after + 2)
  {
    FirstPartOfPrint(body, boundary, parts, cursor);
    TailOfPrint(body, boundary, parts, cursor + PartLength(parts[0], boundary));
    FirstAndOthersOk(parts, boundary, headerOk);
  }

  lemma FirstAndOthersOk(parts: seq<Part>, boundary: Bytes, headerOk: Bytes -> bool)
    requires parts != []
    ensures PartsOk(parts, boundary, headerOk) <==>
            PartOk(parts[0], boundary, headerOk) && PartsOk(parts[1..], boundary, headerOk)
  {
    assert parts == [parts[0]] + parts[1..];
  }

  lemma ShownStep(body: Bytes, boundary: Bytes, headerOk: Bytes -> bool, parts: seq<Part>, c: nat)
    requires BoundaryOk(boundary) && c <= |body|
    ensures Shown(body, boundary, headerOk, parts, c) <==>
            && parts != []
            && PartFrom(body, boundary, headerOk, c).Ok? && PartFrom(body, boundary, headerOk, c).value.0 == parts[0]
            && var after := PartFrom(body, boundary, headerOk, c).value.1;
               if |parts| == 1 then TurnAt(body, after) == Close
               else TurnAt(body, after) == Another && Shown(body, boundary, headerOk, parts[1..], after + 2)
  {
    if parts != [] {
      FirstShown(body, boundary, headerOk, parts, c);
      PartIsReadWherePrinted(body, boundary, c, headerOk, parts[0]);
    } else {
      assert !Shown(body, boundary, headerOk, parts, c);
    }
  }

  lemma ShowsInTurn(body: Bytes, boundary: Bytes, headerOk: Bytes -> bool)
    requires BoundaryOk(boundary)
    ensures ShownInTurn(c => PartFrom(body, boundary, headerOk, c), a => TurnAt(body, a), |body|,
                        (parts, c) => Shown(body, boundary, headerOk, parts, c))
  {
    var read := c => PartFrom(body, boundary, headerOk, c);
    var turn := a => TurnAt(body, a);
    var shown := (parts, c) => Shown(body, boundary, headerOk, parts, c);
    forall parts: seq<Part>, c: nat | c <= |body|
      ensures ShownAt(read, turn, shown, parts, c)
    {
      ShownStep(body, boundary, headerOk, parts, c);
    }
  }

  /** Without the character check the result fails: a boundary of CR, LF and two dashes makes a
      delimiter that overlaps itself, and a content free of it is cut short. */
  lemma UncheckedBoundaryCutsContent()
    ensures var boundary, content := [13, 10, 45, 45], [13, 10, 45, 45];
            && !BoundaryOk(boundary)
            && FreeOf(content, Delimiter(boundary))
            && Find(content + Delimiter(boundary), Delimiter(boundary), 0) == Some(0)
  {
    var d := Delimiter([13, 10, 45, 45]);
    assert d == [13, 10, 45, 45, 13, 10, 45, 45];
    assert !BoundaryOk([13, 10, 45, 45]) by { assert [13, 10, 45, 45][0] <= 32; }
    var s: Bytes := [13, 10, 45, 45] + d;
    assert forall k | 0 <= k < |d| :: s[0 + k] == d[k];
    assert MatchesAt(s, d, 0);
  }

  // ---------------------------------------------------------------- the main result

  ghost predicate IsPrinted(body: Bytes, boundary: Bytes, headerOk: Bytes -> bool, parts: seq<Part>) {
    && 1 <= |parts| <= 4
    && PartsOk(parts, boundary, headerOk)
    && (body == Print(parts, boundary, false) || body == Print(parts, boundary, true))
  }

  lemma PrintLayout(body: Bytes, boundary: Bytes, parts: seq<Part>, finalCrlf: bool)
    requires parts != []
    ensures body == Print(parts, boundary, finalCrlf) <==>
            MatchesAt(body, Opening(boundary), 0) &&
            EndsWith(body, PrintFrom(parts, boundary, finalCrlf), |Opening(boundary)|)
  {
    EndsWithConcat(body, Opening(boundary), PrintFrom(parts, boundary, finalCrlf), 0);
    SuffixIs(body, Opening(boundary) + PrintFrom(parts, boundary, finalCrlf), 0);
    assert body[0..] == body;
  }

  /** For a checked boundary, a body is accepted with certain parts exactly when it is the print of
      one to four well-formed parts, and then those are the parts. */
  lemma AcceptsExactlyThePrints(body: Bytes, boundary: Bytes, headerOk: Bytes -> bool, parts: seq<Part>)
    requires BoundaryOk(boundary)
    ensures Parse(body, boundary, headerOk) == Ok(parts) <==> IsPrinted(body, boundary, headerOk, parts)
  {
    var start := |Opening(boundary)|;
    if parts != [] {
      PrintLayout(body, boundary, parts, false);
      PrintLayout(body, boundary, parts, true);
    }
    if MatchesAt(body, Opening(boundary), 0) {
      ShowsInTurn(body, boundary, headerOk);
      ReadsWhatIsShown(c => PartFrom(body, boundary, headerOk, c), a => TurnAt(body, a), |body|,
                       (parts, c) => Shown(body, boundary, headerOk, parts, c), parts, start);
    }
  }

  // ---------------------------------------------------------------- one image and its fields

  /** The field names the reader knows; `Other` is any other name. */
  datatype Name = File | Version | AltEn | AltDe | Other(text: string)

  /** Content types, folded to lower case. */
  datatype ContentType = Jpeg | Png | Webp | OtherType(text: string)

  const FIELDS: set<Name> := {Version, AltEn, AltDe}
  const IMAGE_TYPES: set<ContentType> := {Jpeg, Png, Webp}

  /** What the header parser says of a header block. */
  datatype Disposition = Disposition(single: bool, formData: bool, name: Option<Name>, filename: Option<string>,
                                     contentType: ContentType)

  datatype Upload = Upload(fileName: string, contentType: ContentType, content: Bytes, fields: map<Name, string>)

  /** The two library calls the reader leans on: the header parser and the UTF-8 decoder. */
  datatype Library = Library(headers: Bytes -> Disposition, utf8: Bytes -> Option<string>)

  /** What one part contributes: the image, or one text field. */
  datatype Item =
    | Image(fileName: string, contentType: ContentType, content: Bytes)
    | Text(name: Name, text: string)

  function NameOf(item: Item): Name {
    if item.Image? then File else item.name
  }

  /** The checks on a part by itself. */
  function ItemOf(part: Part, lib: Library): Option<Item> {
    var h := lib.headers(part.header);
    if !h.single || !h.formData || h.name.None? then None
    else if h.name.value == File then
      if h.filename.None? || h.filename.value == [] then None
      else if h.contentType !in IMAGE_TYPES then None
      else if !(1 <= |part.content| <= MAX_IMAGE_BYTES) then None
      else Some(Image(h.filename.value, h.contentType, part.content))
    else if h.name.value !in FIELDS || h.filename.Some? then None
    else if |part.content| > MAX_TEXT_FIELD_BYTES then None
    else
      var text := lib.utf8(part.content);
      if text.None? then None else Some(Text(h.name.value, text.value))
  }

  predicate AllUsable(parts: seq<Part>, lib: Library) {
    forall k | 0 <= k < |parts| :: ItemOf(parts[k], lib).Some?
  }

  function ItemsOf(parts: seq<Part>, lib: Library): seq<Item>
    requires AllUsable(parts, lib)
  {
    seq(|parts|, k requires 0 <= k < |parts| => ItemOf(parts[k], lib).value)
  }

  predicate Holds(upload: Upload, item: Item) {
    match item
    case Image(fileName, contentType, content) =>
      upload.fileName == fileName && upload.contentType == contentType && upload.content == content
    case Text(name, text) => name in upload.fields && upload.fields[name] == text
  }

  ghost predicate Distinct(items: seq<Item>) {
    forall j, k | 0 <= j < k < |items| :: NameOf(items[j]) != NameOf(items[k])
  }

  /** No name occurs twice, all three fields are there, and the upload holds exactly the items: so
      one of them is the image. */
  ghost predicate IsUpload(items: seq<Item>, upload: Upload) {
    && Distinct(items)
    && upload.fields.Keys == FIELDS
    && forall item :: Holds(upload, item) <==> item in items
  }

  /** The loop variables hold exactly the items read so far. */
  ghost predicate Collected(items: seq<Item>, file: Option<Item>, fields: map<Name, string>) {
    && Distinct(items) && File !in fields
    && (file.Some? ==> file.value.Image? && file.value in items)
    && (forall name | name in fields :: Text(name, fields[name]) in items)
    && (forall item | item in items ::
          if item.Image? then file == Some(item) else item.name in fields && fields[item.name] == item.text)
  }

  lemma Collect(items: seq<Item>, file: Option<Item>, fields: map<Name, string>, item: Item)
    requires Collected(items, file, fields)
    requires if item.Image? then file.None? else item.name !in fields && item.name != File
    ensures if item.Image? then Collected(items + [item], Some(item), fields)
            else Collected(items + [item], file, fields[item.name := item.text])
  {
    forall j | 0 <= j < |items| ensures NameOf(items[j]) != NameOf(item) {
      assert items[j] in items;
    }
  }

  lemma Repeated(items: seq<Item>, file: Option<Item>, fields: map<Name, string>, item: Item)
    requires Collected(items, file, fields)
    requires if item.Image? then file.Some? else item.name in fields
    ensures exists other :: other in items && NameOf(other) == NameOf(item)
  {
    var other := if item.Image? then file.value else Text(item.name, fields[item.name]);
    assert other in items && NameOf(other) == NameOf(item);
  }

  /** The upload read from the parts, or nothing where the reader raises. */
  method ReadUpload(parts: seq<Part>, lib: Library) returns (r: Option<Upload>)
    ensures r.Some? ==> AllUsable(parts, lib) && IsUpload(ItemsOf(parts, lib), r.value)
    ensures r.None? && AllUsable(parts, lib) ==> forall upload :: !IsUpload(ItemsOf(parts, lib), upload)
  {
    var fields: map<Name, string> := map[];
    var file: Option<Item> := None;
    ghost var items: seq<Item> := [];
    for i := 0 to |parts|
      invariant |items| == i && forall k | 0 <= k < i :: ItemOf(parts[k], lib) == Some(items[k])
      invariant Collected(items, file, fields) && fields.Keys <= FIELDS
    {
      var read := ItemOf(parts[i], lib);
      if read.None? { return None; }
      var item := read.value;
      if (if item.Image? then file.Some? else item.name in fields) {
        Repeated(items, file, fields, item);
        RepeatedIsRefused(parts, lib, items, item);
        return None;
      }
      Collect(items, file, fields, item);
      if item.Image? {
        file := Some(item);
      } else {
        fields := fields[item.name := item.text];
      }
      items := items + [item];
    }
    assert AllUsable(parts, lib) && ItemsOf(parts, lib) == items;
    if file.None? || fields.Keys != FIELDS {
      Incomplete(items, file, fields);
      return None;
    }
    var upload := Upload(file.value.fileName, file.value.contentType, file.value.content, fields);
    Complete(items, file, fields);
    return Some(upload);
  }

  lemma RepeatedIsRefused(parts: seq<Part>, lib: Library, items: seq<Item>, item: Item)
    requires |items| < |parts| && ItemOf(parts[|items|], lib) == Some(item)
    requires forall k | 0 <= k < |items| :: ItemOf(parts[k], lib) == Some(items[k])
    requires exists other :: other in items && NameOf(other) == NameOf(item)
    ensures AllUsable(parts, lib) ==> !Distinct(ItemsOf(parts, lib))
  {
    if AllUsable(parts, lib) {
      var all := ItemsOf(parts, lib);
      var k :| 0 <= k < |items| && NameOf(items[k]) == NameOf(item);
      assert NameOf(all[k]) == NameOf(all[|items|]);
    }
  }

  lemma Incomplete(items: seq<Item>, file: Option<Item>, fields: map<Name, string>)
    requires Collected(items, file, fields)
    requires file.None? || fields.Keys != FIELDS
    ensures forall upload :: !IsUpload(items, upload)
  {
    forall upload | IsUpload(items, upload) ensures false {
      assert Holds(upload, Image(upload.fileName, upload.contentType, upload.content));
      forall name | name in FIELDS ensures name in fields {
        assert Holds(upload, Text(name, upload.fields[name]));
      }
      forall name | name in fields ensures name in FIELDS {
        assert Holds(upload, Text(name, fields[name]));
      }
    }
  }

  lemma Complete(items: seq<Item>, file: Option<Item>, fields: map<Name, string>)
    requires Collected(items, file, fields) && file.Some? && fields.Keys == FIELDS
    ensures IsUpload(items, Upload(file.value.fileName, file.value.contentType, file.value.content, fields))
  {
  }

  /** The items leave nothing of an upload open. */
  lemma UploadIsDetermined(items: seq<Item>, one: Upload, other: Upload)
    requires IsUpload(items, one) && IsUpload(items, other)
    ensures one == other
  {
    assert Holds(one, Image(one.fileName, one.contentType, one.content));
    assert Holds(other, Image(one.fileName, one.contentType, one.content));
    forall name | name in FIELDS ensures one.fields[name] == other.fields[name] {
      assert Holds(one, Text(name, one.fields[name]));
      assert Holds(other, Text(name, one.fields[name]));
    }
    assert one.fields == other.fields;
  }
}
