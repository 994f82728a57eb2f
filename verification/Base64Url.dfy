/** Canonical base64url (sections 4, 5 and 3.5 of RFC 4648) over `btoa` and `atob`, which follow the
    "Forgiving base64" section of the WHATWG Infra standard. */
module Base64Url {
  import opened Text
  import opened Wrappers

  type Byte = x: int | 0 <= x < 256
  type Sextet = x: int | 0 <= x < 64

  // ---------------------------------------------------------------- the alphabet

  function Digit(v: Sextet): char {
    if v < 26 then ('A' as int + v) as char
    else if v < 52 then ('a' as int + v - 26) as char
    else if v < 62 then ('0' as int + v - 52) as char
    else if v == 62 then '+' else '/'
  }

  predicate IsDigit(c: char) {
    'A' <= c <= 'Z' || 'a' <= c <= 'z' || '0' <= c <= '9' || c == '+' || c == '/'
  }

  function Value(c: char): Sextet {
    if 'A' <= c <= 'Z' then c as int - 'A' as int
    else if 'a' <= c <= 'z' then c as int - 'a' as int + 26
    else if '0' <= c <= '9' then c as int - '0' as int + 52
    else if c == '+' then 62 else 63
  }

  lemma DigitHasItsValue(v: Sextet)
    ensures IsDigit(Digit(v)) && Value(Digit(v)) == v
  {
  }

  predicate AllDigits(s: string) {
    forall c | c in s :: IsDigit(c)
  }

  // ---------------------------------------------------------------- btoa and atob

  /** Three bytes are four sextets; one or two that are left over are filled up with zero bits. */
  function Sextets(b: seq<Byte>): seq<Sextet> {
    if |b| == 0 then []
    else if |b| == 1 then [b[0] / 4, b[0] % 4 * 16]
    else if |b| == 2 then [b[0] / 4, b[0] % 4 * 16 + b[1] / 16, b[1] % 16 * 4]
    else [b[0] / 4, b[0] % 4 * 16 + b[1] / 16, b[1] % 16 * 4 + b[2] / 64, b[2] % 64] + Sextets(b[3..])
  }

  function First(v: int, w: int): int { v * 4 + w / 16 }

  function Second(v: int, w: int): int { v % 16 * 16 + w / 4 }

  function Third(v: int, w: int): int { v % 4 * 64 + w }

  /** Whole groups of four sextets give three bytes; of what is left over, the spare bits are dropped. */
  function Bytes(v: seq<Sextet>): seq<Byte> {
    if |v| < 2 then []
    else if |v| == 2 then [First(v[0], v[1])]
    else if |v| == 3 then [First(v[0], v[1]), Second(v[1], v[2])]
    else [First(v[0], v[1]), Second(v[1], v[2]), Third(v[2], v[3])] + Bytes(v[4..])
  }

  function Digits(b: seq<Byte>): string {
    var v := Sextets(b);
    seq(|v|, i requires 0 <= i < |v| => Digit(v[i]))
  }

  function Values(s: string): seq<Sextet> {
    seq(|s|, i requires 0 <= i < |s| => Value(s[i]))
  }

  function Repeat(c: char, n: nat): string {
    seq(n, _ => c)
  }

  function Padding(n: nat): nat {
    (4 - n % 4) % 4
  }

  /** `btoa` of the bytes of a binary string. */
  function Btoa(b: seq<Byte>): string {
    Digits(b) + Repeat('=', Padding(|Digits(b)|))
  }

  function Gathered(s: string): seq<Byte> {
    Bytes(Values(s))
  }

  /** In a string of whole groups, one or two closing equals signs are dropped. */
  function WithoutPadding(s: string): string {
    if |s| > 0 && |s| % 4 == 0 && s[|s| - 1] == '=' then
      if s[|s| - 2] == '=' then s[..|s| - 2] else s[..|s| - 1]
    else s
  }

  function Atob(s: string): Option<seq<Byte>> {
    var t := WithoutPadding(s);
    if |t| % 4 == 1 || !AllDigits(t) then None else Some(Gathered(t))
  }

  // ---------------------------------------------------------------- encoding

  /** `replace(/=+$/, "")`. */
  function StripPad(s: string): string {
    if s != [] && s[|s| - 1] == '=' then StripPad(s[..|s| - 1]) else s
  }

  function ToUrl(s: string): string {
    ReplaceAll(ReplaceAll(s, '+', "-"), '/', "_")
  }

  function FromUrl(s: string): string {
    ReplaceAll(ReplaceAll(s, '-', "+"), '_', "/")
  }

  function BinaryOf(value: seq<Byte>): string {
    seq(|value|, i requires 0 <= i < |value| => value[i] as char)
  }

  /** The bytes that `btoa` reads and `charCodeAt` returns. */
  function CodesOf(binary: string): seq<Byte>
    requires forall i | 0 <= i < |binary| :: binary[i] as int < 256
  {
    seq(|binary|, i requires 0 <= i < |binary| => var code: Byte := binary[i] as int; code)
  }

  function Encode(value: seq<Byte>): string {
    StripPad(ToUrl(Btoa(value)))
  }

  method EncodeBase64Url(value: seq<Byte>) returns (r: string)
    ensures r == Encode(value)
  {
    var binary := "";
    for i := 0 to |value|
      invariant binary == BinaryOf(value[..i])
    {
      binary := binary + [value[i] as char];
    }
    assert value[..|value|] == value;
    assert CodesOf(binary) == value;
    r := StripPad(ToUrl(Btoa(CodesOf(binary))));
  }

  // ---------------------------------------------------------------- decoding

  predicate IsUrlChar(c: char) {
    'A' <= c <= 'Z' || 'a' <= c <= 'z' || '0' <= c <= '9' || c == '_' || c == '-'
  }

  predicate AllUrlChars(s: string) {
    forall c | c in s :: IsUrlChar(c)
  }

  /** `decodeBase64Url`; nothing where it throws. */
  function Decode(value: string): Option<seq<Byte>> {
    if value == [] || !AllUrlChars(value) then None
    else
      var decoded := Atob(FromUrl(value) + Repeat('=', Padding(|value|)));
      if decoded.None? then None
      else if Encode(decoded.value) != value then None
      else decoded
  }

  /** `decodeSealingKey`; nothing where it throws. */
  function DecodeSealingKey(value: string): Option<seq<Byte>> {
    SealingKeyBy(Decode, value)
  }

  function SealingKeyBy(decode: string -> Option<seq<Byte>>, value: string): Option<seq<Byte>> {
    if !LooksLikeKey(value) then None
    else
      var unpadded := StripPad(value);
      if value != unpadded && value != unpadded + Repeat('=', Padding(|unpadded|)) then None
      else
        var decoded := decode(unpadded);
        if decoded.None? || |decoded.value| != 32 then None else decoded
  }

  /** The pattern of a sealing key: url characters and up to two equals signs. */
  predicate LooksLikeKey(value: string) {
    PaddedBy(value, 0) || PaddedBy(value, 1) || PaddedBy(value, 2)
  }

  predicate PaddedBy(value: string, n: nat) {
    n < |value| && AllUrlChars(value[..|value| - n]) && value[|value| - n..] == Repeat('=', n)
  }

  // ---------------------------------------------------------------- characters

  function UrlOf(c: char): char {
    if c == '+' then '-' else if c == '/' then '_' else c
  }

  function OfUrl(c: char): char {
    if c == '-' then '+' else if c == '_' then '/' else c
  }

  function Map(s: string, f: char -> char): string {
    seq(|s|, i requires 0 <= i < |s| => f(s[i]))
  }

  lemma {:induction false} ReplaceIsMap(s: string, c: char, d: char)
    ensures ReplaceAll(s, c, [d]) == Map(s, x => if x == c then d else x)
  {
    if s != [] { ReplaceIsMap(s[1..], c, d); }
  }

  lemma TwoReplacesAreMap(s: string, c: char, d: char, e: char, g: char, f: char -> char)
    requires forall x :: f(x) == if (if x == c then d else x) == e then g else if x == c then d else x
    ensures ReplaceAll(ReplaceAll(s, c, [d]), e, [g]) == Map(s, f)
  {
    ReplaceIsMap(s, c, d);
    ReplaceIsMap(ReplaceAll(s, c, [d]), e, g);
    var one := Map(s, x => if x == c then d else x);
    var two := Map(one, x => if x == e then g else x);
    forall i | 0 <= i < |s| ensures two[i] == Map(s, f)[i] {
      assert one[i] == if s[i] == c then d else s[i];
    }
    assert two == Map(s, f);
  }

  lemma ToUrlIsMap(s: string)
    ensures ToUrl(s) == Map(s, UrlOf)
  {
    TwoReplacesAreMap(s, '+', '-', '/', '_', UrlOf);
  }

  lemma FromUrlIsMap(s: string)
    ensures FromUrl(s) == Map(s, OfUrl)
  {
    TwoReplacesAreMap(s, '-', '+', '_', '/', OfUrl);
  }

  // ---------------------------------------------------------------- bytes and sextets

  lemma {:induction false} SextetCount(b: seq<Byte>)
    ensures |Sextets(b)| == |b| / 3 * 4 + (if |b| % 3 == 0 then 0 else |b| % 3 + 1)
  {
    if |b| >= 3 { SextetCount(b[3..]); }
  }

  lemma HighAndLow(x: nat, y: nat, n: nat)
    requires y < n && (n == 4 || n == 16 || n == 64)
    ensures (x * n + y) / n == x && (x * n + y) % n == y
  {
  }

  lemma ThreeBytes(a: Byte, b: Byte, c: Byte)
    ensures var (v0, v1, v2, v3) := (a / 4, a % 4 * 16 + b / 16, b % 16 * 4 + c / 64, c % 64);
            First(v0, v1) == a && Second(v1, v2) == b && Third(v2, v3) == c
  {
    HighAndLow(a % 4, b / 16, 16);
    HighAndLow(b % 16, c / 64, 4);
  }

  lemma {:induction false} BytesAgain(b: seq<Byte>)
    ensures Bytes(Sextets(b)) == b
  {
    if |b| == 1 {
      ThreeBytes(b[0], 0, 0);
    } else if |b| == 2 {
      ThreeBytes(b[0], b[1], 0);
    } else if |b| >= 3 {
      ThreeBytes(b[0], b[1], b[2]);
      BytesAgain(b[3..]);
      assert Sextets(b)[4..] == Sextets(b[3..]);
    }
  }

  lemma DigitsAreDigits(b: seq<Byte>)
    ensures AllDigits(Digits(b)) && Values(Digits(b)) == Sextets(b)
    ensures |Digits(b)| == |b| / 3 * 4 + (if |b| % 3 == 0 then 0 else |b| % 3 + 1)
  {
    var v := Sextets(b);
    forall i | 0 <= i < |v| ensures IsDigit(Digits(b)[i]) && Value(Digits(b)[i]) == v[i] {
      DigitHasItsValue(v[i]);
    }
    SextetCount(b);
  }

  lemma GatheredAgain(b: seq<Byte>)
    ensures Gathered(Digits(b)) == b
  {
    DigitsAreDigits(b);
    BytesAgain(b);
  }

  // ---------------------------------------------------------------- what encode and decode come to

  lemma {:induction false} StripPadStrips(s: string, n: nat)
    requires s == [] || s[|s| - 1] != '='
    ensures StripPad(s + Repeat('=', n)) == s
    decreases n
  {
    if n == 0 {
      assert s + Repeat('=', 0) == s;
    } else {
      assert (s + Repeat('=', n))[..|s| + n - 1] == s + Repeat('=', n - 1);
      StripPadStrips(s, n - 1);
    }
  }

  lemma DigitsToUrl(s: string)
    requires AllDigits(s)
    ensures AllUrlChars(Map(s, UrlOf)) && Map(Map(s, UrlOf), OfUrl) == s
  {
    forall i | 0 <= i < |s| ensures IsUrlChar(Map(s, UrlOf)[i]) && Map(Map(s, UrlOf), OfUrl)[i] == s[i] {
      assert s[i] in s;
      assert Map(s, UrlOf)[i] == UrlOf(s[i]) && Map(Map(s, UrlOf), OfUrl)[i] == OfUrl(UrlOf(s[i]));
    }
    assert Map(Map(s, UrlOf), OfUrl) == s;
  }

  lemma UrlToDigits(s: string)
    requires AllUrlChars(s)
    ensures AllDigits(Map(s, OfUrl))
  {
    forall i | 0 <= i < |s| ensures IsDigit(Map(s, OfUrl)[i]) {
      assert s[i] in s;
      assert Map(s, OfUrl)[i] == OfUrl(s[i]);
    }
  }

  lemma UrlEndsWithoutPad(s: string)
    requires AllUrlChars(s) && s != []
    ensures s[|s| - 1] != '='
  {
    assert s[|s| - 1] in s;
  }

  lemma EncodeIs(b: seq<Byte>)
    ensures Encode(b) == Map(Digits(b), UrlOf) && AllUrlChars(Encode(b))
    ensures |Encode(b)| == |b| / 3 * 4 + (if |b| % 3 == 0 then 0 else |b| % 3 + 1)
  {
    DigitsAreDigits(b);
    StrippedUrl(Digits(b), Padding(|Digits(b)|));
    DigitsToUrl(Digits(b));
  }

  lemma MapOfPadded(digits: string, n: nat)
    ensures Map(digits + Repeat('=', n), UrlOf) == Map(digits, UrlOf) + Repeat('=', n)
  {
    var (a, b) := (Map(digits + Repeat('=', n), UrlOf), Map(digits, UrlOf) + Repeat('=', n));
    assert UrlOf('=') == '=';
    forall i | 0 <= i < |a| ensures a[i] == b[i] {
      assert a[i] == UrlOf((digits + Repeat('=', n))[i]);
    }
  }

  lemma StrippedUrl(digits: string, n: nat)
    requires AllDigits(digits)
    ensures StripPad(ToUrl(digits + Repeat('=', n))) == Map(digits, UrlOf)
  {
    ToUrlIsMap(digits + Repeat('=', n));
    MapOfPadded(digits, n);
    DigitsToUrl(digits);
    if digits != [] { UrlEndsWithoutPad(Map(digits, UrlOf)); }
    StripPadStrips(Map(digits, UrlOf), n);
  }

  lemma LastOfPadded(t: string, n: nat)
    requires n > 0
    ensures var s := t + Repeat('=', n);
            && s[|s| - 1] == '='
            && (n == 1 && t != [] ==> s[|s| - 2] == t[|t| - 1])
            && (n >= 2 ==> s[|s| - 2] == '=' && s[..|s| - 2] == t + Repeat('=', n - 2))
            && (n == 1 ==> s[..|s| - 1] == t)
  {
  }

  lemma PaddingFillsUp(n: nat)
    ensures (n + Padding(n)) % 4 == 0 && Padding(n) < 4
    ensures Padding(n) == 3 <==> n % 4 == 1
  {
  }

  lemma PaddingIsDropped(t: string)
    requires t != [] && t[|t| - 1] != '='
    ensures WithoutPadding(t + Repeat('=', Padding(|t|))) == if |t| % 4 == 1 then t + Repeat('=', 1) else t
  {
    var n := Padding(|t|);
    PaddingFillsUp(|t|);
    DroppedFromGroups(t, n);
  }

  lemma DroppedFromGroups(t: string, n: nat)
    requires t != [] && t[|t| - 1] != '=' && n < 4 && (|t| + n) % 4 == 0
    ensures WithoutPadding(t + Repeat('=', n)) == if n == 3 then t + Repeat('=', 1) else t
  {
    if n == 0 {
      assert t + Repeat('=', 0) == t;
    } else {
      LastOfPadded(t, n);
      if n == 2 { assert t + Repeat('=', 0) == t; }
    }
  }

  lemma AtobOfPadded(t: string)
    requires AllDigits(t) && t != []
    ensures Atob(t + Repeat('=', Padding(|t|))) == if |t| % 4 == 1 then None else Some(Gathered(t))
  {
    assert t[|t| - 1] in t;
    PaddingIsDropped(t);
    if |t| % 4 == 1 {
      var s := t + Repeat('=', 1);
      assert s[|t|] == '=' && s[|t|] in s;
    }
  }

  lemma DecodeIs(s: string)
    ensures Decode(s) ==
            if s == [] || !AllUrlChars(s) || |s| % 4 == 1 then None
            else if Encode(Gathered(Map(s, OfUrl))) != s then None
            else Some(Gathered(Map(s, OfUrl)))
  {
    if s != [] && AllUrlChars(s) {
      FromUrlIsMap(s);
      UrlToDigits(s);
      AtobOfPadded(Map(s, OfUrl));
    }
  }

  // ---------------------------------------------------------------- results

  /** A string decodes to some bytes exactly when it is what they encode to, and they are not empty. */
  lemma DecodesExactlyTheEncodings(s: string, b: seq<Byte>)
    ensures Decode(s) == Some(b) <==> b != [] && s == Encode(b)
  {
    DecodeIs(s);
    EncodeIs(b);
    NothingEncodesToNothing();
    if b != [] && s == Encode(b) {
      EncodingIsCanonical(b);
    }
  }

  lemma NothingEncodesToNothing()
    ensures Encode([]) == []
  {
    EncodeIs([]);
  }

  lemma EncodingIsCanonical(b: seq<Byte>)
    ensures Gathered(Map(Encode(b), OfUrl)) == b
    ensures |Encode(b)| % 4 != 1 && (b != [] ==> Encode(b) != [])
  {
    EncodeIs(b);
    DigitsAreDigits(b);
    DigitsToUrl(Digits(b));
    GatheredAgain(b);
    NotOneOver(|b|);
  }

  lemma NotOneOver(n: nat)
    ensures var m := n / 3 * 4 + (if n % 3 == 0 then 0 else n % 3 + 1);
            m % 4 != 1 && (n > 0 ==> m > 0)
  {
  }

  lemma DecodeAfterEncode(b: seq<Byte>)
    requires b != []
    ensures Decode(Encode(b)) == Some(b)
  {
    DecodesExactlyTheEncodings(Encode(b), b);
  }

  lemma EncodeAfterDecode(s: string)
    ensures Decode(s).Some? ==> Encode(Decode(s).value) == s
  {
    if Decode(s).Some? { DecodesExactlyTheEncodings(s, Decode(s).value); }
  }

  /** 43 characters are exactly 32 bytes. */
  lemma KeyLength(s: string)
    ensures Decode(s).Some? ==> (|s| == 43 <==> |Decode(s).value| == 32)
  {
    if Decode(s).Some? {
      EncodeAfterDecode(s);
      EncodeIs(Decode(s).value);
      LengthsAgree(|Decode(s).value|);
    }
  }

  lemma LengthsAgree(n: nat)
    ensures n / 3 * 4 + (if n % 3 == 0 then 0 else n % 3 + 1) == 43 <==> n == 32
  {
  }

  /** What the two spellings need of a decoder: it inverts an encoder with url characters. */
  ghost predicate Inverts(decode: string -> Option<seq<Byte>>, encode: seq<Byte> -> string) {
    && (forall s, b :: decode(s) == Some(b) <==> b != [] && s == encode(b))
    && (forall b :: AllUrlChars(encode(b)))
    && (forall b | |b| == 32 :: |encode(b)| == 43)
  }

  lemma DecodeInvertsEncode()
    ensures Inverts(Decode, Encode)
  {
    forall s, b ensures Decode(s) == Some(b) <==> b != [] && s == Encode(b) {
      DecodesExactlyTheEncodings(s, b);
    }
    forall b ensures AllUrlChars(Encode(b)) && (|b| == 32 ==> |Encode(b)| == 43) {
      EncodeIs(b);
    }
  }

  /** A key of 32 bytes is accepted in exactly two spellings, without padding and with the one equals
      sign that its length asks for, and both give the same key. */
  lemma SealingKeyHasTwoSpellings(value: string, key: seq<Byte>)
    ensures DecodeSealingKey(value) == Some(key) <==>
            |key| == 32 && (value == Encode(key) || value == Encode(key) + "=")
  {
    DecodeInvertsEncode();
    TwoSpellings(Decode, Encode, value, key);
  }

  lemma TwoSpellings(decode: string -> Option<seq<Byte>>, encode: seq<Byte> -> string, value: string, key: seq<Byte>)
    requires Inverts(decode, encode)
    ensures SealingKeyBy(decode, value) == Some(key) <==>
            |key| == 32 && (value == encode(key) || value == encode(key) + "=")
  {
    assert Repeat('=', 1) == "=" && Repeat('=', 0) == "";
    if |key| == 32 {
      var unpadded := encode(key);
      UrlEndsWithoutPad(unpadded);
      StripPadStrips(unpadded, 0);
      StripPadStrips(unpadded, 1);
      assert unpadded + "" == unpadded;
      if value == unpadded {
        assert value[..|value| - 0] == value && value[|value| - 0..] == "";
        assert PaddedBy(value, 0);
      } else if value == unpadded + "=" {
        assert value[..|value| - 1] == unpadded && value[|value| - 1..] == "=";
        assert PaddedBy(value, 1);
      }
    }
  }
}
