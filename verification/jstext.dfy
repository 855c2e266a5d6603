/** The JavaScript string primitives the library's scraping code relies on:
    `trim`, `\s` removal, ASCII case mapping, `indexOf`, `replace` with a
    string pattern, `split`, `Array.prototype.join`, number-to-string
    conversion, `encodeURIComponent`, and the `<` ordering of strings.
    Strings are sequences of Unicode scalar values. */
module JsText {
  import opened Results

  // ---------------------------------------------------------------------
  // Character classes

  /** The characters matched by `\s` in a JavaScript regular expression and
      removed by `String.prototype.trim`: ECMAScript WhiteSpace (including
      every Unicode space separator) and LineTerminator. */
  predicate IsSpace(c: char) {
    var n := c as int;
    || (9 <= n <= 13) || n == 32 || n == 0xA0 || n == 0x1680
    || (0x2000 <= n <= 0x200A) || n == 0x2028 || n == 0x2029 || n == 0x202F
    || n == 0x205F || n == 0x3000 || n == 0xFEFF
  }

  /** The characters `.` refuses to match in a JavaScript regular expression. */
  predicate IsLineTerminator(c: char) {
    c == '\n' || c == '\r' || c == '\U{2028}' || c == '\U{2029}'
  }

  /** `[a-zA-Z]` */
  predicate IsAsciiLetter(c: char) {
    ('a' <= c <= 'z') || ('A' <= c <= 'Z')
  }

  /** `\d` */
  predicate IsDigit(c: char) {
    '0' <= c <= '9'
  }

  predicate AllDigits(s: string) {
    forall i :: 0 <= i < |s| ==> IsDigit(s[i])
  }

  predicate AllSpace(s: string) {
    forall i :: 0 <= i < |s| ==> IsSpace(s[i])
  }

  // ---------------------------------------------------------------------
  // trim and whitespace removal

  /** Drops leading `\s` characters. */
  function TrimStart(s: string): (r: string)
    ensures |r| <= |s|
  {
    if |s| > 0 && IsSpace(s[0]) then TrimStart(s[1..]) else s
  }

  /** What `TrimStart` drops is white space and what it keeps is a suffix
      that does not start with white space. */
  lemma {:induction false} TrimStartSpec(s: string)
    ensures var r := TrimStart(s);
            r == s[|s| - |r|..] && AllSpace(s[..|s| - |r|]) && (r == [] || !IsSpace(r[0]))
  {
    if |s| > 0 && IsSpace(s[0]) {
      TrimStartSpec(s[1..]);
      var r := TrimStart(s);
      assert s[..|s| - |r|] == [s[0]] + s[1..][..|s| - 1 - |r|];
    }
  }

  /** Drops trailing `\s` characters. */
  function TrimEnd(s: string): (r: string)
    ensures |r| <= |s|
  {
    if |s| > 0 && IsSpace(s[|s| - 1]) then TrimEnd(s[..|s| - 1]) else s
  }

  /** What `TrimEnd` drops is white space and what it keeps is a prefix
      that does not end with white space. */
  lemma {:induction false} TrimEndSpec(s: string)
    ensures var r := TrimEnd(s);
            r == s[..|r|] && AllSpace(s[|r|..]) && (r == [] || !IsSpace(r[|r| - 1]))
  {
    if |s| > 0 && IsSpace(s[|s| - 1]) {
      TrimEndSpec(s[..|s| - 1]);
      var r := TrimEnd(s);
      assert s[|r|..] == s[..|s| - 1][|r|..] + [s[|s| - 1]];
    }
  }

  /** The number of white-space characters `s` starts with. */
  function LeadingSpace(s: string): (n: nat)
    ensures n <= |s|
  {
    |s| - |TrimStart(s)|
  }

  /** `String.prototype.trim`: leading and trailing white space removed. */
  function Trim(s: string): (r: string)
    ensures |r| <= |s|
  {
    TrimEnd(TrimStart(s))
  }

  /** The trimmed text is the slice of `s` between its leading and its
      trailing white space, and starts and ends with something else. */
  lemma TrimSpec(s: string)
    ensures var r := Trim(s);
            (r == [] || (!IsSpace(r[0]) && !IsSpace(r[|r| - 1])))
            && LeadingSpace(s) + |r| <= |s| && r == s[LeadingSpace(s)..LeadingSpace(s) + |r|]
            && AllSpace(s[..LeadingSpace(s)]) && AllSpace(s[LeadingSpace(s) + |r|..])
  {
    var a := TrimStart(s);
    var r := TrimEnd(a);
    TrimStartSpec(s);
    TrimEndSpec(a);
    assert LeadingSpace(s) == |s| - |a|;
    assert s[LeadingSpace(s)..LeadingSpace(s) + |r|] == a[..|r|];
    assert s[LeadingSpace(s) + |r|..] == a[|r|..];
    if r != [] && a != [] {
      assert r[0] == a[0];
    }
  }

  /** Trimming a trimmed string changes nothing. */
  lemma TrimIdempotent(s: string)
    ensures Trim(Trim(s)) == Trim(s)
  {
    var t := Trim(s);
    TrimSpec(s);
    if |t| > 0 {
      assert TrimStart(t) == t;
      assert TrimEnd(t) == t;
    }
  }

  /** `s.replace(/\s/g, '')`: every white-space character removed. */
  function RemoveSpace(s: string): (r: string)
    ensures |r| <= |s|
    ensures forall i :: 0 <= i < |r| ==> !IsSpace(r[i])
  {
    if |s| == 0 then ""
    else if IsSpace(s[0]) then RemoveSpace(s[1..]) else [s[0]] + RemoveSpace(s[1..])
  }

  /** Removing white space keeps every other character, as often as it
      occurs. */
  lemma {:induction false} RemoveSpaceKeepsOthers(s: string, c: char)
    requires !IsSpace(c)
    ensures multiset(RemoveSpace(s))[c] == multiset(s)[c]
  {
    if |s| > 0 {
      RemoveSpaceKeepsOthers(s[1..], c);
      assert s == [s[0]] + s[1..];
    }
  }

  /** A string is empty once its white space is removed exactly when it
      consists of white space only. */
  lemma {:induction false} RemoveSpaceEmptyIff(s: string)
    ensures RemoveSpace(s) == "" <==> AllSpace(s)
  {
    if |s| > 0 {
      RemoveSpaceEmptyIff(s[1..]);
      assert AllSpace(s) <==> IsSpace(s[0]) && AllSpace(s[1..]);
    }
  }

  // ---------------------------------------------------------------------
  // ASCII case mapping

  function LowerChar(c: char): char {
    if 'A' <= c <= 'Z' then (c as int + 32) as char else c
  }

  function UpperChar(c: char): char {
    if 'a' <= c <= 'z' then (c as int - 32) as char else c
  }

  /** `toLowerCase`, restricted to the ASCII letters. */
  function ToLower(s: string): (r: string)
    ensures |r| == |s|
  {
    seq(|s|, i requires 0 <= i < |s| => LowerChar(s[i]))
  }

  /** `toUpperCase`, restricted to the ASCII letters. */
  function ToUpper(s: string): (r: string)
    ensures |r| == |s|
  {
    seq(|s|, i requires 0 <= i < |s| => UpperChar(s[i]))
  }

  /** Case mapping works character by character. */
  lemma CaseMapAt(s: string)
    ensures forall i :: 0 <= i < |s| ==> ToLower(s)[i] == LowerChar(s[i])
    ensures forall i :: 0 <= i < |s| ==> ToUpper(s)[i] == UpperChar(s[i])
  {
  }

  /** Upper-casing leaves no lower-case ASCII letter and is idempotent. */
  lemma ToUpperIdempotent(s: string)
    ensures forall i :: 0 <= i < |s| ==> !('a' <= ToUpper(s)[i] <= 'z')
    ensures ToUpper(ToUpper(s)) == ToUpper(s)
  {
    CaseMapAt(s);
    CaseMapAt(ToUpper(s));
  }

  /** `text().trim().toLowerCase()`, the library's `neutral` helper. */
  function Neutral(s: string): string {
    ToLower(Trim(s))
  }

  // ---------------------------------------------------------------------
  // Searching, replacing, splitting and joining

  predicate StartsWith(s: string, p: string) {
    |p| <= |s| && s[..|p|] == p
  }

  /** `String.prototype.endsWith` */
  predicate EndsWith(s: string, p: string) {
    |p| <= |s| && s[|s| - |p|..] == p
  }

  /** `pat` occurs in `s` starting at index `i`. */
  predicate OccursAt(s: string, pat: string, i: int) {
    0 <= i && i + |pat| <= |s| && s[i..i + |pat|] == pat
  }

  /** The first index at or after `from` where `pat` occurs. */
  function IndexFrom(s: string, pat: string, from: nat): (r: Option<nat>)
    requires from <= |s|
    ensures r.Some? ==> from <= r.value && OccursAt(s, pat, r.value)
    ensures r.Some? ==> forall j :: from <= j < r.value ==> !OccursAt(s, pat, j)
    ensures r.None? ==> forall j :: from <= j <= |s| ==> !OccursAt(s, pat, j)
    decreases |s| - from
  {
    if from + |pat| > |s| then None
    else if s[from..from + |pat|] == pat then Some(from)
    else IndexFrom(s, pat, from + 1)
  }

  /** `String.prototype.indexOf`, as `None` for -1. */
  function IndexOf(s: string, pat: string): (r: Option<nat>)
    ensures r.Some? ==> OccursAt(s, pat, r.value)
    ensures r.Some? ==> forall j :: 0 <= j < r.value ==> !OccursAt(s, pat, j)
    ensures r.None? ==> forall j :: 0 <= j <= |s| ==> !OccursAt(s, pat, j)
  {
    IndexFrom(s, pat, 0)
  }

  predicate Contains(s: string, pat: string) {
    IndexOf(s, pat).Some?
  }

  /** `s.replace(pat, rep)` with a string pattern: the first occurrence of
      `pat` is replaced, or `s` is returned unchanged. */
  function ReplaceFirst(s: string, pat: string, rep: string): (r: string)
  {
    ReplaceFrom(s, pat, rep, 0)
  }

  /** Replaces the first occurrence of `pat` at or after `from`. */
  function ReplaceFrom(s: string, pat: string, rep: string, from: nat): string
    requires from <= |s|
    decreases |s| - from
  {
    if from + |pat| > |s| then s
    else if s[from..from + |pat|] == pat then s[..from] + rep + s[from + |pat|..]
    else ReplaceFrom(s, pat, rep, from + 1)
  }

  /** The scan of `ReplaceFrom` stops where `IndexFrom` does. */
  lemma {:induction false} ReplaceFromIndex(s: string, pat: string, rep: string, from: nat)
    requires from <= |s|
    ensures ReplaceFrom(s, pat, rep, from)
            == match IndexFrom(s, pat, from)
               case None => s
               case Some(i) => s[..i] + rep + s[i + |pat|..]
    decreases |s| - from
  {
    if from + |pat| <= |s| && s[from..from + |pat|] != pat {
      ReplaceFromIndex(s, pat, rep, from + 1);
    }
  }

  /** Replacing splices `rep` in at the first occurrence of `pat` and
      leaves the rest of `s` untouched; without an occurrence nothing
      changes. */
  lemma ReplaceFirstSpec(s: string, pat: string, rep: string)
    ensures (forall j :: 0 <= j <= |s| ==> !OccursAt(s, pat, j)) ==> ReplaceFirst(s, pat, rep) == s
    ensures forall i :: OccursAt(s, pat, i) && (forall j :: 0 <= j < i ==> !OccursAt(s, pat, j))
                        ==> ReplaceFirst(s, pat, rep) == s[..i] + rep + s[i + |pat|..]
  {
    ReplaceFromIndex(s, pat, rep, 0);
    forall i | OccursAt(s, pat, i) && (forall j :: 0 <= j < i ==> !OccursAt(s, pat, j))
      ensures ReplaceFirst(s, pat, rep) == s[..i] + rep + s[i + |pat|..]
    {
      var k := IndexOf(s, pat);
      assert k.Some?;
      assert k.value == i;
    }
  }

  /** Taking off a prefix at the start with `replace`. */
  lemma ReplaceLeading(pat: string, rest: string)
    ensures ReplaceFirst(pat + rest, pat, "") == rest
  {
    var s := pat + rest;
    assert OccursAt(s, pat, 0) by {
      assert s[0..|pat|] == pat;
    }
    ReplaceFirstSpec(s, pat, "");
    assert s[..0] + "" + s[|pat|..] == rest;
  }

  /** `pat` does not occur anywhere in `s`. */
  predicate Free(s: string, pat: string) {
    forall j :: 0 <= j <= |s| ==> !OccursAt(s, pat, j)
  }

  /** `Array.prototype.join` with a separator. */
  function Join(parts: seq<string>, sep: string): string {
    if |parts| == 0 then ""
    else if |parts| == 1 then parts[0]
    else parts[0] + sep + Join(parts[1..], sep)
  }

  /** `String.prototype.split` with a non-empty string separator: the
      pieces between successive leftmost non-overlapping occurrences. */
  function Split(s: string, sep: string): (parts: seq<string>)
    requires |sep| > 0
    ensures |parts| >= 1
    ensures forall k :: 0 <= k < |parts| ==> Free(parts[k], sep)
    decreases |s|
  {
    match IndexOf(s, sep)
    case None => [s]
    case Some(i) =>
      var head := s[..i];
      assert Free(head, sep) by {
        forall j | 0 <= j <= |head| ensures !OccursAt(head, sep, j) {
          if OccursAt(head, sep, j) {
            assert s[j..j + |sep|] == head[j..j + |sep|];
            assert OccursAt(s, sep, j);
          }
        }
      }
      [head] + Split(s[i + |sep|..], sep)
  }

  /** Joining the pieces of a split with the same separator gives back the
      string that was split. */
  lemma {:induction false} SplitJoin(s: string, sep: string)
    requires |sep| > 0
    ensures Join(Split(s, sep), sep) == s
    decreases |s|
  {
    var k := IndexOf(s, sep);
    if k.Some? {
      var i := k.value;
      var rest := s[i + |sep|..];
      var tail := Split(rest, sep);
      assert Split(s, sep) == [s[..i]] + tail;
      SplitJoin(rest, sep);
      assert ([s[..i]] + tail)[1..] == tail;
      assert Join([s[..i]] + tail, sep) == s[..i] + sep + Join(tail, sep);
      assert s == s[..i] + sep + rest;
    }
  }

  /** `c` does not occur in `s`. */
  predicate Lacks(s: string, c: char) {
    forall i :: 0 <= i < |s| ==> s[i] != c
  }

  /** How many times `c` occurs in `s`. */
  function CountChar(s: string, c: char): nat {
    if |s| == 0 then 0 else (if s[0] == c then 1 else 0) + CountChar(s[1..], c)
  }

  /** A character that is counted zero times does not occur. */
  lemma {:induction false} CountZeroLacks(s: string, c: char)
    ensures CountChar(s, c) == 0 <==> Lacks(s, c)
  {
    if |s| > 0 {
      CountZeroLacks(s[1..], c);
      assert forall i :: 1 <= i < |s| ==> s[i] == s[1..][i - 1];
    }
  }

  lemma LacksConcat(a: string, b: string, c: char)
    ensures Lacks(a + b, c) <==> Lacks(a, c) && Lacks(b, c)
  {
    assert forall i :: 0 <= i < |a| ==> (a + b)[i] == a[i];
    assert forall i :: 0 <= i < |b| ==> (a + b)[|a| + i] == b[i];
  }

  /** A string lacking the separator's first character holds no
      occurrence of it. */
  lemma LacksFirstIsFree(s: string, sep: string)
    requires |sep| > 0 && Lacks(s, sep[0])
    ensures Free(s, sep)
  {
    forall j | 0 <= j <= |s|
      ensures !OccursAt(s, sep, j)
    {
      if j + |sep| <= |s| {
        assert s[j..j + |sep|][0] == s[j];
      }
    }
  }

  /** Splitting a join gives back the parts, provided no part contains the
      separator's first character. */
  lemma {:induction false} SplitOfJoin(parts: seq<string>, sep: string)
    requires |sep| > 0 && |parts| >= 1
    requires forall k :: 0 <= k < |parts| ==> Lacks(parts[k], sep[0])
    ensures Split(Join(parts, sep), sep) == parts
    decreases |parts|
  {
    var p0 := parts[0];
    if |parts| == 1 {
      LacksFirstIsFree(p0, sep);
      assert Join(parts, sep) == p0;
      assert parts == [p0];
    } else {
      var rest := Join(parts[1..], sep);
      var s := Join(parts, sep);
      assert s == p0 + sep + rest;
      assert OccursAt(s, sep, |p0|) by {
        assert s[|p0|..|p0| + |sep|] == sep;
      }
      forall j | 0 <= j < |p0|
        ensures !OccursAt(s, sep, j)
      {
        if j + |sep| <= |s| {
          assert s[j..j + |sep|][0] == s[j] == p0[j];
        }
      }
      var k := IndexOf(s, sep);
      assert k == Some(|p0|);
      assert s[..|p0|] == p0;
      assert s[|p0| + |sep|..] == rest;
      SplitOfJoin(parts[1..], sep);
      assert Split(s, sep) == [p0] + Split(rest, sep);
      assert parts == [p0] + parts[1..];
    }
  }

  /** A string free of the separator splits into itself alone. */
  lemma SplitFree(s: string, sep: string)
    requires |sep| > 0 && Free(s, sep)
    ensures Split(s, sep) == [s]
  {
  }

  // ---------------------------------------------------------------------
  // Reversal: `s.split("").reverse().join("")`

  function Reverse(s: string): (r: string)
    ensures |r| == |s|
    ensures forall i :: 0 <= i < |s| ==> r[i] == s[|s| - 1 - i]
  {
    seq(|s|, i requires 0 <= i < |s| => s[|s| - 1 - i])
  }

  lemma ReverseInvolution(s: string)
    ensures Reverse(Reverse(s)) == s
  {
  }

  // ---------------------------------------------------------------------
  // Decimal rendering of integers (JavaScript `"" + n` for integral n)

  function DigitChar(d: nat): (c: char)
    requires d < 10
    ensures IsDigit(c) && c as int - '0' as int == d
  {
    ('0' as int + d) as char
  }

  function DigitValue(c: char): (d: nat)
    requires IsDigit(c)
    ensures d < 10 && DigitChar(d) == c
  {
    c as int - '0' as int
  }

  /** The shortest decimal numeral of `n`. */
  function NatToString(n: nat): (r: string)
    ensures |r| >= 1 && AllDigits(r)
    ensures r[0] == '0' ==> r == "0"
  {
    if n < 10 then [DigitChar(n)] else NatToString(n / 10) + [DigitChar(n % 10)]
  }

  /** `String(n)` for an integral number. */
  function IntToString(n: int): (r: string)
    ensures |r| >= 1
  {
    if n < 0 then "-" + NatToString(-n) else NatToString(n)
  }

  /** The value of a string of decimal digits. */
  function ParseDigits(s: string): nat
    requires AllDigits(s)
  {
    if |s| == 0 then 0 else ParseDigits(s[..|s| - 1]) * 10 + DigitValue(s[|s| - 1])
  }

  /** Reads back an optionally negative decimal numeral; `None` for any
      other string. */
  function ParseInt(s: string): Option<int> {
    if |s| >= 2 && s[0] == '-' && AllDigits(s[1..]) then Some(0 - ParseDigits(s[1..]) as int)
    else if |s| >= 1 && AllDigits(s) then Some(ParseDigits(s))
    else None
  }

  lemma {:induction false} ParseNatToString(n: nat)
    ensures ParseDigits(NatToString(n)) == n
  {
    if n >= 10 {
      ParseNatToString(n / 10);
      var s := NatToString(n);
      assert s[..|s| - 1] == NatToString(n / 10);
    }
  }

  /** Rendering an integer and reading it back gives the integer. */
  lemma IntToStringRoundTrip(n: int)
    ensures ParseInt(IntToString(n)) == Some(n)
  {
    if n < 0 {
      ParseNatToString(-n);
      ParseNegative(NatToString(-n));
    } else {
      ParseNatToString(n);
      ParseNonNegative(NatToString(n));
    }
  }

  lemma ParseNegative(d: string)
    requires |d| >= 1 && AllDigits(d)
    ensures ParseInt("-" + d) == Some(0 - ParseDigits(d) as int)
  {
    var s := "-" + d;
    assert s[0] == '-' && s[1..] == d;
  }

  lemma ParseNonNegative(d: string)
    requires |d| >= 1 && AllDigits(d)
    ensures ParseInt(d) == Some(ParseDigits(d) as int)
  {
    assert IsDigit(d[0]);
  }

  /** Distinct integers render differently. */
  lemma IntToStringInjective(m: int, n: int)
    requires IntToString(m) == IntToString(n)
    ensures m == n
  {
    IntToStringRoundTrip(m);
    IntToStringRoundTrip(n);
  }

  // ---------------------------------------------------------------------
  // encodeURIComponent

  /** The characters `encodeURIComponent` leaves unescaped. */
  predicate IsUnreserved(c: char) {
    IsAsciiLetter(c) || IsDigit(c)
    || c == '-' || c == '_' || c == '.' || c == '!' || c == '~' || c == '*'
    || c == '\'' || c == '(' || c == ')'
  }

  predicate IsUpperHex(c: char) {
    IsDigit(c) || ('A' <= c <= 'F')
  }

  function HexDigit(d: nat): (c: char)
    requires d < 16
    ensures IsUpperHex(c)
  {
    if d < 10 then DigitChar(d) else ('A' as int + d - 10) as char
  }

  /** The UTF-8 encoding of one scalar value. */
  function Utf8(c: char): (bytes: seq<nat>)
    ensures 1 <= |bytes| <= 4
    ensures forall k :: 0 <= k < |bytes| ==> bytes[k] < 256
  {
    var cp := c as int;
    if cp < 0x80 then [cp]
    else if cp < 0x800 then [0xC0 + cp / 64, 0x80 + cp % 64]
    else if cp < 0x10000 then [0xE0 + cp / 4096, 0x80 + (cp / 64) % 64, 0x80 + cp % 64]
    else
      assert cp / 262144 <= 4;
      [0xF0 + cp / 262144, 0x80 + (cp / 4096) % 64, 0x80 + (cp / 64) % 64, 0x80 + cp % 64]
  }

  /** `%XX` with upper-case hex digits for each byte. */
  function PercentEncode(bytes: seq<nat>): (r: string)
    requires forall k :: 0 <= k < |bytes| ==> bytes[k] < 256
    ensures |r| == 3 * |bytes|
    ensures forall i :: 0 <= i < |r| ==> r[i] == '%' || IsUpperHex(r[i])
  {
    if |bytes| == 0 then ""
    else ['%', HexDigit(bytes[0] / 16), HexDigit(bytes[0] % 16)] + PercentEncode(bytes[1..])
  }

  predicate IsUriSafe(c: char) {
    IsUnreserved(c) || c == '%'
  }

  function EncodeChar(c: char): (r: string)
    ensures |r| >= 1
    ensures forall i :: 0 <= i < |r| ==> IsUriSafe(r[i])
  {
    if IsUnreserved(c) then [c] else PercentEncode(Utf8(c))
  }

  /** `encodeURIComponent`: unreserved characters are kept and every other
      character becomes the percent-escapes of its UTF-8 bytes. */
  function EncodeUriComponent(s: string): (r: string)
    ensures |r| >= |s|
    ensures forall i :: 0 <= i < |r| ==> IsUriSafe(r[i])
  {
    if |s| == 0 then "" else EncodeChar(s[0]) + EncodeUriComponent(s[1..])
  }

  /** An encoding holds no character outside the URI-safe set, such as
      the `&` and `=` of a query string. */
  lemma EncodedLacks(s: string, c: char)
    requires !IsUriSafe(c)
    ensures Lacks(EncodeUriComponent(s), c)
  {
  }

  /** Encoding distributes over concatenation. */
  lemma {:induction false} EncodeAppend(a: string, b: string)
    ensures EncodeUriComponent(a + b) == EncodeUriComponent(a) + EncodeUriComponent(b)
  {
    if |a| > 0 {
      assert (a + b)[0] == a[0] && (a + b)[1..] == a[1..] + b;
      EncodeAppend(a[1..], b);
    } else {
      assert a + b == b;
    }
  }

  /** A string of unreserved characters is its own encoding. */
  lemma {:induction false} EncodeUnreservedIdentity(s: string)
    requires forall i :: 0 <= i < |s| ==> IsUnreserved(s[i])
    ensures EncodeUriComponent(s) == s
  {
    if |s| > 0 {
      EncodeUnreservedIdentity(s[1..]);
    }
  }

  // ---------------------------------------------------------------------
  // The `<` ordering of JavaScript strings

  /** JavaScript compares strings by UTF-16 code units. For scalar values
      that order is the code-point order except that every supplementary
      character (stored as a surrogate pair, 0xD800..0xDFFF) sorts below
      the BMP characters 0xE000..0xFFFF; this rank reproduces it. */
  function UnitRank(c: char): int {
    var cp := c as int;
    if 0xE000 <= cp <= 0xFFFF then cp + 0x200000 else cp
  }

  lemma UnitRankInjective(a: char, b: char)
    ensures UnitRank(a) == UnitRank(b) ==> a == b
  {
  }

  /** `a < b` on JavaScript strings. */
  predicate Less(a: string, b: string)
    decreases |a|
  {
    if |a| == 0 then |b| > 0
    else if |b| == 0 then false
    else if a[0] != b[0] then UnitRank(a[0]) < UnitRank(b[0])
    else Less(a[1..], b[1..])
  }

  lemma {:induction false} LessIrreflexive(a: string)
    ensures !Less(a, a)
    decreases |a|
  {
    if |a| > 0 {
      LessIrreflexive(a[1..]);
    }
  }

  lemma {:induction false} LessAsymmetric(a: string, b: string)
    ensures Less(a, b) ==> !Less(b, a)
    decreases |a|
  {
    if |a| > 0 && |b| > 0 && a[0] == b[0] {
      LessAsymmetric(a[1..], b[1..]);
    }
  }

  lemma {:induction false} LessTransitive(a: string, b: string, c: string)
    requires Less(a, b) && Less(b, c)
    ensures Less(a, c)
    decreases |a|
  {
    if |a| > 0 && a[0] == b[0] && b[0] == c[0] {
      LessTransitive(a[1..], b[1..], c[1..]);
    }
  }

  /** Any two different strings are ordered one way or the other. */
  lemma {:induction false} LessTotal(a: string, b: string)
    ensures a == b || Less(a, b) || Less(b, a)
    decreases |a|
  {
    if |a| > 0 && |b| > 0 && a[0] == b[0] {
      LessTotal(a[1..], b[1..]);
      if a[1..] == b[1..] {
        assert a == [a[0]] + a[1..] && b == [b[0]] + b[1..];
      }
    }
  }
}
