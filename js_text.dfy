/**
 * The JavaScript string primitives the pages are built on: what `String.prototype.trim`
 * and the regular-expression class `\s` treat as white space, what `.` refuses to match,
 * `split` on one character and `join`, `length` counted in UTF-16 code units, ASCII case
 * folding (how a case-insensitive pattern made of ASCII characters compares), and the
 * decimal text of a non-negative integer (template literals such as `Question ${i + 1}`).
 *
 * A Dafny `char` is a Unicode scalar value; where JavaScript counts UTF-16 code units
 * instead, the difference is written out (JsLength).
 */
module JsText {

  datatype Option<T> = None | Some(value: T)

  /** ECMAScript WhiteSpace or LineTerminator: what `trim` removes and `\s` matches. */
  predicate IsJsSpace(c: char) {
    || c == '\t' || c == '\n' || c == '\U{B}' || c == '\U{C}' || c == '\r' || c == ' '
    || c == '\U{A0}' || c == '\U{1680}' || ('\U{2000}' <= c <= '\U{200A}')
    || c == '\U{2028}' || c == '\U{2029}' || c == '\U{202F}' || c == '\U{205F}'
    || c == '\U{3000}' || c == '\U{FEFF}'
  }

  /** ECMAScript LineTerminator: the characters a regular-expression `.` does not match. */
  predicate IsLineTerminator(c: char) {
    c == '\n' || c == '\r' || c == '\U{2028}' || c == '\U{2029}'
  }

  predicate NoLineTerminator(s: string) {
    forall i :: 0 <= i < |s| ==> !IsLineTerminator(s[i])
  }

  /** `!s || s.trim().length === 0`: empty or white space only. */
  predicate IsBlank(s: string) {
    forall i :: 0 <= i < |s| ==> IsJsSpace(s[i])
  }

  /** Leading white space removed. */
  function TrimStart(s: string): (r: string)
    ensures |r| <= |s| && r == s[|s| - |r|..]
    ensures forall i :: 0 <= i < |s| - |r| ==> IsJsSpace(s[i])
    ensures r == [] || !IsJsSpace(r[0])
  {
    if s != [] && IsJsSpace(s[0]) then TrimStart(s[1..]) else s
  }

  /** Trailing white space removed. */
  function TrimEnd(s: string): (r: string)
    ensures |r| <= |s| && r == s[..|r|]
    ensures forall i :: |r| <= i < |s| ==> IsJsSpace(s[i])
    ensures r == [] || !IsJsSpace(r[|r| - 1])
  {
    if s != [] && IsJsSpace(s[|s| - 1]) then TrimEnd(s[..|s| - 1]) else s
  }

  /** `s.trim()`. */
  function Trim(s: string): (r: string)
    ensures r == [] || (!IsJsSpace(r[0]) && !IsJsSpace(r[|r| - 1]))
    ensures r == [] <==> IsBlank(s)
    ensures exists k :: TrimmedAt(s, r, k)
  {
    var head := TrimStart(s);
    var r := TrimEnd(head);
    TrimSlice(s, head, r);
    r
  }

  /** `r` is the slice of `s` from `k`, with nothing but white space before and after it. */
  predicate TrimmedAt(s: string, r: string, k: int) {
    0 <= k <= |s| - |r| && r == s[k..k + |r|] && IsBlank(s[..k]) && IsBlank(s[k + |r|..])
  }

  lemma {:induction false} TrimSlice(s: string, head: string, r: string)
    requires head == TrimStart(s) && r == TrimEnd(head)
    ensures TrimmedAt(s, r, |s| - |head|)
  {
    var k := |s| - |head|;
    assert head == s[k..];
    assert r == head[..|r|];
    assert r == s[k..k + |r|];
    var before := s[..k];
    forall i | 0 <= i < |before| ensures IsJsSpace(before[i]) {
      assert before[i] == s[i];
    }
    var after := s[k + |r|..];
    forall i | 0 <= i < |after| ensures IsJsSpace(after[i]) {
      assert after[i] == head[|r| + i];
    }
  }

  /** Leading white space never survives `trim`: a string that starts with white space trims
      like its remainder. */
  lemma TrimSkipsLeadingSpace(c: char, s: string)
    requires IsJsSpace(c)
    ensures Trim([c] + s) == Trim(s)
  {
    assert ([c] + s)[1..] == s;
  }

  /** A string that neither starts nor ends with white space is its own `trim`. */
  lemma TrimmedIsTrim(s: string)
    requires s == [] || (!IsJsSpace(s[0]) && !IsJsSpace(s[|s| - 1]))
    ensures Trim(s) == s
  {
  }

  /** `s.length`: UTF-16 code units, two for a character outside the Basic Multilingual Plane. */
  function JsLength(s: string): (n: nat)
    ensures |s| <= n <= 2 * |s|
  {
    if s == [] then 0 else (if s[0] as int > 0xFFFF then 2 else 1) + JsLength(s[1..])
  }

  /** `parts.join(sep)`. */
  function Join(parts: seq<string>, sep: char): string {
    if |parts| == 0 then []
    else if |parts| == 1 then parts[0]
    else parts[0] + [sep] + Join(parts[1..], sep)
  }

  /** A join starts with the first part and ends with the last. */
  lemma {:induction false} JoinEnds(parts: seq<string>, sep: char)
    requires |parts| > 0
    ensures parts[0] <= Join(parts, sep)
    ensures var r, last := Join(parts, sep), parts[|parts| - 1];
            |last| <= |r| && r[|r| - |last|..] == last
  {
    if |parts| > 1 {
      JoinEnds(parts[1..], sep);
      var rest := Join(parts[1..], sep);
      assert Join(parts, sep) == parts[0] + [sep] + rest;
      assert parts[1..][|parts| - 2] == parts[|parts| - 1];
    }
  }

  /** `s.split(sep)` for a one-character separator: never empty, no part contains the
      separator, and joining the parts with the separator gives `s` back. */
  function Split(s: string, sep: char): (r: seq<string>)
    ensures |r| >= 1
    ensures forall i :: 0 <= i < |r| ==> sep !in r[i]
    ensures Join(r, sep) == s
  {
    if s == [] then [[]]
    else
      var rest := Split(s[1..], sep);
      if s[0] == sep then
        assert ([[]] + rest)[1..] == rest;
        [[]] + rest
      else
        var r := [[s[0]] + rest[0]] + rest[1..];
        assert Join(r, sep) == [s[0]] + Join(rest, sep) by {
          if |rest| > 1 {
            assert r[1..] == rest[1..];
          }
        }
        r
  }

  /** A character absent from a join is absent from every part. */
  lemma {:induction false} JoinKeepsOut(parts: seq<string>, sep: char, x: char)
    requires x !in Join(parts, sep)
    ensures forall i :: 0 <= i < |parts| ==> x !in parts[i]
  {
    if |parts| > 1 {
      JoinKeepsOut(parts[1..], sep, x);
      forall i | 1 <= i < |parts| ensures parts[i] == parts[1..][i - 1] {
      }
    }
  }

  /** Splitting a join of separator-free parts gives the parts back. */
  lemma {:induction false} SplitJoin(parts: seq<string>, sep: char)
    requires |parts| >= 1
    requires forall i :: 0 <= i < |parts| ==> sep !in parts[i]
    ensures Split(Join(parts, sep), sep) == parts
  {
    if |parts| == 1 {
      SplitNoSeparator(parts[0], sep);
    } else {
      SplitJoin(parts[1..], sep);
      SplitPrefix(parts[0], Join(parts[1..], sep), sep);
      assert [parts[0]] + parts[1..] == parts;
    }
  }

  /** A string without the separator is a single part. */
  lemma {:induction false} SplitNoSeparator(s: string, sep: char)
    requires sep !in s
    ensures Split(s, sep) == [s]
  {
    if s != [] {
      SplitNoSeparator(s[1..], sep);
      assert [s[0]] + s[1..] == s;
    }
  }

  /** A separator-free prefix followed by the separator becomes the first part. */
  lemma {:induction false} SplitPrefix(x: string, y: string, sep: char)
    requires sep !in x
    ensures Split(x + [sep] + y, sep) == [x] + Split(y, sep)
  {
    if x == [] {
      assert x + [sep] + y == [sep] + y;
      assert ([sep] + y)[1..] == y;
    } else {
      var s := x + [sep] + y;
      assert s[0] == x[0] && s[0] != sep;
      assert s[1..] == x[1..] + [sep] + y;
      var rest := Split(s[1..], sep);
      SplitPrefix(x[1..], y, sep);
      assert rest[0] == x[1..] && rest[1..] == Split(y, sep);
      assert Split(s, sep) == [[s[0]] + rest[0]] + rest[1..];
      assert [x[0]] + x[1..] == x;
    }
  }

  /** A separator-free prefix glues onto the first part. */
  lemma {:induction false} SplitGlue(x: string, y: string, sep: char)
    requires sep !in x
    ensures Split(x + y, sep) == [x + Split(y, sep)[0]] + Split(y, sep)[1..]
  {
    if x != [] {
      SplitGlue(x[1..], y, sep);
      assert (x + y)[1..] == x[1..] + y;
      assert [x[0]] + (x[1..] + Split(y, sep)[0]) == x + Split(y, sep)[0];
    } else {
      assert x + y == y;
      assert x + Split(y, sep)[0] == Split(y, sep)[0];
      assert [Split(y, sep)[0]] + Split(y, sep)[1..] == Split(y, sep);
    }
  }

  /** ASCII case folding; for a pattern character that is ASCII this is exactly how a
      JavaScript regular expression with the `i` flag (and without `u`) compares. */
  function AsciiLower(c: char): char {
    if 'A' <= c <= 'Z' then (c as int + 32) as char else c
  }

  function DigitChar(d: nat): char
    requires d < 10
  {
    ('0' as int + d) as char
  }

  /** Decimal text of `n`, as a template literal prints a non-negative integer: digits only,
      and no leading zero. */
  function NatToString(n: nat): (s: string)
    ensures 1 <= |s|
    ensures forall i :: 0 <= i < |s| ==> '0' <= s[i] <= '9'
    ensures |s| > 1 ==> s[0] != '0'
    decreases n
  {
    if n < 10 then [DigitChar(n)] else NatToString(n / 10) + [DigitChar(n % 10)]
  }

  /** The number a string of decimal digits denotes. */
  function DecimalValue(s: string): nat
    requires forall i :: 0 <= i < |s| ==> '0' <= s[i] <= '9'
  {
    if s == [] then 0 else DecimalValue(s[..|s| - 1]) * 10 + (s[|s| - 1] as int - '0' as int)
  }

  /** NatToString loses nothing: reading the digits back gives `n`. */
  lemma {:induction false} NatToStringRoundTrip(n: nat)
    ensures DecimalValue(NatToString(n)) == n
    decreases n
  {
    if n >= 10 {
      NatToStringRoundTrip(n / 10);
      var s := NatToString(n);
      assert s[..|s| - 1] == NatToString(n / 10);
    }
  }
}
