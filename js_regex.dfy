/**
 * `s.replace(/.../g, replacement)` for the regular-expression shapes the pages use.
 *
 * A global replace scans left to right. At each position it tries the pattern; on a
 * match it emits the replacement and resumes right after the match, otherwise it copies
 * one character and tries the next position. So matches never overlap, and every match
 * here consumes at least one character. A lazy group `(.*?)` or `(.+?)` takes the
 * shortest payload for which the rest of the pattern matches, and `.` matches any
 * character except a line terminator. The `i` flag compares ASCII letters without
 * regard to case.
 */
module JsRegex {
  import opened JsText

  /** A match at the start of the subject: how many characters it consumes, and its replacement. */
  datatype Hit = Hit(len: nat, out: string)

  datatype Pattern =
      /** `open(.*?)close` when `minPayload` is 0, `open(.+?)close` when it is 1; the match is
          replaced by `before + $1 + after`; `ignoreCase` is the `i` flag. */
    | Pair(open: string, close: string, minPayload: nat, ignoreCase: bool, before: string, after: string)
      /** A fixed word, replaced by `replacement`. */
    | Literal(word: string, ignoreCase: bool, replacement: string)
      /** `/<br\s*\/?>/gi`. */
    | BreakTag(replacement: string)
      /** `/<[^>]*>/g` replaced by the empty string. */
    | AnyTag
      /** `/--+/g` replaced by a single hyphen. */
    | HyphenRun

  predicate WellFormed(p: Pattern) {
    match p
    case Pair(o, _, _, _, _, _) => o != []
    case Literal(w, _, _) => w != []
    case _ => true
  }

  predicate CharEq(a: char, b: char, ci: bool) {
    if ci then AsciiLower(a) == AsciiLower(b) else a == b
  }

  /** `w` occurs in `t` at index `j`. */
  predicate OccursAt(t: string, j: nat, w: string, ci: bool) {
    j + |w| <= |t| && forall i :: 0 <= i < |w| ==> CharEq(t[j + i], w[i], ci)
  }

  /** `w` occurs at the start of `t`. */
  predicate StartsWith(t: string, w: string, ci: bool) {
    |w| <= |t| && forall i :: 0 <= i < |w| ==> CharEq(t[i], w[i], ci)
  }

  /** Occurring at the start is occurring at index 0. */
  lemma StartsWithAtZero(t: string, w: string, ci: bool)
    ensures StartsWith(t, w, ci) <==> OccursAt(t, 0, w, ci)
  {
    assert forall i :: 0 <= i < |w| && i < |t| ==> t[0 + i] == t[i];
  }

  /** A pair pattern cannot match where the first character differs from its opening delimiter. */
  lemma FirstCharNoMatch(p: Pattern, t: string)
    requires WellFormed(p) && p.Pair? && t != [] && !CharEq(t[0], p.open[0], p.ignoreCase)
    ensures MatchAt(p, t).None?
  {
  }

  /** `t[a..b]` holds no line terminator: `.` can match all of it. */
  predicate Clear(t: string, a: nat, b: nat) {
    b <= |t| && forall i :: a <= i < b ==> !IsLineTerminator(t[i])
  }

  /** `t` starts with a match of `open(.{k})close` whose payload has exactly `k` characters. */
  predicate PairMatch(t: string, o: string, c: string, ci: bool, k: nat) {
    && StartsWith(t, o, ci)
    && Clear(t, |o|, |o| + k)
    && OccursAt(t, |o| + k, c, ci)
  }

  /** The lazy continuation: the first index at or after `from` where `close` occurs,
      searching no further than the next line terminator. */
  function LazyClose(t: string, from: nat, close: string, ci: bool): (r: Option<nat>)
    requires from <= |t|
    ensures r.Some? ==> from <= r.value && r.value + |close| <= |t|
    decreases |t| - from
  {
    if OccursAt(t, from, close, ci) then Some(from)
    else if from < |t| && !IsLineTerminator(t[from]) then LazyClose(t, from + 1, close, ci)
    else None
  }

  /** LazyClose finds the least `j >= from` such that `t[from..j]` holds no line terminator
      and `close` occurs at `j`, and reports none only when there is no such `j`. */
  lemma {:induction false} LazyCloseSpec(t: string, from: nat, close: string, ci: bool)
    requires from <= |t|
    ensures var r := LazyClose(t, from, close, ci);
            && (r.Some? ==> && OccursAt(t, r.value, close, ci)
                            && Clear(t, from, r.value)
                            && forall j :: from <= j < r.value ==> !OccursAt(t, j, close, ci))
            && (r.None? ==> forall j :: from <= j && Clear(t, from, j) ==> !OccursAt(t, j, close, ci))
    decreases |t| - from
  {
    if !OccursAt(t, from, close, ci) && from < |t| && !IsLineTerminator(t[from]) {
      LazyCloseSpec(t, from + 1, close, ci);
    }
  }

  /** The lazy search stops at the first occurrence of `close` when no line terminator
      comes before it. */
  lemma {:induction false} LazyCloseFinds(t: string, from: nat, at: nat, close: string, ci: bool)
    requires from <= at && OccursAt(t, at, close, ci) && Clear(t, from, at)
    requires forall j :: from <= j < at ==> !OccursAt(t, j, close, ci)
    ensures LazyClose(t, from, close, ci) == Some(at)
    decreases at - from
  {
    if from < at {
      LazyCloseFinds(t, from + 1, at, close, ci);
    }
  }

  /** The match of `open(.{min,}?)close` at the start of `t`, if any. */
  function MatchPair(t: string, o: string, c: string, min: nat, ci: bool, before: string, after: string): (r: Option<Hit>)
    requires o != []
    ensures r.Some? ==> |o| + min + |c| <= r.value.len <= |t|
  {
    if StartsWith(t, o, ci) && Clear(t, |o|, |o| + min) then
      match LazyClose(t, |o| + min, c, ci)
      case Some(j) => Some(Hit(j + |c|, before + t[|o|..j] + after))
      case None => None
    else None
  }

  /** MatchPair is leftmost-shortest: what it reports is a pair with payload length at
      least `min`, replaced by the payload between `before` and `after`; no shorter payload
      would do; and it reports no match only when there is none of any payload length. */
  lemma MatchPairSpec(t: string, o: string, c: string, min: nat, ci: bool, before: string, after: string)
    requires o != []
    ensures var r := MatchPair(t, o, c, min, ci, before, after);
            && (r.Some? ==> && PairMatch(t, o, c, ci, r.value.len - |o| - |c|)
                            && r.value.out == before + t[|o|..r.value.len - |c|] + after
                            && forall k :: min <= k < r.value.len - |o| - |c| ==> !PairMatch(t, o, c, ci, k))
            && (r.None? ==> forall k :: min <= k ==> !PairMatch(t, o, c, ci, k))
  {
    if MatchPair(t, o, c, min, ci, before, after).Some? {
      MatchPairSome(t, o, c, min, ci, before, after);
    } else {
      MatchPairNone(t, o, c, min, ci, before, after);
    }
  }

  lemma MatchPairSome(t: string, o: string, c: string, min: nat, ci: bool, before: string, after: string)
    requires o != [] && MatchPair(t, o, c, min, ci, before, after).Some?
    ensures var h := MatchPair(t, o, c, min, ci, before, after).value;
            && PairMatch(t, o, c, ci, h.len - |o| - |c|)
            && h.out == before + t[|o|..h.len - |c|] + after
            && forall k :: min <= k < h.len - |o| - |c| ==> !PairMatch(t, o, c, ci, k)
  {
    var from := |o| + min;
    LazyCloseSpec(t, from, c, ci);
    var j := LazyClose(t, from, c, ci).value;
    assert MatchPair(t, o, c, min, ci, before, after) == Some(Hit(j + |c|, before + t[|o|..j] + after));
    PairMatchAt(t, o, c, min, ci, j);
    assert j + |c| - |o| - |c| == j - |o|;
  }

  lemma MatchPairNone(t: string, o: string, c: string, min: nat, ci: bool, before: string, after: string)
    requires o != [] && MatchPair(t, o, c, min, ci, before, after).None?
    ensures forall k :: min <= k ==> !PairMatch(t, o, c, ci, k)
  {
    var from := |o| + min;
    if StartsWith(t, o, ci) && Clear(t, |o|, from) {
      LazyCloseSpec(t, from, c, ci);
      NoPairMatch(t, o, c, min, ci);
    } else {
      forall k | min <= k
        ensures !PairMatch(t, o, c, ci, k)
      {
        ClearShrinks(t, |o|, from, |o| + k);
      }
    }
  }

  /** A clear stretch is clear up to any earlier end. */
  lemma ClearShrinks(t: string, a: nat, b: nat, c: nat)
    ensures Clear(t, a, c) && b <= c ==> Clear(t, a, b)
  {
  }

  /** The first closing delimiter after a clear stretch gives the shortest pair. */
  lemma PairMatchAt(t: string, o: string, c: string, min: nat, ci: bool, j: nat)
    requires StartsWith(t, o, ci) && Clear(t, |o|, |o| + min) && |o| + min <= j
    requires OccursAt(t, j, c, ci) && Clear(t, |o| + min, j)
    requires forall i :: |o| + min <= i < j ==> !OccursAt(t, i, c, ci)
    ensures PairMatch(t, o, c, ci, j - |o|)
    ensures forall k :: min <= k < j - |o| ==> !PairMatch(t, o, c, ci, k)
  {
    assert Clear(t, |o|, j);
    forall k | min <= k < j - |o|
      ensures !PairMatch(t, o, c, ci, k)
    {
      assert !OccursAt(t, |o| + k, c, ci);
    }
  }

  /** Without a closing delimiter before the next line terminator there is no pair. */
  lemma NoPairMatch(t: string, o: string, c: string, min: nat, ci: bool)
    requires forall j :: |o| + min <= j && Clear(t, |o| + min, j) ==> !OccursAt(t, j, c, ci)
    ensures forall k :: min <= k ==> !PairMatch(t, o, c, ci, k)
  {
    forall k | min <= k
      ensures !PairMatch(t, o, c, ci, k)
    {
      if Clear(t, |o|, |o| + k) {
        assert Clear(t, |o| + min, |o| + k);
      }
    }
  }

  /** A pair whose payload `t[|o|..at]` is long enough, holds no line terminator and holds
      no earlier closing delimiter is the match, with the payload kept between the brackets. */
  lemma MatchPairFound(t: string, o: string, c: string, min: nat, ci: bool, before: string, after: string, at: nat)
    requires o != [] && StartsWith(t, o, ci) && |o| + min <= at
    requires Clear(t, |o|, at) && OccursAt(t, at, c, ci)
    requires forall j :: |o| + min <= j < at ==> !OccursAt(t, j, c, ci)
    ensures MatchPair(t, o, c, min, ci, before, after) == Some(Hit(at + |c|, before + t[|o|..at] + after))
  {
    LazyCloseFinds(t, |o| + min, at, c, ci);
  }

  /** End of the run of white space that starts at `i`. */
  function SpaceRunEnd(t: string, i: nat): (j: nat)
    requires i <= |t|
    ensures i <= j <= |t|
    ensures forall k :: i <= k < j ==> IsJsSpace(t[k])
    ensures j == |t| || !IsJsSpace(t[j])
    decreases |t| - i
  {
    if i < |t| && IsJsSpace(t[i]) then SpaceRunEnd(t, i + 1) else i
  }

  /** `t[..n]` is a match of `<br\s*\/?>` (letters in any case). */
  predicate BreakTagAt(t: string, n: nat) {
    && 4 <= n <= |t|
    && StartsWith(t, "<br", true)
    && t[n - 1] == '>'
    && forall k :: 3 <= k < n - 1 ==> IsJsSpace(t[k]) || (k == n - 2 && t[k] == '/')
  }

  /** The match of `<br\s*\/?>` at the start of `t`, if there is one; there is at most one. */
  function MatchBreak(t: string, rep: string): (r: Option<Hit>)
    ensures r.Some? ==> BreakTagAt(t, r.value.len) && r.value.out == rep
    ensures r.None? ==> forall n :: !BreakTagAt(t, n)
  {
    if StartsWith(t, "<br", true) then
      var j := SpaceRunEnd(t, 3);
      if j < |t| && t[j] == '>' then Some(Hit(j + 1, rep))
      else if j + 1 < |t| && t[j] == '/' && t[j + 1] == '>' then Some(Hit(j + 2, rep))
      else
        forall n: nat ensures !BreakTagAt(t, n) {
          if 4 <= n <= |t| && j < n - 1 {
            assert !IsJsSpace(t[j]);
          }
        }
        None
    else None
  }

  /** Index of the first `ch` at or after `i`. */
  function FindChar(t: string, ch: char, i: nat): (r: Option<nat>)
    requires i <= |t|
    ensures r.Some? ==> i <= r.value < |t| && t[r.value] == ch
                        && forall k :: i <= k < r.value ==> t[k] != ch
    ensures r.None? ==> forall k :: i <= k < |t| ==> t[k] != ch
    decreases |t| - i
  {
    if i == |t| then None
    else if t[i] == ch then Some(i)
    else FindChar(t, ch, i + 1)
  }

  /** `<[^>]*>` at the start of `t`: from a `<` up to the first `>` after it, which may lie
      beyond any number of line breaks; nothing when no `>` follows. */
  function MatchAnyTag(t: string): (r: Option<Hit>)
    ensures r.Some? ==> && 2 <= r.value.len <= |t| && t[0] == '<' && t[r.value.len - 1] == '>'
                        && r.value.out == []
                        && forall k :: 1 <= k < r.value.len - 1 ==> t[k] != '>'
    ensures r.None? ==> t == [] || t[0] != '<' || forall k :: 1 <= k < |t| ==> t[k] != '>'
  {
    if t != [] && t[0] == '<' then
      match FindChar(t, '>', 1)
      case Some(j) => Some(Hit(j + 1, []))
      case None => None
    else None
  }

  /** End of the run of `ch` that starts at `i`. */
  function CharRunEnd(t: string, ch: char, i: nat): (j: nat)
    requires i <= |t|
    ensures i <= j <= |t|
    ensures forall k :: i <= k < j ==> t[k] == ch
    ensures j == |t| || t[j] != ch
    decreases |t| - i
  {
    if i < |t| && t[i] == ch then CharRunEnd(t, ch, i + 1) else i
  }

  /** `--+` at the start of `t`: two or more hyphens, as many as there are (the `+` is greedy). */
  function MatchHyphens(t: string): (r: Option<Hit>)
    ensures r.Some? <==> |t| >= 2 && t[0] == '-' && t[1] == '-'
    ensures r.Some? ==> && 2 <= r.value.len <= |t| && r.value.out == "-"
                        && (forall k :: 0 <= k < r.value.len ==> t[k] == '-')
                        && (r.value.len == |t| || t[r.value.len] != '-')
  {
    if |t| >= 2 && t[0] == '-' && t[1] == '-' then Some(Hit(CharRunEnd(t, '-', 2), "-")) else None
  }

  /** The match of `p` at the start of `t`, if any; it is never empty. */
  function MatchAt(p: Pattern, t: string): (r: Option<Hit>)
    requires WellFormed(p)
    ensures r.Some? ==> 0 < r.value.len <= |t|
  {
    match p
    case Pair(o, c, min, ci, before, after) => MatchPair(t, o, c, min, ci, before, after)
    case Literal(w, ci, rep) => if StartsWith(t, w, ci) then Some(Hit(|w|, rep)) else None
    case BreakTag(rep) => MatchBreak(t, rep)
    case AnyTag => MatchAnyTag(t)
    case HyphenRun => MatchHyphens(t)
  }

  /** One step of the scan at the start of non-empty `t`: the match there, or else the
      first character copied as it is. */
  function Step(p: Pattern, t: string): (h: Hit)
    requires WellFormed(p) && t != []
    ensures 0 < h.len <= |t|
  {
    match MatchAt(p, t)
    case Some(h) => h
    case None => Hit(1, [t[0]])
  }

  /** `t.replace(p, ...)` with the `g` flag. */
  function Replace(p: Pattern, t: string): string
    requires WellFormed(p)
    decreases |t|
  {
    if t == [] then [] else Step(p, t).out + Replace(p, t[Step(p, t).len..])
  }

  /** Where `p` does not match, the first character is copied and the scan moves on by one. */
  lemma ReplaceCopies(p: Pattern, t: string)
    requires WellFormed(p) && t != [] && MatchAt(p, t).None?
    ensures Replace(p, t) == [t[0]] + Replace(p, t[1..])
  {
  }

  /** `p` matches at none of the first `n` positions of `t` (a match there may reach
      beyond them). */
  predicate NoMatchWithin(p: Pattern, t: string, n: nat)
    requires WellFormed(p) && n <= |t|
    decreases n
  {
    n == 0 || (MatchAt(p, t).None? && NoMatchWithin(p, t[1..], n - 1))
  }

  /** NoMatchWithin is what it says: no match at any of those positions. */
  lemma {:induction false} NoMatchWithinAt(p: Pattern, t: string, n: nat)
    requires WellFormed(p) && n <= |t|
    ensures NoMatchWithin(p, t, n) <==> forall i :: 0 <= i < n ==> MatchAt(p, t[i..]).None?
    decreases n
  {
    if n > 0 {
      NoMatchWithinAt(p, t[1..], n - 1);
      assert t[0..] == t;
      if NoMatchWithin(p, t, n) {
        forall i | 0 < i < n
          ensures MatchAt(p, t[i..]).None?
        {
          assert t[1..][i - 1..] == t[i..];
        }
      }
      if forall i :: 0 <= i < n ==> MatchAt(p, t[i..]).None? {
        forall i | 0 <= i < n - 1
          ensures MatchAt(p, t[1..][i..]).None?
        {
          assert t[1..][i..] == t[i + 1..];
        }
      }
    }
  }

  /** Where `p` matches, the match is replaced and the scan resumes right after it. */
  lemma ReplaceTakes(p: Pattern, t: string, h: Hit)
    requires WellFormed(p) && MatchAt(p, t) == Some(h)
    ensures Replace(p, t) == h.out + Replace(p, t[h.len..])
  {
  }

  /** Characters at which `p` does not match are copied unchanged, and the scan goes on
      after them. */
  lemma {:induction false} ReplaceSkip(p: Pattern, t: string, n: nat)
    requires WellFormed(p) && n <= |t| && NoMatchWithin(p, t, n)
    ensures Replace(p, t) == t[..n] + Replace(p, t[n..])
    decreases n
  {
    if n > 0 {
      var rest := Replace(p, t[n..]);
      ReplaceCopies(p, t);
      ReplaceSkip(p, t[1..], n - 1);
      assert t[1..][n - 1..] == t[n..];
      assert Replace(p, t[1..]) == t[1..][..n - 1] + rest;
      assert [t[0]] + t[1..][..n - 1] == t[..n];
      assert [t[0]] + (t[1..][..n - 1] + rest) == t[..n] + rest;
    }
  }

  /** A match at the start is replaced and the scan resumes right after it. */
  lemma ReplaceAfterMatch(p: Pattern, x: string, y: string, out: string)
    requires WellFormed(p)
    requires MatchAt(p, x + y) == Some(Hit(|x|, out))
    ensures Replace(p, x + y) == out + Replace(p, y)
  {
    assert (x + y)[|x|..] == y;
  }

  /** Where the pattern matches nowhere, replacing changes nothing. */
  lemma ReplaceNowhere(p: Pattern, t: string)
    requires WellFormed(p)
    requires forall i :: 0 <= i < |t| ==> MatchAt(p, t[i..]).None?
    ensures Replace(p, t) == t
  {
    NoMatchWithinAt(p, t, |t|);
    ReplaceSkip(p, t, |t|);
    assert t[..|t|] == t;
  }

  /** Only a line feed equals a line feed, with or without case folding. */
  lemma LineFeedOnly(b: char, ci: bool)
    requires b != '\n'
    ensures !CharEq('\n', b, ci)
  {
  }

  /** A word without a line feed occurs before a line feed exactly where it occurs in the
      text before that line feed. */
  lemma OccursBeforeLineFeed(x: string, y: string, j: nat, w: string, ci: bool)
    requires '\n' !in w && j <= |x|
    ensures OccursAt(x + ['\n'] + y, j, w, ci) <==> OccursAt(x, j, w, ci)
  {
    var t := x + ['\n'] + y;
    if |x| < j + |w| {
      assert w[|x| - j] in w;
      LineFeedOnly(w[|x| - j], ci);
      assert t[j + (|x| - j)] == '\n';
    }
  }

  /** The lazy search never looks past a line feed. */
  lemma {:induction false} LazyCloseBeforeLineFeed(x: string, y: string, j: nat, c: string, ci: bool)
    requires j <= |x| && '\n' !in c
    ensures LazyClose(x + ['\n'] + y, j, c, ci) == LazyClose(x, j, c, ci)
    decreases |x| - j
  {
    OccursBeforeLineFeed(x, y, j, c, ci);
    if j < |x| {
      LazyCloseBeforeLineFeed(x, y, j + 1, c, ci);
    } else {
      assert (x + ['\n'] + y)[j] == '\n';
    }
  }

  /** A `Pair` pattern without line feeds in its delimiters matches in the text before a
      line feed exactly as it matches in that text alone. */
  lemma MatchPairBeforeLineFeed(x: string, y: string, o: string, c: string, min: nat, ci: bool, before: string, after: string)
    requires o != [] && '\n' !in o && '\n' !in c
    ensures MatchPair(x + ['\n'] + y, o, c, min, ci, before, after) == MatchPair(x, o, c, min, ci, before, after)
  {
    var t := x + ['\n'] + y;
    OccursBeforeLineFeed(x, y, 0, o, ci);
    StartsWithAtZero(x, o, ci);
    StartsWithAtZero(t, o, ci);
    if StartsWith(x, o, ci) {
      if |o| + min <= |x| {
        assert forall i :: 0 <= i < |x| ==> t[i] == x[i];
        LazyCloseBeforeLineFeed(x, y, |o| + min, c, ci);
        match LazyClose(x, |o| + min, c, ci)
        case Some(j) =>
          assert t[|o|..j] == x[|o|..j];
        case None =>
      } else {
        assert t[|x|] == '\n';
      }
    }
  }

  /** One scan step in a line is the same step whether or not a line feed and more text follow. */
  lemma StepBeforeLineFeed(p: Pattern, x: string, y: string)
    requires p.Pair? && WellFormed(p) && '\n' !in p.open && '\n' !in p.close && x != []
    ensures var t := x + ['\n'] + y;
            && Step(p, t) == Step(p, x)
            && t[Step(p, x).len..] == x[Step(p, x).len..] + ['\n'] + y
  {
    MatchPairBeforeLineFeed(x, y, p.open, p.close, p.minPayload, p.ignoreCase, p.before, p.after);
  }

  /** No replacement of a `Pair` pattern without line feeds in its delimiters spans a line
      feed: replacing in two lines joined by a line feed is replacing in each line. */
  lemma {:induction false} ReplacePairByLine(p: Pattern, x: string, y: string)
    requires p.Pair? && WellFormed(p) && '\n' !in p.open && '\n' !in p.close
    ensures Replace(p, x + ['\n'] + y) == Replace(p, x) + ['\n'] + Replace(p, y)
    decreases |x|
  {
    var t := x + ['\n'] + y;
    if x == [] {
      MatchPairBeforeLineFeed(x, y, p.open, p.close, p.minPayload, p.ignoreCase, p.before, p.after);
      assert t[1..] == y;
    } else {
      StepBeforeLineFeed(p, x, y);
      var h := Step(p, x);
      ReplacePairByLine(p, x[h.len..], y);
    }
  }

  /** A `Pair` replacement brings in no character that is neither in the text nor in its
      replacement brackets. */
  lemma {:induction false} ReplacePairKeepsOut(p: Pattern, t: string, ch: char)
    requires p.Pair? && WellFormed(p)
    requires ch !in t && ch !in p.before && ch !in p.after
    ensures ch !in Replace(p, t)
    decreases |t|
  {
    if t != [] {
      match MatchAt(p, t)
      case Some(h) =>
        ReplacePairKeepsOut(p, t[h.len..], ch);
        var payload := t[|p.open|..h.len - |p.close|];
        assert forall i :: 0 <= i < |payload| ==> payload[i] == t[|p.open| + i];
      case None =>
        ReplacePairKeepsOut(p, t[1..], ch);
    }
  }

  /** After `/<[^>]*>/g`, no `<` has a `>` anywhere after it. */
  lemma {:induction false} StripLeavesNoTag(t: string)
    ensures var r := Replace(AnyTag, t);
            forall i, j :: 0 <= i < j < |r| && r[i] == '<' ==> r[j] != '>'
    decreases |t|
  {
    if t != [] {
      match MatchAt(AnyTag, t)
      case Some(h) =>
        StripLeavesNoTag(t[h.len..]);
        assert Replace(AnyTag, t) == Replace(AnyTag, t[h.len..]);
      case None =>
        StripLeavesNoTag(t[1..]);
        var r := Replace(AnyTag, t);
        assert r == [t[0]] + Replace(AnyTag, t[1..]);
        if t[0] == '<' {
          assert '>' !in t[1..];
          StripKeepsOut(t[1..], '>');
        }
    }
  }

  /** Stripping tags brings in no character. */
  lemma {:induction false} StripKeepsOut(t: string, ch: char)
    requires ch !in t
    ensures ch !in Replace(AnyTag, t)
    decreases |t|
  {
    if t != [] {
      match MatchAt(AnyTag, t)
      case Some(h) =>
        StripKeepsOut(t[h.len..], ch);
      case None =>
        StripKeepsOut(t[1..], ch);
    }
  }

  /** Text without `<` has no tag to strip. */
  lemma StripNoTag(t: string)
    requires '<' !in t
    ensures Replace(AnyTag, t) == t
  {
    ReplaceNowhere(AnyTag, t);
  }
}
