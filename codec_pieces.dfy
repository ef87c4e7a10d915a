/**
 * Editor markup seen as a sequence of pieces: single text characters and the tags the
 * encoder writes. A piece sequence is rendered to markup, and also read as the stored
 * text it stands for (a `<strong>` tag stands for `**`, an `<em>` tag for `*`, a `<div>`
 * for a line feed, a `</div>` for nothing and a `<br>` for a line feed: the values the
 * decoder's rewrites give them).
 *
 * The lemmas here say what one decoding rewrite does to rendered pieces: a tag rewrite
 * replaces each tag it recognises by what it stands for and leaves everything else alone,
 * provided the text characters contain no `<`.
 */
module CodecPieces {
  import opened JsText
  import opened JsRegex

  datatype Tag = Strong(closing: bool) | Em(closing: bool) | Div(closing: bool) | Br

  datatype Piece = Ch(c: char) | T(tag: Tag)

  function TagText(t: Tag): string {
    match t
    case Strong(cl) => if cl then "</strong>" else "<strong>"
    case Em(cl) => if cl then "</em>" else "<em>"
    case Div(cl) => if cl then "</div>" else "<div>"
    case Br => "<br>"
  }

  /** What a tag stands for in the stored text. */
  function Marker(t: Tag): string {
    match t
    case Strong(_) => "**"
    case Em(_) => "*"
    case Div(cl) => if cl then "" else "\n"
    case Br => "\n"
  }

  function Show(q: Piece): string {
    match q
    case Ch(c) => [c]
    case T(t) => TagText(t)
  }

  /** The markup of a piece sequence. */
  function Render(ps: seq<Piece>): string {
    if ps == [] then [] else Show(ps[0]) + Render(ps[1..])
  }

  /** The stored text a piece stands for. */
  function Stored(q: Piece): string {
    match q
    case Ch(c) => [c]
    case T(t) => Marker(t)
  }

  /** The stored text a piece sequence stands for. */
  function Flat(ps: seq<Piece>): string {
    if ps == [] then [] else Stored(ps[0]) + Flat(ps[1..])
  }

  function Chars(s: string): seq<Piece> {
    seq(|s|, i requires 0 <= i < |s| => Ch(s[i]))
  }

  /** No text character of `ps` is `x`. */
  predicate NoCh(ps: seq<Piece>, x: char) {
    forall i :: 0 <= i < |ps| ==> ps[i] != Ch(x)
  }

  /** No text character of `ps` is a line terminator. */
  predicate NoLineBreakCh(ps: seq<Piece>) {
    forall i :: 0 <= i < |ps| ==> !(ps[i].Ch? && IsLineTerminator(ps[i].c))
  }

  /** A tag of `S` replaced by the characters it stands for; anything else kept. */
  function ExpandOne(q: Piece, S: set<Tag>): seq<Piece> {
    if q.T? && q.tag in S then Chars(Marker(q.tag)) else [q]
  }

  /** Each tag of `S` replaced by the characters it stands for. */
  function Expand(ps: seq<Piece>, S: set<Tag>): seq<Piece> {
    if ps == [] then [] else ExpandOne(ps[0], S) + Expand(ps[1..], S)
  }

  /** Every tag of `ps` is in `U`. */
  predicate TagsWithin(ps: seq<Piece>, U: set<Tag>) {
    forall i :: 0 <= i < |ps| && ps[i].T? ==> ps[i].tag in U
  }

  const AllTags: set<Tag> :=
    {Strong(false), Strong(true), Em(false), Em(true), Div(false), Div(true), Br}

  lemma AllTagsComplete(t: Tag)
    ensures t in AllTags
  {
  }

  // Sequences of pieces.

  lemma RenderCons(q: Piece, ps: seq<Piece>)
    ensures Render([q] + ps) == Show(q) + Render(ps)
  {
    assert ([q] + ps)[1..] == ps;
  }

  lemma {:induction false} RenderConcat(a: seq<Piece>, b: seq<Piece>)
    ensures Render(a + b) == Render(a) + Render(b)
  {
    if a == [] {
      assert a + b == b;
    } else {
      assert (a + b)[0] == a[0] && (a + b)[1..] == a[1..] + b;
      RenderConcat(a[1..], b);
      assert Render(a + b) == Show(a[0]) + Render(a[1..] + b);
    }
  }

  lemma {:induction false} FlatConcat(a: seq<Piece>, b: seq<Piece>)
    ensures Flat(a + b) == Flat(a) + Flat(b)
  {
    if a == [] {
      assert a + b == b;
    } else {
      assert (a + b)[0] == a[0] && (a + b)[1..] == a[1..] + b;
      FlatConcat(a[1..], b);
      assert Flat(a + b) == Stored(a[0]) + Flat(a[1..] + b);
    }
  }

  lemma {:induction false} CharsRender(s: string)
    ensures Render(Chars(s)) == s && Flat(Chars(s)) == s
  {
    if s != [] {
      CharsRender(s[1..]);
      assert Chars(s)[1..] == Chars(s[1..]);
    }
  }

  lemma {:induction false} ExpandConcat(a: seq<Piece>, b: seq<Piece>, S: set<Tag>)
    ensures Expand(a + b, S) == Expand(a, S) + Expand(b, S)
  {
    if a == [] {
      assert a + b == b;
    } else {
      assert (a + b)[0] == a[0] && (a + b)[1..] == a[1..] + b;
      ExpandConcat(a[1..], b, S);
      assert Expand(a + b, S) == ExpandOne(a[0], S) + Expand(a[1..] + b, S);
    }
  }

  /** The markup of a piece, a stretch, a piece, and the rest. */
  lemma RenderAround(a: Piece, mid: seq<Piece>, b: Piece, rest: seq<Piece>)
    ensures Render([a] + (mid + ([b] + rest))) == Show(a) + (Render(mid) + (Show(b) + Render(rest)))
  {
    RenderCons(a, mid + ([b] + rest));
    RenderConcat(mid, [b] + rest);
    RenderCons(b, rest);
  }

  /** The stored text of a piece, a stretch, a piece, and the rest. */
  lemma FlatAround(a: Piece, mid: seq<Piece>, b: Piece, rest: seq<Piece>)
    ensures Flat([a] + (mid + ([b] + rest))) == Stored(a) + (Flat(mid) + (Stored(b) + Flat(rest)))
  {
    assert ([a] + (mid + ([b] + rest)))[1..] == mid + ([b] + rest);
    FlatConcat(mid, [b] + rest);
    assert ([b] + rest)[1..] == rest;
  }

  /** Expanding tags never changes the stored text. */
  lemma {:induction false} ExpandKeepsFlat(ps: seq<Piece>, S: set<Tag>)
    ensures Flat(Expand(ps, S)) == Flat(ps)
  {
    if ps != [] {
      ExpandKeepsFlat(ps[1..], S);
      var head := ExpandOne(ps[0], S);
      FlatConcat(head, Expand(ps[1..], S));
      if ps[0].T? && ps[0].tag in S {
        CharsRender(Marker(ps[0].tag));
      }
    }
  }

  /** Expanding tags that do not occur changes nothing. */
  lemma {:induction false} ExpandAbsent(ps: seq<Piece>, S: set<Tag>)
    requires forall i :: 0 <= i < |ps| && ps[i].T? ==> ps[i].tag !in S
    ensures Expand(ps, S) == ps
  {
    if ps != [] {
      ExpandAbsent(ps[1..], S);
    }
  }

  /** Expansion removes the expanded tags and brings in only marker characters. */
  lemma {:induction false} ExpandTags(ps: seq<Piece>, S: set<Tag>, U: set<Tag>, x: char)
    requires TagsWithin(ps, U) && NoCh(ps, x)
    requires forall t :: t in S ==> x !in Marker(t)
    ensures TagsWithin(Expand(ps, S), U - S) && NoCh(Expand(ps, S), x)
  {
    if ps != [] {
      ExpandTags(ps[1..], S, U, x);
      var head := ExpandOne(ps[0], S);
      assert Expand(ps, S) == head + Expand(ps[1..], S);
      if ps[0].T? && ps[0].tag in S {
        assert x !in Marker(ps[0].tag);
      }
    }
  }

  // Facts about the tag texts.

  /** Every tag text is `<`, then at least three characters none of which is `<`, `*`, `&`
      or a line terminator. */
  lemma TagTextShape(t: Tag)
    ensures |TagText(t)| >= 4 && TagText(t)[0] == '<'
    ensures forall i :: 1 <= i < |TagText(t)| ==> TagText(t)[i] != '<' && TagText(t)[i] != '*'
    ensures forall i :: 0 <= i < |TagText(t)| ==> TagText(t)[i] != '&' && !IsLineTerminator(TagText(t)[i])
  {
  }

  /** The tag `t` and a word `w` that starts with `<` disagree within their first three
      characters, letters compared without case. */
  predicate Differs(t: Tag, w: string) {
    |w| >= 3 && !(CharEq(TagText(t)[1], w[1], true) && CharEq(TagText(t)[2], w[2], true))
  }

  /** Distinct tags are told apart by their second and third characters. */
  lemma TagsDiffer(t: Tag, u: Tag)
    requires t != u
    ensures Differs(t, TagText(u))
  {
  }

  /** No tag the encoder writes is a `<b>`, `<i>`, `<p>` or `</p>` tag. */
  lemma OtherTagsDiffer(t: Tag)
    ensures Differs(t, "<b>") && Differs(t, "<i>") && Differs(t, "<p>") && Differs(t, "</p>")
  {
  }

  /** Only `<br>` is a line break tag. */
  lemma BreakDiffers(t: Tag)
    requires t != Br
    ensures Differs(t, "<br")
  {
  }

  // Rules whose every match starts with `<`.

  /** The word every match of `p` starts with. */
  function Opener(p: Pattern): string {
    match p
    case Pair(o, _, _, _, _, _) => o
    case Literal(w, _, _) => w
    case BreakTag(_) => "<br"
    case AnyTag => "<"
    case HyphenRun => "--"
  }

  /** A case-insensitive tag rule: a pair, a word or a line break whose opener starts with `<`. */
  predicate AngleRule(p: Pattern) {
    && WellFormed(p)
    && (p.Pair? || p.Literal? || p.BreakTag?)
    && (p.Pair? ==> p.ignoreCase)
    && (p.Literal? ==> p.ignoreCase)
    && |Opener(p)| >= 3 && Opener(p)[0] == '<'
  }

  lemma MatchNeedsOpener(p: Pattern, t: string)
    requires AngleRule(p)
    ensures MatchAt(p, t).Some? ==> StartsWith(t, Opener(p), true)
  {
  }

  /** A tag rule matches nowhere but at a `<`. */
  lemma NoMatchOffAngle(p: Pattern, t: string)
    requires AngleRule(p) && t != [] && t[0] != '<'
    ensures MatchAt(p, t).None?
  {
    MatchNeedsOpener(p, t);
    assert !CharEq(t[0], Opener(p)[0], true);
  }

  /** A tag rule does not match at a tag its opener differs from. */
  lemma NoMatchAtOtherTag(p: Pattern, t: Tag, rest: string)
    requires AngleRule(p) && Differs(t, Opener(p))
    ensures MatchAt(p, TagText(t) + rest).None?
  {
    var s := TagText(t) + rest;
    TagTextShape(t);
    MatchNeedsOpener(p, s);
    assert s[1] == TagText(t)[1] && s[2] == TagText(t)[2];
    assert !(CharEq(s[1], Opener(p)[1], true) && CharEq(s[2], Opener(p)[2], true));
  }

  /** A tag rule matches at none of the first `n` characters when none of them is `<`. */
  lemma {:induction false} NoMatchWithoutAngle(p: Pattern, t: string, n: nat)
    requires AngleRule(p) && n <= |t|
    requires forall i :: 0 <= i < n ==> t[i] != '<'
    ensures NoMatchWithin(p, t, n)
    decreases n
  {
    if n > 0 {
      NoMatchOffAngle(p, t);
      NoMatchWithoutAngle(p, t[1..], n - 1);
    }
  }

  /** What the rule `p` does at the tag `t`: replace it by what it stands for when `t` is
      in `S`, leave it alone otherwise. */
  ghost predicate Acts(p: Pattern, t: Tag, S: set<Tag>)
    requires WellFormed(p)
  {
    if t in S then forall rest :: MatchAt(p, TagText(t) + rest) == Some(Hit(|TagText(t)|, Marker(t)))
    else forall rest :: MatchAt(p, TagText(t) + rest).None?
  }

  /** A rule that matches nowhere inside a tag's text, and not at its start either, copies
      the tag as it is. */
  lemma SkipTag(p: Pattern, t: Tag, rest: string)
    requires AngleRule(p) && MatchAt(p, TagText(t) + rest).None?
    ensures Replace(p, TagText(t) + rest) == TagText(t) + Replace(p, rest)
  {
    var s := TagText(t) + rest;
    var n := |TagText(t)|;
    TagTextShape(t);
    NoMatchWithoutAngle(p, s[1..], n - 1);
    assert NoMatchWithin(p, s, n);
    ReplaceSkip(p, s, n);
    assert s[..n] == TagText(t) && s[n..] == rest;
  }

  /** A rule copies a character other than `<`, and a tag its opener differs from. */
  lemma ReplaceHead(p: Pattern, q: Piece, x: string)
    requires AngleRule(p) && q != Ch('<')
    requires q.T? ==> Differs(q.tag, Opener(p))
    ensures Replace(p, Show(q) + x) == Show(q) + Replace(p, x)
  {
    match q
    case Ch(c) =>
      NoMatchOffAngle(p, Show(q) + x);
      ReplaceCopies(p, Show(q) + x);
      assert (Show(q) + x)[1..] == x;
    case T(tag) =>
      NoMatchAtOtherTag(p, tag, x);
      SkipTag(p, tag, x);
  }

  /** A rule that acts on each tag as `Acts` says replaces exactly the tags of `S`. */
  lemma {:induction false} ReplaceActs(p: Pattern, ps: seq<Piece>, S: set<Tag>)
    requires AngleRule(p) && NoCh(ps, '<')
    requires forall i :: 0 <= i < |ps| && ps[i].T? ==> Acts(p, ps[i].tag, S)
    ensures Replace(p, Render(ps)) == Render(Expand(ps, S))
  {
    if ps != [] {
      var q, rest := ps[0], ps[1..];
      var t := Render(ps);
      ReplaceActs(p, rest, S);
      assert Expand(ps, S) == ExpandOne(q, S) + Expand(rest, S);
      match q
      case Ch(c) =>
        NoMatchOffAngle(p, t);
        ReplaceCopies(p, t);
        RenderCons(q, Expand(rest, S));
      case T(tag) =>
        if tag in S {
          assert MatchAt(p, TagText(tag) + Render(rest)) == Some(Hit(|TagText(tag)|, Marker(tag)));
          ReplaceTakes(p, t, Hit(|TagText(tag)|, Marker(tag)));
          assert t[|TagText(tag)|..] == Render(rest);
          CharsRender(Marker(tag));
          RenderConcat(Chars(Marker(tag)), Expand(rest, S));
        } else {
          SkipTag(p, tag, Render(rest));
          RenderCons(q, Expand(rest, S));
        }
    }
  }

  // Pairs of tags.

  /** Scanning `ps` for `o … c` pairs from the state `inside`: the state at the end, or
      nothing when an `o` comes inside a pair, a `c` outside one, or a line terminator
      inside one. */
  function PairState(ps: seq<Piece>, o: Tag, c: Tag, inside: bool): Option<bool> {
    if ps == [] then Some(inside)
    else match ps[0]
      case Ch(x) => if inside && IsLineTerminator(x) then None else PairState(ps[1..], o, c, inside)
      case T(t) =>
        if t == o then (if inside then None else PairState(ps[1..], o, c, true))
        else if t == c then (if inside then PairState(ps[1..], o, c, false) else None)
        else PairState(ps[1..], o, c, inside)
  }

  /** `o` and `c` tags alternate, starting with an `o`, every pair is closed, and no pair
      holds a line terminator. */
  predicate Paired(ps: seq<Piece>, o: Tag, c: Tag) {
    PairState(ps, o, c, false) == Some(false)
  }

  lemma {:induction false} PairStateConcat(a: seq<Piece>, b: seq<Piece>, o: Tag, c: Tag, st: bool)
    ensures PairState(a + b, o, c, st) ==
            (match PairState(a, o, c, st) case Some(st') => PairState(b, o, c, st') case None => None)
  {
    if a == [] {
      assert a + b == b;
    } else {
      assert (a + b)[1..] == a[1..] + b;
      assert (a + b)[0] == a[0];
      match a[0]
      case Ch(x) =>
        PairStateConcat(a[1..], b, o, c, st);
      case T(t) =>
        if t == o {
          PairStateConcat(a[1..], b, o, c, true);
        } else if t == c {
          PairStateConcat(a[1..], b, o, c, false);
        } else {
          PairStateConcat(a[1..], b, o, c, st);
        }
    }
  }

  /** A stretch with neither `o` nor `c`, and no line terminator when inside a pair, leaves
      the state as it is. */
  lemma {:induction false} PairStateQuiet(ps: seq<Piece>, o: Tag, c: Tag, st: bool)
    requires forall i :: 0 <= i < |ps| ==> ps[i] != T(o) && ps[i] != T(c)
    requires st ==> NoLineBreakCh(ps)
    ensures PairState(ps, o, c, st) == Some(st)
  {
    if ps != [] {
      PairStateQuiet(ps[1..], o, c, st);
    }
  }

  /** Expanding bold and italic tags other than `o` and `c` does not change the pairing of
      `o` and `c`. */
  lemma {:induction false} PairStateExpand(ps: seq<Piece>, S: set<Tag>, o: Tag, c: Tag, st: bool)
    requires o !in S && c !in S
    requires forall t :: t in S ==> t.Strong? || t.Em?
    ensures PairState(Expand(ps, S), o, c, st) == PairState(ps, o, c, st)
  {
    if ps != [] {
      var head := ExpandOne(ps[0], S);
      PairStateConcat(head, Expand(ps[1..], S), o, c, st);
      if ps[0].T? && ps[0].tag in S {
        PairStateQuiet(head, o, c, st);
        PairStateExpand(ps[1..], S, o, c, st);
      } else {
        assert head == [ps[0]];
        assert PairState(head, o, c, st) == PairState(ps[..1], o, c, st);
        PairStateConcat(ps[..1], ps[1..], o, c, st);
        assert ps[..1] + ps[1..] == ps;
        match PairState(head, o, c, st)
        case Some(st') =>
          PairStateExpand(ps[1..], S, o, c, st');
        case None =>
      }
    }
  }

  /** Pieces whose text characters hold no line terminator render without one. */
  lemma {:induction false} RenderClear(ps: seq<Piece>)
    requires NoLineBreakCh(ps)
    ensures NoLineTerminator(Render(ps))
  {
    if ps != [] {
      RenderClear(ps[1..]);
      if ps[0].T? {
        TagTextShape(ps[0].tag);
      }
    }
  }

  lemma OccursShift(a: string, b: string, j: nat, w: string, ci: bool)
    ensures OccursAt(a + b, |a| + j, w, ci) <==> OccursAt(b, j, w, ci)
  {
    forall i | 0 <= i < |w| && j + i < |b|
      ensures CharEq((a + b)[|a| + j + i], w[i], ci) == CharEq(b[j + i], w[i], ci)
    {
    }
  }

  lemma OccursSelf(a: string, w: string, b: string, ci: bool)
    ensures OccursAt(a + (w + b), |a|, w, ci)
  {
    forall i | 0 <= i < |w| ensures (a + (w + b))[|a| + i] == w[i] {
    }
  }

  /** The closing tag `c` occurs nowhere in the markup of pieces that hold no `c` tag and
      no `<` character, whatever follows them. */
  lemma {:induction false} NoCloseInside(mid: seq<Piece>, rest: string, c: Tag)
    requires NoCh(mid, '<')
    requires forall i :: 0 <= i < |mid| ==> mid[i] != T(c)
    ensures forall j :: 0 <= j < |Render(mid)| ==> !OccursAt(Render(mid) + rest, j, TagText(c), true)
  {
    if mid != [] {
      var q := mid[0];
      var tail := Render(mid[1..]) + rest;
      var w := TagText(c);
      assert Render(mid) + rest == Show(q) + tail;
      assert forall j :: 0 <= j < |Render(mid[1..])| ==> !OccursAt(tail, j, w, true) by {
        NoCloseInside(mid[1..], rest, c);
      }
      assert forall j :: 0 <= j < |Show(q)| ==> !OccursAt(Show(q) + tail, j, w, true) by {
        NoCloseInHead(q, tail, c);
      }
      forall j | |Show(q)| <= j < |Render(mid)| ensures !OccursAt(Show(q) + tail, j, w, true) {
        OccursShift(Show(q), tail, j - |Show(q)|, w, true);
      }
    }
  }

  /** ... the step for one piece. */
  lemma NoCloseInHead(q: Piece, tail: string, c: Tag)
    requires q != Ch('<') && q != T(c)
    ensures forall j :: 0 <= j < |Show(q)| ==> !OccursAt(Show(q) + tail, j, TagText(c), true)
  {
    var w := TagText(c);
    var s := Show(q) + tail;
    TagTextShape(c);
    forall j | 0 <= j < |Show(q)| ensures !OccursAt(s, j, w, true) {
      if j == 0 {
        match q
        case Ch(x) =>
          assert !CharEq(s[0], w[0], true);
        case T(t) =>
          TagsDiffer(t, c);
          assert !(CharEq(s[1], w[1], true) && CharEq(s[2], w[2], true));
      } else {
        TagTextShape(q.tag);
        assert !CharEq(s[j], w[0], true);
      }
    }
  }

  /** The decoding rule for a pair of tags, on rendered pieces whose pairs alternate. */
  function PairRule(o: Tag, c: Tag): Pattern {
    Pair(TagText(o), TagText(c), 0, true, Marker(o), Marker(c))
  }

  /** At an opening word followed by a payload of at least `min` characters without a line
      terminator, and then by the first closing word after that, a pair pattern matches
      exactly up to that closing word. */
  lemma PairHitMatch(ot: string, ct: string, min: nat, ci: bool, mo: string, mc: string, m: string, rest: string)
    requires ot != [] && min <= |m| && NoLineTerminator(m)
    requires forall j :: min <= j < |m| ==> !OccursAt(m + (ct + rest), j, ct, ci)
    ensures MatchAt(Pair(ot, ct, min, ci, mo, mc), ot + (m + (ct + rest))) ==
            Some(Hit(|ot| + |m| + |ct|, mo + m + mc))
  {
    var t := ot + (m + (ct + rest));
    var n := |ot|;
    var at := n + |m|;
    assert StartsWith(t, ot, ci) by {
      StartsWithSelf(ot, m + (ct + rest), ci);
    }
    assert Clear(t, n, at) by {
      forall i | n <= i < at ensures t[i] == m[i - n] {
      }
    }
    assert OccursAt(t, at, ct, ci) by {
      OccursSelf(ot + m, ct, rest, ci);
      assert ot + m + (ct + rest) == t;
    }
    assert forall j :: n + min <= j < at ==> !OccursAt(t, j, ct, ci) by {
      forall j | n + min <= j < at ensures !OccursAt(t, j, ct, ci) {
        OccursShift(ot, m + (ct + rest), j - n, ct, ci);
      }
    }
    MatchPairFound(t, ot, ct, min, ci, mo, mc, at);
    assert t[n..at] == m;
  }

  /** ... and the scan moves on after the closing word. */
  lemma PairHit(ot: string, ct: string, min: nat, ci: bool, mo: string, mc: string, m: string, rest: string)
    requires ot != [] && min <= |m| && NoLineTerminator(m)
    requires forall j :: min <= j < |m| ==> !OccursAt(m + (ct + rest), j, ct, ci)
    ensures Replace(Pair(ot, ct, min, ci, mo, mc), ot + (m + (ct + rest))) ==
            mo + m + mc + Replace(Pair(ot, ct, min, ci, mo, mc), rest)
  {
    var t := ot + (m + (ct + rest));
    var h := Hit(|ot| + |m| + |ct|, mo + m + mc);
    PairHitMatch(ot, ct, min, ci, mo, mc, m, rest);
    ReplaceTakes(Pair(ot, ct, min, ci, mo, mc), t, h);
    assert t[h.len..] == rest;
  }

  lemma StartsWithSelf(w: string, rest: string, ci: bool)
    ensures StartsWith(w + rest, w, ci)
  {
    forall i | 0 <= i < |w| ensures (w + rest)[i] == w[i] {
    }
  }

  /** The markup of a pair and what follows it. */
  lemma RenderPair(o: Tag, c: Tag, mid: seq<Piece>, after: seq<Piece>)
    ensures Render([T(o)] + (mid + ([T(c)] + after))) == TagText(o) + (Render(mid) + (TagText(c) + Render(after)))
  {
    RenderCons(T(o), mid + ([T(c)] + after));
    RenderConcat(mid, [T(c)] + after);
    RenderCons(T(c), after);
  }

  /** Expanding a pair whose inside holds neither tag. */
  lemma ExpandPair(o: Tag, c: Tag, mid: seq<Piece>, after: seq<Piece>)
    requires forall i :: 0 <= i < |mid| ==> mid[i] != T(o) && mid[i] != T(c)
    ensures Render(Expand([T(o)] + (mid + ([T(c)] + after)), {o, c})) ==
            Marker(o) + Render(mid) + Marker(c) + Render(Expand(after, {o, c}))
  {
    var S := {o, c};
    var e := Expand(after, S);
    var co, cc := Chars(Marker(o)), Chars(Marker(c));
    assert Render(Expand([T(o)] + (mid + ([T(c)] + after)), S)) == Render(co) + (Render(mid) + (Render(cc) + Render(e))) by {
      ExpandPairPieces(o, c, mid, after);
      RenderFour(co, mid, cc, e);
    }
    CharsRender(Marker(o));
    CharsRender(Marker(c));
    Regroup(Marker(o), Render(mid), Marker(c), Render(e));
  }

  /** Four stretches joined from the right are joined from the left. */
  lemma Regroup(a: string, b: string, c: string, d: string)
    ensures a + (b + (c + d)) == a + b + c + d
  {
  }

  /** The pieces of an expanded pair: its two markers as characters around the inside. */
  lemma ExpandPairPieces(o: Tag, c: Tag, mid: seq<Piece>, after: seq<Piece>)
    requires forall i :: 0 <= i < |mid| ==> mid[i] != T(o) && mid[i] != T(c)
    ensures Expand([T(o)] + (mid + ([T(c)] + after)), {o, c})
            == Chars(Marker(o)) + (mid + (Chars(Marker(c)) + Expand(after, {o, c})))
  {
    var S := {o, c};
    var co, cc, e := Chars(Marker(o)), Chars(Marker(c)), Expand(after, S);
    assert forall i :: 0 <= i < |mid| && mid[i].T? ==> mid[i].tag !in S;
    calc {
      Expand([T(o)] + (mid + ([T(c)] + after)), S);
      { ExpandConcat([T(o)], mid + ([T(c)] + after), S); }
      Expand([T(o)], S) + Expand(mid + ([T(c)] + after), S);
      { ExpandSingle(o, S); ExpandConcat(mid, [T(c)] + after, S); ExpandAbsent(mid, S); }
      co + (mid + Expand([T(c)] + after, S));
      { ExpandConcat([T(c)], after, S); ExpandSingle(c, S); }
      co + (mid + (cc + e));
    }
  }

  /** A lone tag of `S` expands to the characters it stands for. */
  lemma ExpandSingle(t: Tag, S: set<Tag>)
    requires t in S
    ensures Expand([T(t)], S) == Chars(Marker(t))
  {
    assert [T(t)][1..] == [];
  }

  /** Rendering four stretches one after the other. */
  lemma RenderFour(a: seq<Piece>, b: seq<Piece>, c: seq<Piece>, d: seq<Piece>)
    ensures Render(a + (b + (c + d))) == Render(a) + (Render(b) + (Render(c) + Render(d)))
  {
    RenderConcat(a, b + (c + d));
    RenderConcat(b, c + d);
    RenderConcat(c, d);
  }

  /** Where `o … c` pairs alternate, the pair rule replaces exactly the `o` and `c` tags by
      what they stand for. */
  lemma {:induction false} ReplacePairs(ps: seq<Piece>, o: Tag, c: Tag)
    requires o != c && NoCh(ps, '<') && Paired(ps, o, c)
    ensures Replace(PairRule(o, c), Render(ps)) == Render(Expand(ps, {o, c}))
    decreases |ps|, 1
  {
    if ps != [] {
      if ps[0] == T(o) {
        ReplacePairsAtOpen(ps, o, c);
      } else {
        ReplacePairsElsewhere(ps, o, c);
      }
    }
  }

  /** ... the step at an opening tag: the whole pair at once. */
  lemma {:induction false} ReplacePairsAtOpen(ps: seq<Piece>, o: Tag, c: Tag)
    requires o != c && NoCh(ps, '<') && Paired(ps, o, c) && ps != [] && ps[0] == T(o)
    ensures Replace(PairRule(o, c), Render(ps)) == Render(Expand(ps, {o, c}))
    decreases |ps|, 0
  {
    var p := PairRule(o, c);
    var mid, after := SplitAtClose(ps, o, c);
    var m := Render(mid);
    assert Render(ps) == TagText(o) + (m + (TagText(c) + Render(after))) by {
      RenderPair(o, c, mid, after);
    }
    assert Replace(p, Render(ps)) == Marker(o) + m + Marker(c) + Replace(p, Render(after)) by {
      TagTextShape(o);
      RenderClear(mid);
      NoCloseInside(mid, TagText(c) + Render(after), c);
      PairHit(TagText(o), TagText(c), 0, true, Marker(o), Marker(c), m, Render(after));
    }
    ReplacePairs(after, o, c);
    ExpandPair(o, c, mid, after);
  }

  /** A sequence that starts with an opening tag splits at the closing tag of that pair. */
  lemma SplitAtClose(ps: seq<Piece>, o: Tag, c: Tag) returns (mid: seq<Piece>, after: seq<Piece>)
    requires NoCh(ps, '<') && Paired(ps, o, c) && ps != [] && ps[0] == T(o)
    ensures ps == [T(o)] + (mid + ([T(c)] + after))
    ensures NoCh(mid, '<') && NoLineBreakCh(mid)
    ensures forall i :: 0 <= i < |mid| ==> mid[i] != T(o) && mid[i] != T(c)
    ensures NoCh(after, '<') && Paired(after, o, c)
  {
    assert NoCh(ps[1..], '<');
    mid, after := SplitInside(ps[1..], o, c);
  }

  /** Inside a pair: the pieces up to the closing tag, and those after it. */
  lemma {:induction false} SplitInside(rs: seq<Piece>, o: Tag, c: Tag) returns (mid: seq<Piece>, after: seq<Piece>)
    requires NoCh(rs, '<') && PairState(rs, o, c, true) == Some(false)
    ensures rs == mid + ([T(c)] + after)
    ensures NoCh(mid, '<') && NoLineBreakCh(mid)
    ensures forall i :: 0 <= i < |mid| ==> mid[i] != T(o) && mid[i] != T(c)
    ensures NoCh(after, '<') && Paired(after, o, c)
  {
    if rs[0] == T(c) {
      mid, after := [], rs[1..];
      assert rs == mid + ([T(c)] + after);
    } else {
      assert NoCh(rs[1..], '<');
      var m, a := SplitInside(rs[1..], o, c);
      mid, after := [rs[0]] + m, a;
      assert rs == [rs[0]] + rs[1..];
    }
  }

  /** ... the step at any other piece: it is copied. */
  lemma {:induction false} ReplacePairsElsewhere(ps: seq<Piece>, o: Tag, c: Tag)
    requires o != c && NoCh(ps, '<') && Paired(ps, o, c) && ps != [] && ps[0] != T(o)
    ensures Replace(PairRule(o, c), Render(ps)) == Render(Expand(ps, {o, c}))
    decreases |ps|, 0
  {
    var p := PairRule(o, c);
    var q, rest := ps[0], ps[1..];
    assert Replace(p, Render(ps)) == Show(q) + Replace(p, Render(rest)) by {
      TagTextShape(o);
      RenderCons(q, rest);
      assert ps == [q] + rest;
      if q.T? {
        TagsDiffer(q.tag, o);
      }
      ReplaceHead(p, q, Render(rest));
    }
    ReplacePairs(rest, o, c);
    assert Render(Expand(ps, {o, c})) == Show(q) + Render(Expand(rest, {o, c})) by {
      assert Expand(ps, {o, c}) == [q] + Expand(rest, {o, c});
      RenderCons(q, Expand(rest, {o, c}));
    }
  }
}
