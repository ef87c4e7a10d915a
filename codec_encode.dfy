/**
 * What the encoding passes write, as pieces. The bold pass turns each `**x**` it finds
 * into a `<strong>` pair around the characters of `x`; the italic pass then turns each
 * `*x*` into an `<em>` pair. `setEditorContent` puts every line in a `<div>` pair, an
 * empty line holding a `<br>`.
 *
 * The pieces written render to exactly the markup the passes produce, stand for exactly
 * the text that went in, and hold their tags in well-nested pairs that never span a line.
 */
module CodecEncode {
  import opened JsText
  import opened JsRegex
  import opened EditorCodec
  import opened CodecPieces

  // The bold pass.

  /** The pieces the bold pass writes for `t`. */
  function BoldPieces(t: string): seq<Piece>
    decreases |t|
  {
    if t == [] then []
    else match MatchAt(BoldRule, t)
      case Some(h) =>
        [T(Strong(false))] + (Chars(t[2..h.len - 2]) + ([T(Strong(true))] + BoldPieces(t[h.len..])))
      case None => [Ch(t[0])] + BoldPieces(t[1..])
  }

  /** A bold match is `**`, a payload without line terminator, and `**`. */
  lemma BoldHit(t: string, h: Hit)
    requires MatchAt(BoldRule, t) == Some(h)
    ensures 5 <= h.len <= |t|
    ensures t[..h.len] == "**" + t[2..h.len - 2] + "**"
    ensures NoLineTerminator(t[2..h.len - 2])
    ensures h.out == "<strong>" + t[2..h.len - 2] + "</strong>"
  {
    MatchPairSpec(t, "**", "**", 1, false, "<strong>", "</strong>");
    assert t[0] == '*' && t[1] == '*' && t[h.len - 2] == '*' && t[h.len - 1] == '*';
    assert forall i :: 2 <= i < h.len - 2 ==> t[i] == t[2..h.len - 2][i - 2];
  }

  /** The bold pieces render to what the bold pass writes. */
  lemma {:induction false} BoldRender(t: string)
    ensures Render(BoldPieces(t)) == Replace(BoldRule, t)
    decreases |t|
  {
    if t != [] {
      match MatchAt(BoldRule, t) {
        case Some(h) =>
          BoldRender(t[h.len..]);
          BoldRenderHit(t, h);
        case None =>
          BoldRender(t[1..]);
          BoldRenderMiss(t);
      }
    }
  }

  /** ... the step at a bold match. */
  lemma BoldRenderHit(t: string, h: Hit)
    requires MatchAt(BoldRule, t) == Some(h)
    requires Render(BoldPieces(t[h.len..])) == Replace(BoldRule, t[h.len..])
    ensures Render(BoldPieces(t)) == Replace(BoldRule, t)
  {
    var x, tail := t[2..h.len - 2], t[h.len..];
    assert Replace(BoldRule, t) == "<strong>" + x + "</strong>" + Replace(BoldRule, tail) by {
      BoldHit(t, h);
      ReplaceTakes(BoldRule, t, h);
    }
    assert BoldPieces(t) == BoldPair(x, BoldPieces(tail)) by {
      BoldUnfold(t, h);
    }
    BoldPairRender(x, BoldPieces(tail));
  }

  /** ... the step where the bold pattern does not match. */
  lemma BoldRenderMiss(t: string)
    requires t != [] && MatchAt(BoldRule, t).None?
    requires Render(BoldPieces(t[1..])) == Replace(BoldRule, t[1..])
    ensures Render(BoldPieces(t)) == Replace(BoldRule, t)
  {
    ReplaceCopies(BoldRule, t);
    assert BoldPieces(t) == [Ch(t[0])] + BoldPieces(t[1..]);
    RenderCons(Ch(t[0]), BoldPieces(t[1..]));
  }

  /** The bold pieces stand for the text they were made from. */
  lemma {:induction false} BoldFlat(t: string)
    ensures Flat(BoldPieces(t)) == t
    decreases |t|
  {
    if t != [] {
      match MatchAt(BoldRule, t) {
        case Some(h) =>
          BoldFlat(t[h.len..]);
          BoldFlatHit(t, h);
        case None =>
          BoldFlat(t[1..]);
          assert BoldPieces(t) == [Ch(t[0])] + BoldPieces(t[1..]);
          FlatConcat([Ch(t[0])], BoldPieces(t[1..]));
          assert t == [t[0]] + t[1..];
      }
    }
  }

  /** ... the step at a bold match. */
  lemma BoldFlatHit(t: string, h: Hit)
    requires MatchAt(BoldRule, t) == Some(h)
    requires Flat(BoldPieces(t[h.len..])) == t[h.len..]
    ensures Flat(BoldPieces(t)) == t
  {
    var x, tail := t[2..h.len - 2], t[h.len..];
    assert BoldPieces(t) == BoldPair(x, BoldPieces(tail)) by {
      BoldUnfold(t, h);
    }
    assert t == "**" + x + "**" + tail by {
      BoldHit(t, h);
      assert t == t[..h.len] + tail;
    }
    BoldPairFlat(x, BoldPieces(tail));
  }

  /** A `<strong>` pair around the characters of `x`, followed by `rest`. */
  function BoldPair(x: string, rest: seq<Piece>): seq<Piece> {
    [T(Strong(false))] + (Chars(x) + ([T(Strong(true))] + rest))
  }

  lemma BoldUnfold(t: string, h: Hit)
    requires MatchAt(BoldRule, t) == Some(h)
    ensures 4 <= h.len && BoldPieces(t) == BoldPair(t[2..h.len - 2], BoldPieces(t[h.len..]))
  {
  }

  lemma BoldPairFlat(x: string, rest: seq<Piece>)
    ensures Flat(BoldPair(x, rest)) == "**" + x + "**" + Flat(rest)
  {
    FlatAround(T(Strong(false)), Chars(x), T(Strong(true)), rest);
    CharsRender(x);
  }

  lemma BoldPairRender(x: string, rest: seq<Piece>)
    ensures Render(BoldPair(x, rest)) == "<strong>" + x + "</strong>" + Render(rest)
  {
    RenderAround(T(Strong(false)), Chars(x), T(Strong(true)), rest);
    CharsRender(x);
  }

  /** The bold pieces hold only `<strong>` pairs, each closed on its own line, and only
      characters of `t`. */
  lemma {:induction false} BoldShape(t: string, x: char)
    requires x !in t
    ensures Paired(BoldPieces(t), Strong(false), Strong(true))
    ensures TagsWithin(BoldPieces(t), {Strong(false), Strong(true)})
    ensures NoCh(BoldPieces(t), x)
    decreases |t|
  {
    if t != [] {
      match MatchAt(BoldRule, t) {
        case Some(h) =>
          assert x !in t[h.len..] by {
            assert forall i :: 0 <= i < |t[h.len..]| ==> t[h.len..][i] == t[h.len + i];
          }
          BoldShape(t[h.len..], x);
          BoldShapeHit(t, h, x);
        case None =>
          assert x !in t[1..] by {
            assert forall i :: 0 <= i < |t[1..]| ==> t[1..][i] == t[1 + i];
          }
          BoldShape(t[1..], x);
          assert BoldPieces(t) == [Ch(t[0])] + BoldPieces(t[1..]);
          PairStateConcat([Ch(t[0])], BoldPieces(t[1..]), Strong(false), Strong(true), false);
      }
    }
  }

  /** ... the step at a bold match. */
  lemma BoldShapeHit(t: string, h: Hit, x: char)
    requires MatchAt(BoldRule, t) == Some(h) && x !in t
    requires Paired(BoldPieces(t[h.len..]), Strong(false), Strong(true))
    requires TagsWithin(BoldPieces(t[h.len..]), {Strong(false), Strong(true)})
    requires NoCh(BoldPieces(t[h.len..]), x)
    ensures Paired(BoldPieces(t), Strong(false), Strong(true))
    ensures TagsWithin(BoldPieces(t), {Strong(false), Strong(true)})
    ensures NoCh(BoldPieces(t), x)
  {
    var o, c := Strong(false), Strong(true);
    var y := t[2..h.len - 2];
    var rest := BoldPieces(t[h.len..]);
    assert NoLineTerminator(y) && x !in y by {
      BoldHit(t, h);
      assert forall i :: 0 <= i < |y| ==> y[i] == t[2 + i];
    }
    assert BoldPieces(t) == [T(o)] + (Chars(y) + ([T(c)] + rest));
    PairStateConcat([T(o)], Chars(y) + ([T(c)] + rest), o, c, false);
    PairStateConcat(Chars(y), [T(c)] + rest, o, c, true);
    PairStateQuiet(Chars(y), o, c, true);
    PairStateConcat([T(c)], rest, o, c, true);
  }

  // The italic pass, which runs over the markup the bold pass wrote.

  /** Index of the first `*` character, if one comes before any line terminator. */
  function StarFind(rs: seq<Piece>): (r: Option<nat>)
    ensures r.Some? ==> r.value < |rs| && rs[r.value] == Ch('*')
    ensures r.Some? ==> forall i :: 0 <= i < r.value ==> rs[i] != Ch('*') && !(rs[i].Ch? && IsLineTerminator(rs[i].c))
  {
    if rs == [] then None
    else if rs[0] == Ch('*') then Some(0)
    else if rs[0].Ch? && IsLineTerminator(rs[0].c) then None
    else match StarFind(rs[1..])
      case Some(j) => Some(j + 1)
      case None => None
  }

  /** Where the italic pass finds a `*x*` pair at the front of `qs`: the index of its closing
      `*`. */
  function ItalicClose(qs: seq<Piece>): Option<nat> {
    if |qs| >= 2 && qs[0] == Ch('*') && !(qs[1].Ch? && IsLineTerminator(qs[1].c)) then
      match StarFind(qs[2..])
      case Some(j) => Some(j + 2)
      case None => None
    else None
  }

  /** The pieces the italic pass writes over the markup of `qs`. */
  function ItalicPieces(qs: seq<Piece>): seq<Piece>
    decreases |qs|
  {
    if qs == [] then []
    else match ItalicClose(qs)
      case Some(j) => EmPair(qs[1..j], ItalicPieces(qs[j + 1..]))
      case None => [qs[0]] + ItalicPieces(qs[1..])
  }

  /** An `<em>` pair around `mid`, followed by `rest`. */
  function EmPair(mid: seq<Piece>, rest: seq<Piece>): seq<Piece> {
    [T(Em(false))] + (mid + ([T(Em(true))] + rest))
  }

  /** `mid` between two `*` characters, followed by `rest`. */
  function StarPair(mid: seq<Piece>, rest: seq<Piece>): seq<Piece> {
    [Ch('*')] + (mid + ([Ch('*')] + rest))
  }

  /** A payload the italic pass accepts: at least one piece, no line terminator, and no
      `*` after its first piece. */
  predicate Payload(mid: seq<Piece>) {
    mid != [] && NoLineBreakCh(mid) && NoCh(mid[1..], '*')
  }

  /** What `ItalicClose` finds: a star pair with a payload. */
  lemma ItalicUnfold(qs: seq<Piece>, j: nat)
    requires ItalicClose(qs) == Some(j)
    ensures 2 <= j < |qs| && qs == StarPair(qs[1..j], qs[j + 1..]) && Payload(qs[1..j])
    ensures ItalicPieces(qs) == EmPair(qs[1..j], ItalicPieces(qs[j + 1..]))
  {
    ItalicCloseFacts(qs, j);
    StarSplit(qs, j);
  }

  /** The characters `ItalicClose` looks at: a `*`, a piece that is not a line terminator,
      then neither stars nor line terminators up to the closing `*`. */
  lemma ItalicCloseFacts(qs: seq<Piece>, j: nat)
    requires ItalicClose(qs) == Some(j)
    ensures 2 <= j < |qs| && qs[0] == Ch('*') && qs[j] == Ch('*') && !(qs[1].Ch? && IsLineTerminator(qs[1].c))
    ensures forall i :: 2 <= i < j ==> qs[i] != Ch('*') && !(qs[i].Ch? && IsLineTerminator(qs[i].c))
  {
    var rs := qs[2..];
    var k := StarFind(rs).value;
    assert j == k + 2 && rs[k] == Ch('*');
    assert qs[j] == rs[k];
    forall i | 2 <= i < j
      ensures qs[i] != Ch('*') && !(qs[i].Ch? && IsLineTerminator(qs[i].c))
    {
      assert qs[i] == rs[i - 2];
    }
  }

  lemma StarSplit(qs: seq<Piece>, j: nat)
    requires 2 <= j < |qs| && qs[0] == Ch('*') && qs[j] == Ch('*') && !(qs[1].Ch? && IsLineTerminator(qs[1].c))
    requires forall i :: 2 <= i < j ==> qs[i] != Ch('*') && !(qs[i].Ch? && IsLineTerminator(qs[i].c))
    ensures qs == StarPair(qs[1..j], qs[j + 1..]) && Payload(qs[1..j])
  {
    var mid := qs[1..j];
    assert forall i :: 0 <= i < |mid| ==> mid[i] == qs[i + 1];
    assert forall i :: 0 <= i < |mid[1..]| ==> mid[1..][i] == qs[i + 2];
  }

  lemma ItalicUnfoldMiss(qs: seq<Piece>)
    requires qs != [] && ItalicClose(qs).None?
    ensures ItalicPieces(qs) == [qs[0]] + ItalicPieces(qs[1..])
  {
  }

  /** Markup of pieces without `*` characters holds no `*`. */
  lemma {:induction false} RenderNoStar(ps: seq<Piece>)
    requires NoCh(ps, '*')
    ensures '*' !in Render(ps)
  {
    if ps != [] {
      RenderNoStar(ps[1..]);
      if ps[0].T? {
        TagTextShape(ps[0].tag);
      }
    }
  }

  /** The markup of a piece other than `*` or a line terminator holds neither. */
  lemma ShowPlain(q: Piece)
    requires q != Ch('*') && !(q.Ch? && IsLineTerminator(q.c))
    ensures forall i :: 0 <= i < |Show(q)| ==> Show(q)[i] != '*' && !IsLineTerminator(Show(q)[i])
  {
    if q.T? {
      TagTextShape(q.tag);
    }
  }

  /** The markup of a payload holds no line terminator, and no `*` after its first
      character. */
  lemma PayloadMarkup(mid: seq<Piece>)
    requires Payload(mid)
    ensures var m := Render(mid);
            1 <= |m| && NoLineTerminator(m) && forall i :: 1 <= i < |m| ==> m[i] != '*'
  {
    var m := Render(mid);
    RenderClear(mid);
    RenderCons(mid[0], mid[1..]);
    assert mid == [mid[0]] + mid[1..];
    RenderNoStar(mid[1..]);
    if mid[0].T? {
      TagTextShape(mid[0].tag);
    }
    var n := |Show(mid[0])|;
    assert forall i :: n <= i < |m| ==> m[i] == Render(mid[1..])[i - n];
  }

  /** A `*` occurs at `j` only where the character is `*`. */
  lemma StarAt(t: string, j: nat)
    ensures OccursAt(t, j, "*", false) <==> j < |t| && t[j] == '*'
  {
    var w := "*";
    assert |w| == 1 && w[0] == '*';
    if j < |t| {
      assert t[j + 0] == t[j];
    }
  }

  /** The italic pattern does not match in the first `n` characters when none is `*`. */
  lemma {:induction false} NoStarWithin(t: string, n: nat)
    requires n <= |t| && forall i :: 0 <= i < n ==> t[i] != '*'
    ensures NoMatchWithin(ItalicRule, t, n)
    decreases n
  {
    if n > 0 {
      FirstCharNoMatch(ItalicRule, t);
      NoStarWithin(t[1..], n - 1);
    }
  }

  /** The lazy search for `*` passes over characters that are neither `*` nor a line
      terminator. */
  lemma {:induction false} LazyStarSkip(t: string, from: nat, to: nat)
    requires from <= to <= |t|
    requires forall i :: from <= i < to ==> t[i] != '*' && !IsLineTerminator(t[i])
    ensures LazyClose(t, from, "*", false) == LazyClose(t, to, "*", false)
    decreases |t| - from
  {
    if from < to {
      StarAt(t, from);
      LazyStarSkip(t, from + 1, to);
    }
  }

  /** Where the pieces after `pre` hold no `*` before a line terminator, the lazy search
      for `*` from the end of `pre` finds nothing. */
  lemma {:induction false} LazyStarNone(pre: string, rs: seq<Piece>)
    requires StarFind(rs).None?
    ensures LazyClose(pre + Render(rs), |pre|, "*", false).None?
    decreases |rs|
  {
    var t := pre + Render(rs);
    StarAt(t, |pre|);
    if rs != [] && !(rs[0].Ch? && IsLineTerminator(rs[0].c)) {
      var q := rs[0];
      var pre' := pre + Show(q);
      assert t == pre' + Render(rs[1..]) by {
        RenderCons(q, rs[1..]);
        assert rs == [q] + rs[1..];
      }
      LazyStarNone(pre', rs[1..]);
      assert LazyClose(t, |pre|, "*", false) == LazyClose(t, |pre'|, "*", false) by {
        ShowPlain(q);
        assert forall i :: |pre| <= i < |pre'| ==> t[i] == Show(q)[i - |pre|];
        LazyStarSkip(t, |pre|, |pre'|);
      }
    } else if rs != [] {
      RenderCons(rs[0], rs[1..]);
      assert rs == [rs[0]] + rs[1..];
      assert t[|pre|] == rs[0].c;
    }
  }

  /** The italic pattern does not match at a `*` whose payload would run into a line
      terminator before any `*`. */
  lemma ItalicMissAt(q: Piece, rs: seq<Piece>)
    requires !(q.Ch? && IsLineTerminator(q.c)) && StarFind(rs).None?
    ensures MatchAt(ItalicRule, "*" + (Show(q) + Render(rs))).None?
  {
    var t := "*" + (Show(q) + Render(rs));
    var pre := "*" + Show(q);
    assert t == pre + Render(rs);
    LazyStarNone(pre, rs);
    if q != Ch('*') {
      ShowPlain(q);
      assert forall i :: 2 <= i < |pre| ==> t[i] == Show(q)[i - 1];
      LazyStarSkip(t, 2, |pre|);
    }
    assert !IsLineTerminator(t[1]) by {
      if q.T? {
        TagTextShape(q.tag);
      }
    }
  }

  /** The italic pass finds no pair at the front of `qs` when `ItalicClose` finds none. */
  lemma ItalicMiss(qs: seq<Piece>)
    requires qs != [] && qs[0] == Ch('*') && ItalicClose(qs).None?
    ensures MatchAt(ItalicRule, Render(qs)).None?
  {
    RenderCons(qs[0], qs[1..]);
    assert qs == [qs[0]] + qs[1..];
    if |qs| >= 2 {
      RenderCons(qs[1], qs[2..]);
      assert qs[1..] == [qs[1]] + qs[2..];
      if !(qs[1].Ch? && IsLineTerminator(qs[1].c)) {
        ItalicMissAt(qs[1], qs[2..]);
      } else {
        assert Render(qs)[1] == qs[1].c;
      }
    }
  }

  /** The italic pass over a star pair with a payload. */
  lemma ItalicHit(mid: seq<Piece>, after: seq<Piece>)
    requires Payload(mid)
    ensures Replace(ItalicRule, Render(StarPair(mid, after))) ==
            "<em>" + Render(mid) + "</em>" + Replace(ItalicRule, Render(after))
  {
    var m := Render(mid);
    RenderAround(Ch('*'), mid, Ch('*'), after);
    PayloadMarkup(mid);
    forall i | 1 <= i < |m| ensures !OccursAt(m + ("*" + Render(after)), i, "*", false) {
      StarAt(m + ("*" + Render(after)), i);
    }
    PairHit("*", "*", 1, false, "<em>", "</em>", m, Render(after));
  }

  /** The italic pieces render to what the italic pass writes over the bold markup. */
  lemma {:induction false} ItalicRender(qs: seq<Piece>)
    ensures Replace(ItalicRule, Render(qs)) == Render(ItalicPieces(qs))
    decreases |qs|
  {
    if qs != [] {
      match ItalicClose(qs) {
        case Some(j) =>
          ItalicRender(qs[j + 1..]);
          ItalicRenderHit(qs, j);
        case None =>
          ItalicRender(qs[1..]);
          ItalicRenderMiss(qs);
      }
    }
  }

  /** ... the step at a pair. */
  lemma ItalicRenderHit(qs: seq<Piece>, j: nat)
    requires ItalicClose(qs) == Some(j)
    requires Replace(ItalicRule, Render(qs[j + 1..])) == Render(ItalicPieces(qs[j + 1..]))
    ensures Replace(ItalicRule, Render(qs)) == Render(ItalicPieces(qs))
  {
    ItalicUnfold(qs, j);
    var mid, after := qs[1..j], qs[j + 1..];
    ItalicHit(mid, after);
    RenderAround(T(Em(false)), mid, T(Em(true)), ItalicPieces(after));
  }

  /** ... the step at any other piece. */
  lemma ItalicRenderMiss(qs: seq<Piece>)
    requires qs != [] && ItalicClose(qs).None?
    requires Replace(ItalicRule, Render(qs[1..])) == Render(ItalicPieces(qs[1..]))
    ensures Replace(ItalicRule, Render(qs)) == Render(ItalicPieces(qs))
  {
    var t := Render(qs);
    ItalicUnfoldMiss(qs);
    RenderCons(qs[0], ItalicPieces(qs[1..]));
    RenderCons(qs[0], qs[1..]);
    assert qs == [qs[0]] + qs[1..];
    if qs[0] == Ch('*') {
      ItalicMiss(qs);
      ReplaceCopies(ItalicRule, t);
      assert t[1..] == Render(qs[1..]);
    } else {
      var n := |Show(qs[0])|;
      if qs[0].T? {
        TagTextShape(qs[0].tag);
      }
      assert forall i :: 0 <= i < n ==> t[i] == Show(qs[0])[i];
      NoStarWithin(t, n);
      ReplaceSkip(ItalicRule, t, n);
      assert t[..n] == Show(qs[0]) && t[n..] == Render(qs[1..]);
    }
  }

  /** The italic pieces stand for the same text. */
  lemma {:induction false} ItalicFlat(qs: seq<Piece>)
    ensures Flat(ItalicPieces(qs)) == Flat(qs)
    decreases |qs|
  {
    if qs != [] {
      match ItalicClose(qs) {
        case Some(j) =>
          ItalicUnfold(qs, j);
          var mid, after := qs[1..j], qs[j + 1..];
          ItalicFlat(after);
          FlatAround(Ch('*'), mid, Ch('*'), after);
          FlatAround(T(Em(false)), mid, T(Em(true)), ItalicPieces(after));
        case None =>
          ItalicUnfoldMiss(qs);
          ItalicFlat(qs[1..]);
          FlatConcat([qs[0]], ItalicPieces(qs[1..]));
          FlatConcat([qs[0]], qs[1..]);
          assert qs == [qs[0]] + qs[1..];
      }
    }
  }

  /** The italic pass adds `<em>` pairs, each closed on its own line, and keeps the other
      tags and characters. */
  lemma {:induction false} ItalicShape(qs: seq<Piece>, U: set<Tag>, x: char)
    requires TagsWithin(qs, U) && NoCh(qs, x) && x != '*'
    requires forall i :: 0 <= i < |qs| ==> !qs[i].T? || !qs[i].tag.Em?
    ensures Paired(ItalicPieces(qs), Em(false), Em(true))
    ensures TagsWithin(ItalicPieces(qs), U + {Em(false), Em(true)})
    ensures NoCh(ItalicPieces(qs), x)
    decreases |qs|
  {
    if qs != [] {
      match ItalicClose(qs) {
        case Some(j) =>
          ItalicUnfold(qs, j);
          ItalicShape(qs[j + 1..], U, x);
          ItalicShapeHit(qs[1..j], ItalicPieces(qs[j + 1..]), U, x);
        case None =>
          ItalicUnfoldMiss(qs);
          ItalicShape(qs[1..], U, x);
          PairStateConcat([qs[0]], ItalicPieces(qs[1..]), Em(false), Em(true), false);
      }
    }
  }

  /** ... the step at a pair. */
  lemma ItalicShapeHit(mid: seq<Piece>, rest: seq<Piece>, U: set<Tag>, x: char)
    requires Payload(mid) && TagsWithin(mid, U) && NoCh(mid, x)
    requires forall i :: 0 <= i < |mid| ==> !mid[i].T? || !mid[i].tag.Em?
    requires Paired(rest, Em(false), Em(true))
    requires TagsWithin(rest, U + {Em(false), Em(true)}) && NoCh(rest, x)
    ensures Paired(EmPair(mid, rest), Em(false), Em(true))
    ensures TagsWithin(EmPair(mid, rest), U + {Em(false), Em(true)})
    ensures NoCh(EmPair(mid, rest), x)
  {
    var eo, ec := Em(false), Em(true);
    PairStateConcat([T(eo)], mid + ([T(ec)] + rest), eo, ec, false);
    PairStateConcat(mid, [T(ec)] + rest, eo, ec, true);
    PairStateQuiet(mid, eo, ec, true);
    PairStateConcat([T(ec)], rest, eo, ec, true);
    var e := EmPair(mid, rest);
    assert forall i :: 1 <= i <= |mid| ==> e[i] == mid[i - 1];
    assert forall i :: |mid| + 2 <= i < |e| ==> e[i] == rest[i - |mid| - 2];
  }

  /** The italic pass leaves the pairing of `<strong>` tags as it was, from any state. */
  lemma {:induction false} ItalicStrongState(qs: seq<Piece>, st: bool)
    ensures PairState(ItalicPieces(qs), Strong(false), Strong(true), st) ==
            PairState(qs, Strong(false), Strong(true), st)
    decreases |qs|
  {
    if qs != [] {
      var o, c := Strong(false), Strong(true);
      match ItalicClose(qs) {
        case Some(j) =>
          ItalicUnfold(qs, j);
          var mid, after := qs[1..j], qs[j + 1..];
          match PairState(mid, o, c, st) {
            case Some(st') =>
              ItalicStrongState(after, st');
            case None =>
          }
          StrongStateAround(mid, after, ItalicPieces(after), st);
        case None =>
          ItalicUnfoldMiss(qs);
          PairStateConcat([qs[0]], ItalicPieces(qs[1..]), o, c, st);
          PairStateConcat([qs[0]], qs[1..], o, c, st);
          assert qs == [qs[0]] + qs[1..];
          match PairState([qs[0]], o, c, st) {
            case Some(st') =>
              ItalicStrongState(qs[1..], st');
            case None =>
          }
      }
    }
  }

  /** ... the step at a pair: `<em>` tags and `*` characters are alike to the pairing of
      `<strong>` tags. */
  lemma StrongStateAround(mid: seq<Piece>, after: seq<Piece>, rest: seq<Piece>, st: bool)
    requires forall st' :: PairState(mid, Strong(false), Strong(true), st) == Some(st') ==>
               PairState(rest, Strong(false), Strong(true), st') == PairState(after, Strong(false), Strong(true), st')
    ensures PairState(EmPair(mid, rest), Strong(false), Strong(true), st) ==
            PairState(StarPair(mid, after), Strong(false), Strong(true), st)
  {
    var o, c := Strong(false), Strong(true);
    PairStateConcat([T(Em(false))], mid + ([T(Em(true))] + rest), o, c, st);
    PairStateConcat([Ch('*')], mid + ([Ch('*')] + after), o, c, st);
    PairStateConcat(mid, [T(Em(true))] + rest, o, c, st);
    PairStateConcat(mid, [Ch('*')] + after, o, c, st);
    match PairState(mid, o, c, st) {
      case Some(st') =>
        PairStateConcat([T(Em(true))], rest, o, c, st');
        PairStateConcat([Ch('*')], after, o, c, st');
      case None =>
    }
  }
}
