/**
 * The load-then-save path of an editable text field: the stored text is put into the
 * editor by `setEditorContent` and read back by `getEditorContent`.
 *
 * The markup the editor receives is described by pieces: one block per line of the stored
 * text, a `<div>`, the line's formatted pieces (or a `<br>` for an empty line) and a
 * `</div>`. The decoder's rewrites are then followed one by one over those pieces: each
 * replaces its own tags by what they stand for, until only the text the pieces stand for
 * is left. That text is every line preceded by a line feed, with an empty line read back
 * as a line feed of its own, so a text comes back unchanged exactly when none of its
 * lines is empty, and an empty line comes back as two.
 */
module CodecRoundTrip {
  import opened JsText
  import opened JsRegex
  import opened EditorCodec
  import opened CodecPieces
  import opened CodecEncode

  /** One line after the bold pass and then the italic pass, as pieces. */
  function LinePieces(line: string): seq<Piece> {
    ItalicPieces(BoldPieces(line))
  }

  /** The editor block of one line: `<div>`, the formatted line or `<br>`, `</div>`. */
  function BlockPieces(line: string): seq<Piece> {
    [T(Div(false))] + (MidPieces(line) + [T(Div(true))])
  }

  /** The editor blocks of all lines, in order. */
  function EditorPieces(lines: seq<string>): seq<Piece> {
    if lines == [] then [] else BlockPieces(lines[0]) + EditorPieces(lines[1..])
  }

  /** How one editor line reads back: a line feed for the `<div>`, then the line, or a
      second line feed for the `<br>` of an empty line. */
  function LineAsRead(line: string): string {
    "\n" + (if line == [] then "\n" else line)
  }

  function LinesAsRead(lines: seq<string>): string {
    if lines == [] then [] else LineAsRead(lines[0]) + LinesAsRead(lines[1..])
  }

  /** The text with every empty line replaced by a line holding one line feed. */
  function Widen(lines: seq<string>): seq<string> {
    seq(|lines|, i requires 0 <= i < |lines| => if lines[i] == [] then "\n" else lines[i])
  }

  /** All lines are free of `<` and `&`. */
  predicate PlainLines(lines: seq<string>) {
    forall i :: 0 <= i < |lines| ==> '<' !in lines[i] && '&' !in lines[i]
  }

  /** The pairs the decoder's pair rules look for. */
  predicate WellPaired(ps: seq<Piece>) {
    Paired(ps, Strong(false), Strong(true)) && Paired(ps, Em(false), Em(true))
  }

  // The encoding side.

  /** One formatted line: its markup is the formatted line, it stands for the line, its
      bold and italic tags come in pairs without a line break inside, and it brings in no
      `<` and no `&`. */
  lemma LineFacts(line: string)
    requires '<' !in line && '&' !in line
    ensures Render(LinePieces(line)) == Format(line)
    ensures Flat(LinePieces(line)) == line
    ensures WellPaired(LinePieces(line))
    ensures NoCh(LinePieces(line), '<') && NoCh(LinePieces(line), '&')
  {
    var bp := BoldPieces(line);
    BoldRender(line);
    ItalicRender(bp);
    BoldFlat(line);
    ItalicFlat(bp);
    BoldShape(line, '<');
    BoldShape(line, '&');
    ItalicStrongState(bp, false);
    assert forall i :: 0 <= i < |bp| ==> !bp[i].T? || !bp[i].tag.Em?;
    ItalicShape(bp, {Strong(false), Strong(true)}, '<');
    ItalicShape(bp, {Strong(false), Strong(true)}, '&');
  }

  /** Pieces around which a pair state does not change. */
  lemma QuietTag(t: Tag, ps: seq<Piece>, st: bool)
    requires t.Div? || t.Br?
    ensures PairState([T(t)] + ps, Strong(false), Strong(true), st) == PairState(ps, Strong(false), Strong(true), st)
    ensures PairState([T(t)] + ps, Em(false), Em(true), st) == PairState(ps, Em(false), Em(true), st)
  {
    assert ([T(t)] + ps)[1..] == ps;
  }

  /** The text characters of a block are those of its line. */
  lemma BlockChars(line: string, mid: seq<Piece>, x: char)
    requires NoCh(mid, x)
    ensures NoCh([T(Div(false))] + (mid + [T(Div(true))]), x)
  {
  }

  lemma BlockPaired(mid: seq<Piece>)
    requires WellPaired(mid)
    ensures WellPaired([T(Div(false))] + (mid + [T(Div(true))]))
  {
    var tail := [T(Div(true))];
    QuietTag(Div(false), mid + tail, false);
    PairStateConcat(mid, tail, Strong(false), Strong(true), false);
    PairStateConcat(mid, tail, Em(false), Em(true), false);
    QuietTag(Div(true), [], false);
    assert tail == [T(Div(true))] + [];
  }

  /** What stands between a block's `<div>` and `</div>`. */
  function MidPieces(line: string): seq<Piece> {
    if line == [] then [T(Br)] else LinePieces(line)
  }

  lemma MidFacts(line: string)
    requires '<' !in line && '&' !in line
    ensures Render(MidPieces(line)) == if line == [] then "<br>" else Format(line)
    ensures Flat(MidPieces(line)) == if line == [] then "\n" else line
    ensures WellPaired(MidPieces(line))
    ensures NoCh(MidPieces(line), '<') && NoCh(MidPieces(line), '&')
  {
    var mid := MidPieces(line);
    if line == [] {
      assert mid == [T(Br)] + [];
      RenderCons(T(Br), []);
      assert Flat(mid) == Stored(T(Br)) + Flat([]);
      QuietTag(Br, [], false);
    } else {
      LineFacts(line);
    }
  }

  lemma BlockRender(mid: seq<Piece>)
    ensures Render([T(Div(false))] + (mid + [T(Div(true))])) == "<div>" + (Render(mid) + "</div>")
  {
    var open, close := [T(Div(false))], [T(Div(true))];
    RenderConcat(open, mid + close);
    RenderConcat(mid, close);
    assert open == [T(Div(false))] + [] && close == [T(Div(true))] + [];
  }

  lemma BlockFlat(mid: seq<Piece>)
    ensures Flat([T(Div(false))] + (mid + [T(Div(true))])) == "\n" + Flat(mid)
  {
    var open, close := [T(Div(false))], [T(Div(true))];
    FlatConcat(open, mid + close);
    FlatConcat(mid, close);
    assert open == [T(Div(false))] + [] && close == [T(Div(true))] + [];
  }

  /** One editor block: its markup is the line's `<div>`, it reads back as LineAsRead, and
      it is paired and free of `<` and `&`. */
  lemma BlockFacts(line: string)
    requires '<' !in line && '&' !in line
    ensures Render(BlockPieces(line)) == DivLine(Format(line))
    ensures Flat(BlockPieces(line)) == LineAsRead(line)
    ensures WellPaired(BlockPieces(line))
    ensures NoCh(BlockPieces(line), '<') && NoCh(BlockPieces(line), '&')
  {
    var mid := MidPieces(line);
    assert BlockPieces(line) == [T(Div(false))] + (mid + [T(Div(true))]);
    FormatEmpty(line);
    MidFacts(line);
    BlockRender(mid);
    BlockFlat(mid);
    BlockPaired(mid);
    BlockChars(line, mid, '<');
    BlockChars(line, mid, '&');
  }

  /** The editor markup is the pieces' markup. */
  lemma {:induction false} EditorRender(lines: seq<string>)
    requires PlainLines(lines)
    ensures Render(EditorPieces(lines)) == DivLines(seq(|lines|, i requires 0 <= i < |lines| => Format(lines[i])))
  {
    var formatted := seq(|lines|, i requires 0 <= i < |lines| => Format(lines[i]));
    if lines != [] {
      var rest := seq(|lines| - 1, i requires 0 <= i < |lines| - 1 => Format(lines[1..][i]));
      assert formatted[1..] == rest;
      assert PlainLines(lines[1..]) by {
        assert forall i :: 0 <= i < |lines| - 1 ==> lines[1..][i] == lines[i + 1];
      }
      calc {
        Render(EditorPieces(lines));
        Render(BlockPieces(lines[0]) + EditorPieces(lines[1..]));
        { RenderConcat(BlockPieces(lines[0]), EditorPieces(lines[1..])); }
        Render(BlockPieces(lines[0])) + Render(EditorPieces(lines[1..]));
        { BlockFacts(lines[0]); EditorRender(lines[1..]); }
        DivLine(formatted[0]) + DivLines(rest);
        DivLines(formatted);
      }
    }
  }

  /** The editor pieces stand for the lines as they read back. */
  lemma {:induction false} EditorFlat(lines: seq<string>)
    requires PlainLines(lines)
    ensures Flat(EditorPieces(lines)) == LinesAsRead(lines)
  {
    if lines != [] {
      EditorFlat(lines[1..]);
      BlockFacts(lines[0]);
      FlatConcat(BlockPieces(lines[0]), EditorPieces(lines[1..]));
    }
  }

  /** The editor pieces are paired and hold no `<` and no `&`. */
  lemma {:induction false} EditorShape(lines: seq<string>)
    requires PlainLines(lines)
    ensures WellPaired(EditorPieces(lines))
    ensures NoCh(EditorPieces(lines), '<') && NoCh(EditorPieces(lines), '&')
  {
    if lines != [] {
      var b, r := BlockPieces(lines[0]), EditorPieces(lines[1..]);
      EditorShape(lines[1..]);
      BlockFacts(lines[0]);
      PairStateConcat(b, r, Strong(false), Strong(true), false);
      PairStateConcat(b, r, Em(false), Em(true), false);
    }
  }

  // The decoding side, one rewrite at a time.

  /** A tag rule that recognises none of the encoder's tags leaves rendered pieces as they are. */
  lemma IdleRule(p: Pattern, ps: seq<Piece>)
    requires AngleRule(p) && NoCh(ps, '<')
    requires forall t: Tag :: Differs(t, Opener(p))
    ensures Replace(p, Render(ps)) == Render(ps)
  {
    forall i | 0 <= i < |ps| && ps[i].T? ensures Acts(p, ps[i].tag, {}) {
      forall rest ensures MatchAt(p, TagText(ps[i].tag) + rest).None? {
        NoMatchAtOtherTag(p, ps[i].tag, rest);
      }
    }
    ReplaceActs(p, ps, {});
    ExpandAbsent(ps, {});
  }

  /** A word rule for the text of the tag `t` replaces exactly the `t` tags. */
  lemma WordRule(p: Pattern, t: Tag, ps: seq<Piece>)
    requires p == Literal(TagText(t), true, Marker(t)) && NoCh(ps, '<')
    ensures Replace(p, Render(ps)) == Render(Expand(ps, {t}))
  {
    TagTextShape(t);
    forall i | 0 <= i < |ps| && ps[i].T? ensures Acts(p, ps[i].tag, {t}) {
      var u := ps[i].tag;
      if u == t {
        forall rest ensures MatchAt(p, TagText(t) + rest) == Some(Hit(|TagText(t)|, Marker(t))) {
          StartsWithSelf(TagText(t), rest, true);
        }
      } else {
        forall rest ensures MatchAt(p, TagText(u) + rest).None? {
          TagsDiffer(u, t);
          NoMatchAtOtherTag(p, u, rest);
        }
      }
    }
    ReplaceActs(p, ps, {t});
  }

  /** `<br>` is a line break tag, read as a line feed. */
  lemma BreakAtBr(rest: string)
    ensures MatchAt(BreakRule, "<br>" + rest) == Some(Hit(4, "\n"))
  {
    var t := "<br>" + rest;
    StartsWithSelf("<br", ">" + rest, true);
    assert t == "<br" + (">" + rest);
    assert SpaceRunEnd(t, 3) == 3 by {
      assert t[3] == '>';
    }
  }

  /** The line break rule replaces exactly the `<br>` tags. */
  lemma BreakRuleActs(ps: seq<Piece>)
    requires NoCh(ps, '<')
    ensures Replace(BreakRule, Render(ps)) == Render(Expand(ps, {Br}))
  {
    forall i | 0 <= i < |ps| && ps[i].T? ensures Acts(BreakRule, ps[i].tag, {Br}) {
      var u := ps[i].tag;
      if u == Br {
        forall rest ensures MatchAt(BreakRule, TagText(Br) + rest) == Some(Hit(|TagText(Br)|, Marker(Br))) {
          BreakAtBr(rest);
        }
      } else {
        forall rest ensures MatchAt(BreakRule, TagText(u) + rest).None? {
          BreakDiffers(u);
          NoMatchAtOtherTag(BreakRule, u, rest);
        }
      }
    }
    ReplaceActs(BreakRule, ps, {Br});
  }

  /** Expanding tags keeps the stored text, removes the expanded tags, and brings in no `<`. */
  lemma ExpandStage(ps: seq<Piece>, S: set<Tag>, U: set<Tag>)
    requires TagsWithin(ps, U) && NoCh(ps, '<')
    ensures TagsWithin(Expand(ps, S), U - S) && NoCh(Expand(ps, S), '<')
    ensures Flat(Expand(ps, S)) == Flat(ps)
  {
    ExpandTags(ps, S, U, '<');
    ExpandKeepsFlat(ps, S);
  }

  /** Pieces without tags render as the text they stand for. */
  lemma {:induction false} RenderUntagged(ps: seq<Piece>)
    requires TagsWithin(ps, {})
    ensures Render(ps) == Flat(ps)
  {
    if ps != [] {
      RenderUntagged(ps[1..]);
    }
  }

  /** Stored text brings in no character that no marker holds. */
  lemma {:induction false} FlatKeepsOut(ps: seq<Piece>, x: char)
    requires NoCh(ps, x) && x != '*' && x != '\n'
    ensures x !in Flat(ps)
  {
    if ps != [] {
      FlatKeepsOut(ps[1..], x);
    }
  }

  /** The bold tags: `<strong>` pairs become `**` markers, and the `<b>` rule finds nothing. */
  lemma DecodeStrong(ps: seq<Piece>)
    requires WellPaired(ps) && NoCh(ps, '<')
    ensures var p1 := Expand(ps, {Strong(false), Strong(true)});
            && Replace(BRule, Replace(StrongRule, Render(ps))) == Render(p1)
            && NoCh(p1, '<') && Flat(p1) == Flat(ps) && Paired(p1, Em(false), Em(true))
            && TagsWithin(p1, AllTags - {Strong(false), Strong(true)})
  {
    var SS := {Strong(false), Strong(true)};
    var p1 := Expand(ps, SS);
    assert TagsWithin(ps, AllTags) by {
      forall i | 0 <= i < |ps| && ps[i].T? ensures ps[i].tag in AllTags {
        AllTagsComplete(ps[i].tag);
      }
    }
    assert Replace(StrongRule, Render(ps)) == Render(p1) by {
      assert PairRule(Strong(false), Strong(true)) == StrongRule;
      ReplacePairs(ps, Strong(false), Strong(true));
    }
    ExpandStage(ps, SS, AllTags);
    assert Replace(BRule, Render(p1)) == Render(p1) by {
      forall t: Tag ensures Differs(t, Opener(BRule)) {
        OtherTagsDiffer(t);
      }
      IdleRule(BRule, p1);
    }
    PairStateExpand(ps, SS, Em(false), Em(true), false);
  }

  /** The italic tags: `<em>` pairs become `*` markers, and the `<i>` rule finds nothing. */
  lemma DecodeEm(ps: seq<Piece>, U: set<Tag>)
    requires Paired(ps, Em(false), Em(true)) && NoCh(ps, '<') && TagsWithin(ps, U)
    ensures var p2 := Expand(ps, {Em(false), Em(true)});
            && Replace(IRule, Replace(EmRule, Render(ps))) == Render(p2)
            && NoCh(p2, '<') && Flat(p2) == Flat(ps)
            && TagsWithin(p2, U - {Em(false), Em(true)})
  {
    var EE := {Em(false), Em(true)};
    var p2 := Expand(ps, EE);
    assert Replace(EmRule, Render(ps)) == Render(p2) by {
      assert PairRule(Em(false), Em(true)) == EmRule;
      ReplacePairs(ps, Em(false), Em(true));
    }
    ExpandStage(ps, EE, U);
    assert Replace(IRule, Render(p2)) == Render(p2) by {
      forall t: Tag ensures Differs(t, Opener(IRule)) {
        OtherTagsDiffer(t);
      }
      IdleRule(IRule, p2);
    }
  }

  /** The line rewrites and the tag strip: `<div>`, `</div>` and `<br>` become what they
      stand for, and nothing is left to strip. */
  lemma DecodeLines(ps: seq<Piece>)
    requires NoCh(ps, '<')
    requires TagsWithin(ps, {Div(false), Div(true), Br})
    ensures var i := Render(ps);
            var divOpen := Replace(DivOpenRule, i);
            var divClose := Replace(DivCloseRule, divOpen);
            var pOpen := Replace(POpenRule, divClose);
            var pClose := Replace(PCloseRule, pOpen);
            var br := Replace(BreakRule, pClose);
            Replace(AnyTag, br) == Flat(ps)
  {
    var p3 := Expand(ps, {Div(false)});
    var p4 := Expand(p3, {Div(true)});
    var p5 := Expand(p4, {Br});
    assert DivOpenRule == Literal(TagText(Div(false)), true, Marker(Div(false)));
    assert DivCloseRule == Literal(TagText(Div(true)), true, Marker(Div(true)));
    WordRule(DivOpenRule, Div(false), ps);
    ExpandStage(ps, {Div(false)}, {Div(false), Div(true), Br});
    WordRule(DivCloseRule, Div(true), p3);
    ExpandStage(p3, {Div(true)}, {Div(true), Br});
    assert forall t: Tag :: Differs(t, Opener(POpenRule)) && Differs(t, Opener(PCloseRule)) by {
      forall t: Tag ensures Differs(t, Opener(POpenRule)) && Differs(t, Opener(PCloseRule)) {
        OtherTagsDiffer(t);
      }
    }
    IdleRule(POpenRule, p4);
    IdleRule(PCloseRule, p4);
    BreakRuleActs(p4);
    ExpandStage(p4, {Br}, {Br});
    RenderUntagged(p5);
    FlatKeepsOut(p5, '<');
    StripNoTag(Flat(p5));
  }

  /** The pieces left once both pair rules have run. */
  function AfterPairs(ps: seq<Piece>): seq<Piece> {
    Expand(Expand(ps, {Strong(false), Strong(true)}), {Em(false), Em(true)})
  }

  /** The four pair rules in their order. */
  lemma PairRules(ps: seq<Piece>)
    requires WellPaired(ps) && NoCh(ps, '<')
    ensures Replace(IRule, Replace(EmRule, Replace(BRule, Replace(StrongRule, Render(ps))))) == Render(AfterPairs(ps))
    ensures NoCh(AfterPairs(ps), '<') && Flat(AfterPairs(ps)) == Flat(ps)
    ensures TagsWithin(AfterPairs(ps), {Div(false), Div(true), Br})
  {
    var SS, EE := {Strong(false), Strong(true)}, {Em(false), Em(true)};
    var p1 := Expand(ps, SS);
    var p2 := Expand(p1, EE);
    var U := AllTags - SS;
    var b := Replace(BRule, Replace(StrongRule, Render(ps)));
    assert b == Render(p1) && NoCh(p1, '<') && Flat(p1) == Flat(ps)
           && Paired(p1, Em(false), Em(true)) && TagsWithin(p1, U) by {
      DecodeStrong(ps);
    }
    assert Replace(IRule, Replace(EmRule, Render(p1))) == Render(p2)
           && NoCh(p2, '<') && Flat(p2) == Flat(p1) && TagsWithin(p2, U - EE) by {
      DecodeEm(p1, U);
    }
    LineTags();
  }

  /** The tags left once the bold and italic tags are gone. */
  lemma LineTags()
    ensures AllTags - {Strong(false), Strong(true)} - {Em(false), Em(true)} == {Div(false), Div(true), Br}
  {
  }

  /** The tag rewrites and the strip over paired pieces free of `<` give back the text the
      pieces stand for. */
  lemma MarkersOf(ps: seq<Piece>)
    requires WellPaired(ps) && NoCh(ps, '<')
    ensures TagsToMarkers(Render(ps)) == Flat(ps)
  {
    var i := Replace(IRule, Replace(EmRule, Replace(BRule, Replace(StrongRule, Render(ps)))));
    TagsToMarkersChain(Render(ps));
    PairRules(ps);
    DecodeLines(AfterPairs(ps));
  }

  /** `getEditorContent` over paired pieces free of `<` and `&` gives back the trimmed text
      the pieces stand for. */
  lemma DecodePieces(ps: seq<Piece>)
    requires WellPaired(ps) && NoCh(ps, '<') && NoCh(ps, '&')
    ensures GetEditorContent(Render(ps)) == Trim(Flat(ps))
  {
    MarkersOf(ps);
    FlatKeepsOut(ps, '&');
  }

  // The round trip.

  /** Loading a text into the editor and saving it again gives back its lines as they read
      back, trimmed: each line preceded by a line feed, an empty line read as a line feed. */
  lemma RoundTrip(s: string)
    requires '<' !in s && '&' !in s
    ensures GetEditorContent(SetEditorContent(s)) == Trim(LinesAsRead(Split(s, '\n')))
  {
    var lines := Split(s, '\n');
    JoinKeepsOut(lines, '\n', '<');
    JoinKeepsOut(lines, '\n', '&');
    EditorRender(lines);
    EditorFlat(lines);
    EditorShape(lines);
    DecodePieces(EditorPieces(lines));
  }

  /** Read back, the lines are the text's lines with each empty one widened to a line feed,
      after one leading line feed. */
  lemma {:induction false} LinesAsReadWiden(lines: seq<string>)
    requires |lines| >= 1
    ensures LinesAsRead(lines) == "\n" + Join(Widen(lines), '\n')
  {
    if |lines| > 1 {
      LinesAsReadWiden(lines[1..]);
      assert Widen(lines)[1..] == Widen(lines[1..]);
    }
  }

  /** The round trip widens every empty line: the text comes back with each empty line
      holding a line feed, trimmed. */
  lemma RoundTripWidens(s: string)
    requires '<' !in s && '&' !in s
    ensures GetEditorContent(SetEditorContent(s)) == Trim(Join(Widen(Split(s, '\n')), '\n'))
  {
    RoundTrip(s);
    LinesAsReadWiden(Split(s, '\n'));
    TrimSkipsLeadingSpace('\n', Join(Widen(Split(s, '\n')), '\n'));
  }

  /** A trimmed text without an empty line comes back unchanged. */
  lemma RoundTripKeeps(s: string)
    requires '<' !in s && '&' !in s
    requires Trim(s) == s
    requires forall i :: 0 <= i < |Split(s, '\n')| ==> Split(s, '\n')[i] != []
    ensures GetEditorContent(SetEditorContent(s)) == s
  {
    RoundTripWidens(s);
    WidenNoEmpty(Split(s, '\n'));
  }

  /** Widening lines none of which is empty changes nothing. */
  lemma WidenNoEmpty(lines: seq<string>)
    requires forall i :: 0 <= i < |lines| ==> lines[i] != []
    ensures Widen(lines) == lines
  {
  }

  /** The lines of `a`, an empty line and `b`. */
  lemma SplitBlankLine()
    ensures Split("a\n\nb", '\n') == ["a", "", "b"]
  {
    var lines := ["a", "", "b"];
    assert Join(lines[2..], '\n') == "b";
    assert Join(lines[1..], '\n') == "\nb";
    assert Join(lines, '\n') == "a\n\nb";
    SplitJoin(lines, '\n');
  }

  /** The widened lines of `a`, an empty line and `b`, joined. */
  lemma JoinWidened()
    ensures Join(Widen(["a", "", "b"]), '\n') == "a\n\n\nb"
  {
    var w := Widen(["a", "", "b"]);
    assert w == ["a", "\n", "b"];
    assert Join(w[2..], '\n') == "b";
    assert Join(w[1..], '\n') == "\n\nb";
  }

  /** An empty line does not survive: `a`, an empty line and `b` come back with two empty
      lines between them. */
  lemma BlankLineGrows(s: string)
    requires s == "a\n\nb"
    ensures GetEditorContent(SetEditorContent(s)) == "a\n\n\nb"
  {
    SplitBlankLine();
    RoundTripWidens(s);
    JoinWidened();
    TrimWidened();
  }

  lemma TrimWidened()
    ensures Trim("a\n\n\nb") == "a\n\n\nb"
  {
    TrimmedIsTrim("a\n\n\nb");
  }

  /** A text the editors carry over unchanged: no markup characters, already trimmed, and
      no empty line. */
  predicate EditorStable(s: string) {
    '<' !in s && '&' !in s && Trim(s) == s && forall i :: 0 <= i < |Split(s, '\n')| ==> Split(s, '\n')[i] != []
  }

  /** Such a text comes back from its own encoding: loading it into an editor and saving the
      editor untouched stores it again. */
  lemma StableRoundTrip(s: string)
    requires EditorStable(s)
    ensures GetEditorContent(SetEditorContent(s)) == s
  {
    RoundTripKeeps(s);
  }
}
