/**
 * The codec between a stored rich-text field and the markup of the `contentEditable`
 * editor, and the read-only renderers. A stored field is plain text in which `**x**`
 * marks bold and `*x*` marks italic; lines are separated by `\n`. Every page (letter,
 * slides, quiz, gift) carries its own copy of the same three functions; they are
 * modelled once here.
 *
 * The editor markup is the string assigned to and read back from `innerHTML`; the
 * browser is taken to hand back what was written.
 */
module EditorCodec {
  import opened JsText
  import opened JsRegex

  // Encoding: `setEditorContent` and `renderFormattedText`.

  // `/\*\*(.+?)\*\*/g` → `<strong>$1</strong>`
  const BoldRule := Pair("**", "**", 1, false, "<strong>", "</strong>")
  // `/\*(.+?)\*/g` → `<em>$1</em>`
  const ItalicRule := Pair("*", "*", 1, false, "<em>", "</em>")

  // Decoding: `getEditorContent`, rule by rule in the order it applies them.

  /** `/<strong>(.*?)<\/strong>/gi` → `**$1**`. */
  const StrongRule := Pair("<strong>", "</strong>", 0, true, "**", "**")
  /** `/<b>(.*?)<\/b>/gi` → `**$1**`. */
  const BRule := Pair("<b>", "</b>", 0, true, "**", "**")
  /** `/<em>(.*?)<\/em>/gi` → `*$1*`. */
  const EmRule := Pair("<em>", "</em>", 0, true, "*", "*")
  /** `/<i>(.*?)<\/i>/gi` → `*$1*`. */
  const IRule := Pair("<i>", "</i>", 0, true, "*", "*")
  /** `/<div>/gi` → `\n`. */
  const DivOpenRule := Literal("<div>", true, "\n")
  /** `/<\/div>/gi` → nothing. */
  const DivCloseRule := Literal("</div>", true, "")
  /** `/<p>/gi` → nothing. */
  const POpenRule := Literal("<p>", true, "")
  /** `/<\/p>/gi` → `\n`. */
  const PCloseRule := Literal("</p>", true, "\n")
  /** `/<br\s*\/?>/gi` → `\n`. */
  const BreakRule := BreakTag("\n")

  /** The bold pass, then the italic pass, over one string. Neither brings in a line feed,
      and text without `*` passes both unchanged. */
  function Format(text: string): (r: string)
    ensures '\n' !in text ==> '\n' !in r
    ensures '*' !in text ==> r == text
  {
    FormatPasses(text);
    Replace(ItalicRule, Replace(BoldRule, text))
  }

  /** The two facts of Format's contract, about the two passes. */
  lemma FormatPasses(text: string)
    ensures '\n' !in text ==> '\n' !in Replace(ItalicRule, Replace(BoldRule, text))
    ensures '*' !in text ==> Replace(ItalicRule, Replace(BoldRule, text)) == text
  {
    if '\n' !in text {
      ReplacePairKeepsOut(BoldRule, text, '\n');
      ReplacePairKeepsOut(ItalicRule, Replace(BoldRule, text), '\n');
    }
    if '*' !in text {
      NoStarNoMatch(BoldRule, text);
      NoStarNoMatch(ItalicRule, text);
    }
  }

  /** One editor line: `<div>${line || '<br>'}</div>`. */
  function DivLine(line: string): string {
    "<div>" + (if line == [] then "<br>" else line) + "</div>"
  }

  /** `lines.map(DivLine).join('')`. */
  function DivLines(lines: seq<string>): string {
    if lines == [] then [] else DivLine(lines[0]) + DivLines(lines[1..])
  }

  /** `setEditorContent(text)`: the markup written into the editor. The whole text is
      formatted first and then split into lines. */
  function SetEditorContent(text: string): (r: string)
    ensures r == DivLines(RenderLines(text))
  {
    FormatLineByLine(text);
    DivLines(Split(Format(text), '\n'))
  }

  /** The tag rewrites and the tag strip of `getEditorContent`, in the order it applies them. */
  const TagRules: seq<Pattern> :=
    [StrongRule, BRule, EmRule, IRule, DivOpenRule, DivCloseRule, POpenRule, PCloseRule, BreakRule, AnyTag]

  /** The rules applied one after the other, each to the result of the one before. */
  function ReplaceEach(rules: seq<Pattern>, s: string): string
    requires forall k :: 0 <= k < |rules| ==> WellFormed(rules[k])
    decreases |rules|
  {
    if rules == [] then s else ReplaceEach(rules[1..], Replace(rules[0], s))
  }

  /** The tag rewrites and the tag strip of `getEditorContent`, before entity decoding. The
      strip comes last, so no `<` is followed anywhere by a `>` in the result. */
  function TagsToMarkers(html: string): (r: string)
    ensures forall i, j :: 0 <= i < j < |r| && r[i] == '<' ==> r[j] != '>'
  {
    ReplaceEachLast(TagRules, html);
    StripLeavesNoTag(ReplaceEach(TagRules[..9], html));
    ReplaceEach(TagRules, html)
  }

  /** The last rule of a fold is applied to the result of all the others. */
  lemma {:induction false} ReplaceEachLast(rules: seq<Pattern>, s: string)
    requires forall k :: 0 <= k < |rules| ==> WellFormed(rules[k])
    requires rules != []
    ensures ReplaceEach(rules, s) == Replace(rules[|rules| - 1], ReplaceEach(rules[..|rules| - 1], s))
  {
    if |rules| > 1 {
      ReplaceEachLast(rules[1..], Replace(rules[0], s));
      assert rules[1..][..|rules| - 2] == rules[..|rules| - 1][1..];
    } else {
      assert rules[..0] == [];
    }
  }

  /** Rule `k` of the decoder applied, the rest still to come. */
  lemma TagRuleStep(k: nat, s: string)
    requires k < |TagRules|
    ensures ReplaceEach(TagRules[k..], s) == ReplaceEach(TagRules[k + 1..], Replace(TagRules[k], s))
  {
    assert TagRules[k..][1..] == TagRules[k + 1..];
  }

  /** The rewrites written out one by one. */
  lemma TagsToMarkersChain(html: string)
    ensures TagsToMarkers(html) ==
      Replace(AnyTag, Replace(BreakRule, Replace(PCloseRule, Replace(POpenRule, Replace(DivCloseRule,
        Replace(DivOpenRule, Replace(IRule, Replace(EmRule, Replace(BRule, Replace(StrongRule, html))))))))))
  {
    var s1 := Replace(StrongRule, html);
    var s2 := Replace(BRule, s1);
    var s3 := Replace(EmRule, s2);
    var s4 := Replace(IRule, s3);
    var s5 := Replace(DivOpenRule, s4);
    var s6 := Replace(DivCloseRule, s5);
    var s7 := Replace(POpenRule, s6);
    var s8 := Replace(PCloseRule, s7);
    var s9 := Replace(BreakRule, s8);
    assert TagRules[0..] == TagRules;
    TagRuleStep(0, html);
    TagRuleStep(1, s1);
    TagRuleStep(2, s2);
    TagRuleStep(3, s3);
    TagRuleStep(4, s4);
    TagRuleStep(5, s5);
    TagRuleStep(6, s6);
    TagRuleStep(7, s7);
    TagRuleStep(8, s8);
    TagRuleStep(9, s9);
    assert TagRules[10..] == [];
  }

  /** The character references the decoder knows, with the character each stands for. */
  const References: seq<(string, char)> :=
    [("&amp;", '&'), ("&lt;", '<'), ("&gt;", '>'), ("&quot;", '"'), ("&#39;", '\''), ("&nbsp;", '\U{A0}')]

  /** Index of the first known reference at the start of `s`, searching from `k`. */
  function ReferenceAt(s: string, k: nat): (r: Option<nat>)
    requires k <= |References|
    ensures r.Some? ==> k <= r.value < |References| && References[r.value].0 <= s
    ensures r.None? ==> forall m :: k <= m < |References| ==> !(References[m].0 <= s)
    decreases |References| - k
  {
    if k == |References| then None
    else if References[k].0 <= s then Some(k)
    else ReferenceAt(s, k + 1)
  }

  /** The search returns the first reference at the front of `s`. */
  lemma {:induction false} ReferenceFound(s: string, from: nat, k: nat)
    requires from <= k < |References| && References[k].0 <= s
    requires forall m :: from <= m < k ==> !(References[m].0 <= s)
    ensures ReferenceAt(s, from) == Some(k)
    decreases k - from
  {
    if from < k {
      ReferenceFound(s, from + 1, k);
    }
  }

  /** What a `<textarea>` shows after its `innerHTML` is set to `s`: the listed character
      references decoded; the rest of the textarea parser is not modelled. */
  function DecodeEntities(s: string): (r: string)
    ensures '&' !in s ==> r == s
  {
    if s == [] then []
    else if s[0] == '&' then
      match ReferenceAt(s, 0)
      case Some(k) => [References[k].1] + DecodeEntities(s[|References[k].0|..])
      case None => [s[0]] + DecodeEntities(s[1..])
    else [s[0]] + DecodeEntities(s[1..])
  }

  /** How `innerHTML` writes a text node: `&`, `<`, `>` and the no-break space escaped. */
  function EscapeText(t: string): string {
    if t == [] then []
    else
      var c := t[0];
      (if c == '&' then "&amp;" else if c == '<' then "&lt;" else if c == '>' then "&gt;"
       else if c == '\U{A0}' then "&nbsp;" else [c]) + EscapeText(t[1..])
  }

  /** `getEditorContent()` applied to the markup `html` held by the editor. */
  function GetEditorContent(html: string): (text: string)
    ensures text == [] || (!IsJsSpace(text[0]) && !IsJsSpace(text[|text| - 1]))
  {
    Trim(DecodeEntities(TagsToMarkers(html)))
  }

  /** An empty editor reads back as the empty text. */
  lemma EmptyEditorReadsEmpty()
    ensures GetEditorContent([]) == []
  {
    assert TagsToMarkers([]) == [] by {
      ReplaceEachEmpty(TagRules);
    }
  }

  /** Every rule maps the empty text to itself, so the fold does too. */
  lemma {:induction false} ReplaceEachEmpty(rules: seq<Pattern>)
    requires forall k :: 0 <= k < |rules| ==> WellFormed(rules[k])
    ensures ReplaceEach(rules, []) == []
    decreases |rules|
  {
    if rules != [] {
      ReplaceEachEmpty(rules[1..]);
    }
  }

  /** `renderFormattedText` of the letter and gift pages: one paragraph per line, each with
      the inner markup given here. */
  function RenderLines(text: string): (r: seq<string>)
    ensures |r| == |Split(text, '\n')|
    ensures Join(r, '\n') == Format(text)
  {
    var lines := Split(text, '\n');
    FormatJoin(lines);
    seq(|lines|, i requires 0 <= i < |lines| => Format(lines[i]))
  }

  /** `renderFormattedText` of the slides and quiz pages: the whole text in one element. */
  function RenderSingle(text: string): (r: string)
    ensures r == Join(RenderLines(text), '\n')
  {
    Format(text)
  }

  // Properties of the codec.

  /** No bold or italic replacement spans a line feed: formatting two lines joined by a
      line feed is formatting each of them. */
  lemma FormatByLine(x: string, y: string)
    ensures Format(x + ['\n'] + y) == Format(x) + ['\n'] + Format(y)
  {
    ReplacePairByLine(BoldRule, x, y);
    ReplacePairByLine(ItalicRule, Replace(BoldRule, x), Replace(BoldRule, y));
  }

  /** Formatting a join of lines is the join of the formatted lines. */
  lemma {:induction false} FormatJoin(lines: seq<string>)
    requires |lines| >= 1
    ensures Format(Join(lines, '\n')) == Join(seq(|lines|, i requires 0 <= i < |lines| => Format(lines[i])), '\n')
  {
    var formatted := seq(|lines|, i requires 0 <= i < |lines| => Format(lines[i]));
    if |lines| > 1 {
      FormatJoin(lines[1..]);
      FormatByLine(lines[0], Join(lines[1..], '\n'));
      assert formatted[1..] == seq(|lines| - 1, i requires 0 <= i < |lines| - 1 => Format(lines[1..][i]));
      assert Join(lines, '\n') == lines[0] + ['\n'] + Join(lines[1..], '\n');
      assert Join(formatted, '\n') == formatted[0] + ['\n'] + Join(formatted[1..], '\n');
    }
  }

  /** The lines of the formatted text are the formatted lines of the text, in order. */
  lemma FormatLineByLine(text: string)
    ensures Split(Format(text), '\n') == RenderLines(text)
  {
    var lines := Split(text, '\n');
    FormatJoin(lines);
    var formatted := RenderLines(text);
    assert forall i :: 0 <= i < |formatted| ==> '\n' !in formatted[i];
    SplitJoin(formatted, '\n');
  }

  /** Where no pass applies, a string is left as it is. */
  lemma NoStarNoMatch(p: Pattern, t: string)
    requires p == BoldRule || p == ItalicRule
    requires '*' !in t
    ensures Replace(p, t) == t
  {
    forall i | 0 <= i < |t| ensures MatchAt(p, t[i..]).None? {
      assert t[i] in t;
      FirstCharNoMatch(p, t[i..]);
    }
    ReplaceNowhere(p, t);
  }

  /** The encoding passes keep text: the formatted line is empty exactly when the line is. */
  lemma FormatEmpty(text: string)
    ensures Format(text) == [] <==> text == []
  {
    if text != [] {
      var b := Replace(BoldRule, text);
      assert b == Step(BoldRule, text).out + Replace(BoldRule, text[Step(BoldRule, text).len..]);
      assert Step(BoldRule, text).out != [];
      assert Replace(ItalicRule, b) == Step(ItalicRule, b).out + Replace(ItalicRule, b[Step(ItalicRule, b).len..]);
      assert Step(ItalicRule, b).out != [];
    }
  }

  /** An empty `<strong>` pair decodes to four asterisks: `(.*?)` admits an empty payload. */
  lemma EmptyStrongPair()
    ensures Replace(StrongRule, "<strong></strong>") == "****"
  {
    var t := "<strong></strong>";
    MatchPairFound(t, "<strong>", "</strong>", 0, true, "**", "**", 8);
    assert t[17..] == [];
  }

  /** An empty `<em>` pair decodes to two asterisks, whatever the case of its letters. */
  lemma EmptyEmPair()
    ensures Replace(EmRule, "<EM></Em>") == "**"
  {
    var t := "<EM></Em>";
    MatchPairFound(t, "<em>", "</em>", 0, true, "*", "*", 4);
    assert t[9..] == [];
  }

  /** Decoding the references undoes the escaping `innerHTML` applies to text. */
  lemma {:induction false} DecodeEscapedText(t: string)
    ensures DecodeEntities(EscapeText(t)) == t
  {
    if t != [] {
      DecodeEscapedText(t[1..]);
      var c := t[0];
      var rest := EscapeText(t[1..]);
      if c == '&' {
        assert EscapeText(t) == References[0].0 + rest;
        DecodeReference(0, rest);
      } else if c == '<' {
        assert EscapeText(t) == References[1].0 + rest;
        DecodeReference(1, rest);
      } else if c == '>' {
        assert EscapeText(t) == References[2].0 + rest;
        DecodeReference(2, rest);
      } else if c == '\U{A0}' {
        assert EscapeText(t) == References[5].0 + rest;
        DecodeReference(5, rest);
      } else {
        assert EscapeText(t) == [c] + rest;
      }
    }
  }

  /** A known reference at the front is decoded to its character. */
  lemma DecodeReference(k: nat, rest: string)
    requires k < |References| && (k == 0 || k == 1 || k == 2 || k == 5)
    ensures DecodeEntities(References[k].0 + rest) == [References[k].1] + DecodeEntities(rest)
  {
    var s := References[k].0 + rest;
    assert s[..|References[k].0|] == References[k].0;
    assert s[1] == References[k].0[1];
    ReferenceFound(s, 0, k);
    assert s[|References[k].0|..] == rest;
  }
}
