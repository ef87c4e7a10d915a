# lovely-card: the editor codec, the list editors, the validators and the setup store

lovely-card is a greeting-card site with four content pages: the love letter, the photo
slides, the quiz and the gift boxes. Each page's code carries a view mode and an edit mode,
but only the quiz page renders the button that switches between them
(src/app/quiz/page.tsx:419-432). The letter, slides and gift pages define the same switch
handler and never call it, so on the shipped site they stay in view mode. Every rich-text field is stored as plain
text in which `**x**` marks bold and `*x*` marks italic, with lines separated by `\n`. The
field is edited in a `contentEditable` element. `setEditorContent` turns the stored text into
`<div>`/`<strong>`/`<em>` markup. `getEditorContent` reads the markup back: it runs a chain of
regular-expression rewrites, strips the remaining tags, decodes character references and trims.
`renderFormattedText` builds the read-only display. The four pages each carry a copy of the
codec; it is modelled once, in `EditorCodec`.

The modules:

- `JsText`: what the pages rely on from JavaScript strings. This covers `trim` and ECMAScript
  white space, `split`/`join` on one character, UTF-16 `length`, ASCII case folding, and decimal
  printing of integers.
- `JsRegex`: `String.prototype.replace` with the `g` flag, for the pattern shapes the pages use:
  - `open(.*?)close` and `open(.+?)close`;
  - fixed tags;
  - `<br\s*\/?>`, `<[^>]*>` and `--+`.

  The scan runs left to right, matches never overlap, and groups are lazy. `.` stops at a line
  terminator, and the `i` flag folds ASCII case.
- `JsMath`: `Math.round` of a percentage, in integer arithmetic.
- `EditorCodec`: the codec and the two renderers. The letter and gift renderers make one
  paragraph per line; the slide and quiz renderers make one paragraph in all.
- `CodecPieces`, `CodecEncode`, `CodecRoundTrip`: the proof of the load-then-save round trip.
  - Text is cut into pieces: characters and the tags the encoder writes.
  - The encoder's output is shown to render those pieces.
  - The decoder is followed rewrite by rewrite over them.
- `OrderedList`: removal by index, exchange of neighbours, the cursor clamp after a removal, and
  `Array.prototype.filter`, with their multiset and order facts.
- `LetterPage`, `SlidesPage`, `QuizPage`, `GiftPage`: the page state as classes whose methods
  are the event handlers, plus the editor load that the pages run in effects.
- `SetupValidation`: the per-section checks, the slug check and the slug suggestions.
- `SetupStore`: the five completion flags and the generated share link.

The model follows the code:

- There is no document of styled runs and no undo history. Bold, italic and undo are
  `document.execCommand` calls handled by the browser, so here they are an arbitrary change of
  the editor markup (`EditContent`, `EditCaption`).
- The renderer does not escape text. `<`, `>` and `&` reach the display markup verbatim
  (`EditorCodec.Format`).
- The round trip is not the identity. An empty line comes back as two line feeds, and leading
  and trailing white space is trimmed (`CodecRoundTrip.RoundTripWidens`,
  `CodecRoundTrip.BlankLineGrows`).

## Model

| member | source | states |
|---|---|---|
| JsText.TrimStart | src/app/letter/page.tsx:62 | the result is a suffix of the input, everything cut is white space, and the result does not start with white space |
| JsText.TrimEnd | src/app/letter/page.tsx:62 | the result is a prefix of the input, everything cut is white space, and the result does not end with white space |
| JsText.Trim | src/utils/setupValidation.ts:9-21 | the trimmed text is a slice of the input with only white space before and after it; it neither starts nor ends with white space, and it is empty exactly when the input is blank |
| JsText.TrimSkipsLeadingSpace | src/app/letter/page.tsx:62 | a leading white-space character does not change what `trim` returns |
| JsText.TrimmedIsTrim | src/app/letter/page.tsx:62 | a text with no white space at either end is its own `trim` |
| JsText.JsLength | src/utils/setupValidation.ts:99-105 | `length` counts between one and two UTF-16 units per character |
| JsText.Split | src/app/letter/page.tsx:79 | `split` returns at least one part, no part holds the separator, and joining the parts gives the text back |
| JsText.SplitJoin | src/app/letter/page.tsx:156 | splitting a join of separator-free parts gives the parts back |
| JsText.SplitNoSeparator | src/app/slides/page.tsx:214-226 | a text without the separator splits into itself alone |
| JsText.SplitPrefix | src/app/letter/page.tsx:79 | a separator-free prefix followed by the separator becomes the first part |
| JsText.SplitGlue | src/app/letter/page.tsx:79 | a separator-free prefix joins onto the first part |
| JsText.JoinKeepsOut | src/app/letter/page.tsx:79 | a character absent from a join is absent from every part |
| JsText.JoinEnds | src/app/letter/page.tsx:79 | a join starts with the first part and ends with the last |
| JsText.NatToString | src/utils/setupValidation.ts:131-132 | a printed number is a non-empty string of digits without a leading zero |
| JsText.NatToStringRoundTrip | src/utils/setupValidation.ts:131-132 | reading the printed digits back gives the number |
| JsMath.RoundPercent | src/app/quiz/page.tsx:71 | the result is the integer nearest to 100·part/whole, with halves rounded up, as `Math.round` does |
| JsMath.PercentBounded | src/app/quiz/page.tsx:68-72 | a part of a whole rounds to between 0 and 100 percent; the whole gives 100 and nothing gives 0 |
| JsMath.FifthsExact | src/store/setupStore.ts:66-71 | out of five, each part is exactly 20 percent |
| JsRegex.LazyClose | src/app/letter/page.tsx:42 | the closing delimiter found lies after the start and inside the text |
| JsRegex.LazyCloseSpec | src/app/letter/page.tsx:42-47 | the lazy search finds the first closing delimiter that no line terminator precedes, and it reports none only when there is none |
| JsRegex.MatchPair | src/app/letter/page.tsx:73-76 | a match of `open(.{min,}?)close` spans the delimiters and at least `min` characters |
| JsRegex.MatchPairSpec | src/app/letter/page.tsx:73-76 | a match has the shortest payload of at least `min` characters, and its replacement is the payload between the new brackets; no match means no payload length works |
| JsRegex.MatchPairSome | src/app/letter/page.tsx:73-76 | the found match is a real match, with no shorter one, and the payload is kept |
| JsRegex.MatchPairNone | src/app/letter/page.tsx:73-76 | when none is found, no payload length matches |
| JsRegex.MatchPairFound | src/app/letter/page.tsx:42 | a pair whose payload is long enough, has no line terminator and no earlier closing delimiter is the match |
| JsRegex.SpaceRunEnd | src/app/letter/page.tsx:54 | `\s*` takes the whole run of white space |
| JsRegex.MatchBreak | src/app/letter/page.tsx:54 | `<br\s*\/?>` matches exactly the break tags, and at most one of them at a place |
| JsRegex.FindChar | src/app/letter/page.tsx:57 | the index found is the first place of the character |
| JsRegex.MatchAnyTag | src/app/letter/page.tsx:57 | `<[^>]*>` runs from a `<` to the first `>` after it, across line breaks, and leaves nothing behind |
| JsRegex.CharRunEnd | src/utils/setupValidation.ts:129 | the run ends at the first different character |
| JsRegex.MatchHyphens | src/utils/setupValidation.ts:129 | `--+` matches exactly where two hyphens start, takes all of the run, and leaves one hyphen |
| JsRegex.MatchAt | src/app/letter/page.tsx:42-57 | a match is never empty and never runs past the text |
| JsRegex.Step | src/app/letter/page.tsx:42-57 | each step of the scan consumes at least one character |
| JsRegex.ReplaceCopies | src/app/letter/page.tsx:42-57 | where nothing matches, the first character is copied and the scan moves on |
| JsRegex.ReplaceTakes | src/app/letter/page.tsx:42-57 | where the pattern matches, the match is replaced and the scan resumes right after it |
| JsRegex.ReplaceSkip | src/app/letter/page.tsx:42-57 | a stretch where the pattern matches nowhere is copied unchanged, and the scan resumes after it |
| JsRegex.ReplacePairByLine | src/app/letter/page.tsx:73-76 | no bracket replacement spans a line feed: replacing in two lines joined by a line feed is replacing in each |
| JsRegex.ReplacePairKeepsOut | src/app/letter/page.tsx:73-76 | a bracket replacement brings in no character that is absent from both the text and the brackets |
| JsRegex.StripLeavesNoTag | src/app/letter/page.tsx:57 | after the tag strip, no `<` is followed anywhere by a `>` |
| JsRegex.StripKeepsOut | src/app/letter/page.tsx:57 | the tag strip brings in no character |
| JsRegex.StripNoTag | src/app/letter/page.tsx:57 | text without `<` passes the tag strip unchanged |
| EditorCodec.TagsToMarkersChain | src/app/letter/page.tsx:42-57 | the decoder applies its ten rewrites in the order of the source |
| EditorCodec.TagsToMarkers | src/app/letter/page.tsx:42-57 | after the rewrites and the strip, no `<` is followed anywhere by a `>` |
| EditorCodec.ReferenceAt | src/app/letter/page.tsx:60-62 | the reference found is the first known one at the front of the text |
| EditorCodec.ReferenceFound | src/app/letter/page.tsx:60-62 | the search returns the first known reference that applies |
| EditorCodec.DecodeEntities | src/app/letter/page.tsx:60-62 | text without `&` is left as it is |
| EditorCodec.DecodeEscapedText | src/app/letter/page.tsx:60-62 | reference decoding undoes the escaping `innerHTML` applies to text |
| EditorCodec.DecodeReference | src/app/letter/page.tsx:60-62 | a known reference at the front decodes to its character |
| EditorCodec.GetEditorContent | src/app/letter/page.tsx:35-63 | the decoded content neither starts nor ends with white space |
| EditorCodec.EmptyEditorReadsEmpty | src/app/letter/page.tsx:35-63 | an empty editor reads back as the empty text |
| EditorCodec.Format | src/app/letter/page.tsx:73-76 | formatting brings in no line feed, and text without `*` comes out verbatim, with `<`, `>` and `&` not escaped |
| EditorCodec.SetEditorContent | src/app/letter/page.tsx:66-82 | the editor holds one `<div>` per line, in order, each with that line's display markup, or `<br>` for an empty line |
| EditorCodec.RenderLines | src/app/letter/page.tsx:155-171 | one display paragraph per line of the text, and the paragraphs joined by line feeds are the formatted text |
| EditorCodec.RenderSingle | src/app/slides/page.tsx:214-226 | the single-paragraph renderer is the per-line renderer joined by line feeds |
| EditorCodec.FormatByLine | src/app/letter/page.tsx:73-76 | formatting two lines joined by a line feed formats each line on its own |
| EditorCodec.FormatJoin | src/app/letter/page.tsx:73-79 | formatting a join of lines is the join of the formatted lines |
| EditorCodec.FormatLineByLine | src/app/letter/page.tsx:155-171 | the lines of the formatted text are the display paragraphs, in order |
| EditorCodec.NoStarNoMatch | src/app/letter/page.tsx:73-76 | without `*`, neither formatting pass changes the text |
| EditorCodec.FormatEmpty | src/app/letter/page.tsx:79 | a line formats to nothing exactly when it is empty, so `line \|\| '<br>'` sees the same emptiness |
| EditorCodec.EmptyStrongPair | src/app/letter/page.tsx:42 | an empty `<strong></strong>` decodes to `****` |
| EditorCodec.EmptyEmPair | src/app/letter/page.tsx:46 | an empty `<EM></Em>` decodes to `**`, whatever the case of the tag letters |
| CodecRoundTrip.MarkersOf | src/app/letter/page.tsx:42-57 | over the encoder's output, the rewrites and the strip give back the marker text |
| CodecRoundTrip.DecodePieces | src/app/letter/page.tsx:35-63 | `getEditorContent` over the encoder's output gives back the trimmed marker text |
| CodecRoundTrip.RoundTrip | src/app/letter/page.tsx:35-82 | for text without `<` or `&`, load then save gives back each line preceded by a line feed, an empty line as a line feed, all trimmed |
| CodecRoundTrip.LinesAsReadWiden | src/app/letter/page.tsx:50-54 | the lines as read back are the text with each empty line widened, after one leading line feed |
| CodecRoundTrip.RoundTripWidens | src/app/letter/page.tsx:35-82 | load then save gives back the lines with every empty line turned into a line feed, trimmed |
| CodecRoundTrip.RoundTripKeeps | src/app/letter/page.tsx:35-99 | a trimmed text without `<`, `&` or an empty line survives load then save unchanged |
| CodecRoundTrip.BlankLineGrows | src/app/letter/page.tsx:50-54 | `"a\n\nb"` comes back as `"a\n\n\nb"` |
| CodecRoundTrip.StableRoundTrip | src/app/letter/page.tsx:35-82 | a text the editor carries over survives load then save |
| OrderedList.RemoveAt | src/app/slides/page.tsx:61 | the list loses exactly the element at the index, and the others keep their order |
| OrderedList.RemoveAtFilters | src/app/slides/page.tsx:61 | removal by index is the source's filter over indices |
| OrderedList.FilterKeepsAll | src/app/slides/page.tsx:61 | a filter for an index past the end keeps everything |
| OrderedList.RemoveAtMultiset | src/app/slides/page.tsx:56-66 | a removal takes exactly that element out of the multiset |
| OrderedList.Swap | src/app/slides/page.tsx:68-84 | the two places exchange their elements and no other place changes |
| OrderedList.SwapMultiset | src/app/slides/page.tsx:68-84 | an exchange keeps the multiset of elements |
| OrderedList.SwapUndo | src/app/slides/page.tsx:68-84 | a move down undoes a move up of the same places |
| OrderedList.CursorAfterRemove | src/app/slides/page.tsx:62-64 | the cursor stays unless it is past the new end, and then it moves to the last element |
| OrderedList.FilterMembers | src/app/gift/page.tsx:100 | the filter keeps exactly the elements that pass and never lengthens the list |
| OrderedList.Filter | src/app/gift/page.tsx:100 | every element kept passes the test, and the list never grows |
| OrderedList.FilterConcat | src/app/gift/page.tsx:100 | the filter keeps order: filtering a concatenation filters each part |
| OrderedList.FilterKeepsPassing | src/app/gift/page.tsx:100 | a filter every element passes changes nothing |
| OrderedList.FilterDropsOne | src/app/gift/page.tsx:100 | a filter that exactly one element fails removes just that one |
| OrderedList.FilterLosesAtMostOne | src/app/quiz/page.tsx:215-223 | a filter that fails at most one element shortens the list by at most one |
| LetterPage.LetterPage.constructor | src/app/letter/page.tsx:16-20 | the page opens in view mode with the given title and letter |
| LetterPage.LetterPage.SaveAndExit | src/app/letter/page.tsx:85-99 | leaving edit mode stores the decoded editor content; entering it fills the editor from the letter; the mode flips (a handler no rendered element calls) |
| LetterPage.LetterPage.EditContent | src/app/letter/page.tsx:29-32 | the browser's edits change only the editor markup |
| LetterPage.LetterPage.SetTitle | src/app/letter/page.tsx:223 | the title input changes only the title |
| SlidesPage.SlidesPage.constructor | src/app/slides/page.tsx:16-25 | the page opens on the first slide in view mode |
| SlidesPage.SlidesPage.Refill | src/app/slides/page.tsx:166-171 | in edit mode a cursor move leaves the editor on screen empty: the refill lands in the departing card (lines 279-286), and the incoming card's editor (lines 440-446) mounts empty; otherwise the editor is unchanged |
| SlidesPage.SlidesPage.GoToNext | src/app/slides/page.tsx:33-37 | one step on, nothing at the last slide, and the cursor stays on a slide; in edit mode a move leaves the editor empty |
| SlidesPage.SlidesPage.GoToPrevious | src/app/slides/page.tsx:39-43 | one step back, nothing at the first slide; in edit mode a move leaves the editor empty |
| SlidesPage.SlidesPage.GoTo | src/app/slides/page.tsx:457-461 | a dot jumps straight to its slide, in either mode; in edit mode a jump to another slide leaves the editor empty |
| SlidesPage.SlidesPage.AddSlide | src/app/slides/page.tsx:46-54 | exactly one empty slide is appended and the cursor moves onto it; in edit mode the editor is left empty, so a save stores an empty caption |
| SlidesPage.SlidesPage.DeleteCurrent | src/app/slides/page.tsx:56-66 | refused with one slide left; otherwise exactly the current slide goes and the cursor is clamped; in edit mode the editor is left empty when the cursor moves, and unchanged when it stays |
| SlidesPage.SlidesPage.MoveUp | src/app/slides/page.tsx:68-75 | the current slide swaps with the one before it, the cursor follows it, and nothing happens at the first slide; in edit mode a move leaves the editor empty |
| SlidesPage.SlidesPage.MoveDown | src/app/slides/page.tsx:77-84 | the current slide swaps with the one after it, the cursor follows it, and nothing happens at the last slide; in edit mode a move leaves the editor empty |
| SlidesPage.SlidesPage.SetImage | src/app/slides/page.tsx:87-98 | the uploaded image replaces only the current slide's image |
| SlidesPage.SlidesPage.EditCaption | src/app/slides/page.tsx:101-104 | the browser's edits change only the editor markup |
| SlidesPage.SlidesPage.SaveAndExit | src/app/slides/page.tsx:155-171 | leaving edit mode writes the decoded caption into the current slide only; entering it fills the editor; the mode flips (a handler no rendered element calls) |
| SlidesPage.SlidesPage.ShownCaption | src/app/slides/page.tsx:450 | the caption shown is the current slide's caption rendered line by line, joined by line feeds |
| QuizPage.CorrectAnswerId | src/app/quiz/page.tsx:61 | there is no correct answer id exactly when no answer is marked correct |
| QuizPage.CorrectAnswerIdFirst | src/app/quiz/page.tsx:61 | the id found is that of the first answer marked correct |
| QuizPage.NewQuestion | src/app/quiz/page.tsx:153-164 | a new question has non-blank text and four answers with distinct ids, the first marked correct, and it is scored |
| QuizPage.NewAnswer | src/app/quiz/page.tsx:205-209 | a new answer is unmarked and its id is the stamp, `-a` and its number |
| QuizPage.NewAnswerIdsDiffer | src/app/quiz/page.tsx:205-209 | answers numbered differently under one stamp get different ids |
| QuizPage.CountsBounded | src/app/quiz/page.tsx:53-73 | never more right than scored, and never more scored than there are questions |
| QuizPage.UnansweredWithoutCorrectCounts | src/app/quiz/page.tsx:60-63 | a scored question with no answer marked correct counts as right while unanswered |
| QuizPage.UnansweredWithCorrectMisses | src/app/quiz/page.tsx:60-63 | a scored question with an answer marked correct is not right while unanswered |
| QuizPage.MarkOnlyCorrect | src/app/quiz/page.tsx:225-232 | every answer is marked correct exactly when its id is the one given |
| QuizPage.MarkedCorrectIsNamed | src/app/quiz/page.tsx:225-232 | after marking, the correct answer found is the one named |
| QuizPage.ClearCorrect | src/app/quiz/page.tsx:142-147 | every answer's mark is cleared and nothing else changes |
| QuizPage.ClampedPassingScore | src/app/quiz/page.tsx:520 | the pass mark lies in [0, 100]: in-range values are kept, larger ones become 100, and negative ones or unparsable input become 0 |
| QuizPage.DecodedEditors | src/app/quiz/page.tsx:286-297 | one decoded text for each open answer editor |
| QuizPage.DecodedEditor | src/app/quiz/page.tsx:279-284 | a decoded question exactly when the question editor is mounted |
| QuizPage.SavedAnswers | src/app/quiz/page.tsx:286-297 | the save keeps the number of answers |
| QuizPage.SavedAnswerAt | src/app/quiz/page.tsx:286-297 | an answer gets its editor's content when its editor is open and it is the first answer with its id (`findIndex`); otherwise it is unchanged |
| QuizPage.SavedAnswersDistinct | src/app/quiz/page.tsx:286-297 | with distinct ids, every answer whose editor is open receives that editor's content |
| QuizPage.SavedQuestion | src/app/quiz/page.tsx:276-297 | the saved question keeps its id, its scoring flag and its number of answers, and takes the question editor's content when that editor is mounted |
| QuizPage.SaveCurrent | src/app/quiz/page.tsx:281-283 | only the current question changes |
| QuizPage.SavedQuestionKeepsCorrect | src/app/quiz/page.tsx:276-297 | the save leaves the question's correct answer as it was |
| QuizPage.SameMarksSameCorrect | src/app/quiz/page.tsx:61 | answers with the same ids and marks name the same correct answer |
| QuizPage.LoadedAnswerEditors | src/app/quiz/page.tsx:305-317 | on entering edit mode, each answer's editor holds its encoded text |
| QuizPage.LoadThenSaveKeeps | src/app/quiz/page.tsx:276-317 | entering and leaving edit mode without edits keeps the question, when its texts are ones the editor carries over |
| QuizPage.ScorableSome | src/app/quiz/page.tsx:83-85 | some question is counted as scored exactly when one has its scoring flag set |
| QuizPage.QuizPage.constructor | src/app/quiz/page.tsx:31-44 | questions are scored when they have an answer marked correct; the pass mark is 70; scoring is on |
| QuizPage.QuizPage.CalculateScore | src/app/quiz/page.tsx:53-73 | the loop counts the scored questions and the right answers; the percentage is their rounded ratio, or 100 when none is scored; correct ≤ total and the percentage ≤ 100 |
| QuizPage.QuizPage.IsPassed | src/app/quiz/page.tsx:76-80 | passed when scoring is off, and otherwise exactly when the percentage reaches the pass mark |
| QuizPage.QuizPage.HasScoringEnabled | src/app/quiz/page.tsx:83-85 | scoring is shown exactly when it is enabled and `calculateScore` would count at least one question |
| QuizPage.QuizPage.SelectAnswer | src/app/quiz/page.tsx:88-94 | nothing once results are shown; otherwise only the current question's entry changes |
| QuizPage.QuizPage.SubmitQuiz | src/app/quiz/page.tsx:110-127 | results are shown when every question has an answer, or when the visitor confirms |
| QuizPage.QuizPage.ResetQuiz | src/app/quiz/page.tsx:130-134 | no answers, results hidden, and back to the first question |
| QuizPage.QuizPage.GoToNext | src/app/quiz/page.tsx:97-101 | one step on, and nothing at the last question |
| QuizPage.QuizPage.GoToPrevious | src/app/quiz/page.tsx:103-107 | one step back, and nothing at the first question |
| QuizPage.QuizPage.GoTo | src/app/quiz/page.tsx:806-810 | a dot jumps straight to its question in view mode, and does nothing in edit mode |
| QuizPage.QuizPage.ToggleValidation | src/app/quiz/page.tsx:137-150 | the current question's flag flips, and switching it off clears every answer's mark |
| QuizPage.QuizPage.AddQuestion | src/app/quiz/page.tsx:153-167 | one new question is appended and selected |
| QuizPage.QuizPage.DeleteQuestion | src/app/quiz/page.tsx:169-179 | refused with one question left; otherwise exactly the current question goes and the cursor is clamped |
| QuizPage.QuizPage.MoveQuestionUp | src/app/quiz/page.tsx:181-188 | the question swaps with the one before it and the cursor follows |
| QuizPage.QuizPage.MoveQuestionDown | src/app/quiz/page.tsx:190-197 | the question swaps with the one after it and the cursor follows |
| QuizPage.QuizPage.AddAnswer | src/app/quiz/page.tsx:200-213 | refused at six answers; otherwise one unmarked answer is appended, so a count in [2, 6] stays in [2, 6] |
| QuizPage.QuizPage.DeleteAnswer | src/app/quiz/page.tsx:215-223 | refused at two answers or fewer; otherwise the answers with that id are filtered out, so with distinct answer ids a count in [2, 6] stays in [2, 6] |
| QuizPage.QuizPage.ToggleCorrect | src/app/quiz/page.tsx:225-232 | afterwards an answer is correct exactly when its id is the one given |
| QuizPage.QuizPage.SetPassingScore | src/app/quiz/page.tsx:520 | the pass mark is the clamped input |
| QuizPage.QuizPage.SetEnableScoring | src/app/quiz/page.tsx:505-509 | the checkbox sets `enableScoring` and nothing else; scoring is shown exactly when it is checked and some question is scored |
| QuizPage.QuizPage.SaveAndExit | src/app/quiz/page.tsx:276-302 | leaving edit mode writes the decoded question and answer editors into the current question only; the mode flips |
| GiftPage.FindById | src/app/gift/page.tsx:180 | `find` by id reports nothing exactly when no prize has the id, and otherwise a prize with that id |
| GiftPage.FindByIdAt | src/app/gift/page.tsx:180 | with distinct ids, the prize found is the one at the place holding the id |
| GiftPage.NewPrize | src/app/gift/page.tsx:86-91 | a new prize has the given id, a title and a message that are not blank, and no image |
| GiftPage.SaveContent | src/app/gift/page.tsx:165-167 | only prizes with that id change, and only their title and message |
| GiftPage.SetImageOf | src/app/gift/page.tsx:106-118 | only the prize with that id changes, and only its image |
| GiftPage.SaveThenFind | src/app/gift/page.tsx:165-167 | after a save, the prize reads back with the saved title and message and its old image |
| GiftPage.SaveOpenPrize | src/app/gift/page.tsx:158-169 | with the editor shown and a prize open, that prize gets the decoded title and message, and ids stay distinct; otherwise nothing changes |
| GiftPage.SaveFacts | src/app/gift/page.tsx:165-167 | a save keeps ids distinct, and the saved prize reads back with its new content |
| GiftPage.SaveKeepsIds | src/app/gift/page.tsx:165-167 | a save keeps ids distinct |
| GiftPage.OpenThenSaveKeeps | src/app/gift/page.tsx:158-190 | opening a prize and saving it untouched changes nothing, when its texts are ones the editor carries over |
| GiftPage.SaveSameKeeps | src/app/gift/page.tsx:165-167 | saving a prize's own title and message changes nothing |
| GiftPage.DeleteByIdRemovesOne | src/app/gift/page.tsx:100 | with distinct ids, deletion removes the one prize with that id, or nothing |
| GiftPage.RemoveKeepsDistinct | src/app/gift/page.tsx:100 | a removal keeps ids distinct |
| GiftPage.GiftPage.constructor | src/app/gift/page.tsx:17-30 | the page opens with nothing selected, revealed or open |
| GiftPage.GiftPage.SelectBox | src/app/gift/page.tsx:40-43 | nothing once a prize is revealed; otherwise the box is selected |
| GiftPage.GiftPage.Reveal | src/app/gift/page.tsx:46-47 | the timer reveals the picked prize |
| GiftPage.GiftPage.Reset | src/app/gift/page.tsx:75-78 | no box selected and no prize revealed (a handler no rendered element calls) |
| GiftPage.GiftPage.AddPrize | src/app/gift/page.tsx:81-93 | refused at six prizes; otherwise exactly one new prize is appended |
| GiftPage.GiftPage.DeletePrize | src/app/gift/page.tsx:95-104 | refused with one prize left; otherwise the prize is filtered out and the editor forgets it if it was open |
| GiftPage.GiftPage.SetImage | src/app/gift/page.tsx:106-118 | the upload replaces that prize's image only |
| GiftPage.GiftPage.Refill | src/app/gift/page.tsx:178-190 | the editors are loaded from the open prize when edit mode or the open prize changed |
| GiftPage.GiftPage.ClickBox | src/app/gift/page.tsx:413-414 | in edit mode a click opens the prize; otherwise it picks the box unless another box is picked |
| GiftPage.GiftPage.EditContent | src/app/gift/page.tsx:121-124 | the browser's edits change only the two editors |
| GiftPage.GiftPage.SavePrize | src/app/gift/page.tsx:483-500 | closing the prize editor saves the open prize and closes the editor |
| GiftPage.GiftPage.SaveAndExit | src/app/gift/page.tsx:158-175 | leaving edit mode saves the open prize; entering it forgets the open prize; the mode flips (a handler no rendered element calls) |
| SetupValidation.ValidateGreeting | src/utils/setupValidation.ts:8-23 | valid exactly when title, message and button text are all non-blank; failures are reported in that order |
| SetupValidation.ValidateLetter | src/utils/setupValidation.ts:25-36 | valid exactly when the title is non-blank and the trimmed letter has at least 50 UTF-16 units |
| SetupValidation.LetterLengthBounds | src/utils/setupValidation.ts:32-34 | a passing letter has at least 25 characters, and 50 characters always pass |
| SetupValidation.ValidateSlides | src/utils/setupValidation.ts:38-51 | valid exactly when there are slides and none has a blank image |
| SetupValidation.SlidesIgnoreCaptions | src/utils/setupValidation.ts:38-51 | captions play no part in the slide check |
| SetupValidation.FirstFailing | src/utils/setupValidation.ts:60-68 | the early return stops at the first element that fails |
| SetupValidation.QuizVerdict | src/utils/setupValidation.ts:53-71 | valid exactly when there are questions and each has non-blank text and at least two answers |
| SetupValidation.QuizReportsFirst | src/utils/setupValidation.ts:60-68 | the report names the first incomplete question, counting from 1, and the reason it fails |
| SetupValidation.ValidateQuiz | src/utils/setupValidation.ts:53-71 | the index loop returns the verdict |
| SetupValidation.GiftVerdict | src/utils/setupValidation.ts:73-91 | valid exactly when there are prizes and each has a non-blank title and message |
| SetupValidation.GiftReportsFirst | src/utils/setupValidation.ts:80-88 | the report names the first incomplete prize |
| SetupValidation.ValidateGift | src/utils/setupValidation.ts:73-91 | the index loop returns the verdict |
| SetupValidation.ValidateSlug | src/utils/setupValidation.ts:94-124 | valid exactly when the slug is non-blank, has 3 to 50 units, uses only `[a-z0-9-]`, has no hyphen at either end, and has no `--` |
| SetupValidation.SlugPrecedence | src/utils/setupValidation.ts:95-121 | errors are reported in order: blank, too short, too long, characters, end hyphen, double hyphen |
| SetupValidation.SlugLength | src/utils/setupValidation.ts:99-105 | slug characters take one UTF-16 unit each |
| SetupValidation.ValidSlugLength | src/utils/setupValidation.ts:99-105 | an accepted slug has 3 to 50 characters, both ends included |
| SetupValidation.LettersSlugValid | src/utils/setupValidation.ts:103-111 | any 3 to 50 lowercase letters pass, including exactly 50, despite the message "less than 50" |
| SetupValidation.SlugPiece | src/utils/setupValidation.ts:129 | each character maps to one or two slug characters |
| SetupValidation.SlugMapped | src/utils/setupValidation.ts:129 | the mapped text uses only `[a-z0-9-]` |
| SetupValidation.CollapseFacts | src/utils/setupValidation.ts:129 | collapsing leaves no `--`, stays in `[a-z0-9-]`, and starts with a hyphen only where the text did |
| SetupValidation.PrependKeepsSingle | src/utils/setupValidation.ts:129 | putting a character in front keeps hyphens single unless it makes a pair |
| SetupValidation.CleanSlug | src/utils/setupValidation.ts:129 | the cleaned slug uses only `[a-z0-9-]` and has no `--` |
| SetupValidation.GenerateSlugSuggestions | src/utils/setupValidation.ts:127-138 | five suggestions in order: random, year, `-special`, `-love` and `my-` |
| SetupValidation.ExtendedSlugValid | src/utils/setupValidation.ts:133-135 | a valid slug extended by a hyphen and a word stays valid while short enough |
| SetupStore.WithFlag | src/store/setupStore.ts:52-59 | exactly the named flag is set; the other four are kept |
| SetupStore.Values | src/store/setupStore.ts:63 | there are five values |
| SetupStore.Completed | src/store/setupStore.ts:68 | at most five flags are on |
| SetupStore.CompletedCounts | src/store/setupStore.ts:68 | the count is the number of flags that are on |
| SetupStore.AllCompleteMeansEverySection | src/store/setupStore.ts:61-64 | all values are true exactly when every section is complete |
| SetupStore.Percentage | src/store/setupStore.ts:66-71 | 20 per completed section; 100 exactly when all are complete, and 0 exactly when none is |
| SetupStore.SetupStore.constructor | src/store/setupStore.ts:42-50 | the store starts with nothing complete and no link |
| SetupStore.SetupStore.UpdateProgress | src/store/setupStore.ts:52-59 | exactly the named section changes; the link is untouched |
| SetupStore.SetupStore.CheckAllComplete | src/store/setupStore.ts:61-64 | true exactly when all five sections are complete |
| SetupStore.SetupStore.GetCompletionPercentage | src/store/setupStore.ts:66-71 | 20 per completed section, at most 100, and 100 exactly when all are complete |
| SetupStore.SetupStore.SetGeneratedLink | src/store/setupStore.ts:73-75 | the link is stored as given |
| SetupStore.SetupStore.ClearGeneratedLink | src/store/setupStore.ts:77-79 | no link afterwards |
| SetupStore.SetupStore.IncrementViews | src/store/setupStore.ts:81-91 | nothing without a link; otherwise one more view, and slug, address and dates unchanged |
| SetupStore.SetupStore.ResetProgress | src/store/setupStore.ts:93-104 | every flag off, no link, and a percentage of 0 |

## Left out

- LetterPage.LetterPage.SaveAndExit, SlidesPage.SlidesPage.SaveAndExit, GiftPage.GiftPage.SaveAndExit and GiftPage.GiftPage.Reset model handlers that no rendered element calls (`handleSaveAndExit` at src/app/letter/page.tsx:85, src/app/slides/page.tsx:155 and src/app/gift/page.tsx:158, `handleReset` at src/app/gift/page.tsx:75). The switch handler is the only writer of `isEditing` on those pages, so there everything gated on edit mode is unreachable on the shipped site: the letter's load and save, the slide toolbar and caption save, and the gift prize editor with add, delete and upload. The model keeps these operations as the code writes them. The load-then-save round trip can be exercised on the shipped site only through the quiz page.
- Bold, italic and undo are `document.execCommand` calls into the browser's editing engine (src/app/letter/page.tsx:29-32). They are modelled only as an arbitrary change of the editor markup.
- The browser's re-serialisation of `innerHTML` is not modelled. The editor hands back exactly the markup last written, or what `EditContent` set.
- Character references: the decoder knows `&amp;`, `&lt;`, `&gt;`, `&quot;`, `&#39;` and `&nbsp;`. The rest of the HTML5 reference table, and the `<textarea>` parser's other behaviour, are left out.
- A missing editor element (`if (!editorRef.current) return ''`) is not modelled. The pages only run the codec while the editor is mounted. The quiz save takes the presence of each editor as an input. The gift saves (`GiftPage.SaveOpenPrize`, `GiftPage.GiftPage.SavePrize`, `GiftPage.GiftPage.SaveAndExit`) take the two editors to be mounted exactly when the page is in edit mode with a prize open, which is the condition under which src/app/gift/page.tsx:483 shows the prize editor. That condition leaves out a second one: the editor sits inside the branch for no prize revealed (src/app/gift/page.tsx:332). So when a box is picked in view mode, edit mode is entered and a prize opened before the one-second reveal, and the reveal then unmounts the editor, the source's save skips the write (the editor refs are null) while `GiftPage.GiftPage.SaveAndExit` still writes the decoded editors.
- Firestore access, the `cardStore` persistence, the zustand persistence of the setup store, and src/components/LinkGenerator.tsx are not part of this model: they are network, storage or debounced user-interface code.
- Timers are not modelled. The gift reveal a second after a pick is a separate step, `GiftPage.GiftPage.Reveal`. The slide and letter entrance animations are presentation.
- `FileReader` uploads are not modelled. The data URL they produce is a parameter of `SetImage`.
- Audio playback, layout, animation, `alert` and the keyboard shortcut handlers are not modelled.
- Clock readings (`Date.now()` ids), `Math.random()` and the current year are parameters. `addNewQuestion` reads the clock once per id, five times, and the readings may differ by a millisecond; `QuizPage.NewQuestion` takes one stamp for all of them, and the ids are distinct either way. `confirm` is the `confirmed` parameter of `SubmitQuiz`.
- JsMath.RoundPercent: rounds the exact ratio, while the source computes `(correct / total) * 100` in floating point first. The two can differ where the float product lands just below a half. For example 29 of 200 is 14.499999999999998 in floating point, which rounds to 14, but the exact value 14.5 rounds to 15 here.
- SetupValidation.SlugMapped: `toLowerCase` is modelled for ASCII and for the two characters that lower into ASCII (U+212A and U+0130). Other letters that lower to a letter outside `[a-z]` still become a hyphen, so the cleaned slug is the same.
- The quiz page fills its editors from the effect on `[isEditing, currentQuestionIndex]` (src/app/quiz/page.tsx:305-317). On entering edit mode the editors are mounted and filled. The question card is keyed on the cursor and replaced with an exit animation that finishes before the next card mounts (src/app/quiz/page.tsx:589-591). So after a cursor move in edit mode the effect writes the new question into the departing question editor, and the new answers into departing answer editors that happen to share their ids. The incoming editors mount empty, and a save then writes the empty text into the question and its answers. The quiz model does not hold the editor markup: `QuizPage.QuizPage.SaveAndExit` takes each editor's presence and contents as inputs, and the load is modelled only as the one on entering edit mode (`QuizPage.LoadedAnswerEditors`).
- QuizPage.QuizPage.AddQuestion, QuizPage.QuizPage.DeleteQuestion, QuizPage.QuizPage.MoveQuestionUp, QuizPage.QuizPage.MoveQuestionDown: what these cursor moves in edit mode do to the editors (the incoming editors mount empty) is not part of their contracts. The slides page, whose model holds the editor, states it (`SlidesPage.SlidesPage.Refill`).
- `editingAnswerId` of the quiz page is not modelled; it only chooses which answer editor is shown.
- QuizPage.QuizPage.SaveAndExit: the source mutates the question and answer objects it shares with the previous state, one `setQuestions` per answer. The model writes the combined result once, and it does not model the sharing. The page copies each question with `{...q}` (src/app/quiz/page.tsx:38-43), so every `answers` array is still the configuration's own array. The answer-text writes of the save therefore also change the quiz configuration, and the change shows again the next time the page mounts.
- SlidesPage.SlidesPage.SetImage, SlidesPage.SlidesPage.SaveAndExit, QuizPage.QuizPage.AddAnswer: the model does not capture the writes into the page configuration objects. The slides page starts from `useState(slidesConfig)` without a copy (src/app/slides/page.tsx:25), so the image write (line 93) and the caption write (line 159) change the configuration's own slide objects. Caption and image edits thus outlive the page, while edits to the list itself do not. Likewise `answers.push` (src/app/quiz/page.tsx:211) appends to the configuration's own array. The model's page state is a value, separate from the configuration it was built from.
- LetterPage.LetterPage.SaveAndExit: states the decoded content that is stored. When the letter is a text the editor carries over, that content equals the letter (`CodecRoundTrip.StableRoundTrip`), but the method's contract does not state this itself.
- The static page configurations under src/config and the presentation components are not modelled.
