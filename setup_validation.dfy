/**
 * The completeness checks behind the setup progress, one per page, and the checks and
 * suggestions for the custom link's slug.
 *
 * "Blank" is `!s || s.trim().length === 0`: empty or white space only. Each check tries its
 * conditions in a fixed order and reports the first that fails. Lengths are JavaScript
 * lengths, in UTF-16 code units.
 */
module SetupValidation {
  import opened JsText
  import opened JsRegex
  import opened OrderedList
  import SlidesPage
  import QuizPage
  import GiftPage

  datatype ValidationResult = Valid | Invalid(message: string)

  /** `validateGreeting`: title, message and button text must each be non-blank, checked
      in that order. */
  function ValidateGreeting(title: string, message: string, buttonText: string): (r: ValidationResult)
    ensures r.Valid? <==> !IsBlank(title) && !IsBlank(message) && !IsBlank(buttonText)
    ensures IsBlank(title) ==> r == Invalid("Greeting title is required")
    ensures !IsBlank(title) && IsBlank(message) ==> r == Invalid("Greeting message is required")
    ensures !IsBlank(title) && !IsBlank(message) && IsBlank(buttonText) ==> r == Invalid("Button text is required")
  {
    if IsBlank(title) then Invalid("Greeting title is required")
    else if IsBlank(message) then Invalid("Greeting message is required")
    else if IsBlank(buttonText) then Invalid("Button text is required")
    else Valid
  }

  /** Fewest characters a letter must have once trimmed. */
  const MinLetterLength := 50

  /** `validateLetter`: a non-blank title, and at least 50 characters once trimmed. */
  function ValidateLetter(title: string, content: string): (r: ValidationResult)
    ensures r.Valid? <==> !IsBlank(title) && JsLength(Trim(content)) >= MinLetterLength
    ensures IsBlank(title) ==> r == Invalid("Letter title is required")
    ensures !IsBlank(title) && JsLength(Trim(content)) < MinLetterLength ==> r == Invalid("Letter content must be at least 50 characters")
  {
    if IsBlank(title) then Invalid("Letter title is required")
    else if JsLength(Trim(content)) < MinLetterLength then Invalid("Letter content must be at least 50 characters")
    else Valid
  }

  /** A letter that passes holds at least 25 characters besides surrounding white space,
      and any letter with 50 such characters passes on its content. */
  lemma LetterLengthBounds(title: string, content: string)
    ensures ValidateLetter(title, content).Valid? ==> 2 * |Trim(content)| >= MinLetterLength
    ensures !IsBlank(title) && |Trim(content)| >= MinLetterLength ==> ValidateLetter(title, content).Valid?
  {
  }

  /** A slide counted as missing its image. */
  predicate MissingImage(s: SlidesPage.Slide) {
    IsBlank(s.imageUrl)
  }

  /** `validateSlides`: at least one slide, and no slide whose image is blank (the filter of
      such slides is empty); captions are not looked at. */
  function ValidateSlides(slides: seq<SlidesPage.Slide>): (r: ValidationResult)
    ensures r.Valid? <==> |slides| > 0 && forall k :: 0 <= k < |slides| ==> !IsBlank(slides[k].imageUrl)
    ensures slides == [] ==> r == Invalid("At least one slide is required")
    ensures r.Invalid? && slides != [] ==> r == Invalid("All slides must have images")
  {
    if |slides| == 0 then Invalid("At least one slide is required")
    else
      assert |Filter(slides, MissingImage)| > 0 <==> exists k :: 0 <= k < |slides| && IsBlank(slides[k].imageUrl) by {
        FilterMembers(slides, MissingImage);
        if exists k :: 0 <= k < |slides| && IsBlank(slides[k].imageUrl) {
          var k :| 0 <= k < |slides| && IsBlank(slides[k].imageUrl);
          assert slides[k] in Filter(slides, MissingImage);
        }
        if |Filter(slides, MissingImage)| > 0 {
          assert Filter(slides, MissingImage)[0] in slides;
        }
      }
      if |Filter(slides, MissingImage)| > 0 then Invalid("All slides must have images")
      else Valid
  }

  /** The captions play no part in the slide check. */
  lemma SlidesIgnoreCaptions(slides: seq<SlidesPage.Slide>, captions: seq<string>)
    requires |captions| == |slides|
    ensures var recaptioned := seq(|slides|, k requires 0 <= k < |slides| => slides[k].(caption := captions[k]));
            ValidateSlides(recaptioned) == ValidateSlides(slides)
  {
    var recaptioned := seq(|slides|, k requires 0 <= k < |slides| => slides[k].(caption := captions[k]));
    assert forall k :: 0 <= k < |slides| ==> recaptioned[k].imageUrl == slides[k].imageUrl;
  }

  /** The first place at or after `i` whose element fails `ok`: the early return of an index
      loop. */
  function FirstFailing<T>(s: seq<T>, ok: T -> bool, i: nat): (r: Option<nat>)
    requires i <= |s|
    ensures r.None? <==> forall k :: i <= k < |s| ==> ok(s[k])
    ensures r.Some? ==> i <= r.value < |s| && !ok(s[r.value]) && forall k :: i <= k < r.value ==> ok(s[k])
    decreases |s| - i
  {
    if i == |s| then None else if !ok(s[i]) then Some(i) else FirstFailing(s, ok, i + 1)
  }

  /** A question the quiz check accepts: non-blank text and at least two answers. */
  predicate QuestionComplete(q: QuizPage.Question) {
    !IsBlank(q.question) && |q.answers| >= 2
  }

  /** The report for the question at `i`, numbered from 1. */
  function QuestionError(q: QuizPage.Question, i: nat): string {
    if IsBlank(q.question) then "Question " + NatToString(i + 1) + " is empty"
    else "Question " + NatToString(i + 1) + " needs at least 2 answers"
  }

  /** What `validateQuiz` answers: at least one question, then the first incomplete one. */
  function QuizVerdict(questions: seq<QuizPage.Question>): (r: ValidationResult)
    ensures r.Valid? <==> |questions| > 0 && forall k :: 0 <= k < |questions| ==> QuestionComplete(questions[k])
  {
    if questions == [] then Invalid("At least one question is required")
    else match FirstFailing(questions, QuestionComplete, 0)
      case None => Valid
      case Some(i) => Invalid(QuestionError(questions[i], i))
  }

  /** The quiz check names the first incomplete question, and the reason it fails. */
  lemma QuizReportsFirst(questions: seq<QuizPage.Question>, i: nat)
    requires i < |questions| && !QuestionComplete(questions[i])
    requires forall k :: 0 <= k < i ==> QuestionComplete(questions[k])
    ensures QuizVerdict(questions) == Invalid(QuestionError(questions[i], i))
    ensures IsBlank(questions[i].question) ==> QuizVerdict(questions).message == "Question " + NatToString(i + 1) + " is empty"
    ensures !IsBlank(questions[i].question) ==> |questions[i].answers| < 2
  {
    var f := FirstFailing(questions, QuestionComplete, 0);
    assert f.Some?;
  }

  /** `validateQuiz`: the index loop with early returns. */
  method ValidateQuiz(questions: seq<QuizPage.Question>) returns (r: ValidationResult)
    ensures r == QuizVerdict(questions)
  {
    if |questions| == 0 {
      return Invalid("At least one question is required");
    }
    var i := 0;
    while i < |questions|
      invariant i <= |questions|
      invariant FirstFailing(questions, QuestionComplete, 0) == FirstFailing(questions, QuestionComplete, i)
    {
      var q := questions[i];
      if IsBlank(q.question) {
        return Invalid("Question " + NatToString(i + 1) + " is empty");
      }
      if |q.answers| < 2 {
        return Invalid("Question " + NatToString(i + 1) + " needs at least 2 answers");
      }
      i := i + 1;
    }
    return Valid;
  }

  /** A prize the gift check accepts: non-blank title and message. */
  predicate PrizeComplete(p: GiftPage.Prize) {
    !IsBlank(p.title) && !IsBlank(p.message)
  }

  /** The report for the prize at `i`, numbered from 1. */
  function PrizeError(p: GiftPage.Prize, i: nat): string {
    if IsBlank(p.title) then "Prize " + NatToString(i + 1) + " needs a title"
    else "Prize " + NatToString(i + 1) + " needs a message"
  }

  /** What `validateGift` answers: at least one prize, then the first incomplete one. */
  function GiftVerdict(prizes: seq<GiftPage.Prize>): (r: ValidationResult)
    ensures r.Valid? <==> |prizes| > 0 && forall k :: 0 <= k < |prizes| ==> PrizeComplete(prizes[k])
  {
    if prizes == [] then Invalid("At least one prize is required")
    else match FirstFailing(prizes, PrizeComplete, 0)
      case None => Valid
      case Some(i) => Invalid(PrizeError(prizes[i], i))
  }

  /** The gift check names the first incomplete prize. */
  lemma GiftReportsFirst(prizes: seq<GiftPage.Prize>, i: nat)
    requires i < |prizes| && !PrizeComplete(prizes[i])
    requires forall k :: 0 <= k < i ==> PrizeComplete(prizes[k])
    ensures GiftVerdict(prizes) == Invalid(PrizeError(prizes[i], i))
  {
    var f := FirstFailing(prizes, PrizeComplete, 0);
    assert f.Some?;
  }

  /** `validateGift`: the index loop with early returns. */
  method ValidateGift(prizes: seq<GiftPage.Prize>) returns (r: ValidationResult)
    ensures r == GiftVerdict(prizes)
  {
    if |prizes| == 0 {
      return Invalid("At least one prize is required");
    }
    var i := 0;
    while i < |prizes|
      invariant i <= |prizes|
      invariant FirstFailing(prizes, PrizeComplete, 0) == FirstFailing(prizes, PrizeComplete, i)
    {
      var p := prizes[i];
      if IsBlank(p.title) {
        return Invalid("Prize " + NatToString(i + 1) + " needs a title");
      }
      if IsBlank(p.message) {
        return Invalid("Prize " + NatToString(i + 1) + " needs a message");
      }
      i := i + 1;
    }
    return Valid;
  }

  /** A character of `[a-z0-9-]`. */
  predicate SlugChar(c: char) {
    ('a' <= c <= 'z') || ('0' <= c <= '9') || c == '-'
  }

  /** `/^[a-z0-9-]+$/.test(s)`. */
  predicate SlugCharsOnly(s: string) {
    s != [] && forall i :: 0 <= i < |s| ==> SlugChar(s[i])
  }

  /** `s.includes('--')`. */
  predicate HasDoubleHyphen(s: string) {
    exists i :: 0 <= i < |s| - 1 && s[i] == '-' && s[i + 1] == '-'
  }

  const MinSlugLength := 3
  const MaxSlugLength := 50

  /** `validateSlug`: blank, too short, too long, outside `[a-z0-9-]`, a hyphen at an end,
      two hyphens in a row, reported in that order. A slug of exactly 50 characters passes. */
  function ValidateSlug(slug: string): (r: ValidationResult)
    ensures r.Valid? <==> && !IsBlank(slug) && MinSlugLength <= JsLength(slug) <= MaxSlugLength
                          && SlugCharsOnly(slug) && slug[0] != '-' && slug[|slug| - 1] != '-'
                          && !HasDoubleHyphen(slug)
  {
    if IsBlank(slug) then Invalid("Link slug is required")
    else if JsLength(slug) < MinSlugLength then Invalid("Slug must be at least 3 characters")
    else if JsLength(slug) > MaxSlugLength then Invalid("Slug must be less than 50 characters")
    else if !SlugCharsOnly(slug) then Invalid("Only lowercase letters, numbers, and hyphens allowed")
    else if slug[0] == '-' || slug[|slug| - 1] == '-' then Invalid("Slug cannot start or end with a hyphen")
    else if HasDoubleHyphen(slug) then Invalid("Slug cannot have consecutive hyphens")
    else Valid
  }

  /** Each slug check fires exactly when the ones before it pass and it fails. */
  lemma SlugPrecedence(slug: string)
    ensures IsBlank(slug) ==> ValidateSlug(slug) == Invalid("Link slug is required")
    ensures !IsBlank(slug) && JsLength(slug) < MinSlugLength ==> ValidateSlug(slug) == Invalid("Slug must be at least 3 characters")
    ensures !IsBlank(slug) && JsLength(slug) > MaxSlugLength ==> ValidateSlug(slug) == Invalid("Slug must be less than 50 characters")
    ensures (!IsBlank(slug) && MinSlugLength <= JsLength(slug) <= MaxSlugLength && !SlugCharsOnly(slug)) ==>
              ValidateSlug(slug) == Invalid("Only lowercase letters, numbers, and hyphens allowed")
    ensures (!IsBlank(slug) && MinSlugLength <= JsLength(slug) <= MaxSlugLength && SlugCharsOnly(slug)
             && (slug[0] == '-' || slug[|slug| - 1] == '-')) ==>
              ValidateSlug(slug) == Invalid("Slug cannot start or end with a hyphen")
    ensures (!IsBlank(slug) && MinSlugLength <= JsLength(slug) <= MaxSlugLength && SlugCharsOnly(slug)
             && slug[0] != '-' && slug[|slug| - 1] != '-' && HasDoubleHyphen(slug)) ==>
              ValidateSlug(slug) == Invalid("Slug cannot have consecutive hyphens")
  {
  }

  /** Characters of `[a-z0-9-]` take one UTF-16 unit each. */
  lemma {:induction false} SlugLength(s: string)
    requires forall i :: 0 <= i < |s| ==> SlugChar(s[i])
    ensures JsLength(s) == |s|
  {
    if s != [] {
      assert forall i :: 0 <= i < |s[1..]| ==> s[1..][i] == s[i + 1];
      SlugLength(s[1..]);
    }
  }

  /** An accepted slug has between 3 and 50 characters, both ends included. */
  lemma ValidSlugLength(slug: string)
    requires ValidateSlug(slug).Valid?
    ensures MinSlugLength <= |slug| <= MaxSlugLength
  {
    SlugLength(slug);
  }

  /** Any slug of 3 to 50 lowercase letters passes; in particular one of exactly 50. */
  lemma LettersSlugValid(slug: string)
    requires MinSlugLength <= |slug| <= MaxSlugLength
    requires forall i :: 0 <= i < |slug| ==> 'a' <= slug[i] <= 'z'
    ensures ValidateSlug(slug).Valid?
  {
    SlugLength(slug);
    assert !IsJsSpace(slug[0]);
  }

  /** What one character becomes in `toLowerCase()` followed by `replace(/[^a-z0-9-]/g, '-')`.
      Only ASCII capitals, the Kelvin sign (lower case `k`) and the capital I with dot above
      (lower case `i` and a combining dot) lower into `[a-z0-9]`; everything else outside the
      class becomes one hyphen per UTF-16 unit, and runs of hyphens are collapsed after. */
  function SlugPiece(c: char): (r: string)
    ensures 1 <= |r| <= 2 && forall i :: 0 <= i < |r| ==> SlugChar(r[i])
  {
    if 'A' <= c <= 'Z' then [AsciiLower(c)]
    else if c == '\U{212A}' then "k"
    else if c == '\U{130}' then "i-"
    else if SlugChar(c) then [c]
    else if c as int > 0xFFFF then "--"
    else "-"
  }

  /** The text lowered and with every character outside `[a-z0-9-]` turned into hyphens. */
  function SlugMapped(s: string): (r: string)
    ensures forall i :: 0 <= i < |r| ==> SlugChar(r[i])
  {
    if s == [] then [] else SlugPiece(s[0]) + SlugMapped(s[1..])
  }

  /** No two hyphens in a row. */
  predicate NoDoubleHyphen(s: string) {
    forall i :: 0 <= i < |s| - 1 ==> !(s[i] == '-' && s[i + 1] == '-')
  }

  /** The cleaned slug of `generateSlugSuggestions`: lowered, mapped into `[a-z0-9-]`, and
      every run of two or more hyphens collapsed into one by `/--+/g`. It holds only
      `[a-z0-9-]` and never two hyphens in a row. */
  function CleanSlug(base: string): (c: string)
    ensures forall i :: 0 <= i < |c| ==> SlugChar(c[i])
    ensures NoDoubleHyphen(c) && !HasDoubleHyphen(c)
  {
    CollapseFacts(SlugMapped(base));
    Replace(HyphenRun, SlugMapped(base))
  }

  /** Collapsing hyphen runs leaves no two hyphens in a row, keeps the text inside
      `[a-z0-9-]`, and starts with a hyphen only where the text did. */
  lemma {:induction false} CollapseFacts(t: string)
    requires forall i :: 0 <= i < |t| ==> SlugChar(t[i])
    ensures var r := Replace(HyphenRun, t);
            && NoDoubleHyphen(r)
            && (forall i :: 0 <= i < |r| ==> SlugChar(r[i]))
            && (r != [] && r[0] == '-' ==> t != [] && t[0] == '-')
    decreases |t|
  {
    if t != [] {
      var h := Step(HyphenRun, t);
      var rest := t[h.len..];
      assert forall i :: 0 <= i < |rest| ==> rest[i] == t[h.len + i];
      CollapseFacts(rest);
      var tail := Replace(HyphenRun, rest);
      assert Replace(HyphenRun, t) == h.out + tail;
      assert |h.out| == 1 && SlugChar(h.out[0]);
      assert h.out[0] == '-' ==> rest == [] || rest[0] != '-';
      PrependKeepsSingle(h.out[0], tail);
    }
  }

  /** Putting a character in front keeps hyphens single unless it makes a pair. */
  lemma PrependKeepsSingle(c: char, s: string)
    requires NoDoubleHyphen(s)
    requires c == '-' ==> s == [] || s[0] != '-'
    ensures NoDoubleHyphen([c] + s)
  {
    var r := [c] + s;
    forall i | 0 <= i < |r| - 1
      ensures !(r[i] == '-' && r[i + 1] == '-')
    {
      if i > 0 {
        assert r[i] == s[i - 1] && r[i + 1] == s[i];
      }
    }
  }

  /** `generateSlugSuggestions`: five suggestions pushed in order; `randomPick` stands for
      `Math.floor(Math.random() * 1000)` and `year` for the current year. */
  method GenerateSlugSuggestions(base: string, randomPick: nat, year: nat) returns (suggestions: seq<string>)
    ensures |suggestions| == 5
    ensures var c := CleanSlug(base);
            && suggestions[0] == c + "-" + NatToString(randomPick)
            && suggestions[1] == c + "-" + NatToString(year)
            && suggestions[2] == c + "-special"
            && suggestions[3] == c + "-love"
            && suggestions[4] == "my-" + c
  {
    suggestions := [];
    var cleanSlug := CleanSlug(base);
    suggestions := suggestions + [cleanSlug + "-" + NatToString(randomPick)];
    suggestions := suggestions + [cleanSlug + "-" + NatToString(year)];
    suggestions := suggestions + [cleanSlug + "-special"];
    suggestions := suggestions + [cleanSlug + "-love"];
    suggestions := suggestions + ["my-" + cleanSlug];
  }

  /** A slug that passes, extended by a hyphen and a word of lowercase letters or digits,
      passes too while it stays within 50 characters: the fixed suggestions built on a
      cleaned slug that is itself valid are valid. */
  lemma ExtendedSlugValid(slug: string, word: string)
    requires ValidateSlug(slug).Valid?
    requires word != [] && forall i :: 0 <= i < |word| ==> SlugChar(word[i]) && word[i] != '-'
    requires |slug| + 1 + |word| <= MaxSlugLength
    ensures ValidateSlug(slug + "-" + word).Valid?
  {
    var s := slug + "-" + word;
    SlugLength(slug);
    SlugLength(s);
    assert !IsJsSpace(s[0]) by {
      assert s[0] == slug[0];
      assert SlugChar(slug[0]);
    }
    assert !HasDoubleHyphen(s) by {
      forall i | 0 <= i < |s| - 1
        ensures !(s[i] == '-' && s[i + 1] == '-')
      {
        if i + 1 < |slug| {
          assert s[i] == slug[i] && s[i + 1] == slug[i + 1];
        } else if i + 1 == |slug| {
          assert s[i] == slug[|slug| - 1];
        } else if i == |slug| {
          assert s[i + 1] == word[0];
        } else {
          assert s[i] == word[i - |slug| - 1];
        }
      }
    }
  }
}
