/**
 * The quiz page: a list of questions with a cursor, the answers the visitor picked, the
 * score, and the editing of questions and answers.
 *
 * A question whose `hasCorrectAnswer` flag is off is a survey question and is never
 * scored. A scored question counts as answered right when the recorded answer is the id
 * of its first answer marked correct, where "no answer recorded" and "no answer marked
 * correct" are equal to each other.
 */
module QuizPage {
  import opened JsText
  import opened JsMath
  import opened EditorCodec
  import opened CodecRoundTrip
  import opened OrderedList

  datatype Answer = Answer(id: string, text: string, isCorrect: bool)

  datatype Question = Question(id: string, question: string, answers: seq<Answer>, hasCorrectAnswer: bool)

  datatype Score = Score(correct: nat, total: nat, percentage: nat)

  /** Most answers a question may have. */
  const MaxAnswers := 6
  /** Fewest answers a question may be left with. */
  const MinAnswers := 2

  /** `answers.find(a => a.isCorrect)?.id`: the id of the first answer marked correct. */
  function CorrectAnswerId(answers: seq<Answer>): (r: Option<string>)
    ensures r.None? <==> forall k :: 0 <= k < |answers| ==> !answers[k].isCorrect
  {
    if answers == [] then None
    else if answers[0].isCorrect then Some(answers[0].id)
    else
      assert forall k :: 1 <= k < |answers| ==> answers[k] == answers[1..][k - 1];
      CorrectAnswerId(answers[1..])
  }

  /** The id found is that of the first answer marked correct. */
  lemma {:induction false} CorrectAnswerIdFirst(answers: seq<Answer>, k: nat)
    requires k < |answers| && answers[k].isCorrect
    requires forall m :: 0 <= m < k ==> !answers[m].isCorrect
    ensures CorrectAnswerId(answers) == Some(answers[k].id)
  {
    if k > 0 {
      assert answers[1..][k - 1] == answers[k];
      assert forall m :: 0 <= m < k - 1 ==> answers[1..][m] == answers[m + 1];
      CorrectAnswerIdFirst(answers[1..], k - 1);
    }
  }

  /** `userAnswers[id]`: the answer recorded for a question, if any. */
  function Recorded(userAnswers: map<string, string>, id: string): Option<string> {
    if id in userAnswers then Some(userAnswers[id]) else None
  }

  /** A scored question answered right: `userAnswer === correctAnswer?.id`. */
  predicate AnsweredRight(q: Question, userAnswers: map<string, string>) {
    q.hasCorrectAnswer && Recorded(userAnswers, q.id) == CorrectAnswerId(q.answers)
  }

  /** The number of scored questions. */
  function Scorable(qs: seq<Question>): nat {
    if qs == [] then 0 else Scorable(qs[..|qs| - 1]) + (if qs[|qs| - 1].hasCorrectAnswer then 1 else 0)
  }

  /** The number of questions answered right. */
  function RightCount(qs: seq<Question>, userAnswers: map<string, string>): nat {
    if qs == [] then 0
    else RightCount(qs[..|qs| - 1], userAnswers) + (if AnsweredRight(qs[|qs| - 1], userAnswers) then 1 else 0)
  }

  /** The score's percentage: `Math.round((correct / total) * 100)` when some question is
      scored, and 100 when none is. */
  function RoundedPercentage(correct: nat, total: nat): nat {
    if total == 0 then 100 else RoundPercent(correct, total)
  }

  /** Never more questions right than scored, nor more scored than there are. */
  lemma {:induction false} CountsBounded(qs: seq<Question>, userAnswers: map<string, string>)
    ensures RightCount(qs, userAnswers) <= Scorable(qs) <= |qs|
  {
    if qs != [] {
      CountsBounded(qs[..|qs| - 1], userAnswers);
    }
  }

  /** The quirk of comparing two absent values: a scored question without any answer marked
      correct counts as answered right while it is still unanswered. */
  lemma UnansweredWithoutCorrectCounts(q: Question, userAnswers: map<string, string>)
    requires q.hasCorrectAnswer && q.id !in userAnswers
    requires forall k :: 0 <= k < |q.answers| ==> !q.answers[k].isCorrect
    ensures AnsweredRight(q, userAnswers)
  {
  }

  /** A scored question with an answer marked correct is not answered right while unanswered. */
  lemma UnansweredWithCorrectMisses(q: Question, userAnswers: map<string, string>, k: nat)
    requires q.id !in userAnswers && k < |q.answers| && q.answers[k].isCorrect
    ensures !AnsweredRight(q, userAnswers)
  {
  }

  /** Every answer's correctness set to whether its id is `id`: `toggleCorrectAnswer`'s map. */
  function MarkOnlyCorrect(answers: seq<Answer>, id: string): (r: seq<Answer>)
    ensures |r| == |answers|
    ensures forall k :: 0 <= k < |r| ==> r[k] == answers[k].(isCorrect := answers[k].id == id)
  {
    seq(|answers|, k requires 0 <= k < |answers| => answers[k].(isCorrect := answers[k].id == id))
  }

  /** After marking, an answer is correct exactly when its id is `id`; so with distinct ids
      at most one answer is correct, and the first correct one is the one named. */
  lemma MarkedCorrectIsNamed(answers: seq<Answer>, id: string, k: nat)
    requires k < |answers| && answers[k].id == id
    requires forall m :: 0 <= m < k ==> answers[m].id != id
    ensures CorrectAnswerId(MarkOnlyCorrect(answers, id)) == Some(id)
  {
    CorrectAnswerIdFirst(MarkOnlyCorrect(answers, id), k);
  }

  /** Every answer's correctness cleared. */
  function ClearCorrect(answers: seq<Answer>): (r: seq<Answer>)
    ensures |r| == |answers|
    ensures forall k :: 0 <= k < |r| ==> r[k] == answers[k].(isCorrect := false)
  {
    seq(|answers|, k requires 0 <= k < |answers| => answers[k].(isCorrect := false))
  }

  /** The question `addNewQuestion` creates; `stamp` stands for the clock reading that makes
      its ids. The source reads the clock once per id, five times in all, and the readings
      may differ by a millisecond; one stamp stands for all of them, and the ids are
      distinct either way. It has non-blank text and four answers with distinct ids, the first marked
      correct, and its scoring flag agrees with its marks. */
  function NewQuestion(stamp: string): (q: Question)
    ensures q.id == stamp && !IsBlank(q.question)
    ensures |q.answers| == 4 && DistinctAnswerIds(q.answers)
    ensures CorrectAnswerId(q.answers) == Some(stamp + "-a1") && q.hasCorrectAnswer
  {
    var answers := [Answer(stamp + "-a1", "Answer 1", true), Answer(stamp + "-a2", "Answer 2", false),
                    Answer(stamp + "-a3", "Answer 3", false), Answer(stamp + "-a4", "Answer 4", false)];
    var q := Question(stamp, "Enter your question here...", answers, true);
    assert !IsJsSpace(q.question[0]);
    assert forall i :: 0 <= i < 4 ==> answers[i].id[|stamp| + 2] == ['1', '2', '3', '4'][i];
    q
  }

  /** The answer `addNewAnswer` appends as answer number `n`: unmarked, with an id made of
      the stamp, `-a` and the number. */
  function NewAnswer(stamp: string, n: nat): (a: Answer)
    ensures !a.isCorrect
    ensures |a.id| > |stamp| + 2 && a.id[..|stamp| + 2] == stamp + "-a"
  {
    Answer(stamp + "-a" + NatToString(n), "Answer " + NatToString(n), false)
  }

  /** Answers numbered differently under the same stamp get different ids. */
  lemma NewAnswerIdsDiffer(stamp: string, m: nat, n: nat)
    requires m != n
    ensures NewAnswer(stamp, m).id != NewAnswer(stamp, n).id
  {
    if NewAnswer(stamp, m).id == NewAnswer(stamp, n).id {
      var prefix := |stamp| + 2;
      assert NewAnswer(stamp, m).id[prefix..] == NatToString(m);
      assert NewAnswer(stamp, n).id[prefix..] == NatToString(n);
      NatToStringRoundTrip(m);
      NatToStringRoundTrip(n);
    }
  }

  /** `parseInt(value) || 0` clamped to [0, 100]; `None` stands for a value that does not
      parse (NaN). */
  function ClampedPassingScore(parsed: Option<int>): (s: int)
    ensures 0 <= s <= 100
    ensures parsed.Some? && 0 <= parsed.value <= 100 ==> s == parsed.value
    ensures parsed.Some? && parsed.value > 100 ==> s == 100
    ensures parsed.None? || parsed.value < 0 ==> s == 0
  {
    var v := if parsed.Some? then parsed.value else 0;
    if v < 0 then 0 else if v > 100 then 100 else v
  }

  /** No two answers share an id: true of the ids the page generates. */
  predicate DistinctAnswerIds(answers: seq<Answer>) {
    forall i, j :: 0 <= i < |answers| && 0 <= j < |answers| && i != j ==> answers[i].id != answers[j].id
  }

  /** Whether `k` is the first place of its id: `findIndex(a => a.id === answer.id)`. */
  predicate FirstOfItsId(answers: seq<Answer>, k: nat)
    requires k < |answers|
  {
    forall m :: 0 <= m < k ==> answers[m].id != answers[k].id
  }

  /** The decoded content of each open answer editor, by answer id. */
  function DecodedEditors(answerHtml: map<string, string>): (texts: map<string, string>)
    ensures texts.Keys == answerHtml.Keys
  {
    map id | id in answerHtml :: GetEditorContent(answerHtml[id])
  }

  /** The decoded content of the question editor, when it is mounted. */
  function DecodedEditor(questionHtml: Option<string>): (text: Option<string>)
    ensures text.Some? <==> questionHtml.Some?
  {
    if questionHtml.Some? then Some(GetEditorContent(questionHtml.value)) else None
  }

  /** The answers after the save: each answer whose editor is open (its id a key of
      `texts`, which holds the decoded editor contents) gets that content as its text,
      written at the first answer with that id. Ids and correct marks stay. */
  function SavedAnswers(answers: seq<Answer>, texts: map<string, string>): (r: seq<Answer>)
    ensures |r| == |answers|
  {
    seq(|answers|, k requires 0 <= k < |answers| =>
          if answers[k].id in texts && FirstOfItsId(answers, k)
          then answers[k].(text := texts[answers[k].id])
          else answers[k])
  }

  /** The answer at `k` after the save: its editor's content as its text when the editor is
      open and `k` is the first place of its id, and unchanged otherwise. */
  lemma SavedAnswerAt(answers: seq<Answer>, texts: map<string, string>, k: nat)
    requires k < |answers|
    ensures SavedAnswers(answers, texts)[k]
            == if answers[k].id in texts && FirstOfItsId(answers, k)
               then answers[k].(text := texts[answers[k].id])
               else answers[k]
  {
  }

  /** With distinct ids every answer whose editor is open receives its content. */
  lemma SavedAnswersDistinct(answers: seq<Answer>, texts: map<string, string>, k: nat)
    requires DistinctAnswerIds(answers)
    requires k < |answers| && answers[k].id in texts
    ensures SavedAnswers(answers, texts)[k].text == texts[answers[k].id]
  {
    SavedAnswerAt(answers, texts, k);
  }

  /** The current question after the save: the question editor's content as its text when
      that editor is mounted, and the answers as SavedAnswers leaves them. Its id, its
      scoring flag, and each answer's id and correct mark stay. */
  function SavedQuestion(q: Question, questionText: Option<string>, texts: map<string, string>): (r: Question)
    ensures r.id == q.id && r.hasCorrectAnswer == q.hasCorrectAnswer && |r.answers| == |q.answers|
    ensures questionText.Some? ==> r.question == questionText.value
    ensures questionText.None? ==> r.question == q.question
  {
    q.(question := if questionText.Some? then questionText.value else q.question,
       answers := SavedAnswers(q.answers, texts))
  }

  /** The questions after the save: the question at `i` as SavedQuestion leaves it, every
      other question as it was. */
  function SaveCurrent(qs: seq<Question>, i: nat, questionText: Option<string>, texts: map<string, string>): (r: seq<Question>)
    requires i < |qs|
    ensures |r| == |qs| && r[i] == SavedQuestion(qs[i], questionText, texts)
    ensures forall j :: 0 <= j < |qs| && j != i ==> r[j] == qs[j]
  {
    qs[i := SavedQuestion(qs[i], questionText, texts)]
  }

  /** The save leaves the correct answer of the question as it was. */
  lemma SavedQuestionKeepsCorrect(q: Question, questionText: Option<string>, texts: map<string, string>)
    ensures CorrectAnswerId(SavedQuestion(q, questionText, texts).answers) == CorrectAnswerId(q.answers)
  {
    var r := SavedQuestion(q, questionText, texts).answers;
    forall k | 0 <= k < |r|
      ensures r[k].id == q.answers[k].id && r[k].isCorrect == q.answers[k].isCorrect
    {
      SavedAnswerAt(q.answers, texts, k);
    }
    SameMarksSameCorrect(q.answers, r);
  }

  /** Answers with the same ids and correct marks name the same correct answer. */
  lemma {:induction false} SameMarksSameCorrect(a: seq<Answer>, b: seq<Answer>)
    requires |a| == |b|
    requires forall k :: 0 <= k < |a| ==> a[k].id == b[k].id && a[k].isCorrect == b[k].isCorrect
    ensures CorrectAnswerId(a) == CorrectAnswerId(b)
  {
    if a != [] {
      assert forall k :: 0 <= k < |a| - 1 ==> a[1..][k] == a[k + 1] && b[1..][k] == b[k + 1];
      SameMarksSameCorrect(a[1..], b[1..]);
    }
  }

  /** The answer editors as the load on entering edit mode fills them: each answer's editor
      holds its encoded text. */
  function LoadedAnswerEditors(answers: seq<Answer>): (html: map<string, string>)
    requires DistinctAnswerIds(answers)
    ensures forall k :: 0 <= k < |answers| ==> answers[k].id in html && html[answers[k].id] == SetEditorContent(answers[k].text)
  {
    map k | 0 <= k < |answers| :: answers[k].id := SetEditorContent(answers[k].text)
  }

  /** Entering edit mode and leaving it without edits keeps the current question, when its
      text and its answers' texts are texts the editor carries over. */
  lemma LoadThenSaveKeeps(q: Question)
    requires DistinctAnswerIds(q.answers)
    requires EditorStable(q.question)
    requires forall k :: 0 <= k < |q.answers| ==> EditorStable(q.answers[k].text)
    ensures SavedQuestion(q, DecodedEditor(Some(SetEditorContent(q.question))),
                          DecodedEditors(LoadedAnswerEditors(q.answers))) == q
  {
    StableRoundTrip(q.question);
    var texts := DecodedEditors(LoadedAnswerEditors(q.answers));
    var r := SavedAnswers(q.answers, texts);
    forall k | 0 <= k < |q.answers|
      ensures r[k] == q.answers[k]
    {
      StableRoundTrip(q.answers[k].text);
      SavedAnswersDistinct(q.answers, texts, k);
      SavedAnswerAt(q.answers, texts, k);
    }
  }

  class QuizPage {
    var questions: seq<Question>
    var current: nat
    /** `userAnswers`: question id to the id of the answer picked. */
    var userAnswers: map<string, string>
    var showResults: bool
    var passingScore: int
    var enableScoring: bool
    var editing: bool

    predicate Valid()
      reads this
    {
      1 <= |questions| && current < |questions|
    }

    /** The page as it opens: the configured questions, each scored when one of its answers
        is marked correct, a pass mark of 70 and scoring on. */
    constructor (initial: seq<Question>)
      requires |initial| >= 1
      ensures Valid() && current == 0 && userAnswers == map[] && !showResults
      ensures passingScore == 70 && enableScoring && !editing
      ensures |questions| == |initial|
      ensures forall i :: 0 <= i < |initial| ==>
                questions[i] == initial[i].(hasCorrectAnswer := CorrectAnswerId(initial[i].answers).Some?)
    {
      questions := seq(|initial|, i requires 0 <= i < |initial| =>
                         initial[i].(hasCorrectAnswer := CorrectAnswerId(initial[i].answers).Some?));
      current := 0;
      userAnswers := map[];
      showResults := false;
      passingScore := 70;
      enableScoring := true;
      editing := false;
    }

    /** `calculateScore`: one pass over the questions counting the scored ones and those
        answered right. */
    method CalculateScore() returns (s: Score)
      ensures s.total == Scorable(questions)
      ensures s.correct == RightCount(questions, userAnswers)
      ensures s.percentage == RoundedPercentage(s.correct, s.total)
      ensures s.correct <= s.total && s.percentage <= 100
    {
      var correctCount: nat := 0;
      var scorableQuestions: nat := 0;
      var i := 0;
      while i < |questions|
        invariant 0 <= i <= |questions|
        invariant scorableQuestions == Scorable(questions[..i])
        invariant correctCount == RightCount(questions[..i], userAnswers)
      {
        var q := questions[i];
        assert questions[..i + 1][..i] == questions[..i];
        if q.hasCorrectAnswer {
          scorableQuestions := scorableQuestions + 1;
          var userAnswer := Recorded(userAnswers, q.id);
          var correctAnswer := CorrectAnswerId(q.answers);
          if userAnswer == correctAnswer {
            correctCount := correctCount + 1;
          }
        }
        i := i + 1;
      }
      assert questions[..i] == questions;
      CountsBounded(questions, userAnswers);
      if scorableQuestions > 0 {
        PercentBounded(correctCount, scorableQuestions);
      }
      s := Score(correctCount, scorableQuestions, RoundedPercentage(correctCount, scorableQuestions));
    }

    /** `isPassed`: always with scoring off, otherwise when the percentage reaches the pass mark. */
    method IsPassed() returns (passed: bool)
      ensures passed <==> !enableScoring || RoundedPercentage(RightCount(questions, userAnswers), Scorable(questions)) >= passingScore
    {
      if !enableScoring {
        return true;
      }
      var score := CalculateScore();
      passed := score.percentage >= passingScore;
    }

    /** `hasScoringEnabled`: scoring is on and some question is scored. */
    predicate HasScoringEnabled()
      reads this
      ensures HasScoringEnabled() <==> enableScoring && Scorable(questions) > 0
    {
      ScorableSome(questions);
      enableScoring && exists i :: 0 <= i < |questions| && questions[i].hasCorrectAnswer
    }

    /** `handleAnswerSelect`: nothing once the results are shown; otherwise only the entry
        of the current question changes. */
    method SelectAnswer(answerId: string)
      requires Valid()
      modifies this
      ensures Valid() && questions == old(questions) && current == old(current)
      ensures showResults == old(showResults) && passingScore == old(passingScore) && enableScoring == old(enableScoring) && editing == old(editing)
      ensures old(showResults) ==> userAnswers == old(userAnswers)
      ensures !old(showResults) ==> userAnswers == old(userAnswers)[questions[current].id := answerId]
    {
      if showResults {
        return;
      }
      userAnswers := userAnswers[questions[current].id := answerId];
    }

    /** `handleSubmitQuiz`; `confirmed` is the visitor's answer to the prompt shown when
        fewer answers are recorded than there are questions. */
    method SubmitQuiz(confirmed: bool)
      requires Valid()
      modifies this
      ensures Valid() && questions == old(questions) && current == old(current) && userAnswers == old(userAnswers)
      ensures passingScore == old(passingScore) && enableScoring == old(enableScoring) && editing == old(editing)
      ensures showResults == (old(showResults) || |userAnswers.Keys| >= |questions| || confirmed)
    {
      var unanswered := |questions| - |userAnswers.Keys|;
      if unanswered > 0 && !confirmed {
        return;
      }
      showResults := true;
    }

    /** `handleResetQuiz`: no answers, results hidden, back to the first question. */
    method ResetQuiz()
      requires Valid()
      modifies this
      ensures Valid() && questions == old(questions) && passingScore == old(passingScore) && enableScoring == old(enableScoring) && editing == old(editing)
      ensures userAnswers == map[] && !showResults && current == 0
    {
      userAnswers := map[];
      showResults := false;
      current := 0;
    }

    method GoToNext()
      requires Valid()
      modifies this
      ensures Valid() && questions == old(questions) && userAnswers == old(userAnswers) && showResults == old(showResults)
      ensures passingScore == old(passingScore) && enableScoring == old(enableScoring) && editing == old(editing)
      ensures current == if old(current) < |questions| - 1 then old(current) + 1 else old(current)
    {
      if current < |questions| - 1 {
        current := current + 1;
      }
    }

    /** A dot of the progress indicator: `!isEditing && setCurrentQuestionIndex(index)`, so
        it jumps to question `i` in view mode and does nothing in edit mode. */
    method GoTo(i: nat)
      requires Valid() && i < |questions|
      modifies this
      ensures Valid() && questions == old(questions) && userAnswers == old(userAnswers) && showResults == old(showResults)
      ensures passingScore == old(passingScore) && enableScoring == old(enableScoring) && editing == old(editing)
      ensures current == if old(editing) then old(current) else i
    {
      if !editing {
        current := i;
      }
    }

    method GoToPrevious()
      requires Valid()
      modifies this
      ensures Valid() && questions == old(questions) && userAnswers == old(userAnswers) && showResults == old(showResults)
      ensures passingScore == old(passingScore) && enableScoring == old(enableScoring) && editing == old(editing)
      ensures current == if old(current) > 0 then old(current) - 1 else old(current)
    {
      if current > 0 {
        current := current - 1;
      }
    }

    /** `toggleQuestionValidation`: the current question's flag flips; switching it off
        clears every answer's mark. */
    method ToggleValidation()
      requires Valid()
      modifies this
      ensures Valid() && current == old(current) && userAnswers == old(userAnswers) && showResults == old(showResults)
      ensures passingScore == old(passingScore) && enableScoring == old(enableScoring) && editing == old(editing)
      ensures |questions| == |old(questions)|
      ensures forall i :: 0 <= i < |questions| && i != current ==> questions[i] == old(questions)[i]
      ensures var q := old(questions)[current];
              questions[current] == q.(hasCorrectAnswer := !q.hasCorrectAnswer,
                                       answers := if q.hasCorrectAnswer then ClearCorrect(q.answers) else q.answers)
    {
      var q := questions[current];
      var flag := !q.hasCorrectAnswer;
      var answers := if !flag then ClearCorrect(q.answers) else q.answers;
      questions := questions[current := q.(hasCorrectAnswer := flag, answers := answers)];
    }

    /** `addNewQuestion`: a new question appended and selected. */
    method AddQuestion(stamp: string)
      requires Valid()
      modifies this
      ensures Valid() && userAnswers == old(userAnswers) && showResults == old(showResults)
      ensures passingScore == old(passingScore) && enableScoring == old(enableScoring) && editing == old(editing)
      ensures questions == old(questions) + [NewQuestion(stamp)] && current == old(|questions|)
    {
      questions := questions + [NewQuestion(stamp)];
      current := |questions| - 1;
    }

    /** `deleteCurrentQuestion`: refused with one question left; otherwise exactly the
        current question goes and the cursor moves back only when past the end. */
    method DeleteQuestion()
      requires Valid()
      modifies this
      ensures Valid() && userAnswers == old(userAnswers) && showResults == old(showResults)
      ensures passingScore == old(passingScore) && enableScoring == old(enableScoring) && editing == old(editing)
      ensures |old(questions)| == 1 ==> questions == old(questions) && current == old(current)
      ensures |old(questions)| > 1 ==> questions == RemoveAt(old(questions), old(current))
                                        && current == CursorAfterRemove(old(current), |questions|)
    {
      if |questions| == 1 {
        return;
      }
      questions := RemoveAt(questions, current);
      if current >= |questions| {
        current := |questions| - 1;
      }
    }

    /** `moveQuestionUp`: swapped with the question before it, the cursor following. */
    method MoveQuestionUp()
      requires Valid()
      modifies this
      ensures Valid() && userAnswers == old(userAnswers) && showResults == old(showResults)
      ensures passingScore == old(passingScore) && enableScoring == old(enableScoring) && editing == old(editing)
      ensures old(current) == 0 ==> questions == old(questions) && current == 0
      ensures old(current) > 0 ==> questions == Swap(old(questions), old(current) - 1, old(current)) && current == old(current) - 1
      ensures questions[current] == old(questions)[old(current)]
    {
      if current == 0 {
        return;
      }
      questions := Swap(questions, current - 1, current);
      current := current - 1;
    }

    /** `moveQuestionDown`: swapped with the question after it, the cursor following. */
    method MoveQuestionDown()
      requires Valid()
      modifies this
      ensures Valid() && userAnswers == old(userAnswers) && showResults == old(showResults)
      ensures passingScore == old(passingScore) && enableScoring == old(enableScoring) && editing == old(editing)
      ensures old(current) == |old(questions)| - 1 ==> questions == old(questions) && current == old(current)
      ensures old(current) < |old(questions)| - 1 ==> questions == Swap(old(questions), old(current), old(current) + 1) && current == old(current) + 1
      ensures questions[current] == old(questions)[old(current)]
    {
      if current == |questions| - 1 {
        return;
      }
      questions := Swap(questions, current, current + 1);
      current := current + 1;
    }

    /** `addNewAnswer`: refused at six answers; otherwise one unmarked answer appended to
        the current question. */
    method AddAnswer(stamp: string)
      requires Valid()
      modifies this
      ensures Valid() && current == old(current) && userAnswers == old(userAnswers) && showResults == old(showResults)
      ensures passingScore == old(passingScore) && enableScoring == old(enableScoring) && editing == old(editing)
      ensures var q := old(questions)[current];
              if |q.answers| >= MaxAnswers then questions == old(questions)
              else questions == old(questions)[current := q.(answers := q.answers + [NewAnswer(stamp, |q.answers| + 1)])]
      ensures var n, n' := |old(questions)[current].answers|, |questions[current].answers|;
              MinAnswers <= n <= MaxAnswers ==> MinAnswers <= n' <= MaxAnswers
    {
      var q := questions[current];
      if |q.answers| >= MaxAnswers {
        return;
      }
      var answer := NewAnswer(stamp, |q.answers| + 1);
      questions := questions[current := q.(answers := q.answers + [answer])];
    }

    /** `deleteAnswer`: refused at two answers or fewer; otherwise the answers with that id
        are filtered out of the current question. */
    method DeleteAnswer(answerId: string)
      requires Valid()
      modifies this
      ensures Valid() && current == old(current) && userAnswers == old(userAnswers) && showResults == old(showResults)
      ensures passingScore == old(passingScore) && enableScoring == old(enableScoring) && editing == old(editing)
      ensures var q := old(questions)[current];
              if |q.answers| <= MinAnswers then questions == old(questions)
              else questions == old(questions)[current := q.(answers := Filter(q.answers, (a: Answer) => a.id != answerId))]
      ensures var q := old(questions)[current];
              DistinctAnswerIds(q.answers) && MinAnswers <= |q.answers| <= MaxAnswers ==>
                MinAnswers <= |questions[current].answers| <= MaxAnswers
    {
      var q := questions[current];
      if |q.answers| <= MinAnswers {
        return;
      }
      var keep := (a: Answer) => a.id != answerId;
      FilterMembers(q.answers, keep);
      if DistinctAnswerIds(q.answers) {
        FilterLosesAtMostOne(q.answers, keep);
      }
      questions := questions[current := q.(answers := Filter(q.answers, (a: Answer) => a.id != answerId))];
    }

    /** `toggleCorrectAnswer`: the named answer marked correct and every other one unmarked. */
    method ToggleCorrect(answerId: string)
      requires Valid()
      modifies this
      ensures Valid() && current == old(current) && userAnswers == old(userAnswers) && showResults == old(showResults)
      ensures passingScore == old(passingScore) && enableScoring == old(enableScoring) && editing == old(editing)
      ensures var q := old(questions)[current];
              questions == old(questions)[current := q.(answers := MarkOnlyCorrect(q.answers, answerId))]
      ensures forall k :: 0 <= k < |questions[current].answers| ==>
                (questions[current].answers[k].isCorrect <==> questions[current].answers[k].id == answerId)
    {
      var q := questions[current];
      questions := questions[current := q.(answers := MarkOnlyCorrect(q.answers, answerId))];
    }

    /** The pass mark input: `Math.min(100, Math.max(0, parseInt(value) || 0))`. */
    method SetPassingScore(parsed: Option<int>)
      requires Valid()
      modifies this
      ensures Valid() && questions == old(questions) && current == old(current) && userAnswers == old(userAnswers)
      ensures showResults == old(showResults) && enableScoring == old(enableScoring) && editing == old(editing)
      ensures passingScore == ClampedPassingScore(parsed) && 0 <= passingScore <= 100
    {
      passingScore := ClampedPassingScore(parsed);
    }

    /** The "Enable Scoring" checkbox: `setEnableScoring(checked)`. With it off, no question
        is scored for the pass verdict. */
    method SetEnableScoring(checked: bool)
      requires Valid()
      modifies this
      ensures Valid() && questions == old(questions) && current == old(current) && userAnswers == old(userAnswers)
      ensures showResults == old(showResults) && passingScore == old(passingScore) && editing == old(editing)
      ensures enableScoring == checked
      ensures HasScoringEnabled() <==> checked && Scorable(questions) > 0
    {
      enableScoring := checked;
    }

    /** `handleSaveAndExit`: leaving edit mode writes the question editor's decoded content
        (`questionHtml`, absent when that editor is not mounted) into the current question
        and each open answer editor's into its answer; then edit mode flips. */
    method SaveAndExit(questionHtml: Option<string>, answerHtml: map<string, string>)
      requires Valid()
      modifies this
      ensures Valid() && current == old(current) && userAnswers == old(userAnswers) && showResults == old(showResults)
      ensures passingScore == old(passingScore) && enableScoring == old(enableScoring) && editing == !old(editing)
      ensures !old(editing) ==> questions == old(questions)
      ensures old(editing) ==> questions == SaveCurrent(old(questions), current, DecodedEditor(questionHtml), DecodedEditors(answerHtml))
    {
      hide GetEditorContent;
      if editing {
        var saved := SaveCurrent(questions, current, DecodedEditor(questionHtml), DecodedEditors(answerHtml));
        assert |saved| == |questions|;
        questions := saved;
        editing := false;
      } else {
        editing := true;
      }
    }
  }

  /** Some question is scored exactly when at least one is counted by Scorable. */
  lemma {:induction false} ScorableSome(qs: seq<Question>)
    ensures Scorable(qs) > 0 <==> exists i :: 0 <= i < |qs| && qs[i].hasCorrectAnswer
  {
    if qs != [] {
      var init := qs[..|qs| - 1];
      ScorableSome(init);
      if exists i :: 0 <= i < |init| && init[i].hasCorrectAnswer {
        var i :| 0 <= i < |init| && init[i].hasCorrectAnswer;
        assert qs[i] == init[i];
      }
      if exists i :: 0 <= i < |qs| && qs[i].hasCorrectAnswer {
        var i :| 0 <= i < |qs| && qs[i].hasCorrectAnswer;
        if i < |init| {
          assert init[i] == qs[i];
        }
      }
    }
  }
}
