/**
 * The module assessment: multiple-choice answers keyed by question index,
 * the submit guard, exact-match scoring as a rounded percentage and the
 * 70 % pass mark.
 */
module AssessmentView {
  import opened Wrappers
  import Rounding

  datatype AssessmentQuestion = AssessmentQuestion(q: string, choices: seq<string>, answer: string)

  datatype Assessment = Assessment(moduleName: string, questions: seq<AssessmentQuestion>)

  /** Chosen answers: question index to the text of the chosen choice. */
  type UserAnswers = map<nat, string>

  /** A score of at least 70 passes. */
  const PassMark: int := 70

  /** `userAnswers[index] === question.answer`; an unanswered question is wrong. */
  predicate IsCorrect(questions: seq<AssessmentQuestion>, answers: UserAnswers, i: nat)
    requires i < |questions|
  {
    i in answers && answers[i] == questions[i].answer
  }

  /** The `correctCount` after the loop has looked at the first n questions. */
  function CorrectUpTo(questions: seq<AssessmentQuestion>, answers: UserAnswers, n: nat): (c: nat)
    requires n <= |questions|
    ensures c <= n
  {
    if n == 0 then 0
    else CorrectUpTo(questions, answers, n - 1) + (if IsCorrect(questions, answers, n - 1) then 1 else 0)
  }

  /** The final `correctCount`: the number of questions the review marks correct. */
  function CorrectCount(questions: seq<AssessmentQuestion>, answers: UserAnswers): (c: nat)
    ensures c <= |questions|
    ensures c == |CorrectIndices(questions, answers, |questions|)|
  {
    CorrectCountIsTicks(questions, answers, |questions|);
    CorrectUpTo(questions, answers, |questions|)
  }

  /** The questions the review marks with a tick. */
  ghost function CorrectIndices(questions: seq<AssessmentQuestion>, answers: UserAnswers, n: nat): set<nat>
    requires n <= |questions|
  {
    set i: nat | i < n && IsCorrect(questions, answers, i)
  }

  /** The review's ticks agree with the score: correctCount is the number of ticked questions. */
  lemma {:induction false} CorrectCountIsTicks(questions: seq<AssessmentQuestion>, answers: UserAnswers, n: nat)
    requires n <= |questions|
    ensures CorrectUpTo(questions, answers, n) == |CorrectIndices(questions, answers, n)|
  {
    if n > 0 {
      CorrectCountIsTicks(questions, answers, n - 1);
      var prev := CorrectIndices(questions, answers, n - 1);
      if IsCorrect(questions, answers, n - 1) {
        assert CorrectIndices(questions, answers, n) == prev + {n - 1};
      } else {
        assert CorrectIndices(questions, answers, n) == prev;
      }
    }
  }

  /** All answers correct gives n; none correct gives 0; in between, in between. */
  lemma {:induction false} CorrectUpToExtremes(questions: seq<AssessmentQuestion>, answers: UserAnswers, n: nat)
    requires n <= |questions|
    ensures CorrectUpTo(questions, answers, n) == n <==> forall i :: 0 <= i < n ==> IsCorrect(questions, answers, i)
    ensures CorrectUpTo(questions, answers, n) == 0 <==> forall i :: 0 <= i < n ==> !IsCorrect(questions, answers, i)
  {
    if n > 0 {
      CorrectUpToExtremes(questions, answers, n - 1);
    }
  }

  /** `Math.round((correctCount / questions.length) * 100)`. */
  function Score(correct: nat, total: nat): (score: nat)
    requires total > 0
    ensures correct <= total ==> score <= 100
    ensures 2 * total * score <= 200 * correct + total < 2 * total * (score + 1)
  {
    Rounding.RoundPercent(correct, total)
  }

  /**
   * For fewer than 200 questions the score is 100 exactly when every answer
   * is right and 0 exactly when none is.
   */
  lemma ScoreExtremes(questions: seq<AssessmentQuestion>, answers: UserAnswers)
    requires 0 < |questions| < 200
    ensures Score(CorrectCount(questions, answers), |questions|) == 100
      <==> forall i :: 0 <= i < |questions| ==> IsCorrect(questions, answers, i)
    ensures Score(CorrectCount(questions, answers), |questions|) == 0
      <==> forall i :: 0 <= i < |questions| ==> !IsCorrect(questions, answers, i)
  {
    CorrectUpToExtremes(questions, answers, |questions|);
    Rounding.PercentExtremes(CorrectCount(questions, answers), |questions|);
  }

  /** `score >= 70`: the results page shows the pass styling and message. */
  predicate Passed(score: int) {
    score >= PassMark
  }

  /** The score passes exactly when at least 69.5 % of the answers are right. */
  lemma PassedIffRatio(correct: nat, total: nat)
    requires 0 < total && correct <= total
    ensures Passed(Score(correct, total)) <==> 200 * correct >= 139 * total
  {
    var s := Score(correct, total);
    if s < 70 {
      assert 2 * total * (s + 1) <= 2 * total * 70 by { Rounding.MulMono(2 * total, s + 1, 70); }
    } else {
      assert 2 * total * 70 <= 2 * total * s by { Rounding.MulMono(2 * total, 70, s); }
    }
  }

  /** `canSubmit`: as many answered questions as there are questions; false with no assessment. */
  predicate CanSubmit(assessment: Option<Assessment>, answers: UserAnswers): (b: bool)
    ensures assessment.None? ==> !b
  {
    assessment.Some? && |answers.Keys| == |assessment.value.questions|
  }

  /** The question indices 0 .. n - 1. */
  function Below(n: nat): (r: set<nat>)
    ensures |r| == n
    ensures forall i: nat :: i in r <==> i < n
  {
    if n == 0 then {} else
      var prev := Below(n - 1);
      assert n - 1 !in prev;
      prev + {n - 1}
  }

  lemma {:induction false} SubsetSize(a: set<nat>, b: set<nat>)
    requires a <= b
    ensures |a| <= |b|
    decreases |b|
  {
    if a != {} {
      var x :| x in a;
      SubsetSize(a - {x}, b - {x});
    }
  }

  /**
   * When answers are given only to displayed questions (the radio buttons of
   * question 0 .. n - 1), the guard holds exactly when every question is answered.
   */
  lemma CanSubmitIffAllAnswered(assessment: Assessment, answers: UserAnswers)
    requires forall k :: k in answers ==> k < |assessment.questions|
    ensures CanSubmit(Some(assessment), answers)
      <==> forall i :: 0 <= i < |assessment.questions| ==> i in answers
  {
    var n := |assessment.questions|;
    var range := Below(n);
    assert answers.Keys <= range;
    if |answers.Keys| == n {
      if exists i :: 0 <= i < n && i !in answers {
        var i :| 0 <= i < n && i !in answers;
        assert answers.Keys <= range - {i};
        SubsetSize(answers.Keys, range - {i});
      }
    }
    if forall i :: 0 <= i < n ==> i in answers {
      assert answers.Keys == range;
    }
  }

  class AssessmentSession {
    var assessment: Option<Assessment>
    var userAnswers: UserAnswers
    var submitted: bool
    var score: Option<int>

    /** The view as mounted: nothing loaded, nothing answered. */
    constructor ()
      ensures assessment == None && userAnswers == map[] && !submitted && score == None
    {
      assessment := None;
      userAnswers := map[];
      submitted := false;
      score := None;
    }

    /** `loadAssessment` succeeded. */
    method Load(a: Assessment)
      modifies this
      ensures assessment == Some(a)
      ensures userAnswers == old(userAnswers) && submitted == old(submitted) && score == old(score)
    {
      assessment := Some(a);
    }

    /** `handleAnswerSelect`: record the choice for one question, replacing any earlier one. */
    method SelectAnswer(questionIndex: nat, answer: string)
      modifies this
      ensures userAnswers == old(userAnswers)[questionIndex := answer]
      ensures assessment == old(assessment) && submitted == old(submitted) && score == old(score)
    {
      userAnswers := userAnswers[questionIndex := answer];
    }

    /**
     * The submit button's guard: never without an assessment, and, while answers
     * are given only to displayed questions, exactly when every question is answered.
     */
    predicate ReadyToSubmit(): (b: bool)
      reads this
      ensures assessment.None? ==> !b
      ensures assessment.Some? && (forall k :: k in userAnswers ==> k < |assessment.value.questions|) ==>
        (b <==> forall i :: 0 <= i < |assessment.value.questions| ==> i in userAnswers)
    {
      if assessment.Some? && (forall k :: k in userAnswers ==> k < |assessment.value.questions|) then
        CanSubmitIffAllAnswered(assessment.value, userAnswers);
        CanSubmit(assessment, userAnswers)
      else
        CanSubmit(assessment, userAnswers)
    }

    /**
     * `handleSubmit`: with no assessment nothing happens; otherwise count the
     * exact matches, store the rounded percentage and mark the view submitted.
     */
    method Submit()
      requires assessment.Some? ==> |assessment.value.questions| > 0
      modifies this
      ensures old(assessment).None? ==> submitted == old(submitted) && score == old(score)
      ensures old(assessment).Some? ==>
        var qs := old(assessment).value.questions;
        submitted && score == Some(Score(CorrectCount(qs, userAnswers), |qs|))
      ensures assessment == old(assessment) && userAnswers == old(userAnswers)
    {
      if assessment.None? {
        return;
      }
      var questions := assessment.value.questions;
      var correctCount := 0;
      var index := 0;
      while index < |questions|
        invariant index <= |questions|
        invariant correctCount == CorrectUpTo(questions, userAnswers, index)
      {
        if index in userAnswers && userAnswers[index] == questions[index].answer {
          correctCount := correctCount + 1;
        }
        index := index + 1;
      }
      score := Some(Score(correctCount, |questions|));
      submitted := true;
    }
  }
}
