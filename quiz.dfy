/** The quiz-taking page of client/src/components/Quiz.jsx: the answers the
    user picks, keyed by question id, and the score computed on submit. */
module QuizComponent {
  import opened JsValues
  import opened QuizData

  /** `answers[question.id] === question.correctIndex`: a question without an
      answer never matches. */
  predicate AnsweredCorrectly(q: Question, answers: map<int, int>): (ok: bool)
    ensures ok ==> q.id in answers
  {
    q.id in answers && answers[q.id] == q.correctIndex
  }

  /** The score of a submission: the loop's count, from the first question to
      the last. */
  function Score(qs: seq<Question>, answers: map<int, int>): (n: nat)
    ensures n <= |qs|
  {
    if qs == [] then 0
    else Score(qs[..|qs| - 1], answers) + (if AnsweredCorrectly(qs[|qs| - 1], answers) then 1 else 0)
  }

  /** The positions of the questions answered correctly. */
  ghost function CorrectPositions(qs: seq<Question>, answers: map<int, int>): set<int>
  {
    set i | 0 <= i < |qs| && AnsweredCorrectly(qs[i], answers)
  }

  /** The positions of the questions that have any answer. */
  ghost function AnsweredPositions(qs: seq<Question>, answers: map<int, int>): set<int>
  {
    set i | 0 <= i < |qs| && qs[i].id in answers
  }

  /** The score is the number of questions whose recorded answer equals their
      correct index. */
  lemma {:induction false} ScoreCountsCorrect(qs: seq<Question>, answers: map<int, int>)
    ensures Score(qs, answers) == |CorrectPositions(qs, answers)|
  {
    if qs != [] {
      var n := |qs| - 1;
      var init := qs[..n];
      ScoreCountsCorrect(init, answers);
      var before := CorrectPositions(init, answers);
      assert forall i :: 0 <= i < n ==> init[i] == qs[i];
      if AnsweredCorrectly(qs[n], answers) {
        assert CorrectPositions(qs, answers) == before + {n};
        assert n !in before;
      } else {
        assert CorrectPositions(qs, answers) == before;
      }
    }
  }

  /** Unanswered questions add nothing: the score never exceeds the number of
      answered questions. */
  lemma ScoreAtMostAnswered(qs: seq<Question>, answers: map<int, int>)
    ensures Score(qs, answers) <= |AnsweredPositions(qs, answers)|
  {
    ScoreCountsCorrect(qs, answers);
    SubsetCardinality(CorrectPositions(qs, answers), AnsweredPositions(qs, answers));
  }

  lemma SubsetCardinality(a: set<int>, b: set<int>)
    requires a <= b
    ensures |a| <= |b|
  {
    assert b == a + (b - a);
    assert a * (b - a) == {};
  }

  /** With no answer recorded for any question the score is 0. */
  lemma NothingAnsweredScoresZero(qs: seq<Question>, answers: map<int, int>)
    requires forall i :: 0 <= i < |qs| ==> qs[i].id !in answers
    ensures Score(qs, answers) == 0
  {
    ScoreAtMostAnswered(qs, answers);
    assert AnsweredPositions(qs, answers) == {};
  }

  /** The `forEach` loop of `handleSubmit`. */
  method CalculateScore(questions: seq<Question>, answers: map<int, int>) returns (calculatedScore: nat)
    ensures calculatedScore == Score(questions, answers)
    ensures calculatedScore <= |questions|
  {
    calculatedScore := 0;
    var i := 0;
    while i < |questions|
      invariant 0 <= i <= |questions|
      invariant calculatedScore == Score(questions[..i], answers)
    {
      assert questions[..i + 1][..i] == questions[..i];
      if questions[i].id in answers && answers[questions[i].id] == questions[i].correctIndex {
        calculatedScore := calculatedScore + 1;
      }
      i := i + 1;
    }
    assert questions[..i] == questions;
  }

  class Quiz {
    var quizData: Option<QuizFile>
    var answers: map<int, int>
    var submitted: bool
    var score: int

    constructor ()
      ensures quizData == None && answers == map[] && !submitted && score == 0
    {
      quizData := None;
      answers := map[];
      submitted := false;
      score := 0;
    }

    /** `setQuizData(response.data)` once the fetch succeeds. */
    method SetQuizData(data: QuizFile)
      modifies this`quizData
      ensures quizData == Some(data)
    {
      quizData := Some(data);
    }

    /** `handleOptionChange(questionId, selectedIndex)`: record one answer,
        keep every other. */
    method HandleOptionChange(questionId: int, selectedIndex: int)
      modifies this`answers
      ensures questionId in answers && answers[questionId] == selectedIndex
      ensures answers.Keys == old(answers).Keys + {questionId}
      ensures forall k :: k in old(answers) && k != questionId ==> answers[k] == old(answers)[k]
    {
      answers := answers[questionId := selectedIndex];
    }

    /** `handleSubmit`: nothing without quiz data; otherwise store the score
        and mark the quiz submitted. */
    method HandleSubmit()
      modifies this`score, this`submitted
      ensures quizData.None? ==> score == old(score) && submitted == old(submitted)
      ensures quizData.Some? ==> submitted && score == Score(quizData.value.quizQuestions, answers)
      ensures quizData.Some? ==> 0 <= score <= |quizData.value.quizQuestions|
    {
      if quizData.None? {
        return;
      }
      var calculatedScore := CalculateScore(quizData.value.quizQuestions, answers);
      score := calculatedScore;
      submitted := true;
    }
  }
}
