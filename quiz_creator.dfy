/** The quiz-creation form of client/src/components/QuizCreator.jsx: the
    `quizInfo` form and the list of questions the author edits. Each handler
    copies the list, changes one question's field and stores the list back;
    the model keeps the list as a field that the methods reassign. */
module QuizCreatorComponent {
  import opened JsValues
  import opened QuizData

  /** The form's initial `quizInfo`, restored after a successful save. */
  function EmptyQuizInfo(): QuizInfo
  {
    QuizInfo(Lit(""), Lit(""), Lit(""), Lit("default_seed"), Lit("A"))
  }

  /** `String.fromCharCode(65 + i)`: "A", "B", ... for the question at index i. */
  function PositionalName(i: nat): JsStr
  {
    [FromCharCode(65 + i)]
  }

  /** The question `addQuestion` appends to a list of `n` questions: it is
      numbered and named after its position, has four blank options and an
      answer key that points at the first of them. */
  function NewQuestion(n: nat): (q: Question)
    ensures q.id == n + 1 && q.questionName == PositionalName(n)
    ensures |q.options| == 4 && forall k :: 0 <= k < 4 ==> q.options[k] == []
    ensures 0 <= q.correctIndex < |q.options|
  {
    Question(n + 1, PositionalName(n), Lit(""), [Lit(""), Lit(""), Lit(""), Lit("")], Lit("language-js"), 0)
  }

  /** Ids are 1..n and names "A", "B", ... in list order. The names are the
      first part of each question's shuffle seed. */
  ghost predicate Positional(qs: seq<Question>)
  {
    forall i :: 0 <= i < |qs| ==> qs[i].id == i + 1 && qs[i].questionName == PositionalName(i)
  }

  /** Every stored answer index points at one of the question's options. */
  ghost predicate AnswerKeysValid(qs: seq<Question>)
  {
    forall i :: 0 <= i < |qs| ==> 0 <= qs[i].correctIndex < |qs[i].options|
  }

  /** The `name` attributes of the quiz-information inputs. */
  datatype InfoField = Title | Date | Description | SeedExtension | Version

  /** The text-valued fields `handleQuestionChange` can be given (the form
      itself only passes 'question'). */
  datatype TextField = QuestionText | QuestionName | OptionLang

  /** `q[field] = value`. */
  function WithTextField(q: Question, field: TextField, value: JsStr): Question
  {
    match field
    case QuestionText => q.(question := value)
    case QuestionName => q.(questionName := value)
    case OptionLang => q.(optionLang := value)
  }

  /** The renumbering `removeQuestion` applies at position i: a new id and
      name, every other field kept. */
  function Renumbered(q: Question, i: nat): (r: Question)
    ensures r.id == i + 1 && r.questionName == PositionalName(i)
    ensures r.question == q.question && r.options == q.options
    ensures r.optionLang == q.optionLang && r.correctIndex == q.correctIndex
  {
    q.(id := i + 1, questionName := PositionalName(i))
  }

  class QuizCreator {
    var quizInfo: QuizInfo
    var questions: seq<Question>

    constructor ()
      ensures quizInfo == EmptyQuizInfo() && questions == []
    {
      quizInfo := EmptyQuizInfo();
      questions := [];
    }

    /** `setQuizInfo(prev => ({ ...prev, [name]: value }))`. */
    method HandleQuizInfoChange(name: InfoField, value: JsStr)
      modifies this`quizInfo
      ensures quizInfo.title == (if name == Title then value else old(quizInfo.title))
      ensures quizInfo.date == (if name == Date then value else old(quizInfo.date))
      ensures quizInfo.description == (if name == Description then value else old(quizInfo.description))
      ensures quizInfo.seedExtension == (if name == SeedExtension then value else old(quizInfo.seedExtension))
      ensures quizInfo.version == (if name == Version then value else old(quizInfo.version))
    {
      match name
      case Title => quizInfo := quizInfo.(title := value);
      case Date => quizInfo := quizInfo.(date := value);
      case Description => quizInfo := quizInfo.(description := value);
      case SeedExtension => quizInfo := quizInfo.(seedExtension := value);
      case Version => quizInfo := quizInfo.(version := value);
    }

    /** `addQuestion`: append one blank question named after its position. */
    method AddQuestion()
      modifies this`questions
      ensures |questions| == |old(questions)| + 1
      ensures questions[..|old(questions)|] == old(questions)
      ensures questions[|old(questions)|] == NewQuestion(|old(questions)|)
      ensures Positional(old(questions)) ==> Positional(questions)
      ensures AnswerKeysValid(old(questions)) ==> AnswerKeysValid(questions)
    {
      questions := questions + [NewQuestion(|questions|)];
    }

    /** `handleQuestionChange(index, field, value)`. */
    method HandleQuestionChange(index: nat, field: TextField, value: JsStr)
      requires index < |questions|
      modifies this`questions
      ensures questions == old(questions)[index := WithTextField(old(questions)[index], field, value)]
      ensures field != QuestionName && Positional(old(questions)) ==> Positional(questions)
      ensures AnswerKeysValid(old(questions)) ==> AnswerKeysValid(questions)
    {
      var updated := questions;
      updated := updated[index := WithTextField(updated[index], field, value)];
      questions := updated;
    }

    /** `handleOptionChange(qIndex, oIndex, value)`: one option of one question. */
    method HandleOptionChange(qIndex: nat, oIndex: nat, value: JsStr)
      requires qIndex < |questions| && oIndex < |questions[qIndex].options|
      modifies this`questions
      ensures |questions| == |old(questions)|
      ensures forall k :: 0 <= k < |questions| && k != qIndex ==> questions[k] == old(questions)[k]
      ensures questions[qIndex] == old(questions)[qIndex].(options := old(questions)[qIndex].options[oIndex := value])
      ensures Positional(old(questions)) ==> Positional(questions)
      ensures AnswerKeysValid(old(questions)) ==> AnswerKeysValid(questions)
    {
      var updated := questions;
      var q := updated[qIndex];
      updated := updated[qIndex := q.(options := q.options[oIndex := value])];
      questions := updated;
    }

    /** `handleCorrectIndexChange(qIndex, value)`. The select offers one choice
        per option, whose value parses back to the option's index. */
    method HandleCorrectIndexChange(qIndex: nat, choice: nat)
      requires qIndex < |questions| && choice < |questions[qIndex].options|
      modifies this`questions
      ensures questions == old(questions)[qIndex := old(questions)[qIndex].(correctIndex := choice)]
      ensures 0 <= questions[qIndex].correctIndex < |questions[qIndex].options|
      ensures Positional(old(questions)) ==> Positional(questions)
      ensures AnswerKeysValid(old(questions)) ==> AnswerKeysValid(questions)
    {
      var updated := questions;
      updated := updated[qIndex := updated[qIndex].(correctIndex := choice)];
      questions := updated;
    }

    /** `handleOptionLangChange(qIndex, value)`. */
    method HandleOptionLangChange(qIndex: nat, value: JsStr)
      requires qIndex < |questions|
      modifies this`questions
      ensures questions == old(questions)[qIndex := old(questions)[qIndex].(optionLang := value)]
      ensures Positional(old(questions)) ==> Positional(questions)
      ensures AnswerKeysValid(old(questions)) ==> AnswerKeysValid(questions)
    {
      var updated := questions;
      updated := updated[qIndex := updated[qIndex].(optionLang := value)];
      questions := updated;
    }

    /** `removeQuestion(index)`: `splice(index, 1)` (which removes nothing when
        index is past the end), then the `forEach` that rewrites every id and
        name from its new position. */
    method RemoveQuestion(index: nat)
      modifies this`questions
      ensures |questions| == if index < |old(questions)| then |old(questions)| - 1 else |old(questions)|
      ensures forall k :: 0 <= k < |questions| ==>
        questions[k] == Renumbered(old(questions)[if k < index then k else k + 1], k)
      ensures Positional(questions)
      ensures AnswerKeysValid(old(questions)) ==> AnswerKeysValid(questions)
    {
      var updated := questions;
      if index < |updated| {
        updated := updated[..index] + updated[index + 1..];
      }
      ghost var spliced := updated;
      var i := 0;
      while i < |updated|
        invariant 0 <= i <= |updated| == |spliced|
        invariant forall k :: 0 <= k < i ==> updated[k] == Renumbered(spliced[k], k)
        invariant forall k :: i <= k < |updated| ==> updated[k] == spliced[k]
      {
        updated := updated[i := Renumbered(updated[i], i)];
        i := i + 1;
      }
      questions := updated;
    }

    /** `handleSaveQuiz`: posts `{ quizInfo, quizQuestions }`; when the post
        succeeds the form is reset, otherwise it is left as it was. */
    method HandleSaveQuiz(postSucceeded: bool) returns (posted: QuizFile)
      modifies this
      ensures posted == QuizFile(old(quizInfo), old(questions))
      ensures postSucceeded ==> quizInfo == EmptyQuizInfo() && questions == []
      ensures !postSucceeded ==> quizInfo == old(quizInfo) && questions == old(questions)
    {
      posted := QuizFile(quizInfo, questions);
      if postSucceeded {
        quizInfo := EmptyQuizInfo();
        questions := [];
      }
    }
  }
}
