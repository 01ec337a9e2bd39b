/** The persisted quiz file: `{ quizInfo, quizQuestions }`, shared by the
    server routes, the quiz creator and the quiz page. */
module QuizData {
  import opened JsValues

  /** One question as stored and as sent to clients. */
  datatype Question = Question(
    id: int,
    questionName: JsStr,
    question: JsStr,
    options: seq<JsStr>,
    optionLang: JsStr,
    correctIndex: int)

  /** The quiz header; `seedExtension` and `version` salt the option shuffle. */
  datatype QuizInfo = QuizInfo(
    title: JsStr,
    date: JsStr,
    description: JsStr,
    seedExtension: JsStr,
    version: JsStr)

  datatype QuizFile = QuizFile(quizInfo: QuizInfo, quizQuestions: seq<Question>)
}
