/** How the names the quiz creator assigns feed the server's shuffle seed. */
module CreatorSeeds {
  import opened JsValues
  import opened QuizData
  import opened QuizCreatorComponent
  import opened Routes

  /** In a question list kept positional by the creator, two questions of the
      same quiz always get different seeds, as long as their names
      `String.fromCharCode(65 + i)` have not wrapped around (fewer than
      65536 - 65 questions). */
  lemma PositionalQuestionsHaveDistinctSeeds(qs: seq<Question>, info: QuizInfo, i: nat, j: nat)
    requires Positional(qs)
    requires i < j < |qs| <= 0x1_0000 - 65
    ensures QuestionSeed(qs[i], info) != QuestionSeed(qs[j], info)
  {
    assert qs[i].questionName == [65 + i] && qs[j].questionName == [65 + j];
    DistinctNamesDistinctSeeds(qs[i], qs[j], info);
  }

  /** Past that bound the names wrap: question 0 and question 65536 are both
      named "A" and share their seed. */
  lemma WrappedNamesShareSeed(qs: seq<Question>, info: QuizInfo)
    requires Positional(qs)
    requires |qs| > 0x1_0000
    ensures QuestionSeed(qs[0], info) == QuestionSeed(qs[0x1_0000], info)
  {
    assert qs[0].questionName == [65] == qs[0x1_0000].questionName;
  }
}
