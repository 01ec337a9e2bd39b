/** The decisions of server/routes.js around the shuffle: the per-question
    mapping of the two quiz-fetch routes, the login route's role resolution
    and the Bearer-token / admin gate of the protected routes. */
module Routes {
  import opened JsValues
  import opened QuizData
  import opened Hashing
  import opened Shuffle

  // ---------------------------------------------------------------------
  // Per-question mapping (GET /quizzes/:quizName and GET /open-quizzes/:quizName)
  // ---------------------------------------------------------------------

  /** The seed of a question: the hash of
      `questionName + seedExtension + version`, with no separator. */
  function QuestionSeed(q: Question, info: QuizInfo): (seed: int)
    ensures IsInt32(seed)
  {
    HashString(q.questionName + info.seedExtension + info.version)
  }

  /** The object the routes build for one question, as written: the options
      are shuffled with `shuffleArray(question.options, seed)`, whose tracked
      position starts at 0, and its `correctIndex` replaces the stored one. */
  function ProcessQuestion(q: Question, info: QuizInfo, pick: Picker): (p: Question)
    requires PickInRange(pick)
    ensures p.id == q.id && p.questionName == q.questionName
    ensures p.question == q.question && p.optionLang == q.optionLang
    ensures multiset(p.options) == multiset(q.options)
    ensures q.options != [] ==> 0 <= p.correctIndex < |p.options| && p.options[p.correctIndex] == q.options[0]
  {
    var r := ShuffleFrom(q.options, 0, QuestionSeed(q, info), pick);
    ShuffleFromTracks(q.options, 0, QuestionSeed(q, info), pick);
    Question(q.id, q.questionName, q.question, r.shuffled, q.optionLang, r.correctIndex)
  }

  /** Both routes answer `{ quizInfo, quizQuestions: processedQuestions }`:
      the header unchanged and each question mapped on its own. */
  function ProcessQuiz(quiz: QuizFile, pick: Picker): (r: QuizFile)
    requires PickInRange(pick)
    ensures r.quizInfo == quiz.quizInfo
    ensures |r.quizQuestions| == |quiz.quizQuestions|
    ensures forall k :: 0 <= k < |r.quizQuestions| ==>
      r.quizQuestions[k] == ProcessQuestion(quiz.quizQuestions[k], quiz.quizInfo, pick)
  {
    var qs := quiz.quizQuestions;
    QuizFile(quiz.quizInfo, seq(|qs|, k requires 0 <= k < |qs| => ProcessQuestion(qs[k], quiz.quizInfo, pick)))
  }

  /** Re-fetching is reproducible: two questions with the same options and the
      same seed string get the same order and the same index, whatever else
      differs between them or their quizzes. */
  lemma SameSeedStringSameOrder(q1: Question, i1: QuizInfo, q2: Question, i2: QuizInfo, pick: Picker)
    requires PickInRange(pick)
    requires q1.options == q2.options
    requires q1.questionName + i1.seedExtension + i1.version == q2.questionName + i2.seedExtension + i2.version
    ensures ProcessQuestion(q1, i1, pick).options == ProcessQuestion(q2, i2, pick).options
    ensures ProcessQuestion(q1, i1, pick).correctIndex == ProcessQuestion(q2, i2, pick).correctIndex
  {
  }

  /** Questions named by one code unit each ("A", "B", ... as the creator
      names them) in the same quiz never share a seed when their names
      differ, so their option orders are drawn independently. */
  lemma DistinctNamesDistinctSeeds(q1: Question, q2: Question, info: QuizInfo)
    requires |q1.questionName| == 1 && |q2.questionName| == 1
    requires q1.questionName != q2.questionName
    ensures QuestionSeed(q1, info) != QuestionSeed(q2, info)
  {
    var t := info.seedExtension + info.version;
    var c1, c2 := q1.questionName[0], q2.questionName[0];
    assert q1.questionName == [c1] && q2.questionName == [c2];
    assert q1.questionName + info.seedExtension + info.version == [] + [c1] + t;
    assert q2.questionName + info.seedExtension + info.version == [] + [c2] + t;
    HashSeparatesOneUnit([], c1, c2, t);
  }

  /** The stored answer is not what the routes track: when the options are
      distinct and the author marked any option other than the first, the
      `correctIndex` sent to clients points at a different option. */
  lemma StoredCorrectIndexIgnored(q: Question, info: QuizInfo, pick: Picker)
    requires PickInRange(pick)
    requires forall a, b :: 0 <= a < b < |q.options| ==> q.options[a] != q.options[b]
    requires 0 < q.correctIndex < |q.options|
    ensures var p := ProcessQuestion(q, info, pick);
      0 <= p.correctIndex < |p.options| && p.options[p.correctIndex] != q.options[q.correctIndex]
  {
  }

  /** The evidently intended mapping: the tracked position starts at the
      author's stored `correctIndex`, so the index sent to clients marks the
      author's answer after the shuffle. */
  function ProcessQuestionIntended(q: Question, info: QuizInfo, pick: Picker): (p: Question)
    requires PickInRange(pick)
    ensures p.id == q.id && p.questionName == q.questionName
    ensures p.question == q.question && p.optionLang == q.optionLang
    ensures multiset(p.options) == multiset(q.options)
    ensures 0 <= q.correctIndex < |q.options| ==>
      0 <= p.correctIndex < |p.options| && p.options[p.correctIndex] == q.options[q.correctIndex]
  {
    var r := ShuffleFrom(q.options, q.correctIndex, QuestionSeed(q, info), pick);
    ShuffleFromTracks(q.options, q.correctIndex, QuestionSeed(q, info), pick);
    Question(q.id, q.questionName, q.question, r.shuffled, q.optionLang, r.correctIndex)
  }

  /** Concrete instance of the discrepancy: options x, y, z, w with the
      author's answer z (index 2). The route marks the new position of x. */
  lemma ExampleAnswerKeyMismatch(info: QuizInfo, pick: Picker)
    requires PickInRange(pick)
    ensures var q := Question(1, Lit("A"), Lit("Pick z"), [Lit("x"), Lit("y"), Lit("z"), Lit("w")], Lit("language-js"), 2);
      var p := ProcessQuestion(q, info, pick);
      var f := ProcessQuestionIntended(q, info, pick);
      p.options[p.correctIndex] == Lit("x") && f.options[f.correctIndex] == Lit("z")
  {
    var q := Question(1, Lit("A"), Lit("Pick z"), [Lit("x"), Lit("y"), Lit("z"), Lit("w")], Lit("language-js"), 2);
    assert Lit("x")[0] != Lit("z")[0];
  }

  // ---------------------------------------------------------------------
  // POST /login
  // ---------------------------------------------------------------------

  datatype Role = Admin | User

  /** What `await bcrypt.compare(password, hash)` does: resolve to true or to
      false, or reject (a malformed hash), which the route's `catch` turns
      into a 500. */
  datatype Comparison = Match | NoMatch | Fails

  type Comparer = (JsStr, JsStr) -> Comparison

  /** 400 (validation), 200 with a token for a role, 401 (no hash matched),
      500 (a comparison failed). */
  datatype LoginResponse = BadRequest | TokenIssued(role: Role) | Unauthorized | ServerError

  /** `Joi.string().min(6).required()`, rule by rule: `required` rejects a
      missing value, `string` rejects the empty string, `min(6)` rejects fewer
      than six code units. The empty-string rule is implied by the length
      rule, so the three come down to one length test. */
  predicate PasswordAccepted(password: Option<JsStr>): (ok: bool)
    ensures ok <==> password.Some? && |password.value| >= 6
  {
    password.Some? && password.value != [] && |password.value| >= 6
  }

  /** The loop over USER_PASSWORD_HASHES, from the front: the first hash that
      matches issues a user token, a failing comparison ends in a 500 and no
      match at all in a 401. */
  function UserLogin(password: JsStr, hashes: seq<JsStr>, compare: Comparer): (r: LoginResponse)
    ensures r == TokenIssued(User) || r == Unauthorized || r == ServerError
  {
    if hashes == [] then Unauthorized
    else match compare(password, hashes[0])
      case Match => TokenIssued(User)
      case Fails => ServerError
      case NoMatch => UserLogin(password, hashes[1..], compare)
  }

  /** The login route's decision: validation first, then the admin hash, then
      the user hashes. */
  function LoginDecision(password: Option<JsStr>, adminHash: JsStr, userHashes: seq<JsStr>, compare: Comparer): (r: LoginResponse)
    ensures r == BadRequest <==> !PasswordAccepted(password)
    ensures r == TokenIssued(Admin) <==> PasswordAccepted(password) && compare(password.value, adminHash) == Match
    ensures PasswordAccepted(password) && compare(password.value, adminHash) == Fails ==> r == ServerError
    ensures PasswordAccepted(password) && compare(password.value, adminHash) == NoMatch ==>
      r == UserLogin(password.value, userHashes, compare)
  {
    if !PasswordAccepted(password) then BadRequest
    else match compare(password.value, adminHash)
      case Match => TokenIssued(Admin)
      case Fails => ServerError
      case NoMatch => UserLogin(password.value, userHashes, compare)
  }

  /** The first matching user hash decides, whatever the later hashes would
      do (even a later comparison that would fail). */
  lemma {:induction false} FirstUserMatchWins(password: JsStr, hashes: seq<JsStr>, compare: Comparer, k: nat)
    requires k < |hashes|
    requires forall m :: 0 <= m < k ==> compare(password, hashes[m]) == NoMatch
    requires compare(password, hashes[k]) == Match
    ensures UserLogin(password, hashes, compare) == TokenIssued(User)
  {
    if k > 0 {
      assert compare(password, hashes[0]) == NoMatch;
      FirstUserMatchWins(password, hashes[1..], compare, k - 1);
    }
  }

  /** A 401 exactly when every user hash was compared and none matched. */
  lemma {:induction false} UnauthorizedIffNoUserMatch(password: JsStr, hashes: seq<JsStr>, compare: Comparer)
    ensures UserLogin(password, hashes, compare) == Unauthorized
      <==> forall m :: 0 <= m < |hashes| ==> compare(password, hashes[m]) == NoMatch
  {
    if hashes != [] {
      UnauthorizedIffNoUserMatch(password, hashes[1..], compare);
      if compare(password, hashes[0]) == NoMatch {
        forall m | 0 <= m < |hashes| && (forall m' :: 0 <= m' < |hashes| - 1 ==> compare(password, hashes[1..][m']) == NoMatch)
          ensures compare(password, hashes[m]) == NoMatch
        {
          if m > 0 { assert hashes[m] == hashes[1..][m - 1]; }
        }
      }
    }
  }

  /** The route handler: validation, the admin comparison, then the loop over
      the user hashes with its early returns. */
  method Login(password: Option<JsStr>, adminHash: JsStr, userHashes: seq<JsStr>, compare: Comparer) returns (r: LoginResponse)
    ensures r == LoginDecision(password, adminHash, userHashes, compare)
  {
    if !PasswordAccepted(password) {
      return BadRequest;
    }
    var pw := password.value;
    var isAdmin := compare(pw, adminHash);
    if isAdmin == Fails {
      return ServerError;
    }
    if isAdmin == Match {
      return TokenIssued(Admin);
    }
    var i := 0;
    while i < |userHashes|
      invariant 0 <= i <= |userHashes|
      invariant UserLogin(pw, userHashes[i..], compare) == UserLogin(pw, userHashes, compare)
    {
      var isUser := compare(pw, userHashes[i]);
      if isUser == Fails {
        return ServerError;
      }
      if isUser == Match {
        return TokenIssued(User);
      }
      assert userHashes[i..][1..] == userHashes[i + 1..];
      i := i + 1;
    }
    return Unauthorized;
  }

  // ---------------------------------------------------------------------
  // authenticateToken and the admin-only check of the protected routes
  // ---------------------------------------------------------------------

  const Space: CodeUnit := 32

  /** The index of the first space in `s`, or |s| when there is none. */
  function FirstSpace(s: JsStr): (k: nat)
    ensures k <= |s|
    ensures forall m :: 0 <= m < k ==> s[m] != Space
    ensures k < |s| ==> s[k] == Space
  {
    if s == [] || s[0] == Space then 0 else 1 + FirstSpace(s[1..])
  }

  /** `authHeader && authHeader.split(' ')[1]`: the second space-separated
      field of the header, absent when there is no header or no space. */
  function BearerToken(header: Option<JsStr>): (token: Option<JsStr>)
    ensures token.None? <==>
      header.None? || forall m :: 0 <= m < |header.value| ==> header.value[m] != Space
    ensures token.Some? ==> forall m :: 0 <= m < |token.value| ==> token.value[m] != Space
    ensures token.Some? ==>
      var h, k := header.value, FirstSpace(header.value);
      var e := k + 1 + |token.value|;
      k < |h| && e <= |h| && h[k + 1..e] == token.value && (e == |h| || h[e] == Space)
  {
    if header.None? then None
    else
      var h := header.value;
      var k := FirstSpace(h);
      if k == |h| then None
      else
        var rest := h[k + 1..];
        Some(rest[..FirstSpace(rest)])
  }

  /** What `jwt.verify` passes to its callback: an error, or the payload with
      its `role` claim (which may be missing). */
  datatype Verification = Rejected | Verified(role: Option<JsStr>)

  /** 401 (token missing), 403 (token invalid), 403 (not an admin), `next()`. */
  datatype GateResponse = MissingToken | InvalidToken | NotAdmin | Proceed

  /** `authenticateToken` followed by `req.user.role !== 'admin'`. */
  function AdminGate(header: Option<JsStr>, verify: JsStr -> Verification): (r: GateResponse)
    ensures r == MissingToken <==> !Truthy(BearerToken(header))
    ensures r == Proceed <==>
      Truthy(BearerToken(header)) && verify(BearerToken(header).value) == Verified(Some(Lit("admin")))
    ensures r == InvalidToken <==> Truthy(BearerToken(header)) && verify(BearerToken(header).value) == Rejected
    ensures r == NotAdmin <==>
      (Truthy(BearerToken(header)) && verify(BearerToken(header).value).Verified?
       && verify(BearerToken(header).value).role != Some(Lit("admin")))
  {
    var token := BearerToken(header);
    if !Truthy(token) then MissingToken
    else match verify(token.value)
      case Rejected => InvalidToken
      case Verified(role) => if role != Some(Lit("admin")) then NotAdmin else Proceed
  }

  /** A header `<scheme> <token>` yields the token; the scheme word itself is
      never checked, so `Bearer` is one instance. */
  lemma {:induction false} HeaderYieldsToken(scheme: JsStr, token: JsStr)
    requires forall m :: 0 <= m < |scheme| ==> scheme[m] != Space
    requires forall m :: 0 <= m < |token| ==> token[m] != Space
    ensures BearerToken(Some(scheme + [Space] + token)) == Some(token)
  {
    var h := scheme + [Space] + token;
    assert h == scheme + ([Space] + token);
    FirstSpaceAfterWord(scheme, [Space] + token);
    assert h[|scheme| + 1..] == token;
    FirstSpaceAfterWord(token, []);
    assert token + [] == token;
    assert token[..|token|] == token;
  }

  /** The first space after a word without spaces is right after the word. */
  lemma {:induction false} FirstSpaceAfterWord(word: JsStr, rest: JsStr)
    requires forall m :: 0 <= m < |word| ==> word[m] != Space
    requires rest == [] || rest[0] == Space
    ensures FirstSpace(word + rest) == |word|
  {
    if word != [] {
      assert (word + rest)[1..] == word[1..] + rest;
      FirstSpaceAfterWord(word[1..], rest);
    } else {
      assert word + rest == rest;
    }
  }
}
