# Quiz builder: deterministic option shuffle, login gate and quiz editing

This project models the core of the quiz builder application in Dafny and
proves properties of the model.

- **Seeded option shuffle (server).** The server hands out every question with
  its options in a shuffled order. The order is fixed by a seed: `hashString`
  applied to `questionName + seedExtension + version`. With the seed, the
  server runs a descending Fisher-Yates shuffle on a copy of the options. The
  shuffle follows the position of one option through every swap, and that
  position is sent to the client as `correctIndex`.
- **Login and admin gate (server).** The login route tries the admin password
  hash first, then each user hash in order. The admin-only routes check a
  Bearer token.
- **Quiz file names (server).** The file name is derived from the quiz title.
  The code then chooses a directory and filters the `.json` entries of a
  listing.
- **Client side.** The model covers three pieces:
  - the creator form's question list, edited in place: add, remove and
    renumber, edit one field, reset after a save;
  - the quiz page's answer map and its score;
  - the access decision of the route guard.

JavaScript strings are modelled as sequences of UTF-16 code units
(`JsValues.JsStr`), because `length`, `charCodeAt`, `String.fromCharCode` and
regular expressions without the `u` flag all work on code units.

Modules:

- `JsValues`: code units, strings, `Option`, truthiness.
- `QuizData`: the quiz file format.
- `Hashing`: `hashString`.
- `Shuffle`: `shuffleArray`.
- `Routes`: the per-question mapping, login and the admin gate.
- `HttpClient`: file name, directory, listing filter.
- `QuizCreatorComponent`, `QuizComponent`, `PrivateRouteComponent`: the client.
- `CreatorSeeds`: how the creator's question names feed the seed.

`shuffleArray` is a method over arrays, and the `hashString`, scoring and
login loops are methods with `while` loops. Each of these is proved equal to
a specification function, and the properties are proved as lemmas about that
function. The creator and the quiz page are classes whose methods reassign
their fields.

The stored `correctIndex` is the author's answer key. The creator's select
writes the chosen option's position into it
(client/src/components/QuizCreator.jsx:46-49 and 177-185), and the quiz page
grades the sent `correctIndex` against the option the user picked
(client/src/components/Quiz.jsx:49, client/src/components/Question.jsx:18 and
34). The server does not carry that key through the shuffle. `shuffleArray`
starts its tracked position at 0 (server/routes.js:36), and both callers pass
only the options and the seed (server/routes.js:137 and 243). The model
follows the code, and the discrepancy is listed under Findings.

## Model

| member | source | states |
|---|---|---|
| JsValues.FromCharCode | client/src/components/QuizCreator.jsx:26 | `String.fromCharCode(n)` returns `n` itself for any `n` below 65536. |
| Hashing.ToInt32 | server/routes.js:25 | `hash &= hash` gives a signed 32-bit value that is congruent to its input modulo 2^32. |
| Hashing.ToInt32Shift | server/routes.js:25 | Adding a multiple of 2^32 does not change the truncated value. |
| Hashing.ShiftLeft5 | server/routes.js:24 | `h << 5` is always a signed 32-bit value. |
| Hashing.HashStep | server/routes.js:23-25 | One loop step always yields a signed 32-bit value. |
| Hashing.HashString | server/routes.js:20-28 | The hash of any string is a signed 32-bit value. |
| Hashing.HashStringLoop | server/routes.js:20-28 | The loop returns the fold `HashString` of its input, in [-2^31, 2^31), and 0 for the empty string. |
| Hashing.HashStepIsTimes31 | server/routes.js:24-25 | The truncating shift makes no difference: a step is `ToInt32(31*h + c)`. |
| Hashing.HashAppend | server/routes.js:22-26 | Appending a code unit `c` gives `ToInt32(31*hash(s) + c)`. |
| Hashing.HashIsWrappedPoly | server/routes.js:20-28 | The hash is the unbounded Java string-hash polynomial, wrapped once to 32 bits. |
| Hashing.WrapBeforeTimes31 | server/routes.js:24-25 | Wrapping before a step or only after it gives the same result. |
| Hashing.Times31Cancels | server/routes.js:24 | 31 is invertible modulo 2^32: if 31*x is a multiple of 2^32, so is x. |
| Hashing.TimesPow31Cancels | server/routes.js:24 | The same holds for every power of 31. |
| Hashing.PolyOneUnitDifference | server/routes.js:22-26 | Changing the code unit at one position by d changes the polynomial by d*31^k, where k is the number of units after it. |
| Hashing.PolySnoc | server/routes.js:24 | The polynomial of `s + [c]` is `31*Poly(s) + c`. |
| Hashing.SameInt32Congruent | server/routes.js:25 | Equal truncations imply that the inputs are congruent modulo 2^32. |
| Hashing.CongruentDifferenceVanishes | server/routes.js:24-25 | If d*31^k is a multiple of 2^32 and d lies strictly between -2^16 and 2^16, then d is 0. |
| Hashing.HashSeparatesOneUnit | server/routes.js:20-28 | Two strings that differ in exactly one code unit hash alike if and only if the units are equal. |
| Shuffle.Swap | server/routes.js:39 | The destructuring swap exchanges positions i and j and keeps every other element. |
| Shuffle.Track | server/routes.js:40-44 | The position update is the transposition of i and j: a tracked i moves to j, a tracked j moves to i, and any other position stays. |
| Shuffle.SwapPermutes | server/routes.js:39 | A swap preserves the multiset of elements. |
| Shuffle.ShuffleLoop | server/routes.js:37-45 | The loop keeps the length of the working copy. |
| Shuffle.ShuffleFrom | server/routes.js:34-47 | The shuffle is a permutation of its input. An input of length 0 or 1 comes back unchanged, with the tracked index unchanged. |
| Shuffle.ShuffleLoopPermutes | server/routes.js:37-39 | The loop only swaps, so the multiset is preserved. |
| Shuffle.SwapTracks | server/routes.js:39-44 | The position update after a swap points at the element that was tracked. |
| Shuffle.ShuffleLoopTracks | server/routes.js:37-45 | After the loop, the tracked index holds the element that started at the tracked position. |
| Shuffle.ShuffleFromTracks | server/routes.js:36-46 | For any start position inside the array, `shuffled[correctIndex]` is the element that started there. |
| Shuffle.SwapInPlace | server/routes.js:39 | The swap on the working array leaves exactly `Swap` of its previous contents. |
| Shuffle.ShuffleInPlace | server/routes.js:36-45 | The loop on the copy leaves the array and the tracked index equal to the specification shuffle from position 0. |
| Shuffle.ShuffleArray | server/routes.js:34-47 | Returns a fresh copy equal to the specification shuffle, and the argument is not modified. The copy is a permutation, and `shuffled[correctIndex]` is the original first element. Length 0 or 1 returns the copy with index 0. |
| Routes.QuestionSeed | server/routes.js:136 | The seed of a question is a signed 32-bit value. |
| Routes.ProcessQuestion | server/routes.js:135-146 | A question keeps id, questionName, question and optionLang. Its options are permuted, and its correctIndex marks the option that was first. |
| Routes.ProcessQuiz | server/routes.js:241-254 | The response keeps quizInfo and maps every question on its own. |
| Routes.SameSeedStringSameOrder | server/routes.js:136-137 | Equal options and equal seed strings give the same order and the same index. |
| Routes.DistinctNamesDistinctSeeds | server/routes.js:136 | Two different one-unit question names with the same salt never share a seed. |
| Routes.StoredCorrectIndexIgnored | server/routes.js:36 | For distinct options and a stored answer other than the first option, the index that is sent points at a different option. |
| Routes.ProcessQuestionIntended | server/routes.js:135-146 | Corrected mapping: the index that is sent marks the author's stored answer after the shuffle. |
| Routes.ExampleAnswerKeyMismatch | server/routes.js:36 | For options x, y, z, w with answer z, the route marks x, while the corrected mapping marks z. |
| Routes.PasswordAccepted | server/routes.js:67-72 | `Joi.string().min(6).required()` accepts exactly a present password of at least six code units; the separate empty-string rule adds nothing. |
| Routes.UserLogin | server/routes.js:87-97 | The user loop ends only with a user token, a 401 or a 500. |
| Routes.LoginDecision | server/routes.js:64-101 | 400 exactly when the password is missing or shorter than 6. An admin token exactly when the password is valid and the admin hash matches. A failing admin comparison gives 500 before any user hash is tried, and only an admin mismatch reaches the user hashes. |
| Routes.FirstUserMatchWins | server/routes.js:87-93 | After only non-matching user hashes, the first matching one issues a user token, whatever the later hashes are. |
| Routes.UnauthorizedIffNoUserMatch | server/routes.js:87-97 | 401 exactly when every user hash was compared and none matched. |
| Routes.Login | server/routes.js:64-102 | The route handler with its loop and early returns gives the decision `LoginDecision`. |
| Routes.FirstSpace | server/routes.js:52 | Finds the first space, or the end of the string when there is none. |
| Routes.BearerToken | server/routes.js:52 | No token exactly when the header is missing or holds no space. Otherwise the token holds no space, starts right after the first space, and ends at the next space or at the end of the header. |
| Routes.AdminGate | server/routes.js:50-61 | 401 exactly when there is no token. 403 for an invalid token, and 403 for a role other than `admin`. `next()` exactly for a verified admin. |
| Routes.HeaderYieldsToken | server/routes.js:52 | A header `<word> <token>`, with no spaces in either part, yields the token. |
| Routes.FirstSpaceAfterWord | server/routes.js:52 | After a word without spaces, the first space is the one right after the word. |
| HttpClient.FileStem | server/HttpClient.js:77 | The stem is as long as the title. It contains only `[a-z0-9_]`. Letters are lowercased, digits are kept, and every other unit becomes `_`. |
| HttpClient.FileName | server/HttpClient.js:77 | The file name is the stem followed by `.json`. |
| HttpClient.StemIdempotent | server/HttpClient.js:77 | Sanitising a stem returns it unchanged. |
| HttpClient.SameFileNameIff | server/HttpClient.js:77 | Two titles share a file name if and only if they agree position by position up to letter case and the choice of non-alphanumeric units. |
| HttpClient.StemOfMyQuiz | server/HttpClient.js:77 | "My Quiz" sanitises to `my_quiz`. |
| HttpClient.StemOfMyDashQuiz | server/HttpClient.js:77 | "my-quiz" sanitises to `my_quiz`. |
| HttpClient.MyQuizCollides | server/HttpClient.js:77 | "My Quiz" and "my-quiz" are both saved as `my_quiz.json`. |
| HttpClient.ReplaceNonAlnum | server/HttpClient.js:77 | `replace(/[^a-z0-9]/gi, '_')` keeps the length. ASCII letters and digits stay in place, every other unit becomes `_`, and the result holds only letters, digits and `_`. |
| HttpClient.ToLowerAscii | server/HttpClient.js:77 | `toLowerCase()` on ASCII keeps the length and leaves no upper-case letter. Each upper-case letter becomes its lower-case form, and every other unit is kept. |
| HttpClient.Directory | server/HttpClient.js:78 | The directory (also chosen at lines 132 and 165) is a non-empty single path segment with no `/`. |
| HttpClient.DirectoryIffOpen | server/HttpClient.js:78 | The directory is `open-quizzes` if and only if the quiz is open, and `quizzes` otherwise. |
| HttpClient.RepoPath | server/HttpClient.js:79 | In production the path is the directory, `/` and the name. Otherwise it is the name alone. |
| HttpClient.SavePath | server/HttpClient.js:77-79 | The save path ends in `.json`. In development it is the file name. In production it is the directory, `/` and the file name, and that `/` is the only one in the path. |
| HttpClient.DeletePath | server/HttpClient.js:132-133 | The delete path is the given name in development, and the directory, `/` and the name in production. |
| HttpClient.DeleteFindsSaved | server/HttpClient.js:131-133 | Deleting `${stem}.json` reaches the path the quiz was saved under. |
| HttpClient.EndsWithJsonIff | server/HttpClient.js:181 | `endsWith('.json')` holds exactly for the names that are some stem followed by `.json`. |
| HttpClient.JsonFiles | server/HttpClient.js:181 | The result is at most as long as the input, and contains exactly the entries that end in `.json`. |
| HttpClient.JsonFilesKeepsOrder | server/HttpClient.js:181 | The listing is the directory listing with some entries dropped, in the original order. |
| HttpClient.JsonFilesCounts | server/HttpClient.js:181 | The listing holds every `.json` entry as often as the directory does, and no other entry. |
| HttpClient.SavedQuizIsListed | server/HttpClient.js:164-182 | A saved quiz whose file is in the directory shows up in the development listing. |
| QuizCreatorComponent.QuizCreator.constructor | client/src/components/QuizCreator.jsx:7-15 | The form starts with empty info, seed `default_seed`, version `A` and no questions. |
| QuizCreatorComponent.QuizCreator.HandleQuizInfoChange | client/src/components/QuizCreator.jsx:17-20 | Exactly the named field of quizInfo takes the new value. |
| QuizCreatorComponent.QuizCreator.AddQuestion | client/src/components/QuizCreator.jsx:22-32 | Appends one blank question with id n+1 and name `fromCharCode(65+n)`. Earlier questions are kept, and positional numbering and valid answer keys are preserved. |
| QuizCreatorComponent.QuizCreator.HandleQuestionChange | client/src/components/QuizCreator.jsx:34-38 | Only the given field of the given question changes. |
| QuizCreatorComponent.QuizCreator.HandleOptionChange | client/src/components/QuizCreator.jsx:40-44 | Only `options[o]` of question `q` changes. |
| QuizCreatorComponent.QuizCreator.HandleCorrectIndexChange | client/src/components/QuizCreator.jsx:46-50 | Only the answer index changes, to one of the offered options. |
| QuizCreatorComponent.QuizCreator.HandleOptionLangChange | client/src/components/QuizCreator.jsx:52-56 | Only the option language changes. |
| QuizCreatorComponent.QuizCreator.RemoveQuestion | client/src/components/QuizCreator.jsx:58-67 | Removes only the given position and keeps the order of the rest. Afterwards every id is i+1 and every name is `fromCharCode(65+i)`. |
| QuizCreatorComponent.QuizCreator.HandleSaveQuiz | client/src/components/QuizCreator.jsx:69-91 | Posts the current form. A successful post resets the form, and a failed one leaves it unchanged. |
| QuizCreatorComponent.NewQuestion | client/src/components/QuizCreator.jsx:22-30 | The appended question has id n+1 and the name of position n, four blank options, and an answer key that points at one of them. |
| QuizCreatorComponent.Renumbered | client/src/components/QuizCreator.jsx:62-65 | Renumbering sets the id to i+1 and the name to that of position i, and keeps text, options, language and answer key. |
| CreatorSeeds.PositionalQuestionsHaveDistinctSeeds | client/src/components/QuizCreator.jsx:62-65 | Positional names give every question of a quiz its own seed, as long as the names have not wrapped. |
| CreatorSeeds.WrappedNamesShareSeed | client/src/components/QuizCreator.jsx:64 | Question 0 and question 65536 get the same name and therefore the same seed. |
| QuizComponent.Score | client/src/components/Quiz.jsx:47-52 | The score never exceeds the number of questions. |
| QuizComponent.ScoreCountsCorrect | client/src/components/Quiz.jsx:47-52 | The score is the number of questions whose recorded answer equals their correctIndex. |
| QuizComponent.ScoreAtMostAnswered | client/src/components/Quiz.jsx:49 | The score is at most the number of answered questions. |
| QuizComponent.NothingAnsweredScoresZero | client/src/components/Quiz.jsx:49 | With no answers recorded, the score is 0. |
| QuizComponent.AnsweredCorrectly | client/src/components/Quiz.jsx:49 | A question counts as correct only when its id has a recorded answer. |
| QuizComponent.CalculateScore | client/src/components/Quiz.jsx:47-52 | The `forEach` loop computes `Score`, which is between 0 and the number of questions. |
| QuizComponent.Quiz.constructor | client/src/components/Quiz.jsx:11-14 | No data, no answers, not submitted, score 0. |
| QuizComponent.Quiz.SetQuizData | client/src/components/Quiz.jsx:22 | Stores the fetched quiz. |
| QuizComponent.Quiz.HandleOptionChange | client/src/components/Quiz.jsx:38-43 | Sets `answers[id] = k` and keeps every other key and value. |
| QuizComponent.Quiz.HandleSubmit | client/src/components/Quiz.jsx:45-55 | Without data nothing changes. Otherwise the quiz is marked submitted, and the score is the count of correct answers, at most the number of questions. |
| PrivateRouteComponent.PrivateRoute | client/src/components/PrivateRoute.jsx:7-21 | Redirect to `/login` exactly when there is no token. Redirect to `/` exactly when there is a token and a `roles` list without the role. Otherwise the children render. |
| PrivateRouteComponent.RoleListed | client/src/components/PrivateRoute.jsx:15 | `roles.includes(auth.role)` fails without a role and for an empty list. |
| PrivateRouteComponent.CreateRouteAdminOnly | client/src/App.jsx:57-63 | Under `roles={["admin"]}`, only a logged-in admin reaches the creator, and without a token the login page comes first. |

## Left out

- `seededRandom` (server/routes.js:30-32) is floating-point `Math.sin` arithmetic. The swap index `Math.floor(seededRandom(seed + i) * (i + 1))` is an oracle `pick(seed + i, i + 1)`. The model assumes `0 <= pick < i + 1`. Rounding in the float product could in principle reach `i + 1`, and the model does not cover that case.
- Shuffle.ShuffleArray, Routes.ProcessQuestion: determinism for a fixed `seededRandom`, permutation and tracking are proved. Nothing is claimed about how well the options are mixed, since that depends on `Math.sin`.
- `bcrypt.compare` and `jwt.verify`/`jwt.sign` are foreign cryptographic libraries. They are parameters that return a match, a mismatch or a failure (compare), or a rejection or a payload with an optional role (verify). Token contents and expiry are not modelled.
- Routes.LoginDecision: only the password's presence and length are validated. Joi's rejection of non-string passwords (numbers, objects) is not modelled, because the request body is taken to hold a string or nothing.
- The POST/PUT body check (`!quizData.quizInfo || !quizData.quizQuestions`), the Express wiring and the HTTP status/JSON plumbing are not modelled. For the admin-only routes, the status codes appear as the `GateResponse` outcomes.
- The GitHub API, base64 encoding, the file system, `JSON.parse` and `JSON.stringify` in server/HttpClient.js are I/O. The model takes the directory listing as a sequence and says nothing about the stored bytes.
- HttpClient.ToLowerAscii lowercases ASCII only. This is exact here, because its input holds only ASCII letters, digits and `_`.
- QuizCreatorComponent.QuizCreator: the handlers copy the list with `[...questions]` and then mutate the shared question objects. The model treats questions as values, so it does not capture that the previous state's objects are mutated as well (aliasing).
- QuizCreatorComponent.QuizCreator.HandleCorrectIndexChange: `parseInt(value, 10)` on the select's value is modelled by the parsed index directly. The select only offers `0..|options|-1`.
- The route choice in `fetchQuiz` (admin versus open quiz, client/src/components/Quiz.jsx:17-32), React rendering, the AuthContext storage and client/src/components/QuizCreator.js (an older stub whose only logic is an append) are not modelled.
- Asynchronous ordering (`await`, concurrent requests, React batching of state updates) is not modelled. Every modelled handler runs to completion on its own.

## Findings

| source | as written | input that shows it | evidently intended | confidence | as-written member | corrected member |
|---|---|---|---|---|---|---|
| server/routes.js:36 (called at 137 and 243) | `shuffleArray(array, seed)` starts the tracked position at 0, so the `correctIndex` it returns marks the option that was first. The stored `question.correctIndex` is never read, and clients grade against the wrong option whenever the author's answer is not the first option. | Options x, y, z, w with stored `correctIndex` 2 (answer z): the response's `correctIndex` points at x. | Start tracking at the stored `correctIndex`, so that `shuffled[correctIndex]` is the author's answer. | high; not executed | Routes.StoredCorrectIndexIgnored, Routes.ExampleAnswerKeyMismatch | Routes.ProcessQuestionIntended |
