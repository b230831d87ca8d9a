# Quiz flow of the anime trivia game

This project models the game page of a small trivia quiz (`pages/game.js`):
the questions fetched from the trivia service are normalised into answer
options, shown one at a time, scored on a single press, and, one second after
each press, the page moves on to the next question or to the "Game Over"
screen, whose "Back Home" button sends the score and the number of questions
to the results page.

The model has three modules:

- `Questions` (`questions.dfy`): the question records the service returns,
  the `options` each one gets (a shuffle of the incorrect answers and the
  correct one for `questionType == "multiple"`, the fixed pair
  `["True", "False"]` for any other type), and the proof that the shuffle keeps
  exactly the answers it was given. `shuffleArray` (utils/arrayUtils.js) is
  not part of this model: its outcome is a parameter, one ordering of indices
  per question (`IsOrdering`: every index below n occurs exactly once), so any
  permutation it might return is covered and no particular one is assumed.
- `QuizFlow` (`quiz_flow.dfy`): the page's seven state fields as a record
  `GameState`, and the three transitions as functions: `Load` (the fetched
  results arrive), `Click` (answer button k is pressed) and `Advance` (the
  timer that a press schedules fires). `Inv` is the invariant of the flow: the
  index stays on an existing question, `correctAnswer` is the correct answer of
  the current question, a pending answer is one of the current options with
  the matching status, and `0 <= score <= answered <= number of questions`.
  `Run` plays a sequence of presses, each followed by its timer.
- `GamePage` (`game_page.dfy`): the component as a class `Game` whose fields
  are the seven state fields; each handler assigns them in the page's order and
  is proved to perform the corresponding `QuizFlow` transition and to keep
  `Inv`.

The one-second timer is an explicit step, `Advance` / `AdvanceTimerFires`,
which may only follow an accepted press (`AwaitingAdvance`: `answerStatus` is
not empty). Its closure reads `currentQuestionIndex` and `questions` as they
were at the press; since nothing else changes them between the press and the
timer, it reads the current state here.

The results page is reached only through the "Back Home" button of the
"Game Over" screen (`handleRestart`, pages/game.js:73-78 and 90), not
automatically when the terminal state is entered; the model follows the code.
How fair the shuffle is depends on `shuffleArray` alone and is not modelled.

## Model

| member | source | states |
|---|---|---|
| `Questions.PermuteIsPermutation` | pages/game.js:30 | rearranging a list by any ordering of its indices gives a list of the same length with the same multiset of elements |
| `Questions.FormatQuestion` | pages/game.js:28-37 | the formatted question keeps every field of the result; for `"multiple"` its options are as many as the incorrect answers plus one, have the same multiset as `incorrect_answers ++ [correct_answer]` and contain the correct answer; for any other type they are exactly `["True", "False"]`, whatever the incorrect answers were |
| `Questions.FormatQuestions` | pages/game.js:28-37 | one formatted question per result, same number and same order, each keeping its result's fields and having normalised options |
| `QuizFlow.Load` | pages/game.js:27-39 | an empty result list leaves the initial state; otherwise the questions are the formatted results in order, the index is 0, `correctAnswer` is the first result's correct answer, score 0, nothing selected, no result shown |
| `QuizFlow.LoadEstablishesInv` | pages/game.js:13-39 | the state after loading satisfies the flow invariant |
| `QuizFlow.ClickScores` | pages/game.js:51-59 | an accepted press records the pressed option; the score rises by exactly 1 if and only if it equals `correctAnswer` and stays the same otherwise; the status is `"correct"` exactly when the score rose and `"incorrect"` exactly when it did not; index, questions and `correctAnswer` are unchanged and an advance is pending; a press that is not accepted changes nothing |
| `QuizFlow.ClickPreservesInv` | pages/game.js:51-59 | a press keeps the flow invariant (index bounds, pairing of `correctAnswer`, `score <= answered <= questions`) |
| `QuizFlow.ClickIsOneShot` | pages/game.js:101-112 | after an accepted press the buttons are disabled and every further press leaves the state as it is |
| `QuizFlow.AdvanceToNext` | pages/game.js:64-69 | on a question other than the last, the timer moves the index up by 1, sets `correctAnswer` to the next question's correct answer, clears selection and status, keeps score and questions, and re-enables the buttons |
| `QuizFlow.AdvanceToGameOver` | pages/game.js:62-69 | on the last question, the timer shows the result, leaves the index, clears selection and status, keeps the score, and no press is accepted afterwards |
| `QuizFlow.AdvancePreservesInv` | pages/game.js:61-70 | the timer step keeps the flow invariant |
| `QuizFlow.ScoreBounded` | pages/game.js:14-18 | in every state satisfying the invariant, `0 <= score <= number of questions`; in the "Game Over" state there is at least one question |
| `QuizFlow.Turn` | pages/game.js:51-70 | a press followed by its timer keeps the invariant; a press that is not accepted changes nothing |
| `QuizFlow.Run` | pages/game.js:51-70 | any sequence of presses and timers keeps the invariant |
| `QuizFlow.RunScoresCorrectAnswers` | pages/game.js:51-70 | answering each remaining question once ends in the "Game Over" state with the questions unchanged and the score raised by the number of correct answers |
| `QuizFlow.PlayThrough` | pages/game.js:27-78 | after loading N results and answering every question once, the results page receives `score` equal to the number of correct answers and `totalQuestions == N` |
| `QuizFlow.CorrectThenIncorrect` | pages/game.js:75-78 | two multiple-choice questions, the first answered correctly and the second not, give score 1 and total 2 |
| `QuizFlow.EmptyAnswerScoresTwiceAsWritten` | pages/game.js:112 | under the page's own enabling rule, a question whose correct answer is the empty string can be pressed twice and scores 2 out of 1 question, breaking the invariant; under the corrected rule it scores 1 |
| `QuizFlow.GatesAgreeWithoutEmptyOptions` | pages/game.js:112 | when no current option is the empty string, the page's enabling rule and the corrected one accept exactly the same presses |
| `GamePage.Game.constructor` | pages/game.js:13-19 | the fields start at the initial state (empty questions, index 0, empty strings, no result, score 0) |
| `GamePage.Game.FetchQuestions` | pages/game.js:27-39 | the fields become `Load` of the results and the invariant holds |
| `GamePage.Game.HandleAnswerClick` | pages/game.js:51-59 | the fields become `Answer` of the previous state and the pressed answer |
| `GamePage.Game.ClickOption` | pages/game.js:101-112 | reports whether the press was accepted, performs `Click`, keeps the invariant, and leaves an advance pending when accepted |
| `GamePage.Game.AdvanceTimerFires` | pages/game.js:61-70 | the fields become `Advance` of the previous state and the invariant holds |
| `GamePage.Game.HandleRestart` | pages/game.js:73-78 | the query carries the current score and the number of questions, with at least one question and `0 <= score <= totalQuestions` |

## Findings

| source | as written | input that shows it | evidently intended | confidence | as-written member | corrected member |
|---|---|---|---|---|---|---|
| pages/game.js:112 | the answer buttons are disabled only while `selectedAnswer !== ''`, so a press on an option that is itself the empty string leaves them enabled | a multiple-choice result with `correct_answer: ""` and `incorrect_answers: ["x"]`; pressing the `""` button twice gives score 2 out of 1 question | one press per question: the buttons stay disabled from a press until the timer fires | low: not executed; the trivia service is not known to send empty answers | `QuizFlow.EmptyAnswerScoresTwiceAsWritten` | `QuizFlow.ClickIsOneShot` |

The rest of the model (`Click`, `GamePage.Game.ClickOption`) uses the
corrected rule, which also requires `answerStatus == ""`;
`QuizFlow.GatesAgreeWithoutEmptyOptions` shows that it accepts the same
presses as the page's rule whenever no option is empty.

## Left out

- The HTTP request to the trivia service, its query string and the logging of a failed request (pages/game.js:22-26, 41-43): network I/O. `Load` takes the successful result list as input; a failed request leaves the initial state, which the model already has.
- The guard that skips the request when `numQuestions` or `questionType` is missing, and re-running the effect when they change (pages/game.js:46-49): routing. `FetchQuestions` is modelled as running once, from the initial state.
- The one-second delay of the timer and its missing cancellation when the page is left (pages/game.js:61, 70): timing and component lifetime. The timer is the explicit step `Advance`.
- `shuffleArray` (utils/arrayUtils.js) is not part of this model: its internals and any claim about the fairness of its shuffle are left out; only that it returns a permutation is used.
- Rendering, styling, the correct/incorrect indicators and the decoding of HTML entities by `ReactHtmlParser` (pages/game.js:81-162): UI and a foreign library. Only the enabling of the answer buttons (line 112) and which buttons exist (line 101) are modelled.
- pages/index.js (the three-field setup form) and pages/result.js (display of the score): UI and navigation. The results page reads `correctCount` while the game page sends `score`; that mismatch between pages is not modelled.
- The `difficulty` query parameter, which the request never sends: not modelled.
- `GamePage.Game.ClickOption`: uses the corrected enabling rule of the Findings section rather than line 112 as written; the two agree whenever no option is the empty string.
- `GamePage.Game.HandleAnswerClick`: promises no invariant on its own, since the page only calls it from an enabled button; `ClickOption` is the member that keeps the invariant.
