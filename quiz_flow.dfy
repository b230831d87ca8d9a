/**
 The quiz flow of the game page as a state machine on a record of the page's
 seven state fields. Three transitions: Load (the fetched results arrive),
 Click (an answer button is pressed) and Advance (the one-second timer that a
 click schedules fires). The network request, the timer's delay and the
 rendering are not part of this model.
 */
module QuizFlow {
  import opened Questions

  /** The page's state fields, with the names and initial values it gives them. */
  datatype GameState = GameState(
    questions: seq<Question>,
    currentQuestionIndex: int,
    selectedAnswer: string,
    correctAnswer: string,
    showResult: bool,
    score: int,
    answerStatus: string)

  /** What the results page is sent: the query `{ score, totalQuestions }`. */
  datatype ResultQuery = ResultQuery(score: int, totalQuestions: int)

  /** The state before anything is fetched. */
  function Initial(): GameState {
    GameState([], 0, "", "", false, 0, "")
  }

  /** Load: the successful outcome of fetchQuestions, from the initial state. An empty result list changes nothing. */
  function Load(results: seq<RawQuestion>, questionType: string, orders: seq<seq<nat>>): (s: GameState)
    requires ShufflesFit(results, questionType, orders)
    ensures |results| == 0 ==> s == Initial()
    ensures |results| > 0 ==>
      && |s.questions| == |results|
      && (forall i :: 0 <= i < |results| ==> s.questions[i].raw == results[i])
      && (forall i :: 0 <= i < |results| ==> NormalisedOptions(results[i], questionType, s.questions[i].options))
      && s.currentQuestionIndex == 0
      && s.correctAnswer == results[0].correctAnswer
      && s.score == 0 && !s.showResult && s.selectedAnswer == "" && s.answerStatus == ""
  {
    if |results| > 0 then
      var formatted := FormatQuestions(results, questionType, orders);
      Initial().(questions := formatted,
                 correctAnswer := formatted[Initial().currentQuestionIndex].raw.correctAnswer)
    else
      Initial()
  }

  /** The buttons on screen: the options of the current question, or none when it does not exist. */
  function CurrentOptions(s: GameState): seq<string> {
    if 0 <= s.currentQuestionIndex < |s.questions| then s.questions[s.currentQuestionIndex].options else []
  }

  /** The page's own rule for enabling the answer buttons: shown (no result yet) and nothing selected. */
  predicate ButtonsEnabledAsWritten(s: GameState) {
    !s.showResult && s.selectedAnswer == ""
  }

  /** The corrected rule: also no answer awaiting the timer, which an empty option would otherwise hide. */
  predicate ButtonsEnabled(s: GameState) {
    !s.showResult && s.selectedAnswer == "" && s.answerStatus == ""
  }

  /** Button k exists and is enabled. */
  predicate Accepts(s: GameState, k: nat) {
    ButtonsEnabled(s) && k < |CurrentOptions(s)|
  }

  /** handleAnswerClick without its timer: record the answer, score it, record the status. */
  function Answer(s: GameState, answer: string): GameState {
    var correct := answer == s.correctAnswer;
    s.(selectedAnswer := answer,
       score := if correct then s.score + 1 else s.score,
       answerStatus := if correct then "correct" else "incorrect")
  }

  /** Pressing button k under the corrected enabling rule. */
  function Click(s: GameState, k: nat): GameState {
    if Accepts(s, k) then Answer(s, CurrentOptions(s)[k]) else s
  }

  /** Pressing button k under the page's own enabling rule. */
  function ClickAsWritten(s: GameState, k: nat): GameState {
    if ButtonsEnabledAsWritten(s) && k < |CurrentOptions(s)| then Answer(s, CurrentOptions(s)[k]) else s
  }

  /** The number of questions answered so far: those before the current one, and the current one once it is answered. */
  function AnsweredCount(s: GameState): int {
    if s.questions == [] then 0
    else s.currentQuestionIndex + (if s.answerStatus != "" || s.showResult then 1 else 0)
  }

  /** The invariant of the flow. */
  ghost predicate Inv(s: GameState) {
    && (s.questions == [] ==> s == Initial())
    && (s.questions != [] ==>
          && 0 <= s.currentQuestionIndex < |s.questions|
          && s.correctAnswer == s.questions[s.currentQuestionIndex].raw.correctAnswer)
    && (s.answerStatus == "" ==> s.selectedAnswer == "")
    && (s.answerStatus != "" ==>
          && !s.showResult
          && s.selectedAnswer in CurrentOptions(s)
          && s.answerStatus == (if s.selectedAnswer == s.correctAnswer then "correct" else "incorrect"))
    && (s.showResult ==> s.currentQuestionIndex == |s.questions| - 1)
    && 0 <= s.score <= AnsweredCount(s) <= |s.questions|
  }

  /** A timer is pending: an answer was accepted and the page has not moved on. */
  predicate AwaitingAdvance(s: GameState) {
    s.answerStatus != ""
  }

  /** Advance: the timer body, on to the next question or to the "Game Over" state. */
  function Advance(s: GameState): GameState
    requires Inv(s) && AwaitingAdvance(s)
  {
    var moved :=
      if s.currentQuestionIndex == |s.questions| - 1 then
        s.(showResult := true)
      else
        s.(currentQuestionIndex := s.currentQuestionIndex + 1,
           correctAnswer := s.questions[s.currentQuestionIndex + 1].raw.correctAnswer);
    moved.(selectedAnswer := "", answerStatus := "")
  }

  /** handleRestart's navigation payload. */
  function ResultPayload(s: GameState): ResultQuery {
    ResultQuery(s.score, |s.questions|)
  }

  // ---------------------------------------------------------------------
  // Load

  lemma LoadEstablishesInv(results: seq<RawQuestion>, questionType: string, orders: seq<seq<nat>>)
    requires ShufflesFit(results, questionType, orders)
    ensures Inv(Load(results, questionType, orders))
  {
  }

  // ---------------------------------------------------------------------
  // Answer

  /** A correct answer adds exactly one to the score, any other answer nothing; the status says which. */
  lemma ClickScores(s: GameState, k: nat)
    requires Inv(s)
    ensures var t := Click(s, k);
      if Accepts(s, k) then
        && t.selectedAnswer == CurrentOptions(s)[k]
        && (t.score == s.score + 1 <==> CurrentOptions(s)[k] == s.correctAnswer)
        && (t.score == s.score <==> CurrentOptions(s)[k] != s.correctAnswer)
        && (t.answerStatus == "correct" <==> t.score == s.score + 1)
        && (t.answerStatus == "incorrect" <==> t.score == s.score)
        && t.questions == s.questions && t.currentQuestionIndex == s.currentQuestionIndex
        && t.correctAnswer == s.correctAnswer && t.showResult == s.showResult
        && AwaitingAdvance(t)
      else
        t == s
  {
  }

  lemma ClickPreservesInv(s: GameState, k: nat)
    requires Inv(s)
    ensures Inv(Click(s, k))
  {
  }

  /** Answering is one-shot: once a button is accepted, no button is accepted until the timer fires. */
  lemma {:induction false} ClickIsOneShot(s: GameState, k: nat, k': nat)
    requires Inv(s) && Accepts(s, k)
    ensures !ButtonsEnabled(Click(s, k))
    ensures Click(Click(s, k), k') == Click(s, k)
  {
  }

  // ---------------------------------------------------------------------
  // Advance

  /** On a question other than the last, the timer moves to the next question and pairs its correct answer. */
  lemma AdvanceToNext(s: GameState)
    requires Inv(s) && AwaitingAdvance(s) && s.currentQuestionIndex < |s.questions| - 1
    ensures var t := Advance(s);
      && t.currentQuestionIndex == s.currentQuestionIndex + 1
      && t.correctAnswer == s.questions[s.currentQuestionIndex + 1].raw.correctAnswer
      && !t.showResult
      && t.selectedAnswer == "" && t.answerStatus == ""
      && t.score == s.score && t.questions == s.questions
      && ButtonsEnabled(t)
  {
  }

  /** On the last question, the timer ends the game and leaves the index where it is; no button is accepted afterwards. */
  lemma AdvanceToGameOver(s: GameState, k: nat)
    requires Inv(s) && AwaitingAdvance(s) && s.currentQuestionIndex == |s.questions| - 1
    ensures var t := Advance(s);
      && t.showResult
      && t.currentQuestionIndex == s.currentQuestionIndex
      && t.selectedAnswer == "" && t.answerStatus == ""
      && t.score == s.score && t.questions == s.questions
      && Click(t, k) == t
  {
  }

  lemma AdvancePreservesInv(s: GameState)
    requires Inv(s) && AwaitingAdvance(s)
    ensures Inv(Advance(s))
  {
  }

  /** Whatever happens, the score stays between 0 and the number of questions. */
  lemma ScoreBounded(s: GameState)
    requires Inv(s)
    ensures 0 <= s.score <= |s.questions|
    ensures s.showResult ==> ResultPayload(s).totalQuestions == |s.questions| >= 1
  {
  }

  // ---------------------------------------------------------------------
  // A whole game

  /** One turn: press button k and, if the press was accepted, let the timer fire. */
  function Turn(s: GameState, k: nat): (t: GameState)
    requires Inv(s)
    ensures Inv(t)
    ensures !Accepts(s, k) ==> t == s
  {
    ClickPreservesInv(s, k);
    var clicked := Click(s, k);
    if Accepts(s, k) then
      AdvancePreservesInv(clicked);
      Advance(clicked)
    else
      clicked
  }

  /** A sequence of turns, one button per turn. */
  function Run(s: GameState, picks: seq<nat>): (t: GameState)
    requires Inv(s)
    ensures Inv(t)
    decreases |picks|
  {
    if picks == [] then s else Run(Turn(s, picks[0]), picks[1..])
  }

  /** Whether pressing button `pick` answers question q correctly. */
  predicate PicksCorrect(q: Question, pick: nat) {
    pick < |q.options| && q.options[pick] == q.raw.correctAnswer
  }

  /** The number of questions answered correctly when question i gets button picks[i]. */
  function CorrectCount(qs: seq<Question>, picks: seq<nat>): nat
    requires |picks| <= |qs|
  {
    if picks == [] then 0
    else (if PicksCorrect(qs[0], picks[0]) then 1 else 0) + CorrectCount(qs[1..], picks[1..])
  }

  /** Playing every remaining question ends the game with one point per correct answer. */
  lemma {:induction false} RunScoresCorrectAnswers(s: GameState, picks: seq<nat>)
    requires Inv(s) && s.questions != [] && !s.showResult && s.answerStatus == ""
    requires |picks| == |s.questions| - s.currentQuestionIndex
    requires forall j :: 0 <= j < |picks| ==> picks[j] < |s.questions[s.currentQuestionIndex + j].options|
    ensures Run(s, picks).showResult
    ensures Run(s, picks).questions == s.questions
    ensures Run(s, picks).score == s.score + CorrectCount(s.questions[s.currentQuestionIndex..], picks)
    decreases |picks|
  {
    var i := s.currentQuestionIndex;
    var qs := s.questions;
    assert picks[0] < |qs[i + 0].options|;
    assert Accepts(s, picks[0]);
    var clicked := Click(s, picks[0]);
    ClickPreservesInv(s, picks[0]);
    var t := Turn(s, picks[0]);
    assert t == Advance(clicked);
    assert clicked.score == s.score + (if PicksCorrect(qs[i], picks[0]) then 1 else 0);
    var tail := qs[i..];
    assert tail[0] == qs[i] && tail[1..] == qs[i + 1..];
    if i == |qs| - 1 {
      assert picks[1..] == [];
      assert Run(s, picks) == Run(t, []) == t;
    } else {
      assert t.currentQuestionIndex == i + 1;
      forall j | 0 <= j < |picks[1..]| ensures picks[1..][j] < |t.questions[t.currentQuestionIndex + j].options| {
        assert picks[1..][j] == picks[j + 1];
      }
      RunScoresCorrectAnswers(t, picks[1..]);
    }
  }

  /** A whole game: every fetched question answered once gives the results page the number of correct answers and the number of questions. */
  lemma PlayThrough(results: seq<RawQuestion>, questionType: string, orders: seq<seq<nat>>, picks: seq<nat>)
    requires ShufflesFit(results, questionType, orders)
    requires |results| > 0 && |picks| == |results|
    requires forall i :: 0 <= i < |picks| ==> picks[i] < OptionCount(results[i], questionType)
    ensures var s := Load(results, questionType, orders);
      && Inv(s)
      && Run(s, picks).showResult
      && ResultPayload(Run(s, picks)) == ResultQuery(CorrectCount(s.questions, picks), |results|)
  {
    var s := Load(results, questionType, orders);
    LoadEstablishesInv(results, questionType, orders);
    assert s.questions == FormatQuestions(results, questionType, orders);
    RunScoresCorrectAnswers(s, picks);
    assert s.questions[0..] == s.questions;
  }

  /** Two multiple-choice questions, the first answered correctly and the second not: score 1 of 2. */
  lemma CorrectThenIncorrect(results: seq<RawQuestion>, orders: seq<seq<nat>>, first: nat, second: nat)
    requires |results| == 2 && ShufflesFit(results, "multiple", orders)
    requires first <= |results[0].incorrectAnswers| && second <= |results[1].incorrectAnswers|
    requires Load(results, "multiple", orders).questions[0].options[first] == results[0].correctAnswer
    requires Load(results, "multiple", orders).questions[1].options[second] != results[1].correctAnswer
    ensures Inv(Load(results, "multiple", orders))
    ensures ResultPayload(Run(Load(results, "multiple", orders), [first, second])) == ResultQuery(1, 2)
  {
    var picks := [first, second];
    PlayThrough(results, "multiple", orders, picks);
    var qs := Load(results, "multiple", orders).questions;
    assert PicksCorrect(qs[0], first);
    assert !PicksCorrect(qs[1], second);
    assert qs[1..][0] == qs[1] && picks[1..] == [second];
    assert CorrectCount(qs[1..][1..], picks[1..][1..]) == 0;
  }

  // ---------------------------------------------------------------------
  // The enabling rule as written

  /** As written, a question whose correct answer is the empty string can be answered twice and scored twice: 2 points out of 1 question. */
  lemma EmptyAnswerScoresTwiceAsWritten()
    ensures var s := Load([RawQuestion("Anime", "multiple", "easy", "Q", "", ["x"])], "multiple", [[0, 1]]);
        && ShufflesFit([RawQuestion("Anime", "multiple", "easy", "Q", "", ["x"])], "multiple", [[0, 1]])
        && ClickAsWritten(ClickAsWritten(s, 1), 1).score == 2
        && |ClickAsWritten(ClickAsWritten(s, 1), 1).questions| == 1
        && !Inv(ClickAsWritten(ClickAsWritten(s, 1), 1))
        && Click(Click(s, 1), 1).score == 1
  {
    var results := [RawQuestion("Anime", "multiple", "easy", "Q", "", ["x"])];
    assert ShufflesFit(results, "multiple", [[0, 1]]);
    var s := Load(results, "multiple", [[0, 1]]);
    assert s.questions[0].options == ["x", ""];
  }

  /** When no option is the empty string, the page's rule and the corrected rule accept exactly the same presses. */
  lemma GatesAgreeWithoutEmptyOptions(s: GameState, k: nat)
    requires Inv(s)
    requires forall o :: o in CurrentOptions(s) ==> o != ""
    ensures ClickAsWritten(s, k) == Click(s, k)
  {
  }
}
