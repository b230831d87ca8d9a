/**
 The game page's component as an object: its seven state fields are fields of
 `Game`, and each handler updates them one setter at a time, in the page's
 order. Every method is proved against the QuizFlow transition it performs,
 so the invariant and the lemmas of QuizFlow carry over to the object.
 */
module GamePage {
  import opened Questions
  import opened QuizFlow

  class Game {
    var questions: seq<Question>
    var currentQuestionIndex: int
    var selectedAnswer: string
    var correctAnswer: string
    var showResult: bool
    var score: int
    var answerStatus: string

    /** The fields as a QuizFlow state. */
    function State(): GameState
      reads this
    {
      GameState(questions, currentQuestionIndex, selectedAnswer, correctAnswer, showResult, score, answerStatus)
    }

    ghost predicate Valid()
      reads this
    {
      Inv(State())
    }

    /** The initial values given to the seven state fields. */
    constructor ()
      ensures State() == Initial()
      ensures Valid()
    {
      questions := [];
      currentQuestionIndex := 0;
      selectedAnswer := "";
      correctAnswer := "";
      showResult := false;
      score := 0;
      answerStatus := "";
    }

    /** The successful path of fetchQuestions, run once after the first render. */
    method FetchQuestions(results: seq<RawQuestion>, questionType: string, orders: seq<seq<nat>>)
      requires State() == Initial()
      requires ShufflesFit(results, questionType, orders)
      modifies this
      ensures State() == Load(results, questionType, orders)
      ensures Valid()
    {
      if |results| > 0 {
        var formattedQuestions := FormatQuestions(results, questionType, orders);
        questions := formattedQuestions;
        correctAnswer := formattedQuestions[currentQuestionIndex].raw.correctAnswer;
      }
      LoadEstablishesInv(results, questionType, orders);
    }

    /** handleAnswerClick up to the scheduling of its timer. */
    method HandleAnswerClick(answer: string)
      modifies this
      ensures State() == Answer(old(State()), answer)
    {
      selectedAnswer := answer;
      if answer == correctAnswer {
        score := score + 1;
        answerStatus := "correct";
      } else {
        answerStatus := "incorrect";
      }
    }

    /** A press on answer button k; it reaches handleAnswerClick only when the button exists and is enabled. */
    method ClickOption(k: nat) returns (accepted: bool)
      requires Valid()
      modifies this
      ensures accepted == Accepts(old(State()), k)
      ensures State() == Click(old(State()), k)
      ensures Valid()
      ensures accepted ==> AwaitingAdvance(State())
    {
      ClickPreservesInv(State(), k);
      accepted := !showResult && selectedAnswer == "" && answerStatus == ""
                  && 0 <= currentQuestionIndex < |questions|
                  && k < |questions[currentQuestionIndex].options|;
      if accepted {
        HandleAnswerClick(questions[currentQuestionIndex].options[k]);
      }
    }

    /** The body of the timer scheduled by an accepted press. */
    method AdvanceTimerFires()
      requires Valid() && AwaitingAdvance(State())
      modifies this
      ensures State() == Advance(old(State()))
      ensures Valid()
      ensures showResult ==> currentQuestionIndex == |questions| - 1
    {
      AdvancePreservesInv(State());
      var index := currentQuestionIndex;  // the value the timer's closure captured
      if index == |questions| - 1 {
        showResult := true;
      } else {
        currentQuestionIndex := index + 1;
        correctAnswer := questions[index + 1].raw.correctAnswer;
      }
      selectedAnswer := "";
      answerStatus := "";
    }

    /** handleRestart, wired to the "Back Home" button of the "Game Over" screen: the query for the results page. */
    method HandleRestart() returns (query: ResultQuery)
      requires Valid() && showResult
      ensures query == ResultPayload(State())
      ensures query.totalQuestions == |questions| >= 1
      ensures 0 <= query.score <= query.totalQuestions
    {
      ScoreBounded(State());
      query := ResultQuery(score, |questions|);
    }
  }
}
