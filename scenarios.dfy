/**
  Whole games played against the session's contracts alone.
 */
module Scenarios {
  import opened QuizData
  import opened Shuffle
  import opened Stats
  import opened QuizGame

  /**
    A player who always clicks a correctly marked answer is asked every
    question of the bank once, in some order, and the game then ends by
    itself with a full score and an all-correct bar.
   */
  method PlayPerfectGame(bank: seq<Question>, exchanges: seq<Exchange>)
    returns (asked: seq<Question>, ended: bool, finalScore: nat, answered: nat, bar: seq<Block>)
    requires |bank| > 0
    requires forall q :: q in bank ==> CorrectCount(q.answers) > 0
    requires InRange(exchanges, |bank|)
    ensures |asked| == |bank| && multiset(asked) == multiset(bank)
    ensures ended
    ensures finalScore == |bank| && answered == |bank|
    ensures bar == seq(|bank|, _ => Correct)
  {
    var quiz := new Session(bank);
    quiz.StartGame(exchanges);
    asked := [];
    while quiz.phase == Asking
      invariant quiz.Valid() && quiz.authored == bank && quiz.questions.Length == |bank|
      invariant quiz.phase == Asking || quiz.phase == Ended
      invariant quiz.score == quiz.currQuestionIndex
      invariant quiz.phase == Ended ==> quiz.currQuestionIndex == |bank|
      invariant asked == quiz.questions[..quiz.currQuestionIndex]
      decreases |bank| - quiz.currQuestionIndex
    {
      var q := quiz.questions[quiz.currQuestionIndex];
      assert q in multiset(quiz.questions[..]);
      asked := asked + [q];
      assert asked == quiz.questions[..quiz.currQuestionIndex + 1];
      var c :| 0 <= c < |q.answers| && q.answers[c].correct;
      quiz.SelectAnswer(c);
      if quiz.phase == Answered {
        quiz.SetNextQuestion();
      }
    }
    ended := quiz.phase == Ended;
    finalScore, answered, bar := quiz.statScore, quiz.statAnswered, quiz.percentageBar;
    assert quiz.questions[..quiz.currQuestionIndex] == quiz.questions[..];
    PercentageBarSplits(|bank|, |bank|);
    assert seq(0, _ => Wrong) == [];
  }

  /**
    Pressing End right after the start reports nothing answered: score 0,
    0 questions answered and an empty bar. This is the game whose percentage
    the program computes as 0 divided by 0.
   */
  method EndAtOnce(bank: seq<Question>, exchanges: seq<Exchange>)
    returns (finalScore: nat, answered: nat, bar: seq<Block>)
    requires |bank| > 0
    requires InRange(exchanges, |bank|)
    ensures finalScore == 0 && answered == 0 && bar == []
  {
    var quiz := new Session(bank);
    quiz.StartGame(exchanges);
    quiz.EndGame();
    finalScore, answered, bar := quiz.statScore, quiz.statAnswered, quiz.percentageBar;
  }

  /** The shipped bank, played perfectly: all five questions asked once, five correct out of five. */
  method PlayShippedBank(exchanges: seq<Exchange>)
    returns (asked: seq<Question>, finalScore: nat, answered: nat)
    requires InRange(exchanges, |Bank()|)
    ensures multiset(asked) == multiset(Bank())
    ensures finalScore == 5 && answered == 5
  {
    BankIsWellFormed();
    var ended, bar;
    asked, ended, finalScore, answered, bar := PlayPerfectGame(Bank(), exchanges);
  }
}
