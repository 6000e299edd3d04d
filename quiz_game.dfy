/**
  The quiz session: the bank (shuffled in place at every start), the index of
  the question being asked (which is also the number of questions answered so
  far), the score, and the few controls whose visibility decides what the
  player can do next.
 */
module QuizGame {
  import opened QuizData
  import opened Shuffle
  import opened Stats

  /** The stage of a session, as told by the controls on offer. */
  datatype Phase =
    | Idle      // only the start button is shown
    | Asking    // a question is shown and its answer buttons are enabled
    | Answered  // the answer buttons are disabled and "next" is shown
    | Ended     // the stats are shown and RESTART is offered

  /** An answer button: its label, whether it carries the correct mark, and whether it is disabled. */
  datatype AnswerButton = AnswerButton(text: string, correct: bool, disabled: bool)

  /** One button per answer of q, in authored order, each with the answer's text and mark. */
  ghost predicate Presents(buttons: seq<AnswerButton>, q: Question, disabled: bool) {
    |buttons| == |q.answers|
    && forall k :: 0 <= k < |buttons| ==>
         buttons[k] == AnswerButton(q.answers[k].text, q.answers[k].correct, disabled)
  }

  /** The correct marks the buttons carry, in order. */
  function ButtonMarks(buttons: seq<AnswerButton>): (marks: seq<bool>)
    ensures |marks| == |buttons|
    ensures forall k :: 0 <= k < |marks| ==> marks[k] == buttons[k].correct
  {
    seq(|buttons|, k requires 0 <= k < |buttons| => buttons[k].correct)
  }

  /** The buttons shown for q carry as many correct marks as q has correct answers. */
  lemma ButtonsCarryCorrectCount(buttons: seq<AnswerButton>, q: Question, disabled: bool)
    requires Presents(buttons, q, disabled)
    ensures CountTrue(ButtonMarks(buttons)) == CorrectCount(q.answers)
  {
    assert ButtonMarks(buttons) == Marks(q.answers);
    CorrectCountIsCountTrue(q.answers);
  }

  class Session {
    /** The question bank; each start reorders it in place and it then serves as the shuffled order. */
    const questions: array<Question>
    /** The bank as authored, before any start. */
    ghost const authored: seq<Question>

    /** Index of the question being asked, and the number of questions answered so far. */
    var currQuestionIndex: nat
    /** Number of correct answers so far. */
    var score: nat
    var phase: Phase

    // What is on screen.
    var questionText: string
    var questionNumber: nat
    var answerBtns: seq<AnswerButton>
    var statScore: nat
    var statAnswered: nat
    var percentageBar: seq<Block>

    /** For each answered question, in the order asked, whether the chosen answer was correct. */
    ghost var outcomes: seq<bool>

    /** What the counters promise at every step, including midway through a handler. */
    ghost predicate Counters()
      reads this, questions
    {
      && multiset(questions[..]) == multiset(authored)
      && 0 < questions.Length
      && score <= currQuestionIndex <= questions.Length
      && |outcomes| == currQuestionIndex
      && score == CountTrue(outcomes)
    }

    /** The session invariant: the counters, and what each phase has on screen. */
    ghost predicate Valid()
      reads this, questions
    {
      && Counters()
      && (phase == Idle ==>
            currQuestionIndex == 0 && answerBtns == [] && percentageBar == [])
      && (phase == Asking ==>
            && currQuestionIndex < questions.Length
            && questionNumber == currQuestionIndex + 1
            && questionText == questions[currQuestionIndex].question
            && Presents(answerBtns, questions[currQuestionIndex], false)
            && percentageBar == [])
      && (phase == Answered ==>
            && 0 < currQuestionIndex < questions.Length
            && questionNumber == currQuestionIndex
            && questionText == questions[currQuestionIndex - 1].question
            && Presents(answerBtns, questions[currQuestionIndex - 1], true)
            && percentageBar == [])
      && (phase == Ended ==>
            && statScore == score
            && statAnswered == currQuestionIndex
            && percentageBar == PercentageBar(score, currQuestionIndex))
    }

    /** Answer button `choice` can be clicked: its question is on screen and it is enabled. */
    predicate Selectable(choice: nat)
      reads this
    {
      (phase == Asking || phase == Answered) && choice < |answerBtns| && !answerBtns[choice].disabled
    }

    /** The page as loaded: the start button and nothing else. */
    constructor (bank: seq<Question>)
      requires |bank| > 0
      ensures Valid() && phase == Idle
      ensures fresh(questions) && questions[..] == bank && authored == bank
      ensures currQuestionIndex == 0 && score == 0
    {
      questions := new Question[|bank|](k requires 0 <= k < |bank| => bank[k]);
      authored := bank;
      currQuestionIndex, score := 0, 0;
      phase := Idle;
      questionText, questionNumber := "", 0;
      answerBtns, percentageBar := [], [];
      statScore, statAnswered := 0, 0;
      outcomes := [];
      new;
      assert questions[..] == bank;
    }

    /**
      The start (or RESTART) button: reorders the bank in place, resets the
      counters and asks the first question of the new order.
     */
    method StartGame(exchanges: seq<Exchange>)
      requires Valid() && (phase == Idle || phase == Ended)
      requires InRange(exchanges, questions.Length)
      modifies this`phase, this`currQuestionIndex, this`score, this`outcomes
      modifies this`answerBtns, this`percentageBar, this`questionText, this`questionNumber, questions
      ensures Valid() && phase == Asking
      ensures questions[..] == Exchanged(old(questions[..]), exchanges)
      ensures multiset(questions[..]) == multiset(authored)
      ensures currQuestionIndex == 0 && score == 0 && outcomes == []
      ensures questionNumber == 1 && questionText == questions[0].question
      ensures Presents(answerBtns, questions[0], false)
    {
      phase := Asking;
      RandomSort(questions, exchanges);
      currQuestionIndex := 0;
      score := 0;
      outcomes := [];
      SetNextQuestion();
    }

    /**
      The "next" button (and the last step of a start): clears the screen and
      asks the question at the current index, numbering it from 1.
     */
    method SetNextQuestion()
      requires Counters() && currQuestionIndex < questions.Length
      requires phase == Asking || phase == Answered
      modifies this`phase, this`answerBtns, this`percentageBar, this`questionText, this`questionNumber
      ensures Valid() && phase == Asking
      ensures currQuestionIndex == old(currQuestionIndex) && score == old(score) && outcomes == old(outcomes)
      ensures questionNumber == currQuestionIndex + 1
      ensures questionText == questions[currQuestionIndex].question
      ensures Presents(answerBtns, questions[currQuestionIndex], false)
    {
      ResetState();
      ShowQuestion(questions[currQuestionIndex]);
    }

    /** Hides "next" and the stats, and removes the answer buttons and the bar's blocks. */
    method ResetState()
      modifies this`phase, this`answerBtns, this`percentageBar
      ensures phase == Asking && answerBtns == [] && percentageBar == []
    {
      phase := Asking;
      answerBtns := [];
      percentageBar := [];
    }

    /** Shows q with its number, and appends one enabled button per answer, in authored order. */
    method ShowQuestion(q: Question)
      requires answerBtns == []
      modifies this`questionText, this`questionNumber, this`answerBtns
      ensures questionText == q.question && questionNumber == currQuestionIndex + 1
      ensures Presents(answerBtns, q, false)
    {
      questionText := q.question;
      questionNumber := currQuestionIndex + 1;
      var buttons := answerBtns;
      for i := 0 to |q.answers|
        invariant |buttons| == i
        invariant forall k :: 0 <= k < i ==>
                    buttons[k] == AnswerButton(q.answers[k].text, q.answers[k].correct, false)
      {
        var answer := q.answers[i];
        buttons := buttons + [AnswerButton(answer.text, answer.correct, false)];
      }
      answerBtns := buttons;
    }

    /**
      A click on answer button `choice`: counts the question as answered,
      scores it when the button carries the correct mark, then offers "next"
      while questions remain and ends the game otherwise; in both cases every
      answer button is disabled.
     */
    method SelectAnswer(choice: nat)
      requires Valid() && Selectable(choice)
      modifies this`currQuestionIndex, this`score, this`outcomes, this`phase, this`answerBtns
      modifies this`statScore, this`statAnswered, this`percentageBar
      ensures Valid()
      ensures currQuestionIndex == old(currQuestionIndex) + 1
      ensures score == old(score) + (if old(questions[currQuestionIndex]).answers[choice].correct then 1 else 0)
      ensures outcomes == old(outcomes) + [old(questions[currQuestionIndex]).answers[choice].correct]
      ensures phase == (if currQuestionIndex < questions.Length then Answered else Ended)
      ensures |answerBtns| == |old(answerBtns)|
      ensures forall k :: 0 <= k < |answerBtns| ==> answerBtns[k] == old(answerBtns[k]).(disabled := true)
      ensures forall k: nat :: !Selectable(k)
      ensures phase == Answered ==>
                statScore == old(statScore) && statAnswered == old(statAnswered)
                && percentageBar == old(percentageBar)
    {
      var userCorrect := answerBtns[choice].correct;
      currQuestionIndex := currQuestionIndex + 1;
      outcomes := outcomes + [userCorrect];
      assert outcomes[..|outcomes| - 1] == old(outcomes);
      if userCorrect {
        score := score + 1;
      }
      if currQuestionIndex < questions.Length {
        phase := Answered;
      } else {
        EndGame();
      }
      var buttons := answerBtns;
      for i := 0 to |buttons|
        invariant |buttons| == |answerBtns|
        invariant forall k :: 0 <= k < i ==> buttons[k] == answerBtns[k].(disabled := true)
        invariant forall k :: i <= k < |buttons| ==> buttons[k] == answerBtns[k]
      {
        buttons := buttons[i := buttons[i].(disabled := true)];
      }
      answerBtns := buttons;
    }

    /**
      The End button, and the step after the last answer: hides the question,
      shows the stats for the counters as they stand and offers RESTART.
     */
    method EndGame()
      requires Counters() && (phase == Asking || phase == Answered) && percentageBar == []
      modifies this`phase, this`statScore, this`statAnswered, this`percentageBar
      ensures Valid() && phase == Ended
      ensures currQuestionIndex == old(currQuestionIndex) && score == old(score) && outcomes == old(outcomes)
      ensures answerBtns == old(answerBtns)
      ensures statScore == score && statAnswered == currQuestionIndex
      ensures percentageBar == PercentageBar(score, currQuestionIndex)
    {
      phase := Ended;
      DisplayStats();
    }

    /** Shows the score and the number of questions answered, and draws the bar. */
    method DisplayStats()
      modifies this`statScore, this`statAnswered, this`percentageBar
      ensures statScore == score && statAnswered == currQuestionIndex
      ensures percentageBar == old(percentageBar) + PercentageBar(score, currQuestionIndex)
    {
      statScore := score;
      statAnswered := currQuestionIndex;
      CreatePercentageBar();
    }

    /**
      Appends one block per answered question to the bar: the block at
      position i is correct when i is below the score and wrong otherwise.
     */
    method CreatePercentageBar()
      modifies this`percentageBar
      ensures percentageBar == old(percentageBar) + PercentageBar(score, currQuestionIndex)
      ensures var drawn := percentageBar[|old(percentageBar)|..];
              && |drawn| == currQuestionIndex
              && forall k :: 0 <= k < |drawn| ==> (drawn[k] == Correct <==> k < score)
    {
      var drawn := [];
      for i := 0 to currQuestionIndex
        invariant drawn == PercentageBar(score, i)
      {
        drawn := drawn + [if score > i then Correct else Wrong];
      }
      percentageBar := percentageBar + drawn;
      assert percentageBar[|old(percentageBar)|..] == drawn;
      PercentageBarLength(score, currQuestionIndex);
      forall k | 0 <= k < |drawn|
        ensures drawn[k] == Correct <==> k < score
      {
        PercentageBarAt(score, currQuestionIndex, k);
      }
    }

    /**
      At the end, the bar shows exactly statScore correct blocks and the rest
      wrong, and as many of each as the answers actually given.
     */
    lemma EndedBarMatchesStats()
      requires Valid() && phase == Ended
      ensures |percentageBar| == statAnswered
      ensures multiset(percentageBar)[Correct] == statScore
      ensures multiset(percentageBar)[Wrong] == statAnswered - statScore
      ensures multiset(percentageBar) == multiset(Blocks(outcomes))
    {
      PercentageBarLength(score, currQuestionIndex);
      PercentageBarCounts(score, currQuestionIndex);
      BarMatchesOutcomes(outcomes);
    }
  }
}
