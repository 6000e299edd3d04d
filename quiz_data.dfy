/**
  The question bank of the quiz: multiple-choice questions whose answers keep
  the order in which they were authored.
 */
module QuizData {
  import opened Stats

  /** One candidate answer; `correct` marks the right one. */
  datatype Answer = Answer(text: string, correct: bool)

  /** A prompt and its answers, in the order they are shown. */
  datatype Question = Question(question: string, answers: seq<Answer>)

  /** The number of answers flagged correct. */
  function CorrectCount(answers: seq<Answer>): (n: nat)
    ensures n <= |answers|
    ensures n == 0 <==> forall k :: 0 <= k < |answers| ==> !answers[k].correct
  {
    if answers == [] then 0
    else (if answers[0].correct then 1 else 0) + CorrectCount(answers[1..])
  }

  /** The correct marks of the answers, in order. */
  function Marks(answers: seq<Answer>): (marks: seq<bool>)
    ensures |marks| == |answers|
    ensures forall k :: 0 <= k < |marks| ==> marks[k] == answers[k].correct
  {
    seq(|answers|, k requires 0 <= k < |answers| => answers[k].correct)
  }

  /** Counting correct answers is counting true marks, the count the score keeps. */
  lemma {:induction false} CorrectCountIsCountTrue(answers: seq<Answer>)
    ensures CorrectCount(answers) == CountTrue(Marks(answers))
  {
    CountTrueIsMultiplicity(Marks(answers));
    if answers != [] {
      CorrectCountIsCountTrue(answers[1..]);
      CountTrueIsMultiplicity(Marks(answers[1..]));
      assert Marks(answers) == [answers[0].correct] + Marks(answers[1..]);
    }
  }

  /** A question as the bank authors them: two or more answers, exactly one correct. */
  predicate WellFormed(q: Question) {
    |q.answers| >= 2 && CorrectCount(q.answers) == 1
  }

  /** The bank the quiz ships with, in authored order. */
  function Bank(): seq<Question> {
    [ Question("what is 2 + 10?",
               [Answer("12", true), Answer("22", false), Answer("0", false), Answer("15", false)]),
      Question("What is a grown up puppy?",
               [Answer("dog", true), Answer("cat", false), Answer("turtle", false), Answer("duck", false)]),
      Question("What is a baby dog?",
               [Answer("puppy", true), Answer("guppy", false), Answer("cat", false), Answer("kitten", false)]),
      Question("What was the color of the start button?",
               [Answer("yellow", false), Answer("red", false), Answer("blue", true)]),
      Question("How much wood could a woodchuck chuck?",
               [Answer("if a woodchuck could chuck wood", true), Answer("wrong", false),
                Answer("no", false), Answer("don't pick me", false)])
    ]
  }

  /** The shipped bank has five questions and every one of them is well formed. */
  lemma BankIsWellFormed()
    ensures |Bank()| == 5
    ensures forall q :: q in Bank() ==> WellFormed(q)
  {
  }
}
