# Quiz session model

A Dafny model of the browser quiz game in `index.js`: the state machine that
shuffles the question bank, asks the questions one at a time, takes exactly
one answer per question, keeps the score, and ends with a summary of score,
questions answered and a bar of green and red blocks.

The program keeps its state in three globals (`shuffledQuestions`,
`currQuestionIndex`, `score`) and in which controls it leaves visible or
enabled. The model makes that a class, `QuizGame.Session`:

- `questions` is the bank as an array. `questions.sort(...)` reorders it in
  place and returns it, so `shuffledQuestions` is this same array and every
  restart reorders the previous order again. The ghost `authored` keeps the
  bank as loaded.
- `currQuestionIndex` and `score` are the two counters. `currQuestionIndex` is
  both the index of the question on screen and the number answered so far.
- `phase` stands for the controls on offer: `Idle` (start button only),
  `Asking` (answer buttons enabled), `Answered` (buttons disabled, "next"
  shown), `Ended` (stats shown, RESTART offered).
- `questionText`, `questionNumber` (the `Q #n` label), `answerBtns` (text,
  correct mark, disabled flag), `statScore`, `statAnswered` and
  `percentageBar` are the parts of the screen the state machine fills in.
- The ghost `outcomes` records, per answered question, whether the chosen
  answer was correct.

`Session.Valid()` is the session invariant that every handler keeps:

- The array is a reordering of the authored bank.
- `score <= currQuestionIndex <= |questions|`.
- `score` is the number of true outcomes, with one outcome per answered question.
- Each phase has its screen. In `Asking`, the question at `currQuestionIndex`
  (always in range) is shown as `Q #currQuestionIndex+1` with one enabled
  button per answer in authored order. In `Answered`, the buttons are all
  disabled. In `Ended`, the stats equal the counters.

Each handler requires only that its control is on offer:

- start in `Idle` or `Ended`;
- an answer button that is enabled and whose question is on screen;
- "next" in `Answered`; `SetNextQuestion` also accepts `Asking`, because
  start ends by calling it;
- End in `Asking` or `Answered`.

The model takes the answer buttons to sit inside the question container that
`endGame` hides (index.js:225), so after End no click reaches `selectAnswer`:
`Selectable` is false in `Ended`. The page markup is not part of this model.

The randomness of the sort is a parameter. The environment supplies a
sequence of exchanges (`Shuffle.Exchange`) whose composition is the order the
sort returns, and
`Shuffle.RandomSort` applies them to the array in place. `Exchanged` keeps the
multiset, and `EveryReorderingIsExchanged` shows that every reordering can
come out. Together they say "some permutation of the bank", no more and no
less.

Notes on what the code does:

- The shuffle is a sort with a comparator that answers at random.
- No handler returns an error. A handler can only be reached through a
  control that is visible and enabled, so the guards are the controls.
- The counter advances when an answer is selected, not when "next" is pressed.
  The comment on `setNextQuestion` (index.js:119-121) says it increments the
  counter. Its code does not.
- The stats do not guard a zero denominator.
- The controls on offer give four phases.

Modules: `QuizData` (answers, questions, the shipped bank), `Shuffle` (the
in-place reordering), `Stats` (the percentage bar and counting), `QuizGame`
(the session), `Scenarios` (whole games played against the contracts).

## Model

| member | source | states |
|---|---|---|
| `QuizData.BankIsWellFormed` | index.js:338-389 | the shipped bank has five questions, each with at least two answers of which exactly one is marked correct |
| `QuizData.CorrectCountIsCountTrue` | index.js:167-169 | the number of answers marked correct is the number of true correct flags among the answers, counted the way the score is |
| `QuizGame.ButtonsCarryCorrectCount` | index.js:160-171 | the buttons shown for a question carry as many correct marks as the question has correct answers, counted the way the score is |
| `Shuffle.Exchanged` | index.js:109 | applying the sort's exchanges keeps the length and the multiset of the bank |
| `Shuffle.EveryReorderingIsExchanged` | index.js:109 | every reordering of the bank is what some in-range exchanges produce, so the model admits any permutation and only permutations |
| `Shuffle.ExchangedConcat` | index.js:109 | exchanges applied in two batches give the same order as applied at once, so repeated restarts compose |
| `Shuffle.RandomSort` | index.js:109 | the array is rearranged in place into exactly the order the supplied exchanges give, and keeps its multiset |
| `Stats.PercentageBarLength` | index.js:262 | the bar has one block per answered question |
| `Stats.PercentageBarAt` | index.js:262-272 | block k of the bar is correct exactly when k is below the score |
| `Stats.PercentageBarSplits` | index.js:262-272 | with score at most answered, the bar is score correct blocks followed by answered minus score wrong blocks |
| `Stats.PercentageBarCounts` | index.js:262-272 | the bar holds exactly score correct blocks and answered minus score wrong ones |
| `Stats.BarMatchesOutcomes` | index.js:255-273 | the bar drawn from the two counters has the same number of green and red blocks as the answers actually given |
| `Stats.BarIsNotInAnswerOrder` | index.js:255-273 | the bar does not follow answer order: a wrong answer followed by a right one is drawn `[Correct, Wrong]`, while the answers were `[Wrong, Correct]` |
| `QuizGame.Session.constructor` | index.js:56 | the page as loaded holds the authored bank, zero counters and the Idle phase, and satisfies the session invariant |
| `QuizGame.Session.StartGame` | index.js:104-115 | start or restart reorders the bank in place into a permutation of the authored bank, sets the index and score to 0 and asks the first question of the new order as `Q #1` |
| `QuizGame.Session.SetNextQuestion` | index.js:123-126 | "next" asks the question at the current index, labels it index plus 1, and changes neither counter |
| `QuizGame.Session.ResetState` | index.js:134-146 | the answer buttons and the bar's blocks are removed and "next" is hidden |
| `QuizGame.Session.ShowQuestion` | index.js:156-173 | the question text is shown with one enabled button per answer, in authored order, each carrying its answer's text and correct mark |
| `QuizGame.Session.SelectAnswer` | index.js:184-215 | the index rises by exactly 1. The score rises by 1 exactly when the chosen answer is marked correct. The session then waits for "next" while questions remain and ends otherwise. Every answer button is disabled, so no second selection is possible, and the invariant is kept |
| `QuizGame.Session.EndGame` | index.js:223-238 | ending, early or after the last answer, leaves both counters and the buttons untouched, shows stats equal to them and draws the bar |
| `QuizGame.Session.DisplayStats` | index.js:245-251 | the stats report the score and the current index as the number answered |
| `QuizGame.Session.CreatePercentageBar` | index.js:260-273 | the bar gains one block per answered question, block k correct exactly when k is below the score |
| `QuizGame.Session.EndedBarMatchesStats` | index.js:245-273 | at the end the bar has as many blocks as questions answered, score of them correct, and as many correct and wrong as the answers given |
| `Scenarios.PlayPerfectGame` | index.js:184-205 | a player who always clicks a correctly marked answer is asked exactly the bank's questions, each once, in some order. The game ends by itself with score and answered both equal to the bank size and an all-correct bar |
| `Scenarios.PlayShippedBank` | index.js:338-389 | the shipped bank played perfectly asks its five questions once each and ends five correct out of five |
| `Scenarios.EndAtOnce` | index.js:223-249 | pressing End straight after the start reports score 0, 0 answered and an empty bar |

## Left out

- QuizGame.Session.DisplayStats: does not model the percentage text (index.js:249). It is floating-point formatting that rounds before multiplying by 100. It also divides by zero when End is pressed before any answer; `Scenarios.EndAtOnce` shows the counters that case reaches.
- Shuffle.RandomSort: says nothing about how likely each order is. The comparator answers `Math.random() - 0.5`, which is not a uniform shuffle, and the engine's sort algorithm is not part of this model.
- QuizGame.Session.constructor: requires a non-empty bank. The shipped bank is a fixed literal with five questions. With an empty one, `showQuestion` would fail on an undefined question.
- Before the first start, the program's counters are undefined. The model holds them at 0 in `Idle`.
- Keyboard shortcuts (`checkEnterKeyForNext`, `checkEnterKeyForStart`, index.js:291-306) and the listener wiring (index.js:46-53) are not modelled. They call the same handlers as the buttons. One consequence is left out with them: the Enter listener for "next" stays attached when End is pressed while "next" is shown.
- The instructions dialog (`toggleInstructions`, `closeInstructions`, `showInstructions`, index.js:61-95) is not modelled. It touches no session state.
- Colouring is not modelled: `setStatusClass`/`clearStatus` (index.js:315-332) and the `selected` class.
- Showing and hiding of elements is represented only through `phase`.
- `displayScore` (index.js:280-283) is not modelled. This includes its call after `endGame`, which shows the running score again.
- `console.log` calls are not modelled.
- The button's `dataset.correct` is a string that is present or absent. It is modelled as a boolean equal to the answer's `correct` flag. The bank uses only booleans there.
