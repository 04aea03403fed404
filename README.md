# Quiz session engine, modelled in Dafny

This project models the logic of a browser quiz page (`script.js`): the
session globals and the handlers that change them, the per-question option
shuffle that keeps track of the right answer, the 30-second countdown, the
end-of-quiz percentage, feedback tier and high score, and the restart.

Layout, one module per component:

- `wrappers.dfy` (`Wrappers`): `Option`, for the places where the code yields `undefined`.
- `shuffle.dfy` (`Shuffle`): `shuffleArray` as an in-place loop over an `array`,
  proved against the pure function `FisherYates` of the draws; the draws of
  `Math.random` are an input `js` with `0 <= js[i] <= i`.
- `questions.dfy` (`Questions`): question records, the tagging `map` of
  `loadQuestion`, `findCorrectAnswer`, and the search that highlights the
  correct button after a wrong answer.
- `scoring.dfy` (`Scoring`): the percentage (an integer, `NaN` or `Infinity`), the four feedback tiers and the high-score rule of `showScore`.
- `session.dfy` (`Session`): class `QuizSession`, whose fields are the page's
  globals (`currentQuestion`, `score`, `selectedAnswer`, `totalQuestions`,
  `timeLeft`, `highScore`) plus the bank (`quizData`), the options on screen
  and a flag for a running interval. `Valid()` is the session invariant:
  `score <= currentQuestion`, `selectedAnswer` in `{-1, 0, 1}`, and while
  the clock runs the question is unanswered, has 1..30 seconds left and its
  tagged options are on screen in some order. The constructor establishes it, and
  `LoadQuestion`, `SelectOption`, `ClickOption`, `ShowScore`, `NextQuestion`,
  `Tick` and `Restart` preserve it. `StartTimer` and `ClearTimer` are the
  interval primitives these use; on their own they do not keep it.
  Called only while `currentQuestion < totalQuestions`, they keep
  `score <= currentQuestion <= totalQuestions`. Only `Restart` lowers `score`.
- `scenarios.dfy` (`Scenarios`): whole sessions driven through the handlers, and a
  restart followed by an arbitrary sequence of answers, Next clicks and seconds.

Randomness is an input throughout: the bank's random-comparator `sort` is any
permutation `order` supplied by the caller, and each load receives its
shuffle draws. The Next button's click handler is not part of this file;
`NextQuestion` is called by the caller. The page's start-up load
(`DOMContentLoaded`) is a call of `LoadQuestion` after the constructor.

Behaviour of the code that the model keeps:

- The point for a right answer is committed in `nextQuestion` (script.js:186), not in `selectOption`.
- With an empty bank the division is by zero (script.js:207). A zero score gives
  `NaN` (`NotANumber`), which fails every threshold, so the last tier is chosen.
  A positive score gives `Infinity` (`Infinite`), which passes every threshold,
  so the top tier is chosen.
- The bank is reordered by a `sort` with a random comparator (script.js:73, 236), not by Fisher-Yates.

## Model

| member | source | states |
|---|---|---|
| `Shuffle.SwapExchanges` | script.js:79 | the two cells are exchanged and every other cell is kept |
| `Shuffle.SwapPermutes` | script.js:79 | a swap keeps every element's multiplicity |
| `Shuffle.ShuffledPermutes` | script.js:76-82 | for any in-range draws the remaining loop keeps every element's multiplicity (induction on `i`) |
| `Shuffle.FisherYatesPermutes` | script.js:76-82 | the whole shuffle has the input's length and multiset |
| `Shuffle.ShuffleArray` | script.js:76-82 | the array afterwards is `FisherYates` of its old contents under the draws, and a permutation of them |
| `Questions.Tag` | script.js:125-128 | stripping the flags gives back the options in order; the flagged positions are exactly `{correct}` when `correct` is in range, none otherwise |
| `Questions.FindCorrectAnswer` | script.js:179-182 | a text exactly when `correct` is in range, and then it is the text of the entry the tagging flags; otherwise nothing is flagged |
| `Questions.FindByText` | script.js:171-172 | returns the first position whose text equals the given text, or none when no position has it; `undefined` matches nothing |
| `Questions.TagCorrectOnce` | script.js:125-128 | the flagged entry occurs exactly once in the tagged list and is the only flagged value |
| `Questions.PresentedOneCorrect` | script.js:124-130 | any rearrangement of the tagged list flags exactly one position, and its text is what `findCorrectAnswer` returns |
| `Questions.ShuffledOneCorrect` | script.js:124-130 | the shuffled list of `loadQuestion` flags exactly one position, carrying the correct text; the record's options are recovered unchanged from the tags |
| `Questions.HighlightFindsCorrect` | script.js:166-172 | on a wrong answer the search for the correct text always finds a button, and with pairwise distinct option texts it is the flagged one |
| `Scoring.Percentage` | script.js:207 | `NaN` exactly for zero questions and a zero score, `Infinity` exactly for zero questions and a positive score; otherwise the integer `p` with `p - 1/2 <= 100 * score / total < p + 1/2` (round half up) |
| `Scoring.PercentageBounds` | script.js:207 | with `score <= total` the percentage is in 0..100; full score gives 100, no point gives 0; below 200 questions, 100 only for a full score |
| `Scoring.PercentageMonotone` | script.js:207 | more points never give a lower percentage |
| `Scoring.Feedback` | script.js:208-213 | the chosen tier's threshold is met, and no better tier's threshold is met, so exactly one tier is chosen; `NaN` meets only the last and `Infinity` every one |
| `Scoring.EmptyBankFeedback` | script.js:207-213 | with no questions a zero score gets the last tier and a positive score the top tier |
| `Scoring.FeedbackMonotone` | script.js:210-213 | a higher percentage never gets a lower tier |
| `Scoring.NewHighScore` | script.js:217-220 | the high score is replaced exactly when the score is strictly greater; the result is at least both, and a tie keeps the old value |
| `Session.QuizSession.constructor` | script.js:64-73 | the globals' initial values, the stored high score, the reordered bank with `totalQuestions` its length, no interval running |
| `Session.QuizSession.StartTimer` | script.js:93-99 | a full 30-second budget and a running interval; nothing else changes |
| `Session.QuizSession.ClearTimer` | script.js:111-116 | no interval runs afterwards; nothing else changes |
| `Session.QuizSession.LoadQuestion` | script.js:119-152 | within the bank: the on-screen options are the shuffle of the tagged options and a 30-second clock runs; past the end nothing changes; the bank itself is untouched |
| `Session.QuizSession.SelectOption` | script.js:155-176 | a second answer changes nothing; a first one sets the flag to 1 or 0 and stops the clock, leaving score and index alone; a wrong one highlights the first button with the correct text, which exists for a well-formed question on screen |
| `Session.QuizSession.ClickOption` | script.js:140 | a first click sets the flag to 1 exactly when the clicked button is the flagged one; a wrong first click on a well-formed question on screen highlights a button with the correct text |
| `Session.QuizSession.ShowScore` | script.js:199-224 | the clock stops; the report carries percentage, tier and the new high score; the high score never decreases and ends at least the score |
| `Session.QuizSession.NextQuestion` | script.js:185-196 | score rises by exactly 1 when the flag was 1 and is otherwise unchanged; the index rises by exactly 1; the flag resets; the next question loads exactly when the new index is in range, else the score screen is shown |
| `Session.QuizSession.Tick` | script.js:99-108 | each tick takes one second; on the tick that reaches 0 the clock stops and the question times out through `nextQuestion` once, advancing the index without changing the score |
| `Session.QuizSession.Restart` | script.js:227-238 | index, score and flag reset, the bank is the given permutation, the high score is kept, and the first question loads |
| `Scenarios.AnswerRight` | script.js:140-196 | clicking the flagged button and then Next earns exactly one point and advances by one |
| `Scenarios.RunOutClock` | script.js:99-108 | left alone on the last question, the clock runs out and the quiz ends with the score unchanged |
| `Scenarios.RightThenTimeout` | script.js:185-213 | two questions, the first answered right and the second timed out: score 1, 50 percent, the "Not bad" tier |
| `Scenarios.AllRight` | script.js:185-220 | four questions all answered right over a stored high score of 2: 100 percent, the top tier, and 4 is stored |
| `Scenarios.RestartThenPlay` | script.js:185-196 | after `restartQuiz` and any sequence of answers (`selectOption`), Next clicks (`nextQuestion`) and seconds (the interval callback), each made only while the quiz is not over and its handler's precondition holds: `score <= currentQuestion <= totalQuestions` at the end, and the score recorded after every call never decreases |

## Left out

- Rendering: progress bar, question text, option buttons, disabling and colouring them, the timer bar, and showing or hiding containers (script.js:85-90, 95-97, 101-102, 132-145, 160-175, 201-224). These are display only.
- Real time and scheduling: `setInterval`/`clearInterval` become the flag `timerActive`, and one callback run is `Tick`. There is no concurrency.
- A second interval: the code starts a new interval without cancelling a running one (script.js:93-99). The earlier interval would keep ticking, and `clearInterval` could no longer reach it. So `LoadQuestion`, `NextQuestion` and `Restart` require that no interval runs. This holds at every call site in the code: the Next button appears only after `selectOption` has stopped the clock, the timeout path clears the interval first, and the restart button is assumed to be shown only on the score screen. script.js does not show that: it is an assumption about the page's markup. A leaked interval is not modelled.
- `Scenarios.RestartThenPlay` skips a call that is not allowed: one made after the last question, Next while the clock runs, or a second with no clock running. On the page those buttons are hidden or disabled, or no interval is scheduled. The draws each call carries must be in range for the question it loads.
- `Session.QuizSession.LoadQuestion` requires an unanswered flag: every caller in the code resets it first (script.js:66, 189, 230).
- The `if (timerInterval)` guard of `clearTimer` tells apart only "never started", which changes nothing in the model.
- `Math.random` and the comparator `sort`: draws and orders are inputs. `Shuffle.ShuffleArray` states no uniformity, only which permutation the draws produce.
- `Scoring.Percentage`: exact rational arithmetic, not IEEE division and `Math.round`. The two differ when a floating-point error lands just below a half. The smallest case is 23 of 40. In double precision `(23 / 40) * 100` is `57.49999999999999`, so the code shows 57 where the model gives 58. No total below 40 differs, so the 10-question bank never does.
- `localStorage`: the stored high score is a natural number given to the constructor, so its string form and the `|| 0` default are left out. The write is the report's `stored` flag.
- The error branch of `loadQuestion` (`try`/`catch`, `console.error`) becomes `loaded == false` with no state change.
- The feedback texts and their emoji: the four tiers are a datatype, not strings.
- The static question data (script.js:5-61): only its well-formedness, `0 <= correct < |options|`, appears, as `Questions.WellFormed`.
- `Session.QuizSession.SelectOption` past the end of the bank: the code would throw inside `findCorrectAnswer` after setting the flag. The model gives no highlight there.
