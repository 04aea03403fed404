/**
 * The quiz session engine: the globals of the quiz page as the fields of one
 * object, and the handlers that change them. The question bank is reordered
 * in place by a random-comparator `sort`, which is taken as any permutation
 * supplied by the caller; the per-question shuffle draws are supplied too.
 * A live `setInterval` timer is the flag `timerActive`, and one run of its
 * callback is `Tick`.
 */
module Session {
  import opened Wrappers
  import opened Shuffle
  import opened Questions
  import opened Scoring

  /** Seconds allowed per question, set by `startTimer`. */
  const TimeLimit: nat := 30

  /** What the score screen shows: score, total, percentage, tier, high score, and whether it was stored. */
  datatype Report = Report(score: nat, total: nat, percentage: Percent, tier: Tier,
                           highScore: nat, stored: bool)

  /** The score screen after a quiz with `score` right out of `total`, when the stored high score was `previous`. */
  function Summary(score: nat, total: nat, previous: nat): Report {
    var p := Percentage(score, total);
    Report(score, total, p, Feedback(p), NewHighScore(score, previous), score > previous)
  }

  class QuizSession {
    /** `quizData`, as currently ordered. */
    var bank: seq<Question>
    var currentQuestion: nat
    var score: nat
    /** -1: not answered yet; 0: answered wrong; 1: answered right. */
    var selectedAnswer: int
    var totalQuestions: nat
    var timeLeft: int
    var highScore: nat
    /** Whether a countdown interval is running. */
    var timerActive: bool
    /** The shuffled options on screen, one button each. */
    var options: seq<Tagged>

    /**
     * The session invariant: the recorded total is the bank's length, the
     * answer flag holds one of its three values, there are never more points
     * than questions passed, and while the clock runs the current question is
     * in the bank, unanswered, with a 1..30 second budget left and its
     * tagged options on screen in some order.
     */
    ghost predicate Valid()
      reads this
    {
      && totalQuestions == |bank|
      && -1 <= selectedAnswer <= 1
      && score <= currentQuestion
      && (timerActive ==>
            && selectedAnswer == -1
            && 0 < timeLeft <= TimeLimit
            && currentQuestion < |bank|
            && multiset(options) == multiset(Tag(bank[currentQuestion])))
    }

    /**
     * The script's start-up: the globals take their initial values, the stored
     * high score is read, and the bank is reordered (`order`).
     */
    constructor (quizData: seq<Question>, storedHighScore: nat, order: seq<Question>)
      requires multiset(order) == multiset(quizData)
      ensures Valid()
      ensures bank == order && totalQuestions == |quizData|
      ensures currentQuestion == 0 && score == 0 && selectedAnswer == -1
      ensures timeLeft == TimeLimit && highScore == storedHighScore
      ensures !timerActive && options == []
    {
      assert |order| == |multiset(order)| == |multiset(quizData)| == |quizData|;
      bank := order;
      currentQuestion := 0;
      score := 0;
      selectedAnswer := -1;
      totalQuestions := |quizData|;
      timeLeft := TimeLimit;
      highScore := storedHighScore;
      timerActive := false;
      options := [];
    }

    /** `startTimer`: a full budget and a running interval. */
    method StartTimer()
      modifies this`timeLeft, this`timerActive
      ensures timeLeft == TimeLimit && timerActive
    {
      timeLeft := TimeLimit;
      timerActive := true;
    }

    /** `clearTimer`: no interval runs afterwards; clearing a stopped timer changes nothing else. */
    method ClearTimer()
      modifies this`timerActive
      ensures !timerActive
    {
      timerActive := false;
    }

    /**
     * `loadQuestion`: tag and shuffle the current question's options, put them
     * on screen and start the clock. Past the end of the bank the code throws
     * and only reports an error, so nothing changes. Every caller has reset the
     * answer flag beforehand and has no interval running.
     */
    method LoadQuestion(js: seq<int>) returns (loaded: bool)
      requires Valid() && !timerActive && selectedAnswer == -1
      requires currentQuestion < |bank| ==> ValidChoices(js, |bank[currentQuestion].options|)
      modifies this`options, this`timeLeft, this`timerActive
      ensures Valid()
      ensures loaded <==> currentQuestion < |bank|
      ensures loaded ==> && options == FisherYates(Tag(bank[currentQuestion]), js)
                         && timerActive && timeLeft == TimeLimit
      ensures !loaded ==> options == old(options) && !timerActive && timeLeft == old(timeLeft)
    {
      if currentQuestion >= |bank| {
        return false;
      }
      var tagged := Tag(bank[currentQuestion]);
      var a := new Tagged[|tagged|](k requires 0 <= k < |tagged| => tagged[k]);
      assert a[..] == tagged;
      ShuffleArray(a, js);
      options := a[..];
      FisherYatesPermutes(tagged, js);
      StartTimer();
      loaded := true;
    }

    /**
     * `selectOption`: the first answer for a question is recorded and stops the
     * clock; any later one is ignored. Points are not awarded here. A wrong
     * answer also highlights the first button showing the correct text.
     */
    method SelectOption(isCorrect: bool) returns (highlight: Option<nat>)
      requires Valid()
      modifies this`selectedAnswer, this`timerActive
      ensures Valid()
      ensures old(selectedAnswer) != -1 ==>
                selectedAnswer == old(selectedAnswer) && timerActive == old(timerActive)
      ensures old(selectedAnswer) == -1 ==>
                selectedAnswer == (if isCorrect then 1 else 0) && !timerActive
      ensures highlight == if old(selectedAnswer) == -1 && !isCorrect && currentQuestion < |bank|
                           then FindByText(options, FindCorrectAnswer(bank[currentQuestion]))
                           else None
      ensures old(timerActive) && !isCorrect && WellFormed(bank[currentQuestion]) ==>
                highlight.Some? && Some(options[highlight.value].text) == FindCorrectAnswer(bank[currentQuestion])
    {
      if selectedAnswer != -1 {
        return None;
      }
      selectedAnswer := if isCorrect then 1 else 0;
      if timerActive && WellFormed(bank[currentQuestion]) {
        HighlightFindsCorrect(bank[currentQuestion], options);
      }
      ClearTimer();
      if !isCorrect && currentQuestion < |bank| {
        highlight := FindByText(options, FindCorrectAnswer(bank[currentQuestion]));
      } else {
        highlight := None;
      }
    }

    /**
     * The click handler of the `k`-th option button: it passes that option's
     * flag to `selectOption`. A first click on the flagged button is a right answer.
     */
    method ClickOption(k: nat) returns (highlight: Option<nat>)
      requires Valid() && k < |options|
      modifies this`selectedAnswer, this`timerActive
      ensures Valid()
      ensures old(selectedAnswer) != -1 ==>
                selectedAnswer == old(selectedAnswer) && timerActive == old(timerActive)
      ensures old(selectedAnswer) == -1 ==>
                (selectedAnswer == 1 <==> k in CorrectIndices(options)) && -1 < selectedAnswer && !timerActive
      ensures highlight == if old(selectedAnswer) == -1 && !options[k].isCorrect && currentQuestion < |bank|
                           then FindByText(options, FindCorrectAnswer(bank[currentQuestion]))
                           else None
      ensures old(timerActive) && !options[k].isCorrect && WellFormed(bank[currentQuestion]) ==>
                highlight.Some? && Some(options[highlight.value].text) == FindCorrectAnswer(bank[currentQuestion])
    {
      highlight := SelectOption(options[k].isCorrect);
    }

    /**
     * `showScore`: stop the clock, compute the percentage and the feedback
     * tier, and replace the high score only by a strictly greater score.
     */
    method ShowScore() returns (report: Report)
      requires Valid()
      modifies this`timerActive, this`highScore
      ensures Valid() && !timerActive
      ensures highScore == NewHighScore(score, old(highScore))
      ensures highScore >= old(highScore) && highScore >= score
      ensures report == Summary(score, totalQuestions, old(highScore))
    {
      ClearTimer();
      var p := Percentage(score, totalQuestions);
      var tier := Feedback(p);
      var stored := score > highScore;
      if stored {
        highScore := score;
      }
      report := Report(score, totalQuestions, p, tier, highScore, stored);
    }

    /**
     * `nextQuestion`: a right answer earns its point now, the index advances
     * and the answer flag resets; then the next question loads, or past the
     * last one the score screen is shown.
     */
    method NextQuestion(js: seq<int>) returns (report: Option<Report>)
      requires Valid() && !timerActive
      requires currentQuestion + 1 < |bank| ==> ValidChoices(js, |bank[currentQuestion + 1].options|)
      modifies this
      ensures Valid()
      ensures bank == old(bank) && totalQuestions == old(totalQuestions)
      ensures score == old(score) + (if old(selectedAnswer) == 1 then 1 else 0)
      ensures currentQuestion == old(currentQuestion) + 1 && selectedAnswer == -1
      ensures old(currentQuestion) < totalQuestions ==> currentQuestion <= totalQuestions
      ensures currentQuestion < totalQuestions ==>
                && report.None? && highScore == old(highScore)
                && timerActive && timeLeft == TimeLimit
                && options == FisherYates(Tag(bank[currentQuestion]), js)
      ensures currentQuestion >= totalQuestions ==>
                && report == Some(Summary(score, totalQuestions, old(highScore)))
                && highScore == NewHighScore(score, old(highScore))
                && !timerActive && timeLeft == old(timeLeft) && options == old(options)
    {
      if selectedAnswer == 1 {
        score := score + 1;
      }
      currentQuestion := currentQuestion + 1;
      selectedAnswer := -1;
      if currentQuestion < totalQuestions {
        var loaded := LoadQuestion(js);
        report := None;
      } else {
        var r := ShowScore();
        report := Some(r);
      }
    }

    /**
     * One run of the interval callback of `startTimer`: a second passes; when the
     * budget is used up the interval stops and the question times out through
     * `nextQuestion`. The clock only runs on an unanswered question, so a
     * timeout never earns a point.
     */
    method Tick(js: seq<int>) returns (report: Option<Report>)
      requires Valid() && timerActive
      requires timeLeft == 1 && currentQuestion + 1 < |bank| ==>
                 ValidChoices(js, |bank[currentQuestion + 1].options|)
      modifies this
      ensures Valid()
      ensures bank == old(bank) && totalQuestions == old(totalQuestions) && score == old(score)
      ensures old(timeLeft) > 1 ==>
                && timeLeft == old(timeLeft) - 1 && timerActive && report.None?
                && currentQuestion == old(currentQuestion) && selectedAnswer == old(selectedAnswer)
                && options == old(options) && highScore == old(highScore)
      ensures old(timeLeft) <= 1 ==>
                && currentQuestion == old(currentQuestion) + 1 && selectedAnswer == -1
                && (currentQuestion < totalQuestions ==>
                      && report.None? && highScore == old(highScore)
                      && timerActive && timeLeft == TimeLimit
                      && options == FisherYates(Tag(bank[currentQuestion]), js))
                && (currentQuestion >= totalQuestions ==>
                      && report == Some(Summary(score, totalQuestions, old(highScore)))
                      && highScore == NewHighScore(score, old(highScore))
                      && !timerActive && timeLeft == 0 && options == old(options))
    {
      timeLeft := timeLeft - 1;
      if timeLeft <= 0 {
        ClearTimer();
        report := NextQuestion(js);
      } else {
        report := None;
      }
    }

    /**
     * `restartQuiz`: counters and answer flag reset, the bank is reordered
     * again (`order`), and the first question loads. The high score stays.
     */
    method Restart(order: seq<Question>, js: seq<int>)
      requires Valid() && !timerActive
      requires multiset(order) == multiset(bank)
      requires |order| > 0 ==> ValidChoices(js, |order[0].options|)
      modifies this
      ensures Valid()
      ensures currentQuestion == 0 && score == 0 && selectedAnswer == -1
      ensures bank == order && totalQuestions == old(totalQuestions) && highScore == old(highScore)
      ensures |order| > 0 ==> && timerActive && timeLeft == TimeLimit
                              && options == FisherYates(Tag(order[0]), js)
      ensures |order| == 0 ==> !timerActive && options == old(options) && timeLeft == old(timeLeft)
    {
      assert |order| == |multiset(order)| == |multiset(bank)| == |bank|;
      currentQuestion := 0;
      score := 0;
      selectedAnswer := -1;
      bank := order;
      var loaded := LoadQuestion(js);
    }
  }
}
