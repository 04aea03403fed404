/**
 * Whole sessions driven through the engine's handlers, as a player would:
 * clicks on option buttons, the Next button, and seconds passing.
 */
module Scenarios {
  import opened Wrappers
  import opened Shuffle
  import opened Questions
  import opened Scoring
  import opened Session

  /**
   * Two questions: the right button is clicked on the first, the second is
   * left to time out. One point of two is 50 percent, the "Not bad" tier.
   */
  method RightThenTimeout(q1: Question, q2: Question, js1: seq<int>, js2: seq<int>)
    returns (report: Report)
    requires WellFormed(q1)
    requires ValidChoices(js1, |q1.options|) && ValidChoices(js2, |q2.options|)
    ensures report.score == 1 && report.total == 2
    ensures report.percentage == Value(50) && report.tier == NotBad
  {
    var s := new QuizSession([q1, q2], 0, [q1, q2]);
    var loaded := s.LoadQuestion(js1);
    var out := AnswerRight(s, js2);
    out := RunOutClock(s);
    assert out == Some(Summary(1, 2, 0));
    report := out.value;
    assert Percentage(1, 2) == Value(50);
  }

  /**
   * Seconds pass on the last question until it times out; the quiz then ends
   * with the score it had, and no point is added.
   */
  method RunOutClock(s: QuizSession) returns (out: Option<Report>)
    requires s.Valid() && s.timerActive && s.currentQuestion + 1 >= s.totalQuestions
    modifies s
    ensures s.Valid() && !s.timerActive && s.score == old(s.score)
    ensures s.totalQuestions == old(s.totalQuestions)
    ensures out == Some(Summary(old(s.score), s.totalQuestions, old(s.highScore)))
  {
    out := None;
    while s.timerActive
      invariant s.Valid() && s.score == old(s.score) && s.totalQuestions == old(s.totalQuestions)
      invariant s.timerActive ==> s.currentQuestion == old(s.currentQuestion) && s.highScore == old(s.highScore)
      invariant !s.timerActive ==> out == Some(Summary(old(s.score), s.totalQuestions, old(s.highScore)))
      decreases s.timerActive, s.timeLeft
    {
      out := s.Tick([]);
    }
  }

  /**
   * One round on the running question: click the flagged button, then Next.
   * The point is earned and the session moves on by one question.
   */
  method AnswerRight(s: QuizSession, next: seq<int>) returns (out: Option<Report>)
    requires s.Valid() && s.timerActive && WellFormed(s.bank[s.currentQuestion])
    requires s.currentQuestion + 1 < |s.bank| ==> ValidChoices(next, |s.bank[s.currentQuestion + 1].options|)
    modifies s
    ensures s.Valid() && s.bank == old(s.bank) && s.totalQuestions == old(s.totalQuestions)
    ensures s.score == old(s.score) + 1 && s.currentQuestion == old(s.currentQuestion) + 1
    ensures s.selectedAnswer == -1
    ensures s.currentQuestion < s.totalQuestions ==> out.None? && s.timerActive && s.highScore == old(s.highScore)
    ensures s.currentQuestion >= s.totalQuestions ==>
              out == Some(Summary(s.score, s.totalQuestions, old(s.highScore)))
  {
    PresentedOneCorrect(s.bank[s.currentQuestion], s.options);
    var c :| c in CorrectIndices(s.options);
    var highlight := s.ClickOption(c);
    out := s.NextQuestion(next);
  }

  /**
   * Four questions, each answered with the right button and then Next, over a
   * stored high score of 2: 100 percent, the top tier, and 4 is stored.
   */
  method AllRight(qs: seq<Question>, jss: seq<seq<int>>) returns (report: Report)
    requires |qs| == 4 && |jss| == 4
    requires forall k :: 0 <= k < 4 ==> WellFormed(qs[k]) && ValidChoices(jss[k], |qs[k].options|)
    ensures report.score == 4 && report.percentage == Value(100) && report.tier == Master
    ensures report.stored && report.highScore == 4
  {
    var s := new QuizSession(qs, 2, qs);
    var loaded := s.LoadQuestion(jss[0]);
    var out: Option<Report> := None;
    var k := 0;
    while k < 4
      invariant 0 <= k <= 4
      invariant s.Valid() && s.bank == qs && s.totalQuestions == 4
      invariant s.currentQuestion == k && s.score == k
      invariant k < 4 ==> s.timerActive && s.highScore == 2
      invariant k == 4 ==> out == Some(Summary(4, 4, 2))
    {
      var next := if k < 3 then jss[k + 1] else [];
      out := AnswerRight(s, next);
      k := k + 1;
    }
    assert Percentage(4, 4) == Value(100);
    report := out.value;
  }

  /** One call a page can make into the engine: an answer, the Next button, or a second passing. */
  datatype Call = Select(isCorrect: bool) | Next(draws: seq<int>) | Second(draws: seq<int>)

  /** Whether `c` may be made now: the quiz is not over and the handler's precondition holds. */
  predicate Allowed(s: QuizSession, c: Call)
    reads s
  {
    && s.currentQuestion < s.totalQuestions
    && match c
       case Select(_) => true
       case Next(js) =>
         !s.timerActive &&
         (s.currentQuestion + 1 < |s.bank| ==> ValidChoices(js, |s.bank[s.currentQuestion + 1].options|))
       case Second(js) =>
         s.timerActive &&
         (s.timeLeft == 1 && s.currentQuestion + 1 < |s.bank| ==>
            ValidChoices(js, |s.bank[s.currentQuestion + 1].options|))
  }

  /**
   * A restart followed by any sequence of calls, each made only when allowed
   * (a call that is not allowed is skipped). Throughout, the score never
   * exceeds the index, the index never exceeds the total, and the score
   * (recorded after the restart and after every call) never goes down.
   */
  method RestartThenPlay(s: QuizSession, order: seq<Question>, js: seq<int>, calls: seq<Call>)
    returns (scores: seq<nat>)
    requires s.Valid() && !s.timerActive && multiset(order) == multiset(s.bank)
    requires |order| > 0 ==> ValidChoices(js, |order[0].options|)
    modifies s
    ensures s.Valid() && s.score <= s.currentQuestion <= s.totalQuestions
    ensures |scores| == |calls| + 1 && scores[0] == 0 && scores[|calls|] == s.score
    ensures forall i, j :: 0 <= i <= j < |scores| ==> scores[i] <= scores[j]
  {
    s.Restart(order, js);
    scores := [s.score];
    var k := 0;
    while k < |calls|
      invariant 0 <= k <= |calls|
      invariant s.Valid() && s.score <= s.currentQuestion <= s.totalQuestions
      invariant |scores| == k + 1 && scores[0] == 0 && scores[k] == s.score
      invariant forall i, j :: 0 <= i <= j <= k ==> scores[i] <= scores[j]
    {
      if Allowed(s, calls[k]) {
        match calls[k]
        case Select(b) =>
          var highlight := s.SelectOption(b);
        case Next(next) =>
          var report := s.NextQuestion(next);
        case Second(next) =>
          var report := s.Tick(next);
      }
      scores := scores + [s.score];
      k := k + 1;
    }
  }
}
