/**
 * End-of-quiz scoring of `showScore`: the rounded percentage, the feedback
 * tier picked highest-first, and the rule for replacing the high score.
 */
module Scoring {

  /**
   * The value of `Math.round((score / totalQuestions) * 100)`: a number, or,
   * when there are no questions, `NaN` (for `0 / 0`) or `Infinity` (for a
   * positive score over 0).
   */
  datatype Percent = Value(value: int) | NotANumber | Infinite

  /**
   * The percentage, taken over exact rationals: rounding half up is
   * `floor(100 * score / total + 1/2)`. With no questions the division gives
   * `NaN` for a zero score and `Infinity` otherwise.
   */
  function Percentage(score: nat, total: nat): (p: Percent)
    ensures p == NotANumber <==> total == 0 && score == 0
    ensures p == Infinite <==> total == 0 && score > 0
    ensures p.Value? ==> 2 * total * p.value <= 200 * score + total < 2 * total * (p.value + 1)
  {
    if total == 0 then
      if score == 0 then NotANumber else Infinite
    else
      var n, d := 200 * score + total, 2 * total;
      var p := n / d;
      assert n == d * p + n % d;
      Value(p)
  }

  /** The comparison `percentage >= n` of the feedback chain: `Infinity` passes, `NaN` fails. */
  predicate AtLeast(p: Percent, n: int) {
    match p
    case Value(v) => v >= n
    case Infinite => true
    case NotANumber => false
  }

  /** The four feedback messages, from "Perfect!" down to "Keep practicing". */
  datatype Tier = Master | Great | NotBad | KeepPracticing

  /** The position of a tier, best first. */
  function Rank(t: Tier): nat {
    match t
    case Master => 3
    case Great => 2
    case NotBad => 1
    case KeepPracticing => 0
  }

  /** The least percentage that earns a tier; the last tier is earned by anything, `NaN` included. */
  predicate Earns(t: Tier, p: Percent) {
    match t
    case Master => AtLeast(p, 90)
    case Great => AtLeast(p, 70)
    case NotBad => AtLeast(p, 50)
    case KeepPracticing => true
  }

  /** The `if`/`else if` chain of `showScore`, tested highest threshold first. */
  function Feedback(p: Percent): (t: Tier)
    ensures Earns(t, p)
    ensures forall u :: Rank(u) > Rank(t) ==> !Earns(u, p)
  {
    if AtLeast(p, 90) then Master
    else if AtLeast(p, 70) then Great
    else if AtLeast(p, 50) then NotBad
    else KeepPracticing
  }

  /** A higher percentage never earns a lower tier. */
  lemma FeedbackMonotone(p: int, q: int)
    requires p <= q
    ensures Rank(Feedback(Value(p))) <= Rank(Feedback(Value(q)))
  {
  }

  /** Dividing an inequality between multiples of a positive factor. */
  lemma CancelFactor(t: int, a: int, b: int)
    requires t > 0 && t * a < t * b
    ensures a < b
  {
  }

  /** With no questions: `NaN` for a zero score gets the last tier, `Infinity` for a positive one the first. */
  lemma EmptyBankFeedback(score: nat)
    ensures Feedback(Percentage(score, 0)) == if score == 0 then KeepPracticing else Master
  {
  }

  /**
   * Whenever `score <= total`, the percentage lies in 0..100; a full score gives
   * 100 and no right answer gives 0. Below 200 questions, 100 means a full score
   * (from 200 questions on, one miss can still round up to 100).
   */
  lemma PercentageBounds(score: nat, total: nat)
    requires 0 < total && score <= total
    ensures 0 <= Percentage(score, total).value <= 100
    ensures score == total ==> Percentage(score, total).value == 100
    ensures score == 0 ==> Percentage(score, total).value == 0
    ensures total < 200 ==> (Percentage(score, total).value == 100 <==> score == total)
  {
    var p := Percentage(score, total).value;
    var t := 2 * total;
    // the characterization: t * p <= 200 * score + total < t * (p + 1)
    CancelFactor(t, p, 101);
    CancelFactor(t, -1, p + 1);
    if score == total {
      CancelFactor(t, 99, p + 1);
    } else if total < 200 {
      CancelFactor(t, p, 100);
    }
    if score == 0 {
      CancelFactor(t, p, 1);
    }
  }

  /** More right answers never give a lower percentage. */
  lemma PercentageMonotone(s1: nat, s2: nat, total: nat)
    requires 0 < total && s1 <= s2
    ensures Percentage(s1, total).value <= Percentage(s2, total).value
  {
  }

  /** The high score after `showScore`: replaced only by a strictly greater score. */
  function NewHighScore(score: nat, highScore: nat): (h: nat)
    ensures h >= highScore && h >= score
    ensures h == highScore || h == score
    ensures h != highScore <==> score > highScore
  {
    if score > highScore then score else highScore
  }
}
