/**
 * Question records and the options presented for them: `loadQuestion` tags
 * every option with whether it is the correct one and then shuffles the
 * tagged list; `findCorrectAnswer` reads the correct text back from the record;
 * `selectOption` highlights the first presented option whose text is that text.
 */
module Questions {
  import opened Wrappers
  import opened Shuffle

  /** A record of the question bank: its prompt, its options and the index of the right one. */
  datatype Question = Question(prompt: string, options: seq<string>, correct: int)

  /** An option as presented: its text and whether it is the right answer. */
  datatype Tagged = Tagged(text: string, isCorrect: bool)

  /** The bank's content satisfies this: `correct` indexes one of the options. */
  predicate WellFormed(q: Question) {
    0 <= q.correct < |q.options|
  }

  /** The texts of a presented list, in order. */
  function Texts(opts: seq<Tagged>): seq<string> {
    seq(|opts|, k requires 0 <= k < |opts| => opts[k].text)
  }

  /** The positions of a presented list that carry the correct flag. */
  function CorrectIndices(opts: seq<Tagged>): set<int> {
    set k | 0 <= k < |opts| && opts[k].isCorrect
  }

  /** The `map` of `loadQuestion` that pairs each option with `idx === q.correct`. */
  function Tag(q: Question): (r: seq<Tagged>)
    ensures Texts(r) == q.options
    ensures CorrectIndices(r) == if WellFormed(q) then {q.correct} else {}
  {
    var r := seq(|q.options|, k requires 0 <= k < |q.options| => Tagged(q.options[k], k == q.correct));
    assert Texts(r) == q.options;
    r
  }

  /**
   * `findCorrectAnswer`: the text at `q.correct`. Out of range the code reads
   * `undefined`, modelled as `None`. The answer agrees with the tagging.
   */
  function FindCorrectAnswer(q: Question): (r: Option<string>)
    ensures r.Some? <==> WellFormed(q)
    ensures r.Some? ==> Tagged(r.value, true) in Tag(q)
    ensures r.None? ==> forall e :: e in Tag(q) ==> !e.isCorrect
  {
    if 0 <= q.correct < |q.options| then
      var t := Tag(q);
      assert t[q.correct] == Tagged(q.options[q.correct], true);
      Some(q.options[q.correct])
    else
      var t := Tag(q);
      assert forall k :: 0 <= k < |t| ==> k !in CorrectIndices(t);
      None
  }

  /**
   * `Array.from(options).find(o => o.textContent === text)`: the first presented
   * option with the given text, if any; `undefined` text matches nothing.
   */
  function FindByText(opts: seq<Tagged>, text: Option<string>): (r: Option<nat>)
    ensures r.Some? ==> r.value < |opts| && Some(opts[r.value].text) == text
    ensures r.Some? ==> forall m :: 0 <= m < r.value ==> Some(opts[m].text) != text
    ensures r.None? ==> forall m :: 0 <= m < |opts| ==> Some(opts[m].text) != text
  {
    if |opts| == 0 then None
    else if Some(opts[0].text) == text then Some(0)
    else
      match FindByText(opts[1..], text)
      case None => None
      case Some(k) => Some(k + 1)
  }

  /** Two different positions holding `x` give `x` a multiplicity of at least two. */
  lemma TwiceMeansTwo<T>(s: seq<T>, k: nat, m: nat, x: T)
    requires k < m < |s| && s[k] == x && s[m] == x
    ensures multiset(s)[x] >= 2
  {
    assert s == s[..k] + [s[k]] + s[k + 1..m] + [s[m]] + s[m + 1..];
  }

  /** In the tagged list the correct entry occurs exactly once, and nothing else is flagged. */
  lemma TagCorrectOnce(q: Question)
    requires WellFormed(q)
    ensures multiset(Tag(q))[Tagged(q.options[q.correct], true)] == 1
    ensures forall e :: e in Tag(q) && e.isCorrect ==> e == Tagged(q.options[q.correct], true)
  {
    var t, c, x := Tag(q), q.correct, Tagged(q.options[q.correct], true);
    assert t == t[..c] + [x] + t[c + 1..];
    assert forall k :: 0 <= k < |t| && k != c ==> k !in CorrectIndices(t);
    assert x !in t[..c] && x !in t[c + 1..];
  }

  /**
   * Any rearrangement of the tagged options (in particular the shuffled one)
   * flags exactly one position, and the text there is the record's correct text.
   */
  lemma {:induction false} PresentedOneCorrect(q: Question, opts: seq<Tagged>)
    requires WellFormed(q) && multiset(opts) == multiset(Tag(q))
    ensures |CorrectIndices(opts)| == 1
    ensures forall k :: k in CorrectIndices(opts) ==> Some(opts[k].text) == FindCorrectAnswer(q)
  {
    var x := Tagged(q.options[q.correct], true);
    TagCorrectOnce(q);
    forall k | k in CorrectIndices(opts) ensures opts[k] == x {
      assert opts[k] in multiset(Tag(q));
    }
    assert x in multiset(opts);
    var k :| 0 <= k < |opts| && opts[k] == x;
    forall m | m in CorrectIndices(opts) ensures m == k {
      if m < k {
        TwiceMeansTwo(opts, m, k, x);
      } else if k < m {
        TwiceMeansTwo(opts, k, m, x);
      }
    }
    assert CorrectIndices(opts) == {k};
  }

  /** The shuffle of `loadQuestion` presents exactly one correct option, with the correct text. */
  lemma ShuffledOneCorrect(q: Question, js: seq<int>)
    requires WellFormed(q) && ValidChoices(js, |q.options|)
    ensures Texts(Tag(q)) == q.options
    ensures |CorrectIndices(FisherYates(Tag(q), js))| == 1
    ensures forall k :: k in CorrectIndices(FisherYates(Tag(q), js)) ==>
              Some(FisherYates(Tag(q), js)[k].text) == FindCorrectAnswer(q)
  {
    FisherYatesPermutes(Tag(q), js);
    PresentedOneCorrect(q, FisherYates(Tag(q), js));
  }

  /**
   * The highlight search of `selectOption` always finds a button when the
   * presented list is a rearrangement of the tagged options; when the record's
   * options are pairwise distinct, the button it finds is the flagged one.
   */
  lemma {:induction false} HighlightFindsCorrect(q: Question, opts: seq<Tagged>)
    requires WellFormed(q) && multiset(opts) == multiset(Tag(q))
    ensures FindByText(opts, FindCorrectAnswer(q)).Some?
    ensures (forall a, b :: 0 <= a < b < |q.options| ==> q.options[a] != q.options[b]) ==>
              FindByText(opts, FindCorrectAnswer(q)).value in CorrectIndices(opts)
  {
    PresentedOneCorrect(q, opts);
    var k :| k in CorrectIndices(opts);
    assert Some(opts[k].text) == FindCorrectAnswer(q);
    var h := FindByText(opts, FindCorrectAnswer(q));
    assert h.Some?;
    if forall a, b :: 0 <= a < b < |q.options| ==> q.options[a] != q.options[b] {
      var t := Tag(q);
      assert opts[h.value] in multiset(t);
      var m :| 0 <= m < |t| && t[m] == opts[h.value];
      assert Texts(t)[m] == q.options[m];
      assert m == q.correct;
    }
  }
}
