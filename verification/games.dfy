/**
 * The quiz session: a vocabulary pool, the language pair, the number of
 * choices per round, the running score and the current round.
 */
module Games {
  import opened Wrappers
  import opened Meanings
  import opened Random
  import opened Questions

  /** Shown instead of the presented word when the correct entry has no text in the target language. */
  const Unknown: string := "???"

  /**
   * The distractor pool: the entries of `vocab`, in order, that are not equal
   * to `correct`. Equality is by value, so every copy of `correct` is dropped,
   * and every other entry is kept as often as it occurs.
   */
  function Others(vocab: seq<Meaning>, correct: Meaning): (r: seq<Meaning>)
    ensures forall m :: multiset(r)[m] == if m == correct then 0 else multiset(vocab)[m]
    ensures |r| <= |vocab|
  {
    if vocab == [] then []
    else
      assert vocab == [vocab[0]] + vocab[1..];
      (if vocab[0] == correct then [] else [vocab[0]]) + Others(vocab[1..], correct)
  }

  function Min(a: nat, b: nat): (r: nat)
    ensures r <= a && r <= b && (r == a || r == b)
  {
    if a <= b then a else b
  }

  /**
   * What a round drawn from `vocab` for `targetLang` with `numChoices` slots
   * looks like: the correct entry comes from the pool and is offered exactly
   * once, the other choices are drawn without replacement from the distractor
   * pool, there are as many as the slots allow or the pool supplies, and the
   * presented word is the correct entry's text in the target language.
   */
  ghost predicate ValidQuestion(q: Question, vocab: seq<Meaning>, targetLang: string, numChoices: nat)
  {
    && numChoices >= 1
    && q.correct in vocab
    && multiset(q.choices)[q.correct] == 1
    && multiset(q.choices) - multiset{q.correct} <= multiset(Others(vocab, q.correct))
    && |q.choices| == 1 + Min(numChoices - 1, |Others(vocab, q.correct)|)
    && q.presentedWord == q.correct.GetTranslation(targetLang).GetOr(Unknown)
    && q.languageCode == targetLang
  }

  class Game {
    var vocab: seq<Meaning>
    var sourceLang: string
    var targetLang: string
    var current: Option<Question>
    var scoreCorrect: nat
    var scoreWrong: nat
    var numChoices: nat

    /** The current round, when there is one, was drawn from this game's pool by its rules. */
    ghost predicate Valid()
      reads this
    {
      current.Some? ==> ValidQuestion(current.value, vocab, targetLang, numChoices)
    }

    /** A fresh session: settings stored as given, no round yet, both scores zero. */
    constructor (vocab: seq<Meaning>, sourceLang: string, targetLang: string, numChoices: nat)
      ensures Valid()
      ensures this.vocab == vocab && this.sourceLang == sourceLang && this.targetLang == targetLang
      ensures this.numChoices == numChoices
      ensures current == None && scoreCorrect == 0 && scoreWrong == 0
    {
      this.vocab := vocab;
      this.sourceLang := sourceLang;
      this.targetLang := targetLang;
      this.current := None;
      this.scoreCorrect := 0;
      this.scoreWrong := 0;
      this.numChoices := numChoices;
    }

    /**
     * Starts a new round: draws the correct entry from the pool, shuffles the
     * distractor pool and keeps its first `numChoices - 1` entries, puts the
     * correct entry in front, shuffles the choices, and stores the round.
     * `pick`, `othersOrder`, `choicesOrder` and `questionOrder` are the random
     * draws of the entry index and of the three shuffles.
     */
    method NextQuestion(pick: Source, othersOrder: Source, choicesOrder: Source, questionOrder: Source)
      requires |vocab| > 0
      requires numChoices >= 1
      modifies this`current
      ensures Valid()
      ensures current.Some? && current.value.correct == vocab[GenIndex(pick, 0, |vocab|)]
    {
      var idx := GenIndex(pick, 0, |vocab|);
      var correct := vocab[idx];

      var numWrong := numChoices - 1;
      var others := Others(vocab, correct);
      others := Shuffle(others, othersOrder);
      ghost var shuffledOthers := others;
      others := others[..Min(numWrong, |others|)];

      var choices := [correct];
      choices := choices + others;
      choices := Shuffle(choices, choicesOrder);

      var presented := correct.GetTranslation(targetLang).GetOr(Unknown);

      AssembledChoices(vocab, correct, numWrong, shuffledOthers, choices);
      var q := NewQuestion(presented, correct, choices, targetLang, questionOrder);
      current := Some(q);
    }

    /**
     * Checks the answer in slot `choiceIndex` against the current round and
     * scores it: a match adds one to `scoreCorrect`, a miss one to
     * `scoreWrong`. Without a current round it answers false and scores nothing.
     */
    method CheckAnswer(choiceIndex: nat) returns (result: bool)
      requires current.Some? ==> choiceIndex < |current.value.choices|
      modifies this`scoreCorrect, this`scoreWrong
      ensures current.None? ==> !result
      ensures current.Some? ==> result == (current.value.choices[choiceIndex] == current.value.correct)
      ensures scoreCorrect == old(scoreCorrect) + (if current.Some? && result then 1 else 0)
      ensures scoreWrong == old(scoreWrong) + (if current.Some? && !result then 1 else 0)
      ensures old(Valid()) ==> Valid()
    {
      if current.Some? {
        var q := current.value;
        var chosen := q.choices[choiceIndex];
        result := chosen == q.correct;
        if result {
          scoreCorrect := scoreCorrect + 1;
        } else {
          scoreWrong := scoreWrong + 1;
        }
      } else {
        result := false;
      }
    }
  }

  /**
   * Every entry of the pool can be the answer: for each slot of the pool
   * there is a run of the random source whose draw picks it, and the round
   * `NextQuestion` then builds has that entry as its answer.
   */
  lemma EveryEntryDrawable(vocab: seq<Meaning>, i: nat)
    requires i < |vocab|
    ensures exists pick: Source :: GenIndex(pick, 0, |vocab|) == i
  {
    var pick: Source := (k: nat) => i;
    assert GenIndex(pick, 0, |vocab|) == i;
  }

  /**
   * The choices assembled from a shuffled distractor pool: whatever order the
   * shuffles produced, the correct entry is offered once, the rest come from
   * the distractor pool without replacement, and the count is one plus the
   * distractors kept.
   */
  lemma AssembledChoices(vocab: seq<Meaning>, correct: Meaning, numWrong: nat,
                         shuffled: seq<Meaning>, choices: seq<Meaning>)
    requires multiset(shuffled) == multiset(Others(vocab, correct))
    requires multiset(choices) == multiset([correct] + shuffled[..Min(numWrong, |shuffled|)])
    ensures multiset(choices)[correct] == 1
    ensures multiset(choices) - multiset{correct} <= multiset(Others(vocab, correct))
    ensures |choices| == 1 + Min(numWrong, |Others(vocab, correct)|)
  {
    var pool := Others(vocab, correct);
    var n := Min(numWrong, |shuffled|);
    var kept := shuffled[..n];
    PrefixSubMultiset(shuffled, n);
    assert multiset(kept) <= multiset(pool);
    assert multiset(kept)[correct] == 0 by {
      assert multiset(pool)[correct] == 0;
    }
    assert multiset([correct] + kept) == multiset{correct} + multiset(kept);
    assert multiset(choices) - multiset{correct} == multiset(kept);
    assert |choices| == |multiset(choices)| == 1 + |kept|;
    assert |shuffled| == |pool| by {
      assert |multiset(shuffled)| == |multiset(pool)|;
    }
  }

  /** The elements of a prefix are among the elements of the whole sequence. */
  lemma PrefixSubMultiset<T>(s: seq<T>, n: nat)
    requires n <= |s|
    ensures multiset(s[..n]) <= multiset(s)
  {
    assert s == s[..n] + s[n..];
    assert multiset(s) == multiset(s[..n]) + multiset(s[n..]);
  }

  /**
   * A round whose correct entry is offered once has exactly one slot holding
   * it: answering that slot is right and answering any other slot is wrong.
   */
  lemma ExactlyOneCorrectSlot(choices: seq<Meaning>, correct: Meaning)
    requires multiset(choices)[correct] == 1
    ensures exists i :: 0 <= i < |choices| && choices[i] == correct
    ensures forall i, j :: 0 <= i < |choices| && 0 <= j < |choices| && choices[i] == correct && choices[j] == correct ==> i == j
  {
    assert correct in multiset(choices);
    forall i, j | 0 <= i < j < |choices| && choices[i] == correct
      ensures choices[j] != correct
    {
      assert choices == choices[..j] + choices[j..];
      assert multiset(choices) == multiset(choices[..j]) + multiset(choices[j..]);
      assert choices[..j][i] == correct;
      assert choices[j..][0] == choices[j];
    }
  }

  /**
   * When the pool holds no entry twice, a round has as many choices as the
   * slots or the pool allow, and when the slots are at least the pool, the
   * choices are the whole pool in some order.
   */
  lemma DistinctPoolFillsSlots(q: Question, vocab: seq<Meaning>, targetLang: string, numChoices: nat)
    requires ValidQuestion(q, vocab, targetLang, numChoices)
    requires forall m :: multiset(vocab)[m] <= 1
    ensures |q.choices| == Min(numChoices, |vocab|)
    ensures numChoices >= |vocab| ==> multiset(q.choices) == multiset(vocab)
  {
    var pool := Others(vocab, q.correct);
    assert multiset(vocab)[q.correct] == 1;
    assert multiset(vocab) == multiset(pool) + multiset{q.correct};
    assert |vocab| == |multiset(vocab)| == |multiset(pool)| + 1 == |pool| + 1;
    if numChoices >= |vocab| {
      WholePoolOffered(q, vocab, targetLang, numChoices);
    }
  }

  /**
   * When the slots leave room for the whole distractor pool, a round offers
   * the correct entry and every distractor, each as often as the pool holds it.
   */
  lemma WholePoolOffered(q: Question, vocab: seq<Meaning>, targetLang: string, numChoices: nat)
    requires ValidQuestion(q, vocab, targetLang, numChoices)
    requires numChoices - 1 >= |Others(vocab, q.correct)|
    ensures multiset(q.choices) == multiset(Others(vocab, q.correct)) + multiset{q.correct}
  {
    var pool := multiset(Others(vocab, q.correct));
    var rest := multiset(q.choices) - multiset{q.correct};
    assert rest <= pool;
    assert multiset(q.choices) == rest + multiset{q.correct};
    assert |q.choices| == |pool| + 1;
    assert |rest| == |pool|;
    assert pool == (pool - rest) + rest;
    assert |pool - rest| == 0;
  }
}
