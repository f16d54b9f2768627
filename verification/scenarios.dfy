/**
 * Rounds drawn from small pools taken from the built-in vocabularies
 * (entries in Spanish, English, French and German).
 */
module Scenarios {
  import opened Wrappers
  import opened Meanings
  import opened Questions
  import opened Games

  /** An entry built the way the vocabulary loaders build one: four insertions in a fixed order. */
  function Entry(es: string, en: string, fr: string, de: string): (m: Meaning)
    ensures m.GetTranslation("es") == Some(es)
    ensures m.GetTranslation("en") == Some(en)
    ensures m.GetTranslation("fr") == Some(fr)
    ensures m.GetTranslation("de") == Some(de)
  {
    Meaning.Empty().AddTranslation("es", es).AddTranslation("en", en)
      .AddTranslation("fr", fr).AddTranslation("de", de)
  }

  function Onion(): (m: Meaning)
    ensures m.GetTranslation("es") == Some("La cebolla")
  {
    Entry("La cebolla", "The onion", "L’oignon", "Die Zwiebel")
  }

  function Cucumber(): (m: Meaning)
    ensures m.GetTranslation("es") == Some("El pepino")
  {
    Entry("El pepino", "The cucumber", "Le concombre", "Die Gurke")
  }

  /** The onion and the cucumber are different entries. */
  lemma OnionIsNotCucumber()
    ensures Onion() != Cucumber()
  {
    assert Onion().GetTranslation("es") != Cucumber().GetTranslation("es");
  }

  /**
   * In a pool holding `a` once and `b` twice, with `a` as the answer both
   * copies of `b` are distractors: a round of three choices offers the same
   * entry twice. With the onion and the cucumber this happens in the food
   * vocabulary.
   */
  lemma DuplicateEntryOfferedTwice(q: Question, a: Meaning, b: Meaning, lang: string)
    requires a != b
    requires ValidQuestion(q, [a, b, b], lang, 3) && q.correct == a
    ensures multiset(q.choices) == multiset{a, b, b}
  {
    assert Others([b], a) == [b];
    assert Others([b, b], a) == [b, b] by { assert [b, b][1..] == [b]; }
    assert Others([a, b, b], a) == [b, b] by { assert [a, b, b][1..] == [b, b]; }
    WholePoolOffered(q, [a, b, b], lang, 3);
  }

  /**
   * In the same pool, with `b` as the answer its duplicate is filtered out
   * with it: a round asked for three choices has only two, although the pool
   * has three entries.
   */
  lemma DuplicateOfAnswerShortensRound(q: Question, a: Meaning, b: Meaning, lang: string)
    requires a != b
    requires ValidQuestion(q, [a, b, b], lang, 3) && q.correct == b
    ensures |q.choices| == 2
    ensures multiset(q.choices) == multiset{a, b}
  {
    assert Others([b], b) == [];
    assert Others([b, b], b) == [] by { assert [b, b][1..] == [b]; }
    assert Others([a, b, b], b) == [a] by { assert [a, b, b][1..] == [b, b]; }
    WholePoolOffered(q, [a, b, b], lang, 3);
  }

  /**
   * The food vocabulary lists the cucumber twice. In a pool holding the onion
   * once and both cucumber entries, a three-slot round whose answer is the
   * onion offers the cucumber in two slots.
   */
  lemma CucumberOfferedTwice(q: Question, lang: string)
    requires ValidQuestion(q, [Onion(), Cucumber(), Cucumber()], lang, 3) && q.correct == Onion()
    ensures multiset(q.choices)[Cucumber()] == 2
  {
    OnionIsNotCucumber();
    DuplicateEntryOfferedTwice(q, Onion(), Cucumber(), lang);
  }

  function Dog(): (m: Meaning)
    ensures m.GetTranslation("es") == Some("El perro") && m.GetTranslation("en") == Some("The dog")
  {
    Entry("El perro", "The dog", "Le chien", "Der Hund")
  }

  function Cat(): (m: Meaning)
    ensures m.GetTranslation("es") == Some("El gato") && m.GetTranslation("en") == Some("The cat")
  {
    Entry("El gato", "The cat", "Le chat", "Die Katze")
  }

  function Pig(): (m: Meaning)
    ensures m.GetTranslation("es") == Some("El cerdo") && m.GetTranslation("en") == Some("The pig")
  {
    Entry("El cerdo", "The pig", "Le cochon", "Das Schwein")
  }

  function Animals(): (r: seq<Meaning>)
    ensures |r| == 3 && r[0] == Dog() && r[1] == Cat() && r[2] == Pig()
  {
    [Dog(), Cat(), Pig()]
  }

  /** The Spanish word and its English meaning, for each of the three animals. */
  const AnimalPairs: set<(string, string)> :=
    {("El perro", "The dog"), ("El gato", "The cat"), ("El cerdo", "The pig")}

  /**
   * The three animals are different entries, and the Spanish text of one
   * animal pairs with the English text of another exactly when they are the same animal.
   */
  lemma AnimalsDistinct(x: Meaning, y: Meaning)
    requires x in Animals() && y in Animals()
    ensures forall m :: multiset(Animals())[m] <= 1
    ensures x == y <==> (x.GetTranslation("es").GetOr(Unknown), y.GetTranslation("en").GetOr(Unknown)) in AnimalPairs
  {
    assert Dog().GetTranslation("es") != Cat().GetTranslation("es");
    assert Dog().GetTranslation("es") != Pig().GetTranslation("es");
    assert Cat().GetTranslation("es") != Pig().GetTranslation("es");
  }

  /**
   * One session as the window plays it: a fresh game, one round, the slot the
   * user clicks checked. Over a pool that holds no entry twice and has at
   * least as many entries as slots, every slot can be clicked, the answer is
   * right exactly when the slot holds the round's entry, and exactly one of
   * the two scores becomes one.
   */
  method PlayOneRound(vocab: seq<Meaning>, sourceLang: string, targetLang: string, numChoices: nat,
                      pick: Random.Source, othersOrder: Random.Source, choicesOrder: Random.Source,
                      questionOrder: Random.Source, clicked: nat)
    returns (q: Question, right: bool, scoreCorrect: nat, scoreWrong: nat)
    requires 1 <= numChoices <= |vocab|
    requires forall m :: multiset(vocab)[m] <= 1
    requires clicked < numChoices
    ensures ValidQuestion(q, vocab, targetLang, numChoices) && |q.choices| == numChoices
    ensures numChoices == |vocab| ==> multiset(q.choices) == multiset(vocab)
    ensures right <==> q.choices[clicked] == q.correct
    ensures right ==> scoreCorrect == 1 && scoreWrong == 0
    ensures !right ==> scoreCorrect == 0 && scoreWrong == 1
  {
    var g := new Game(vocab, sourceLang, targetLang, numChoices);
    g.NextQuestion(pick, othersOrder, choicesOrder, questionOrder);
    q := g.current.value;
    DistinctPoolFillsSlots(q, vocab, targetLang, numChoices);
    right := g.CheckAnswer(clicked);
    scoreCorrect, scoreWrong := g.scoreCorrect, g.scoreWrong;
  }

  /** The English label the window puts on a slot holding `m`. */
  function EnglishLabel(m: Meaning): (r: string)
    ensures m.GetTranslation("en").Some? ==> r == m.GetTranslation("en").value
  {
    m.GetTranslation("en").GetOr(Unknown)
  }

  /**
   * In a round offering the three animals, exactly one slot carries the
   * English label that translates the word shown: the slot holding the answer.
   */
  lemma OneMatchingLabel(q: Question)
    requires q.correct in Animals() && multiset(q.choices) == multiset(Animals())
    ensures forall i :: 0 <= i < |q.choices| ==>
      ((q.correct.GetTranslation("es").GetOr(Unknown), EnglishLabel(q.choices[i])) in AnimalPairs <==> q.choices[i] == q.correct)
    ensures exists i :: 0 <= i < |q.choices| && (q.correct.GetTranslation("es").GetOr(Unknown), EnglishLabel(q.choices[i])) in AnimalPairs
    ensures forall i, j ::
      (0 <= i < |q.choices| && 0 <= j < |q.choices|
       && (q.correct.GetTranslation("es").GetOr(Unknown), EnglishLabel(q.choices[i])) in AnimalPairs
       && (q.correct.GetTranslation("es").GetOr(Unknown), EnglishLabel(q.choices[j])) in AnimalPairs)
      ==> i == j
  {
    forall i | 0 <= i < |q.choices|
      ensures (q.correct.GetTranslation("es").GetOr(Unknown), EnglishLabel(q.choices[i])) in AnimalPairs <==> q.choices[i] == q.correct
    {
      assert q.choices[i] in multiset(Animals());
      AnimalsDistinct(q.correct, q.choices[i]);
    }
    AnimalsDistinct(q.correct, q.correct);
    assert multiset(Animals())[q.correct] == 1;
    ExactlyOneCorrectSlot(q.choices, q.correct);
  }

  /**
   * The three-animal session: English choices for a Spanish word, three
   * slots. The round offers all three animals in some order, the word shown
   * is one of them, exactly one slot's English label translates it, and the
   * click is right exactly when the clicked slot's label translates it.
   */
  method AnimalRound(pick: Random.Source, othersOrder: Random.Source, choicesOrder: Random.Source,
                     questionOrder: Random.Source, clicked: nat)
    returns (q: Question, word: string, caption: string, right: bool, scoreCorrect: nat, scoreWrong: nat)
    requires clicked < 3
    ensures |q.choices| == 3 && multiset(q.choices) == multiset(Animals())
    ensures word == q.presentedWord && word in {"El perro", "El gato", "El cerdo"}
    ensures caption == EnglishLabel(q.choices[clicked])
    ensures exists i :: 0 <= i < 3 && (word, EnglishLabel(q.choices[i])) in AnimalPairs
    ensures forall i, j ::
      (0 <= i < 3 && 0 <= j < 3
       && (word, EnglishLabel(q.choices[i])) in AnimalPairs && (word, EnglishLabel(q.choices[j])) in AnimalPairs)
      ==> i == j
    ensures right <==> (word, caption) in AnimalPairs
    ensures right ==> scoreCorrect == 1 && scoreWrong == 0
    ensures !right ==> scoreCorrect == 0 && scoreWrong == 1
  {
    AnimalsDistinct(Dog(), Dog());
    q, right, scoreCorrect, scoreWrong :=
      PlayOneRound(Animals(), "en", "es", 3, pick, othersOrder, choicesOrder, questionOrder, clicked);
    OneMatchingLabel(q);
    word := q.presentedWord;
    caption := EnglishLabel(q.choices[clicked]);
  }
}
