/** One quiz round: the word shown, the entry that must be picked, and the choices offered. */
module Questions {
  import opened Meanings
  import opened Random

  /**
   * `presentedWord` is shown in the target language, `correct` is the entry
   * to pick, `choices` are the entries offered (in order of the slots), and
   * `languageCode` records the language the round was built for.
   */
  datatype Question = Question(
    presentedWord: string,
    correct: Meaning,
    choices: seq<Meaning>,
    languageCode: string)

  /**
   * Builds a round. The choices vector is shuffled in place before it is
   * stored; the other arguments are stored as given. The constructor does not
   * check that `correct` is among the choices: that is its caller's duty.
   */
  method NewQuestion(presented: string, correct: Meaning, choices: seq<Meaning>, lang: string, src: Source)
    returns (q: Question)
    ensures q.presentedWord == presented && q.correct == correct && q.languageCode == lang
    ensures multiset(q.choices) == multiset(choices)
  {
    var shuffled := Shuffle(choices, src);
    q := Question(presented, correct, shuffled, lang);
  }
}
