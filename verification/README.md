# Corvid quiz engine in Dafny

This project models the quiz engine of Corvid, a vocabulary flashcard game.
The game shows a word in a target language. The player picks its meaning
from a few choices shown in a source language. The engine has three parts:

- **Meaning** (`meanings.dfy`) is one vocabulary entry: a map from language code to text. Two entries are equal when their maps are equal.
- **Question** (`questions.dfy`) is one round: the word shown, the correct entry, the choices in slot order, and the language the round was built for. Building a round shuffles the choices.
- **Game** (`games.dfy`) is the session. It holds the vocabulary pool, the two language codes, the number of choice slots, the current round and two score counters. `NextQuestion` draws a round. `CheckAnswer` scores one click.

`random.dfy` models the random number generator and the in-place shuffle of a vector. `wrappers.dfy` holds `Option`. `scenarios.dfy` plays rounds over small pools taken from the built-in vocabularies.

Randomness is nondeterminism. Each random draw is a parameter of type `Random.Source`, a function from draw position to an arbitrary number, reduced into the allowed range. A shuffle is the Fisher–Yates pass that the rand crate's `SliceRandom::shuffle` performs, driven by such a source. Every property is proved for every source, so it holds however the generator behaves.

`Game` is a class whose methods update its fields in place. `Valid()` is its invariant: the current round, if there is one, satisfies `ValidQuestion` for the game's pool, target language and slot count. `ValidQuestion` says:

- the correct entry is in the pool;
- it is offered exactly once;
- the other choices are drawn without replacement from the distractor pool (the entries not equal to the correct one);
- there are `1 + min(numChoices - 1, |distractor pool|)` choices;
- the word shown is the correct entry's target-language text, or `"???"`;
- the round records the target language.

Three consequences of the code are worth knowing:

- **Equal distractors.** `next_question` drops only entries equal to the answer (src/main.rs:84). An entry listed twice in the pool can therefore be offered in two slots of one round (`Scenarios.DuplicateEntryOfferedTwice`). The food vocabulary lists the cucumber twice (src/main.rs:242 and :250), and `Scenarios.CucumberOfferedTwice` applies the lemma to those entries.
- **Short rounds.** The same filter drops every copy of the answer (src/main.rs:84). A round can then have fewer than `num_choices` choices even when the pool has `num_choices` entries (`Scenarios.DuplicateOfAnswerShortensRound`). A full round is guaranteed when no entry occurs twice (`Games.DistinctPoolFillsSlots`).
- **Empty pool.** `Game::new` accepts any pool (src/main.rs:64-74). `gen_range` at src/main.rs:78 panics on an empty range, so `Games.Game.NextQuestion` requires a non-empty pool.

## Model

| member | source | states |
|---|---|---|
| Meanings.Meaning.Empty | src/main.rs:20-22 | a new entry has no translation for any language code |
| Meanings.Meaning.AddTranslation | src/main.rs:24-26 | after inserting `text` for `code`, the lookup of `code` gives `text` and every other code's lookup is unchanged |
| Meanings.Meaning.GetTranslation | src/main.rs:28-30 | the lookup is absent exactly when the code is not a key; when present it is the stored text |
| Meanings.AddTwiceOverwrites | src/main.rs:24-26 | a second insert for the same code replaces the first |
| Meanings.AddCommutes | src/main.rs:24-26 | inserts for different codes commute, so the insertion order does not affect an entry |
| Meanings.EqualIffSameLookups | src/main.rs:14-17 | two entries are equal iff every language lookup agrees (derived equality over the map) |
| Random.GenIndex | src/main.rs:77-78 | a range draw lies in `[0, bound)` |
| Random.Shuffle | src/main.rs:87 | the shuffled vector is a permutation of the input: same length and same multiset of elements |
| Questions.NewQuestion | src/main.rs:42-50 | the stored choices are a permutation of the given ones; the word, correct entry and language are stored unchanged |
| Games.Others | src/main.rs:82-86 | the distractor pool holds no copy of `correct` and every other entry exactly as often as the pool does |
| Games.Game.constructor | src/main.rs:64-74 | pool, languages and slot count are stored as given, there is no round, both scores are zero, and the invariant holds |
| Games.Game.NextQuestion | src/main.rs:76-99 | with a non-empty pool and at least one slot, the new round's entry is the drawn pool element and the round satisfies `ValidQuestion`; only `current` changes |
| Games.Game.CheckAnswer | src/main.rs:102-116 | without a round: returns false and no score changes; with a round: returns whether the clicked slot holds the correct entry and adds one to exactly the matching counter; nothing else changes, so the game invariant survives a click |
| Games.AssembledChoices | src/main.rs:81-91 | whatever the shuffles did, the correct entry is offered once, the rest is a sub-multiset of the distractor pool, and the count is `1 + min(numChoices - 1, pool size)` |
| Games.ExactlyOneCorrectSlot | src/main.rs:89-91 | a round offering its entry once has exactly one slot holding it, so clicking any other slot is wrong |
| Games.DistinctPoolFillsSlots | src/main.rs:81-91 | over a pool with no repeated entry, a round has `min(numChoices, pool size)` choices, and when the slots cover the pool the choices are the whole pool |
| Games.EveryEntryDrawable | src/main.rs:77-79 | for every entry of the pool some run of the random source draws its index, so every entry can be a round's answer |
| Games.WholePoolOffered | src/main.rs:81-91 | when the slots leave room for the whole distractor pool, the choices are the correct entry plus every distractor |
| Scenarios.Entry | src/main.rs:122-129 | an entry built by the vocabulary loader's four inserts has exactly the given text for each of es, en, fr and de |
| Scenarios.OnionIsNotCucumber | src/main.rs:236-242 | the onion entry and the cucumber entry of the food vocabulary are different entries |
| Scenarios.CucumberOfferedTwice | src/main.rs:242-250 | in a pool of the onion and both cucumber entries, a three-slot round answered by the onion offers the cucumber in two slots |
| Scenarios.DuplicateEntryOfferedTwice | src/main.rs:82-91 | in a pool `[a, b, b]` with answer `a`, a three-slot round offers `b` twice |
| Scenarios.DuplicateOfAnswerShortensRound | src/main.rs:82-91 | in a pool `[a, b, b]` with answer `b`, a three-slot round has only two choices |
| Scenarios.AnimalsDistinct | src/main.rs:131-133 | dog, cat and pig are distinct, and one animal's Spanish word pairs with another's English word exactly when they are the same animal |
| Scenarios.PlayOneRound | src/main.rs:662-672 | a fresh game, one round and one click over a repetition-free pool: a full round, the whole pool when the slots equal its size, the answer is right iff the clicked slot holds the entry, exactly one score becomes one |
| Scenarios.EnglishLabel | src/main.rs:682-684 | a slot's English label is the entry's English text whenever it has one |
| Scenarios.OneMatchingLabel | src/main.rs:131-133 | in a round offering the three animals, a slot's English label translates the word shown exactly when the slot holds the answer, and exactly one slot does |
| Scenarios.AnimalRound | src/main.rs:704-706 | over dog, cat and pig with Spanish words and English choices: the choices are the three animals in some order, the word shown is one of them, exactly one slot's English label translates it, and the click is right iff the clicked slot's label translates it, with exactly one score at one |

## Left out

- The GTK window, widget stack and button wiring (`build_ui`, `main`). `Scenarios.PlayOneRound` and `Scenarios.AnimalRound` only replay the order of calls the window makes.
- The `Rc<RefCell<…>>` sharing of the game and the function-valued vocabulary selector. These are interior-mutability plumbing for the UI callbacks.
- The distribution of the random draws. Only the set of possible outcomes is modelled, not uniformity. The four draws of a round (entry index and three shuffles) are independent parameters. In the program they come from one thread-local generator.
- The static vocabulary lists. Only the cucumber, onion, dog, cat and pig entries appear, as test data.
- `HashMap` internals. An entry's translations are a Dafny `map<string, string>`.
- Games.Game.CheckAnswer: the score counters are unbounded naturals. The program's `u32` counters would overflow after 2^32 answers; this is not modelled.
- Games.Game.NextQuestion: requires at least one slot. With zero slots, the `u32` subtraction `num_choices - 1` underflows: it panics in a debug build and wraps in a release build. Neither outcome is modelled.
- Games.Game.CheckAnswer: requires the clicked slot to be inside the current round. Indexing outside the choices vector panics in the program.
- Vectors local to a round are immutable sequences. Each in-place operation (shuffle, truncate, extend) reassigns the local variable. No vector is shared, so no aliasing is lost.
