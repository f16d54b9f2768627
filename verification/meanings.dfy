/**
 * A vocabulary entry: the text of one concept in several languages,
 * keyed by a short language code such as "en" or "es".
 * Two entries are equal exactly when their translation maps are equal.
 */
module Meanings {
  import opened Wrappers

  datatype Meaning = Meaning(translations: map<string, string>) {

    /** A Meaning with no translations yet. */
    static function Empty(): (m: Meaning)
      ensures forall code :: m.GetTranslation(code) == None
    {
      Meaning(map[])
    }

    /** Inserts the text for `code`, overwriting any earlier text for it. */
    function AddTranslation(code: string, text: string): (r: Meaning)
      ensures r.GetTranslation(code) == Some(text)
      ensures forall c :: c != code ==> r.GetTranslation(c) == GetTranslation(c)
    {
      Meaning(translations[code := text])
    }

    /** The text for `code`, or None when this entry has none in that language. */
    function GetTranslation(code: string): (r: Option<string>)
      ensures r == None <==> code !in translations
      ensures r.Some? ==> code in translations && translations[code] == r.value
    {
      if code in translations then Some(translations[code]) else None
    }
  }

  /** A second insert for the same code replaces the first. */
  lemma AddTwiceOverwrites(m: Meaning, code: string, first: string, second: string)
    ensures m.AddTranslation(code, first).AddTranslation(code, second)
         == m.AddTranslation(code, second)
  {
    assert m.AddTranslation(code, first).AddTranslation(code, second).translations
        == m.translations[code := second];
  }

  /** Insertions for different codes commute: the order in which an entry was built does not matter. */
  lemma AddCommutes(m: Meaning, c1: string, t1: string, c2: string, t2: string)
    requires c1 != c2
    ensures m.AddTranslation(c1, t1).AddTranslation(c2, t2)
         == m.AddTranslation(c2, t2).AddTranslation(c1, t1)
  {
    assert m.translations[c1 := t1][c2 := t2] == m.translations[c2 := t2][c1 := t1];
  }

  /** Value equality: two entries are equal iff every lookup gives the same answer. */
  lemma EqualIffSameLookups(a: Meaning, b: Meaning)
    ensures a == b <==> forall code :: a.GetTranslation(code) == b.GetTranslation(code)
  {
    if forall code :: a.GetTranslation(code) == b.GetTranslation(code) {
      assert a.translations.Keys == b.translations.Keys by {
        forall code | code in a.translations ensures code in b.translations {
          assert a.GetTranslation(code).Some?;
        }
        forall code | code in b.translations ensures code in a.translations {
          assert b.GetTranslation(code).Some?;
        }
      }
      forall code | code in a.translations ensures a.translations[code] == b.translations[code] {
        assert a.GetTranslation(code).Some?;
      }
      assert a.translations == b.translations;
    }
  }
}
