/** Allergen detection in the normalized text (app.py:239-242): an allergen is found when its
    name occurs in the text, with Python's `in` on strings. */
module Matching {
  import opened Text

  /** The allergens of the list whose names occur in `text`. */
  ghost function Occurring(text: string, allergens: seq<string>): set<string> {
    set a | a in allergens && IsSubstring(a, text)
  }

  /** The detection loop: it scans the allergen list in order and collects every allergen
      whose name occurs in the text. */
  method FindAllergens(text: string, allergens: seq<string>) returns (found: set<string>)
    ensures forall a :: a in found <==> a in allergens && IsSubstring(a, text)
    ensures found == Occurring(text, allergens)
  {
    found := {};
    for n := 0 to |allergens|
      invariant forall a :: a in found <==> a in allergens[..n] && IsSubstring(a, text)
    {
      var allergen := allergens[n];
      assert allergens[..n + 1] == allergens[..n] + [allergen];
      ContainsCorrect(text, allergen);
      if Contains(text, allergen) {
        found := found + {allergen};
      }
    }
    assert allergens[..|allergens|] == allergens;
  }

  /** No allergen with a non-empty name is found in an empty text. */
  lemma NothingInEmptyText(allergens: seq<string>)
    requires forall a :: a in allergens ==> a != ""
    ensures Occurring("", allergens) == {}
  {
    forall a | a in allergens
      ensures !IsSubstring(a, "")
    {
      NothingInEmpty(a);
    }
  }

  /** An allergen with an empty name is found in every text. */
  lemma EmptyNameAlwaysFound(text: string, allergens: seq<string>)
    requires "" in allergens
    ensures "" in Occurring(text, allergens)
  {
    assert OccursAt("", text, 0);
  }

  /** A text that contains another finds every allergen the other one finds. */
  lemma OccurringMonotone(text: string, larger: string, allergens: seq<string>)
    requires IsSubstring(text, larger)
    ensures Occurring(text, allergens) <= Occurring(larger, allergens)
  {
    forall a | a in Occurring(text, allergens)
      ensures a in Occurring(larger, allergens)
    {
      SubstringTransitive(a, text, larger);
    }
  }

  /** The detected set does not depend on the order or repetition of the allergen list. */
  lemma OccurringByMembers(text: string, allergens: seq<string>, others: seq<string>)
    requires forall a :: a in allergens <==> a in others
    ensures Occurring(text, allergens) == Occurring(text, others)
  {
  }
}
