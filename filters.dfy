/** The filter predicate `apply_filters_row` over a stored property set. */
module Filters {
  import opened Types
  import opened Text
  import opened Analyzer

  /**
   * The `filters` dictionary: each present entry is `Some`. `contains_character`
   * stays a string, since `apply_filters_row` itself checks that it is one
   * character long.
   */
  datatype FilterSet = FilterSet(
    isPalindrome: Option<bool>,
    minLength: Option<int>,
    maxLength: Option<int>,
    wordCount: Option<int>,
    containsCharacter: Option<String>)

  /** The empty dictionary `{}`. */
  const NoFilters := FilterSet(None, None, None, None, None)

  /** The `contains_character` check: a one-character string that is a key of the frequency map. */
  predicate HasCharacter(p: Properties, ch: String) {
    |ch| == 1 && ch[0] in p.characterFrequencyMap
  }

  /** `apply_filters_row`: the early-return checks, in the source's order. */
  predicate ApplyFilters(p: Properties, f: FilterSet) {
    if f.isPalindrome.Some? && p.isPalindrome != f.isPalindrome.value then false
    else if f.minLength.Some? && p.length < f.minLength.value then false
    else if f.maxLength.Some? && p.length > f.maxLength.value then false
    else if f.wordCount.Some? && p.wordCount != f.wordCount.value then false
    else if f.containsCharacter.Some? && !HasCharacter(p, f.containsCharacter.value) then false
    else true
  }

  /**
   * `apply_filters_row` is the conjunction of the present filters, and
   * nothing else: each present filter must hold, and when all present
   * filters hold the row is accepted.
   */
  lemma ApplyFiltersMeaning(p: Properties, f: FilterSet)
    ensures ApplyFilters(p, f) <==>
      && (f.isPalindrome.Some? ==> p.isPalindrome == f.isPalindrome.value)
      && (f.minLength.Some? ==> f.minLength.value <= p.length)
      && (f.maxLength.Some? ==> p.length <= f.maxLength.value)
      && (f.wordCount.Some? ==> p.wordCount == f.wordCount.value)
      && (f.containsCharacter.Some? ==> |f.containsCharacter.value| == 1 && f.containsCharacter.value[0] in p.characterFrequencyMap)
  {
  }

  /** An empty filter set accepts every row. */
  lemma NoFiltersAcceptAll(p: Properties)
    ensures ApplyFilters(p, NoFilters)
  {
  }

  /** Contradictory length bounds (`min_length > max_length`) accept no row. */
  lemma ContradictoryBoundsRejectAll(p: Properties, f: FilterSet)
    requires f.minLength.Some? && f.maxLength.Some? && f.minLength.value > f.maxLength.value
    ensures !ApplyFilters(p, f)
  {
  }

  /** A `contains_character` value that is not exactly one character rejects every row. */
  lemma MalformedCharacterRejectsAll(p: Properties, f: FilterSet)
    requires f.containsCharacter.Some? && |f.containsCharacter.value| != 1
    ensures !ApplyFilters(p, f)
  {
  }

  /** `g` has every filter of `f` with the same value, and possibly more. */
  predicate Extends(g: FilterSet, f: FilterSet) {
    && (f.isPalindrome.Some? ==> g.isPalindrome == f.isPalindrome)
    && (f.minLength.Some? ==> g.minLength == f.minLength)
    && (f.maxLength.Some? ==> g.maxLength == f.maxLength)
    && (f.wordCount.Some? ==> g.wordCount == f.wordCount)
    && (f.containsCharacter.Some? ==> g.containsCharacter == f.containsCharacter)
  }

  /** Adding filters only narrows the accepted rows. */
  lemma MoreFiltersNarrow(p: Properties, f: FilterSet, g: FilterSet)
    requires Extends(g, f)
    ensures ApplyFilters(p, g) ==> ApplyFilters(p, f)
  {
    ApplyFiltersMeaning(p, f);
    ApplyFiltersMeaning(p, g);
  }

  /**
   * The filters read as statements about the string itself:
   * `contains_character` c holds when c occurs in it, `word_count` n when it
   * has n maximal non-whitespace runs, and the length bounds bound its length.
   */
  predicate Matches(value: String, f: FilterSet) {
    && (f.isPalindrome.Some? ==> IsPalindrome(value) == f.isPalindrome.value)
    && (f.minLength.Some? ==> f.minLength.value <= |value|)
    && (f.maxLength.Some? ==> |value| <= f.maxLength.value)
    && (f.wordCount.Some? ==> RunCount(value) == f.wordCount.value)
    && (f.containsCharacter.Some? ==> |f.containsCharacter.value| == 1 && f.containsCharacter.value[0] in value)
  }

  /** On a freshly analysed string, `apply_filters_row` decides exactly `Matches`. */
  lemma FiltersOnAnalyzed(value: String, hash: String -> String, f: FilterSet)
    ensures ApplyFilters(Analyze(value, hash), f) <==> Matches(value, f)
  {
    var p := Analyze(value, hash);
    assert p.wordCount == RunCount(value) by { WordCountMeaning(value); }
    assert forall c :: c in p.characterFrequencyMap <==> c in value by { FrequencyKeys(value); }
    ApplyFiltersMeaning(p, f);
  }
}
