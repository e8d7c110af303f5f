/**
 * The heuristic natural-language parser of `filter_by_nl`: the query is
 * lowercased and stripped, then phrase tests and three regular-expression
 * searches fill a filter set, later rules overwriting earlier ones.
 */
module NaturalLanguage {
  import opened Types
  import opened Text
  import opened Filters

  // ---------------- regular expressions ----------------

  /** The character class of a regex's one capture group. */
  datatype CharClass =
    | Digits          // `(\d+)`: one or more digits, greedy
    | AsciiLowercase  // `([a-z])`: exactly one letter

  /**
   * A regex of the shape `(alt1|alt2|...)(group)` with literal alternatives,
   * tried in order at each position, followed by one capture group.
   */
  datatype Regex = Regex(alternatives: seq<String>, group: CharClass)

  /** `longer than (\d+)` */
  const LongerThan := Regex(["longer than "], Digits)

  /** `strings longer than (\d+)` */
  const StringsLongerThan := Regex(["strings longer than "], Digits)

  /** `contain(?:ing|s)? the letter ([a-z])`, its optional suffix spelled out in the order the engine tries it. */
  const ContainsLetter := Regex(["containing the letter ", "contains the letter ", "contain the letter "], AsciiLowercase)

  predicate InClass(cls: CharClass, c: char) {
    match cls
    case Digits => IsDigit(c)
    case AsciiLowercase => 'a' <= c <= 'z'
  }

  /** Alternative `k` of `re` occurs at `i` and is followed by a character the group accepts. */
  predicate AltMatchesAt(re: Regex, q: String, i: int, k: int) {
    && 0 <= k < |re.alternatives|
    && OccursAt(q, re.alternatives[k], i)
    && i + |re.alternatives[k]| < |q|
    && InClass(re.group, q[i + |re.alternatives[k]|])
  }

  /** The first alternative, from `k` on, through which `re` matches at `i` (see `FirstAltFirst`). */
  function FirstAlt(re: Regex, q: String, i: int, k: nat): (r: Option<nat>)
    ensures r.Some? ==> k <= r.value && AltMatchesAt(re, q, i, r.value)
    decreases |re.alternatives| - k
  {
    if k >= |re.alternatives| then None
    else if AltMatchesAt(re, q, i, k) then Some(k)
    else FirstAlt(re, q, i, k + 1)
  }

  /** `FirstAlt` finds the first alternative that matches, and none when none does. */
  lemma {:induction false} FirstAltFirst(re: Regex, q: String, i: int, k: nat)
    ensures var r := FirstAlt(re, q, i, k);
      && (r.Some? ==> forall k' | k <= k' < r.value :: !AltMatchesAt(re, q, i, k'))
      && (r.None? ==> forall k' | k <= k' :: !AltMatchesAt(re, q, i, k'))
    decreases |re.alternatives| - k
  {
    if k < |re.alternatives| && !AltMatchesAt(re, q, i, k) {
      FirstAltFirst(re, q, i, k + 1);
    }
  }

  /** `re` matches at position `i` of `q`: some alternative does (see `MatchesAtMeaning`). */
  predicate MatchesAt(re: Regex, q: String, i: int) {
    FirstAlt(re, q, i, 0).Some?
  }

  lemma MatchesAtMeaning(re: Regex, q: String, i: int)
    ensures MatchesAt(re, q, i) <==> exists k :: AltMatchesAt(re, q, i, k)
  {
    FirstAltFirst(re, q, i, 0);
  }

  /** `re.search(q[from:])`: the leftmost position at or after `from` where `re` matches (see `SearchLeftmost`). */
  function Search(re: Regex, q: String, from: nat): (r: Option<nat>)
    ensures r.Some? ==> from <= r.value && MatchesAt(re, q, r.value)
    decreases |q| - from
  {
    if from >= |q| then None
    else if MatchesAt(re, q, from) then Some(from)
    else Search(re, q, from + 1)
  }

  /** No match starts at or beyond the end of the query: each alternative's group needs a character. */
  lemma NoMatchAtEnd(re: Regex, q: String, j: int)
    requires |q| <= j
    ensures !MatchesAt(re, q, j)
  {
    FirstAltFirst(re, q, j, 0);
  }

  /** `Search` returns the leftmost match, and none exactly when there is no match. */
  lemma {:induction false} SearchLeftmost(re: Regex, q: String, from: nat)
    ensures var r := Search(re, q, from);
      && (r.Some? ==> forall j | from <= j < r.value :: !MatchesAt(re, q, j))
      && (r.None? ==> forall j | from <= j :: !MatchesAt(re, q, j))
    decreases |q| - from
  {
    if from >= |q| {
      forall j | from <= j ensures !MatchesAt(re, q, j) { NoMatchAtEnd(re, q, j); }
    } else if !MatchesAt(re, q, from) {
      SearchLeftmost(re, q, from + 1);
    }
  }

  /** Length of the run of digits starting at index `j`. */
  function DigitRun(q: String, j: nat): (n: nat)
    requires j <= |q|
    ensures j + n <= |q|
    ensures forall i | j <= i < j + n :: IsDigit(q[i])
    ensures j + n == |q| || !IsDigit(q[j + n])
    decreases |q| - j
  {
    if j < |q| && IsDigit(q[j]) then 1 + DigitRun(q, j + 1) else 0
  }

  /** `m.group(1)` for a match of `re` at `i`: the greedy digit run, or the one letter. */
  function Group(re: Regex, q: String, i: nat): (g: String)
    requires MatchesAt(re, q, i)
    ensures |g| >= 1 && forall k | 0 <= k < |g| :: InClass(re.group, g[k])
    ensures re.group == AsciiLowercase ==> |g| == 1
    ensures var j := i + |re.alternatives[FirstAlt(re, q, i, 0).value]|;
            && OccursAt(q, g, j)
            && (re.group == Digits ==> j + |g| == |q| || !IsDigit(q[j + |g|]))
  {
    var k := FirstAlt(re, q, i, 0).value;
    var j := i + |re.alternatives[k]|;
    match re.group
    case Digits => q[j..j + DigitRun(q, j)]
    case AsciiLowercase => [q[j]]
  }

  /** The group captured by the first match of `re` in `q`, if any. */
  function Capture(re: Regex, q: String): (g: Option<String>)
    ensures g.Some? ==> |g.value| >= 1 && forall k | 0 <= k < |g.value| :: InClass(re.group, g.value[k])
  {
    match Search(re, q, 0)
    case None => None
    case Some(i) => Some(Group(re, q, i))
  }

  /** A capture exists exactly when the regex matches somewhere, and it is the group of the leftmost match. */
  lemma CaptureMeaning(re: Regex, q: String)
    ensures Capture(re, q).Some? <==> exists i :: MatchesAt(re, q, i)
    ensures Capture(re, q).Some? ==> exists i ::
      && MatchesAt(re, q, i)
      && (forall j | 0 <= j < i :: !MatchesAt(re, q, j))
      && Capture(re, q).value == Group(re, q, i)
  {
    SearchLeftmost(re, q, 0);
  }

  /** `int(m.group(1))` for the first match of a digit regex. */
  function Number(re: Regex, q: String): Option<nat>
    requires re.group == Digits
  {
    match Capture(re, q)
    case None => None
    case Some(ds) => Some(DecimalValue(ds))
  }

  // ---------------- the parser ----------------

  /** `query.lower().strip()`. */
  function Normalize(query: String): String {
    Strip(LowerAll(query))
  }

  /** The word-count rule: `"single word" in q or "one word" in q`. */
  predicate AsksOneWord(q: String) {
    Contains(q, "single word") || Contains(q, "one word")
  }

  /** The palindrome rule: `"palindrom" in q`. */
  predicate AsksPalindrome(q: String) {
    Contains(q, "palindrom")
  }

  /**
   * The minimum length the length rules leave behind: `N + 1` from the
   * first "strings longer than N", otherwise `N` from the first
   * "longer than N", otherwise none.
   */
  function LengthBound(q: String): Option<int> {
    match Number(StringsLongerThan, q)
    case Some(n) => Some(n + 1)
    case None =>
      match Number(LongerThan, q)
      case Some(n) => Some(n)
      case None => None
  }

  /** The letter rule's capture. */
  function Letter(q: String): Option<String> {
    Capture(ContainsLetter, q)
  }

  /**
   * What the parsing block computes, stated rule by rule: each key is set by
   * its own rule, independently of the order the rules run in, and a query
   * for which no rule fires is unparseable.
   */
  function Parse(query: String): Result<FilterSet> {
    var q := Normalize(query);
    var f := FilterSet(
      isPalindrome := if AsksPalindrome(q) then Some(true) else None,
      minLength := LengthBound(q),
      maxLength := None,
      wordCount := if AsksOneWord(q) then Some(1) else None,
      containsCharacter := Letter(q));
    if f == NoFilters then Err(Unparseable) else Ok(f)
  }

  /** The parsing block of `filter_by_nl`: normalise the query, then apply the rules. */
  method ParseQuery(query: String) returns (r: Result<FilterSet>)
    ensures r == Parse(query)
    ensures var q := Normalize(query);
      r.Err? <==> !AsksOneWord(q) && !AsksPalindrome(q) && LengthBound(q).None? && Letter(q).None?
    ensures r.Err? ==> r.error == Unparseable
    ensures r.Ok? ==> r.value.maxLength.None?
    ensures r.Ok? ==> var q := Normalize(query);
      && r.value.wordCount == (if AsksOneWord(q) then Some(1) else None)
      && r.value.isPalindrome == (if AsksPalindrome(q) then Some(true) else None)
      && r.value.minLength == LengthBound(q)
      && r.value.containsCharacter == Letter(q)
  {
    var q := Normalize(query);
    r := ApplyRules(q);
  }

  /**
   * The rules on the normalised query, in the source's order: each rule that
   * fires writes its key, a later rule overwriting an earlier one's key, and
   * an empty result is the 400 error.
   */
  method ApplyRules(q: String) returns (r: Result<FilterSet>)
    ensures r.Err? <==> !AsksOneWord(q) && !AsksPalindrome(q) && LengthBound(q).None? && Letter(q).None?
    ensures r.Err? ==> r.error == Unparseable
    ensures r.Ok? ==> r.value.maxLength.None?
    ensures r.Ok? ==>
      && r.value.wordCount == (if AsksOneWord(q) then Some(1) else None)
      && r.value.isPalindrome == (if AsksPalindrome(q) then Some(true) else None)
      && r.value.minLength == LengthBound(q)
      && r.value.containsCharacter == Letter(q)
  {
    var parsed := NoFilters;
    if AsksOneWord(q) {
      parsed := parsed.(wordCount := Some(1));
    }
    if AsksPalindrome(q) {
      parsed := parsed.(isPalindrome := Some(true));
    }
    parsed := LengthRules(q, parsed);
    var m3 := Letter(q);
    if m3.Some? {
      parsed := parsed.(containsCharacter := Some(m3.value));
    }
    if parsed == NoFilters {
      r := Err(Unparseable);
    } else {
      r := Ok(parsed);
    }
  }

  /**
   * The two length rules, in the source's order: "longer than N" writes
   * `min_length` N, then "strings longer than N" overwrites it with N + 1.
   */
  method LengthRules(q: String, parsed: FilterSet) returns (result: FilterSet)
    ensures result.minLength == (if LengthBound(q).Some? then LengthBound(q) else parsed.minLength)
    ensures result == parsed.(minLength := result.minLength)
  {
    result := parsed;
    var m := Number(LongerThan, q);
    if m.Some? {
      result := result.(minLength := Some(m.value + 0));
    }
    var m2 := Number(StringsLongerThan, q);
    if m2.Some? {
      result := result.(minLength := Some(m2.value + 1));
    }
  }

  // ---------------- properties of the rules ----------------

  /**
   * Wherever "strings longer than N" matches, the bare "longer than N"
   * matches too, eight characters later, capturing the same digits: the
   * bare rule's `N` is always written first and then overwritten by `N + 1`.
   */
  lemma StringsLongerThanImpliesLongerThan(q: String, i: nat)
    requires MatchesAt(StringsLongerThan, q, i)
    ensures MatchesAt(LongerThan, q, i + 8)
    ensures Group(LongerThan, q, i + 8) == Group(StringsLongerThan, q, i)
  {
    assert AltMatchesAt(StringsLongerThan, q, i, 0);
    assert q[i + 8..i + 20] == q[i..i + 20][8..];
    assert AltMatchesAt(LongerThan, q, i + 8, 0);
  }

  /** So the length rules yield a bound whenever either phrase occurs. */
  lemma LengthBoundFires(q: String)
    ensures LengthBound(q).Some? <==> (exists i :: MatchesAt(LongerThan, q, i))
  {
    CaptureMeaning(LongerThan, q);
    CaptureMeaning(StringsLongerThan, q);
    if Number(StringsLongerThan, q).Some? {
      StringsLongerThanImpliesLongerThan(q, Search(StringsLongerThan, q, 0).value);
    }
  }

  /** The letter rule always captures exactly one lowercase ASCII letter. */
  lemma LetterIsOneLowercase(q: String)
    ensures Letter(q).Some? ==> |Letter(q).value| == 1 && 'a' <= Letter(q).value[0] <= 'z'
  {
    if Letter(q).Some? {
      var i := Search(ContainsLetter, q, 0).value;
      assert Letter(q).value == Group(ContainsLetter, q, i);
    }
  }

  /** `int("10")`. */
  lemma DecimalTen()
    ensures DecimalValue("10") == 10
  {
    assert "10"[..1] == "1" && "1"[..0] == [];
  }

  /** The bare rule keeps `N`: "longer than 10" asks for a minimum length of 10, not 11. */
  lemma BareLongerThanKeepsN()
    ensures LengthBound("longer than 10") == Some(10)
  {
    var q := "longer than 10";
    assert Number(StringsLongerThan, q).None?;
    assert AltMatchesAt(LongerThan, q, 0, 0) by {
      assert q[0..12] == "longer than ";
    }
    assert Search(LongerThan, q, 0) == Some(0);
    assert Group(LongerThan, q, 0) == "10" by {
      assert DigitRun(q, 14) == 0;
      assert q[12..14] == "10";
    }
    DecimalTen();
  }

  /** The specific rule adds one: "strings longer than 10" asks for a minimum length of 11. */
  lemma StringsLongerThanAddsOne()
    ensures LengthBound("strings longer than 10") == Some(11)
  {
    var q := "strings longer than 10";
    assert AltMatchesAt(StringsLongerThan, q, 0, 0) by {
      assert q[0..20] == "strings longer than ";
    }
    assert Search(StringsLongerThan, q, 0) == Some(0);
    assert Group(StringsLongerThan, q, 0) == "10" by {
      assert DigitRun(q, 22) == 0;
      assert q[20..22] == "10";
    }
    DecimalTen();
  }

  /** "containing the letter z" captures the letter z. */
  lemma ContainingTheLetterZ()
    ensures Letter("containing the letter z") == Some("z")
  {
    var q := "containing the letter z";
    assert AltMatchesAt(ContainsLetter, q, 0, 0) by {
      assert q[0..22] == "containing the letter ";
    }
    assert Search(ContainsLetter, q, 0) == Some(0);
  }
}
