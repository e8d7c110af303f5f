# string-analyzer, modelled in Dafny

`string-analyzer` is a small HTTP service. It stores text strings keyed by
their SHA-256 digest. For each string it keeps a set of derived properties:
- length;
- whether it is a palindrome once whitespace and case are ignored;
- number of distinct characters;
- word count;
- digest;
- a character-frequency map.

It can create, fetch and delete a string. It can list the stored strings
through a filter, given either as query parameters or as a plain-English
query that a heuristic parser turns into the same filter.

This project models the deterministic core of `main.py` and proves what it
computes:

- `types.dfy` holds `Option`, `Result` and the error outcomes. They are
  409 conflict, 404 not found, and 400 for an unparseable query.
- `text.dfy` (module `Text`) holds the string primitives the code relies on:
  - Python's whitespace class: the code points for which `str.isspace()`
    holds. `re`'s `\s`, `str.split()` and `str.strip()` all use this class.
  - lowercasing;
  - reversal;
  - removal of whitespace;
  - `strip`;
  - substring search;
  - decimal digits.
- `analyzer.dfy` (module `Analyzer`) holds `is_palindrome`,
  `character_frequency_map` (a loop over the string), `split`, the word count
  and `analyze_string`.
- `filters.dfy` (module `Filters`) holds `apply_filters_row` over a filter set
  with optional entries.
- `nlquery.dfy` (module `NaturalLanguage`) holds the parser of
  `filter_by_nl`:
  - the query is lowercased and stripped;
  - two phrase tests run;
  - three regular-expression searches run, each modelled as a leftmost
    scanner with a greedy capture group;
  - the rules write the filter dictionary one after another, and a later
    rule overwrites an earlier rule's key.
- `store.dfy` (module `RecordStore`) holds the `strings` table as a class.
  - The class has a map from id to row and the order in which a full scan
    returns the rows.
  - Its methods are `create_string`, `get_string` and `delete_string`, plus
    the scan loop shared by `list_strings` and `filter_by_nl`.
  - Each method is proved against pure functions: `Insert`, `Lookup`,
    `Remove` and `Select`. The lemmas relate these functions to each other.

The digest function `sha256_hash` is a parameter: `hash: String -> String`, a
`const` of the store. It is not assumed injective. The creation timestamp is a
parameter of `Create`.

## Model

| member | source | states |
|---|---|---|
| Text.Lower | main.py:41 | lowercasing maps each of `A`–`Z` to the same letter in `a`–`z`, leaves every other character unchanged, and never turns whitespace into non-whitespace or back |
| Text.LowerAll | main.py:196 | `s.lower()` keeps the length and lowercases each position |
| Text.Reverse | main.py:42 | `s[::-1]` keeps the length and puts position `i` at `|s|-1-i` |
| Text.RemoveSpaces | main.py:41 | `re.sub(r"\s+", "", s)` leaves no whitespace and never lengthens the string |
| Text.RemoveSpacesAppend | main.py:41 | removing whitespace distributes over concatenation |
| Text.StripMeaning | main.py:57 | `s.strip()` is the slice of `s` between two all-whitespace margins, starts and ends with non-whitespace, and is empty exactly when `s` is all whitespace |
| Text.ContainsMeaning | main.py:199 | `pat in q` holds exactly when `pat` occurs at some index of `q` |
| Text.DecimalValueAppend | main.py:205 | `int(ds)` for a run of ASCII digits: reading `a + b` is reading `a` shifted left by `len(b)` decimal places, plus reading `b` |
| Text.DecimalValueLeadingZero | main.py:205 | leading zeros do not change the value, as `int("007") == 7` |
| Text.DecimalValueBound | main.py:205 | a run of `n` digits reads as a number below `10^n` |
| Analyzer.PalindromeMeaning | main.py:40-42 | `is_palindrome` holds iff the whitespace-free lowercased text reads the same at `i` and `n-1-i` for every `i`; an empty or all-whitespace string is a palindrome |
| Analyzer.PalindromeReverse | main.py:40-42 | a string and its reverse are palindromes together |
| Analyzer.PalindromeIgnoresCaseAndSpaces | main.py:41 | lowercasing the input or removing its whitespace first does not change the answer |
| Analyzer.RacecarIsPalindrome | main.py:40-42 | "Racecar" is a palindrome |
| Analyzer.EndsDiffer | main.py:40-42 | a string whose first and last characters are not whitespace and differ after lowercasing is not a palindrome |
| Analyzer.AManAManIsNotPalindrome | main.py:40-42 | "A man a man" is not a palindrome ("amanaman" reversed is "namanama") |
| Analyzer.FrequenciesSnoc | main.py:47 | one iteration of the tally raises the count of the next character by one, or adds it with count 1 |
| Analyzer.CharacterFrequencyMap | main.py:44-48 | the loop's dictionary maps each character of the string to its number of occurrences and has no other key |
| Analyzer.FrequencyKeys | main.py:44-48 | the keys are exactly the characters of the string, each count is the number of occurrences and above 0, and there are as many keys as distinct characters |
| Analyzer.FrequenciesTotal | main.py:44-48 | the counts add up to the length |
| Analyzer.SplitStep | main.py:57 | one step of `split()`: whitespace, then a maximal non-empty run of non-whitespace characters, then the rest, which is empty or starts with whitespace |
| Analyzer.SplitTokens | main.py:57 | every token of `split()` is non-empty and free of whitespace |
| Analyzer.SplitEmpty | main.py:57 | `split()` is empty exactly when the string is all whitespace |
| Analyzer.SplitRunCount | main.py:57 | `split()` has one token per maximal run of non-whitespace characters |
| Analyzer.SplitJoin | main.py:57 | concatenating the tokens of `split()` gives the string with its whitespace removed |
| Analyzer.WordCountMeaning | main.py:57 | `word_count` is the number of maximal non-whitespace runs, and it is 0 exactly when the string is all whitespace, the empty string included |
| Analyzer.AnalyzeConsistent | main.py:50-68 | the analysed properties agree with one another, as listed below |
| Analyzer.AnalyzeEmpty | main.py:50-68 | `analyze_string("")` gives length 0, palindrome, 0 unique characters, 0 words and an empty map |
| Analyzer.AnalyzeHello | main.py:50-68 | `analyze_string("hello")` gives length 5, not a palindrome, 4 unique characters, 1 word and `{h:1, e:1, l:2, o:1}` |
| Filters.ApplyFiltersMeaning | main.py:133-153 | a row passes iff every present filter holds; see below |
| Filters.NoFiltersAcceptAll | main.py:153 | the empty filter dictionary accepts every row |
| Filters.ContradictoryBoundsRejectAll | main.py:138-143 | `min_length > max_length` rejects every row |
| Filters.MalformedCharacterRejectsAll | main.py:147-150 | a `contains_character` that is not exactly one character rejects every row |
| Filters.MoreFiltersNarrow | main.py:133-153 | adding filters never lets more rows through |
| Filters.FiltersOnAnalyzed | main.py:133-153 | on the analysis of a string, the filters read as facts about the string itself; see below |
| NaturalLanguage.FirstAlt | main.py:209 | the alternative found matches at the position (see `FirstAltFirst`) |
| NaturalLanguage.FirstAltFirst | main.py:209 | the alternatives of `contain(?:ing\|s)?` are tried in order and the first that matches is taken; none is returned only when none matches |
| NaturalLanguage.MatchesAtMeaning | main.py:203 | the regex matches at a position exactly when one of its alternatives occurs there followed by a character of the capture's class |
| NaturalLanguage.Search | main.py:203 | `re.search` returns a position at which the regex matches |
| NaturalLanguage.SearchLeftmost | main.py:203 | that position is the leftmost match, and no result means no match anywhere |
| NaturalLanguage.DigitRun | main.py:203 | `(\d+)` takes the maximal run of digits: every character of the run is a digit, and the next one is not (or the text ends) |
| NaturalLanguage.Group | main.py:205 | `m.group(1)` is the text right after the matched phrase: non-empty, drawn from the group's class, the maximal digit run for `(\d+)` and one character for `([a-z])` |
| NaturalLanguage.CaptureMeaning | main.py:203-211 | a capture exists exactly when the regex matches somewhere, and it is the group of the leftmost match |
| NaturalLanguage.LengthRules | main.py:203-208 | the two length rules, run in order, leave `min_length` as `LengthBound` when either fires and untouched otherwise, and change no other key |
| NaturalLanguage.ApplyRules | main.py:197-214 | on the normalised query: 400 exactly when no rule fires; otherwise `word_count` 1 iff "single word" or "one word" occurs, `is_palindrome` true iff "palindrom" occurs, `min_length` from the length rules, `contains_character` the captured letter, and never `max_length` |
| NaturalLanguage.ParseQuery | main.py:196-214 | the sequential parse on `query.lower().strip()` equals the rule-by-rule definition `Parse`, with the same outcomes as `ApplyRules` |
| NaturalLanguage.StringsLongerThanImpliesLongerThan | main.py:203-208 | wherever "strings longer than N" matches, the bare rule matches 8 characters later with the same digits, so its `N` is always overwritten by `N + 1` |
| NaturalLanguage.LengthBoundFires | main.py:203-208 | the length rules yield a bound exactly when "longer than N" occurs |
| NaturalLanguage.BareLongerThanKeepsN | main.py:203-205 | "longer than 10" gives `min_length` 10 |
| NaturalLanguage.StringsLongerThanAddsOne | main.py:206-208 | "strings longer than 10" gives `min_length` 11 |
| NaturalLanguage.LetterIsOneLowercase | main.py:209-211 | the letter rule captures exactly one character, in `a`–`z` |
| NaturalLanguage.ContainingTheLetterZ | main.py:209-211 | "containing the letter z" captures `z` |
| RecordStore.InsertConflict | main.py:102-104 | a create fails exactly when a row has the value's digest, and then with 409 |
| RecordStore.InsertThenLookup | main.py:105-108 | a successful create adds exactly the key `hash(value)`, keeps every other row, and a following get returns the new record |
| RecordStore.RemoveThenLookup | main.py:248-250 | a successful delete removes exactly the key `hash(value)` and keeps the other rows; after it, get and delete of the same value report 404 |
| RecordStore.InsertThenRemove | main.py:241-250 | deleting a value right after creating it restores the table |
| RecordStore.LookupByDigest | main.py:115-120 | get and delete address rows by digest only: values with the same digest reach the same row |
| RecordStore.OperationsKeepWellFormed | main.py:88-108 | create and delete keep every row the analysis of its own value under its own digest |
| RecordStore.LookupWellFormed | main.py:113-129 | a row found by get has the requested digest as id, and its properties are the analysis of its value |
| RecordStore.SelectSnoc | main.py:180-188 | one more scanned row is appended to the results exactly when it passes the filters |
| RecordStore.SelectAppend | main.py:180-188 | scanning two stretches of rows selects from each in turn |
| RecordStore.SelectMeaning | main.py:178-189 | the results are exactly the scanned rows that pass `apply_filters_row`, and never more than were scanned |
| RecordStore.SelectNoFilters | main.py:178-189 | with no filters the listing is the whole scan, in order |
| RecordStore.SelectWellFormed | main.py:178-189 | on well-formed rows, a row is listed iff its string matches the filters, read as facts about the string |
| RecordStore.Store.constructor | main.py:15-27 | the table starts empty |
| RecordStore.Store.Create | main.py:81-111 | 409 and nothing changes when the digest is taken; otherwise the new record is returned, the table is `Insert`'s, the id joins the end of the scan order, and every row stays the analysis of its value |
| RecordStore.Store.Get | main.py:113-131 | the result is `Lookup` of the table: the row under the digest, which is a scanned row carrying its value's analysis, or 404 |
| RecordStore.Store.Delete | main.py:241-253 | 404 and nothing changes when no row has the digest; otherwise the table is `Remove`'s and the id leaves the scan order |
| RecordStore.Store.Scan | main.py:178-189 | the loop collects exactly `Select` of the scanned rows, in scan order |
| RecordStore.Store.ListStrings | main.py:155-191 | the filters are the given parameters; `data` is the selected rows in scan order; `count` is its length; a row is listed iff its string matches the filters |
| RecordStore.Store.FilterByNaturalLanguage | main.py:193-239 | 400 exactly when the query is unparseable; otherwise the parsed filters, the original query, the selected rows and their count |

`Analyzer.AnalyzeConsistent` states that:
- every character maps to its number of occurrences, and only characters of
  the string are keys;
- the counts sum to `length`;
- the number of keys is `unique_characters`;
- `word_count` counts the whitespace-separated runs and is 0 exactly for a
  blank string;
- a blank string is a palindrome;
- the digest is the hash of the value.

`Filters.ApplyFiltersMeaning` states that a row passes iff every present filter
holds:
- `is_palindrome` and `word_count` by equality;
- `min_length <= length <= max_length`;
- `contains_character` when it is exactly one character and a key of the
  frequency map.

`Filters.FiltersOnAnalyzed` states that, on the analysis of a string:
- `contains_character` c holds iff c occurs in the string;
- `word_count` counts its whitespace-separated runs;
- the length bounds bound its length.

`NaturalLanguage.Parse` sets each key by its own rule, independently of the
order the rules run in. `NaturalLanguage.ParseQuery` proves that the sequential,
overwriting code computes the same result.

Behaviour of the code worth knowing:

- A bare "longer than N" sets `min_length` to N. Only "strings longer than N"
  sets N + 1. The source's own comment at main.py:205 expects "longer than 10"
  to give a minimum length of 11, that is N + 1 for the bare phrase too.
- "A man a man" is not a palindrome. Folded, it reads "amanaman", whose reverse
  is "namanama".
- `contains_character` checks whether the character is a key of the frequency
  map.
- A `contains_character` longer than one character rejects every row. It does
  not cause an error.

## Left out

- FastAPI routing, pydantic models and HTTP plumbing are not modelled. Outcomes are `Result` values, with 409, 404 and 400 as `Error` cases.
- Routing order is not modelled. `GET /strings/{string_value}` (main.py:113) is declared before `GET /strings/filter-by-natural-language` (main.py:193), and the router takes the first route that matches the whole path. So a request for the second path always reaches `get_string`, with `string_value` equal to `filter-by-natural-language`, and `filter_by_nl` cannot be reached over HTTP. This is a defect in the source. The model treats the two as separate operations, so `RecordStore.Store.FilterByNaturalLanguage` describes the handler as written, not what a request to that path returns.
- `Query` parameter validation (`ge=0`, and `contains_character` of length exactly 1) is not modelled. `RecordStore.Store.ListStrings` accepts any values, and `apply_filters_row` handles them as written.
- The `isinstance` and `None` checks of `analyze_string` and `create_string` (400, 422, `ValueError`) are not modelled. They are unreachable for typed string input.
- SQLite, connections, cursors, transactions and `rowcount` are not modelled. The table is an in-memory map.
- The check-then-insert race between concurrent creates is not modelled. The model is sequential.
- A full scan without `ORDER BY` has no specified order. The model scans in insertion order.
- `RecordStore.Store.Create`: the SHA-256 digest is not modelled. `hash` is a parameter and is not assumed injective, so `RecordStore.LookupByDigest` shows that two values with the same digest share one row.
- The `json.dumps`/`json.loads` round trip of the stored properties is taken to be the identity.
- `datetime.now(timezone.utc).isoformat()` is not modelled. The timestamp is the `createdAt` parameter of `Create`.
- Text.Lower: lowercases ASCII `A`–`Z` only. Python's `str.lower` also maps other letters, some of them to more than one character, and that is not modelled.
- NaturalLanguage.Number: does not model the length limit on integer conversion. Since Python 3.11 (and the 3.8.14, 3.9.14 and 3.10.7 releases), `int()` raises `ValueError` on a string of more than 4300 digits. `filter_by_nl` does not catch it (main.py:205, main.py:208), so such a query is answered with status 500. The model converts a digit run of any length and returns `Ok` with that `min_length`.
- Text.IsDigit: accepts ASCII `0`–`9` only. Python's `\d` and `int()` on `str` also accept other Unicode decimal digits, and that is not modelled.
- Analyzer.Analyze: computes the frequency map with the function `Frequencies`, because functions cannot call methods. `Analyzer.CharacterFrequencyMap` is proved to compute the same dictionary with the source's loop.
- The startup hook and `init_db`'s table creation are not modelled beyond the empty table of the constructor.
