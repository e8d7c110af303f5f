/**
 * The string analyser: the property set computed for every stored string
 * (main.py, `is_palindrome`, `character_frequency_map`, `analyze_string`).
 */
module Analyzer {
  import opened Text

  /** The `properties` dictionary built by `analyze_string`. */
  datatype Properties = Properties(
    length: nat,
    isPalindrome: bool,
    uniqueCharacters: nat,
    wordCount: nat,
    sha256Hash: String,
    characterFrequencyMap: map<char, nat>)

  // ---------------- palindrome ----------------

  /** The text the palindrome test compares with its reverse: whitespace removed, then lowercased. */
  function Folded(v: String): String {
    LowerAll(RemoveSpaces(v))
  }

  /** `is_palindrome`. */
  predicate IsPalindrome(v: String) {
    Folded(v) == Reverse(Folded(v))
  }

  /**
   * The palindrome test reads the folded text the same forwards and
   * backwards, position by position; in particular an empty or
   * all-whitespace string is a palindrome.
   */
  lemma PalindromeMeaning(v: String)
    ensures IsPalindrome(v) <==> forall i | 0 <= i < |Folded(v)| :: Folded(v)[i] == Folded(v)[|Folded(v)| - 1 - i]
    ensures AllSpace(v) ==> IsPalindrome(v)
  {
    if AllSpace(v) {
      RemoveSpacesOfAllSpace(v);
    }
  }

  lemma {:induction false} RemoveSpacesReverse(s: String)
    ensures RemoveSpaces(Reverse(s)) == Reverse(RemoveSpaces(s))
  {
    if s != [] {
      var rest := s[1..];
      assert Reverse(s) == Reverse(rest) + [s[0]];
      RemoveSpacesAppend(Reverse(rest), [s[0]]);
      RemoveSpacesReverse(rest);
      var head := if IsSpace(s[0]) then [] else [s[0]];
      assert RemoveSpaces([s[0]]) == head;
      assert Reverse(head + RemoveSpaces(rest)) == Reverse(RemoveSpaces(rest)) + head;
    }
  }

  lemma {:induction false} RemoveSpacesLower(s: String)
    ensures RemoveSpaces(LowerAll(s)) == LowerAll(RemoveSpaces(s))
  {
    if s != [] {
      assert LowerAll(s)[1..] == LowerAll(s[1..]);
      RemoveSpacesLower(s[1..]);
      var head := if IsSpace(s[0]) then [] else [s[0]];
      assert LowerAll(head + RemoveSpaces(s[1..])) == LowerAll(head) + LowerAll(RemoveSpaces(s[1..]));
    }
  }

  /** Reading a string backwards does not change whether it is a palindrome. */
  lemma PalindromeReverse(v: String)
    ensures IsPalindrome(Reverse(v)) == IsPalindrome(v)
  {
    RemoveSpacesReverse(v);
    var f := Folded(v);
    assert Folded(Reverse(v)) == Reverse(f);
    assert Reverse(Reverse(f)) == f;
    if IsPalindrome(Reverse(v)) {
      assert Reverse(f) == f;
    }
  }

  /** Case and whitespace are ignored: lowercasing or removing the whitespace first gives the same answer. */
  lemma PalindromeIgnoresCaseAndSpaces(v: String)
    ensures IsPalindrome(LowerAll(v)) == IsPalindrome(v)
    ensures IsPalindrome(RemoveSpaces(v)) == IsPalindrome(v)
  {
    RemoveSpacesLower(v);
    var r := RemoveSpaces(v);
    assert LowerAll(LowerAll(r)) == LowerAll(r);
    RemoveSpacesOfNoSpace(r);
  }

  // ---------------- character frequencies ----------------

  /** Number of occurrences of `c` in `s`. */
  function Count(s: String, c: char): nat {
    if s == [] then 0 else (if s[0] == c then 1 else 0) + Count(s[1..], c)
  }

  lemma {:induction false} CountAppend(a: String, b: String, c: char)
    ensures Count(a + b, c) == Count(a, c) + Count(b, c)
  {
    if a == [] {
      assert a + b == b;
    } else {
      assert (a + b)[0] == a[0] && (a + b)[1..] == a[1..] + b;
      CountAppend(a[1..], b, c);
    }
  }

  lemma {:induction false} CountPositive(s: String, c: char)
    ensures Count(s, c) > 0 <==> c in s
  {
    if s != [] {
      CountPositive(s[1..], c);
      assert c in s <==> s[0] == c || c in s[1..];
    }
  }

  /** The dictionary `character_frequency_map` returns, defined by counting. */
  function Frequencies(s: String): map<char, nat> {
    map c | c in s :: Count(s, c)
  }

  /** Appending one character bumps its count by one (or adds it with count 1). */
  lemma FrequenciesSnoc(s: String, x: char)
    ensures var m := Frequencies(s);
            Frequencies(s + [x]) == m[x := (if x in m then m[x] else 0) + 1]
  {
    var m := Frequencies(s);
    var lhs := Frequencies(s + [x]);
    var rhs := m[x := (if x in m then m[x] else 0) + 1];
    forall c ensures (c in lhs <==> c in rhs) && (c in lhs ==> lhs[c] == rhs[c]) {
      CountAppend(s, [x], c);
      assert Count([x], c) == if x == c then 1 else 0;
      CountPositive(s, c);
      assert c in s + [x] <==> c in s || c == x;
    }
  }

  /** `character_frequency_map`: the loop that tallies each character into a dictionary. */
  method CharacterFrequencyMap(value: String) returns (freq: map<char, nat>)
    ensures freq == Frequencies(value)
  {
    freq := map[];
    for i := 0 to |value|
      invariant freq == Frequencies(value[..i])
    {
      var ch := value[i];
      FrequenciesSnoc(value[..i], ch);
      assert value[..i + 1] == value[..i] + [ch];
      freq := freq[ch := (if ch in freq then freq[ch] else 0) + 1];
    }
    assert value[..|value|] == value;
  }

  /** Sum of the values of a frequency map. */
  ghost function Total(m: map<char, nat>): nat
    decreases |m|
  {
    if m == map[] then 0
    else
      var c :| c in m;
      m[c] + Total(m - {c})
  }

  lemma {:induction false} TotalRemove(m: map<char, nat>, c: char)
    requires c in m
    ensures Total(m) == m[c] + Total(m - {c})
    decreases |m|
  {
    var d :| d in m && Total(m) == m[d] + Total(m - {d});
    if d != c {
      TotalRemove(m - {d}, c);
      TotalRemove(m - {c}, d);
      assert m - {d} - {c} == m - {c} - {d};
    }
  }

  /**
   * The keys of the frequency map are the characters of `s`, each mapped to
   * its (positive) number of occurrences, so there are as many keys as
   * distinct characters.
   */
  lemma FrequencyKeys(s: String)
    ensures forall c :: c in Frequencies(s) <==> c in s
    ensures forall c | c in Frequencies(s) :: Frequencies(s)[c] == Count(s, c) > 0
    ensures |Frequencies(s).Keys| == |set c | c in s|
  {
    forall c | c in s { CountPositive(s, c); }
    assert Frequencies(s).Keys == set c | c in s;
  }

  /** The counts of the frequency map add up to the length of the string. */
  lemma {:induction false} FrequenciesTotal(s: String)
    ensures Total(Frequencies(s)) == |s|
  {
    if s == [] {
      assert Frequencies(s) == map[];
    } else {
      var init, x := s[..|s| - 1], s[|s| - 1];
      assert s == init + [x];
      FrequenciesTotal(init);
      FrequenciesSnoc(init, x);
      TotalBump(Frequencies(init), x);
    }
  }

  /** Bumping one count by one raises the total by one. */
  lemma TotalBump(m: map<char, nat>, x: char)
    ensures Total(m[x := (if x in m then m[x] else 0) + 1]) == Total(m) + 1
  {
    var m' := m[x := (if x in m then m[x] else 0) + 1];
    TotalRemove(m', x);
    assert m' - {x} == m - {x};
    if x in m { TotalRemove(m, x); } else { assert m - {x} == m; }
  }

  // ---------------- words ----------------

  /** Length of the maximal whitespace-free prefix of `s`. */
  function WordLength(s: String): (n: nat)
    ensures n <= |s|
    ensures n == |s| || IsSpace(s[n])
  {
    if s == [] || IsSpace(s[0]) then 0 else 1 + WordLength(s[1..])
  }

  lemma {:induction false} WordLengthNoSpace(s: String)
    ensures forall i | 0 <= i < WordLength(s) :: !IsSpace(s[i])
  {
    if s != [] && !IsSpace(s[0]) {
      WordLengthNoSpace(s[1..]);
    }
  }

  /** `s.split()`: the maximal whitespace-free runs, in order. */
  function Split(s: String): seq<String>
    decreases |s|
  {
    var t := TrimStart(s);
    if t == [] then []
    else
      var n := WordLength(t);
      [t[..n]] + Split(t[n..])
  }

  /** The `word_count` expression: 0 for a blank string, otherwise the number of tokens of `split()`. */
  function WordCount(v: String): nat {
    if Strip(v) == [] then 0 else |Split(v)|
  }

  /** Number of positions of `s` where a maximal run of non-whitespace characters ends. */
  function RunCount(s: String): nat {
    if s == [] then 0
    else (if !IsSpace(s[0]) && (|s| == 1 || IsSpace(s[1])) then 1 else 0) + RunCount(s[1..])
  }

  lemma {:induction false} RunCountSpaces(p: String, t: String)
    requires AllSpace(p)
    ensures RunCount(p + t) == RunCount(t)
  {
    if p == [] {
      assert p + t == t;
    } else {
      assert (p + t)[0] == p[0] && (p + t)[1..] == p[1..] + t;
      RunCountSpaces(p[1..], t);
    }
  }

  lemma {:induction false} RunCountBlank(s: String)
    requires AllSpace(s)
    ensures RunCount(s) == 0
  {
    if s != [] {
      RunCountBlank(s[1..]);
    }
  }

  lemma {:induction false} RunCountWord(w: String, rest: String)
    requires w != [] && NoSpace(w)
    requires rest == [] || IsSpace(rest[0])
    ensures RunCount(w + rest) == 1 + RunCount(rest)
  {
    assert (w + rest)[0] == w[0] && (w + rest)[1..] == w[1..] + rest;
    if |w| > 1 {
      assert (w + rest)[1] == w[1];
      RunCountWord(w[1..], rest);
    }
  }

  /** A token of `split()`: a non-empty run of non-whitespace characters. */
  predicate IsWord(w: String) {
    w != [] && NoSpace(w)
  }

  /** One step of `split()`: skip the leading whitespace, then take the maximal word. */
  lemma SplitStep(s: String) returns (p: String, w: String, rest: String)
    requires !AllSpace(s)
    ensures s == p + (w + rest) && AllSpace(p) && IsWord(w)
    ensures rest == [] || IsSpace(rest[0])
    ensures Split(s) == [w] + Split(rest)
  {
    var k := LeadingSpaces(s);
    assert k < |s| && AllSpace(s[..k]) by {
      LeadingSpacesAreSpaces(s);
      forall i | 0 <= i < k ensures IsSpace(s[..k][i]) { assert s[..k][i] == s[i]; }
    }
    var t := TrimStart(s);
    var n := WordLength(t);
    p, w, rest := s[..k], t[..n], t[n..];
    assert IsWord(w) by {
      WordLengthNoSpace(t);
      assert t[0] == s[k];
      forall i | 0 <= i < n ensures !IsSpace(w[i]) { assert w[i] == t[i]; }
    }
    assert t == w + rest;
    assert s == p + t;
  }

  /** Every token of `split()` is a non-empty run of non-whitespace characters. */
  lemma {:induction false} SplitTokens(s: String)
    ensures forall w | w in Split(s) :: IsWord(w)
    decreases |s|
  {
    if !AllSpace(s) {
      var p, w, rest := SplitStep(s);
      SplitTokens(rest);
    } else {
      SplitEmpty(s);
    }
  }

  /** `split()` yields one token per maximal run of non-whitespace characters. */
  lemma {:induction false} SplitRunCount(s: String)
    ensures |Split(s)| == RunCount(s)
    decreases |s|
  {
    if !AllSpace(s) {
      var p, w, rest := SplitStep(s);
      SplitRunCount(rest);
      RunCountWord(w, rest);
      RunCountSpaces(p, w + rest);
    } else {
      SplitEmpty(s);
      RunCountBlank(s);
    }
  }

  /** `split()` yields no token exactly when the string is blank. */
  lemma SplitEmpty(s: String)
    ensures Split(s) == [] <==> AllSpace(s)
  {
    LeadingSpacesAreSpaces(s);
  }

  /** Joining the tokens of `split()` gives back the string with its whitespace removed. */
  lemma {:induction false} SplitJoin(s: String)
    ensures Concat(Split(s)) == RemoveSpaces(s)
    decreases |s|
  {
    if !AllSpace(s) {
      var p, w, rest := SplitStep(s);
      SplitJoin(rest);
      assert ([w] + Split(rest))[1..] == Split(rest);
      RemoveSpacesAppend(p, w + rest);
      RemoveSpacesAppend(w, rest);
      RemoveSpacesOfAllSpace(p);
      RemoveSpacesOfNoSpace(w);
    } else {
      SplitEmpty(s);
      RemoveSpacesOfAllSpace(s);
    }
  }

  function Concat(ws: seq<String>): String {
    if ws == [] then [] else ws[0] + Concat(ws[1..])
  }

  /** `word_count` is the number of maximal non-whitespace runs, and 0 exactly when the string is blank. */
  lemma WordCountMeaning(v: String)
    ensures WordCount(v) == RunCount(v)
    ensures WordCount(v) == 0 <==> AllSpace(v)
  {
    SplitRunCount(v);
    SplitEmpty(v);
    StripMeaning(v);
  }

  // ---------------- analyze_string ----------------

  /** `analyze_string`; `hash` stands for `sha256_hash`. */
  function Analyze(value: String, hash: String -> String): Properties {
    Properties(
      length := |value|,
      isPalindrome := IsPalindrome(value),
      uniqueCharacters := |set c | c in value|,
      wordCount := WordCount(value),
      sha256Hash := hash(value),
      characterFrequencyMap := Frequencies(value))
  }

  /**
   * The analysed properties agree with one another: the frequency map
   * counts every character, its counts add up to `length`, it has
   * `unique_characters` keys, `word_count` counts the maximal runs and is 0
   * exactly for a blank string, and the digest is the hash of the value.
   */
  lemma AnalyzeConsistent(value: String, hash: String -> String)
    ensures var p := Analyze(value, hash);
            && p.length == |value|
            && p.sha256Hash == hash(value)
            && (forall c :: c in p.characterFrequencyMap <==> c in value)
            && (forall c | c in p.characterFrequencyMap :: p.characterFrequencyMap[c] == Count(value, c) > 0)
            && Total(p.characterFrequencyMap) == p.length
            && |p.characterFrequencyMap.Keys| == p.uniqueCharacters
            && p.wordCount == RunCount(value)
            && (p.wordCount == 0 <==> AllSpace(value))
            && (AllSpace(value) ==> p.isPalindrome)
  {
    FrequencyKeys(value);
    FrequenciesTotal(value);
    WordCountMeaning(value);
    PalindromeMeaning(value);
  }

  /** `analyze_string("")`. */
  lemma AnalyzeEmpty(hash: String -> String)
    ensures Analyze("", hash) == Properties(0, true, 0, 0, hash(""), map[])
  {
    assert (set c | c in "") == {};
  }

  /** `analyze_string("hello")`. */
  lemma AnalyzeHello(hash: String -> String)
    ensures Analyze("hello", hash) == Properties(5, false, 4, 1, hash("hello"), map['h' := 1, 'e' := 1, 'l' := 2, 'o' := 1])
  {
    var p := Analyze("hello", hash);
    assert p.uniqueCharacters == 4 by { HelloUnique(); }
    assert p.characterFrequencyMap == map['h' := 1, 'e' := 1, 'l' := 2, 'o' := 1] by { HelloCounts(); }
    assert p.wordCount == 1 by { HelloWords(); }
    assert !p.isPalindrome by { HelloNotPalindrome(); }
  }

  lemma HelloNotPalindrome()
    ensures !IsPalindrome("hello")
  {
    EndsDiffer("hello");
  }

  lemma HelloWords()
    ensures WordCount("hello") == 1
  {
    var v := "hello";
    assert NoSpace(v) && v + [] == v;
    RunCountWord(v, []);
    WordCountMeaning(v);
  }

  lemma HelloUnique()
    ensures |set c | c in "hello"| == 4
  {
    var v := "hello";
    assert (set c | c in v) == {'h', 'e', 'l', 'o'};
    assert |{'h', 'e', 'l', 'o'}| == 4;
  }

  lemma HelloCounts()
    ensures Frequencies("hello") == map['h' := 1, 'e' := 1, 'l' := 2, 'o' := 1]
  {
    var f := Frequencies("hello");
    assert f.Keys == {'h', 'e', 'l', 'o'} by { FrequencyKeys("hello"); }
    assert f['h'] == 1 && f['e'] == 1 && f['l'] == 2 && f['o'] == 1 by { FrequencyKeys("hello"); }
  }

  /** "Racecar" is a palindrome once its case is ignored. */
  lemma RacecarIsPalindrome()
    ensures IsPalindrome("Racecar")
  {
    assert Folded("Racecar") == "racecar" by {
      assert NoSpace("Racecar");
      RemoveSpacesOfNoSpace("Racecar");
      assert LowerAll("Racecar")[0] == 'r';
    }
    RacecarReversed();
  }

  lemma RacecarReversed()
    ensures Reverse("racecar") == "racecar"
  {
    var f := "racecar";
    assert Reverse(f)[0] == f[0] && Reverse(f)[1] == f[1] && Reverse(f)[2] == f[2];
    assert Reverse(f)[4] == f[4] && Reverse(f)[5] == f[5] && Reverse(f)[6] == f[6];
  }

  /**
   * A string whose first and last characters are not whitespace and differ
   * even after lowercasing is not a palindrome.
   */
  lemma EndsDiffer(v: String)
    requires |v| > 0 && !IsSpace(v[0]) && !IsSpace(v[|v| - 1])
    requires Lower(v[0]) != Lower(v[|v| - 1])
    ensures !IsPalindrome(v)
  {
    var r := RemoveSpaces(v);
    assert r[0] == v[0];
    var init := v[..|v| - 1];
    assert v == init + [v[|v| - 1]];
    RemoveSpacesAppend(init, [v[|v| - 1]]);
    assert RemoveSpaces([v[|v| - 1]]) == [v[|v| - 1]];
    assert r[|r| - 1] == v[|v| - 1];
    assert Reverse(Folded(v))[0] == Folded(v)[|r| - 1];
  }

  /** "A man a man" folds to "amanaman", which reads "namanama" backwards: not a palindrome. */
  lemma AManAManIsNotPalindrome()
    ensures !IsPalindrome("A man a man")
  {
    EndsDiffer("A man a man");
  }
}
