/**
 * Character-level helpers standing in for Python's string primitives:
 * the whitespace class shared by `re`'s `\s`, `str.split()` and `str.strip()`,
 * per-character lowercasing, reversal and substring search.
 */
module Text {

  type String = seq<char>

  /** Python's whitespace class (the code points for which `str.isspace()` holds). */
  predicate IsSpace(c: char) {
    || ('\t' <= c <= '\r')
    || ('\U{1c}' <= c <= '\U{1f}')
    || c == ' '
    || c == '\U{85}'
    || c == '\U{a0}'
    || c == '\U{1680}'
    || ('\U{2000}' <= c <= '\U{200a}')
    || c == '\U{2028}'
    || c == '\U{2029}'
    || c == '\U{202f}'
    || c == '\U{205f}'
    || c == '\U{3000}'
  }

  /** Lowercasing of one character, restricted to the ASCII letters. */
  function Lower(c: char): (r: char)
    ensures IsSpace(r) == IsSpace(c)
    ensures ('A' <= c <= 'Z') == ('a' <= r <= 'z' && r != c)
    ensures 'A' <= c <= 'Z' ==> r as int - c as int == 'a' as int - 'A' as int
    ensures !('A' <= c <= 'Z') ==> r == c
  {
    if 'A' <= c <= 'Z' then (c as int + 32) as char else c
  }

  /** `s.lower()`, character by character. */
  function LowerAll(s: String): (r: String)
    ensures |r| == |s|
    ensures forall i | 0 <= i < |s| :: r[i] == Lower(s[i])
  {
    seq(|s|, i requires 0 <= i < |s| => Lower(s[i]))
  }

  /** `s[::-1]`. */
  function Reverse(s: String): (r: String)
    ensures |r| == |s|
    ensures forall i | 0 <= i < |s| :: r[i] == s[|s| - 1 - i]
  {
    seq(|s|, i requires 0 <= i < |s| => s[|s| - 1 - i])
  }

  predicate AllSpace(s: String) {
    forall i | 0 <= i < |s| :: IsSpace(s[i])
  }

  predicate NoSpace(s: String) {
    forall i | 0 <= i < |s| :: !IsSpace(s[i])
  }

  /** `re.sub(r"\s+", "", s)`: every whitespace character removed. */
  function RemoveSpaces(s: String): (r: String)
    ensures NoSpace(r)
    ensures |r| <= |s|
  {
    if s == [] then []
    else (if IsSpace(s[0]) then [] else [s[0]]) + RemoveSpaces(s[1..])
  }

  lemma {:induction false} RemoveSpacesAppend(a: String, b: String)
    ensures RemoveSpaces(a + b) == RemoveSpaces(a) + RemoveSpaces(b)
  {
    if a != [] {
      assert (a + b)[0] == a[0] && (a + b)[1..] == a[1..] + b;
      RemoveSpacesAppend(a[1..], b);
    } else {
      assert a + b == b;
    }
  }

  lemma {:induction false} RemoveSpacesOfAllSpace(s: String)
    requires AllSpace(s)
    ensures RemoveSpaces(s) == []
  {
    if s != [] {
      RemoveSpacesOfAllSpace(s[1..]);
    }
  }

  lemma {:induction false} RemoveSpacesOfNoSpace(s: String)
    requires NoSpace(s)
    ensures RemoveSpaces(s) == s
  {
    if s != [] {
      RemoveSpacesOfNoSpace(s[1..]);
    }
  }

  /** Number of whitespace characters at the start of `s`. */
  function LeadingSpaces(s: String): (n: nat)
    ensures n <= |s|
    ensures n < |s| ==> !IsSpace(s[n])
  {
    if s != [] && IsSpace(s[0]) then 1 + LeadingSpaces(s[1..]) else 0
  }

  lemma {:induction false} LeadingSpacesAreSpaces(s: String)
    ensures forall i | 0 <= i < LeadingSpaces(s) :: IsSpace(s[i])
  {
    if s != [] && IsSpace(s[0]) {
      LeadingSpacesAreSpaces(s[1..]);
    }
  }

  /** Number of whitespace characters at the end of `s`. */
  function TrailingSpaces(s: String): (n: nat)
    ensures n <= |s|
    ensures n < |s| ==> !IsSpace(s[|s| - 1 - n])
  {
    if s != [] && IsSpace(s[|s| - 1]) then 1 + TrailingSpaces(s[..|s| - 1]) else 0
  }

  lemma {:induction false} TrailingSpacesAreSpaces(s: String)
    ensures forall i | |s| - TrailingSpaces(s) <= i < |s| :: IsSpace(s[i])
  {
    if s != [] && IsSpace(s[|s| - 1]) {
      TrailingSpacesAreSpaces(s[..|s| - 1]);
    }
  }

  /** `s.lstrip()`. */
  function TrimStart(s: String): String {
    s[LeadingSpaces(s)..]
  }

  /** `s.rstrip()`. */
  function TrimEnd(s: String): String {
    s[..|s| - TrailingSpaces(s)]
  }

  /** `s.strip()`. */
  function Strip(s: String): String {
    TrimEnd(TrimStart(s))
  }

  /**
   * `s.strip()` is the slice of `s` left after removing whitespace at both
   * ends; it is empty exactly when `s` is all whitespace.
   */
  lemma StripMeaning(s: String)
    ensures exists i, j | 0 <= i <= j <= |s| :: Strip(s) == s[i..j] && AllSpace(s[..i]) && AllSpace(s[j..])
    ensures Strip(s) != [] ==> !IsSpace(Strip(s)[0]) && !IsSpace(Strip(s)[|Strip(s)| - 1])
    ensures Strip(s) == [] <==> AllSpace(s)
  {
    var i := LeadingSpaces(s);
    var t := s[i..];
    var e := TrailingSpaces(t);
    var j := |s| - e;
    LeadingSpacesAreSpaces(s);
    TrailingSpacesAreSpaces(t);
    assert Strip(s) == s[i..j];
    assert AllSpace(s[..i]);
    assert forall k | j <= k < |s| :: IsSpace(s[k]) by {
      forall k | j <= k < |s| ensures IsSpace(s[k]) {
        assert s[k] == t[k - i];
      }
    }
    assert AllSpace(s[j..]);
    if i < |s| {
      assert !IsSpace(s[i]);
    }
  }

  /** `pat` occurs in `s` starting at index `i`. */
  predicate OccursAt(s: String, pat: String, i: int) {
    0 <= i && i + |pat| <= |s| && s[i..i + |pat|] == pat
  }

  /** `pat in s`, searching from index `from` on. */
  function ContainsFrom(s: String, pat: String, from: nat): bool
    decreases |s| - from
  {
    if from + |pat| > |s| then false
    else if s[from..from + |pat|] == pat then true
    else ContainsFrom(s, pat, from + 1)
  }

  lemma {:induction false} ContainsFromMeaning(s: String, pat: String, from: nat)
    ensures ContainsFrom(s, pat, from) <==> exists i | from <= i :: OccursAt(s, pat, i)
    decreases |s| - from
  {
    if from + |pat| > |s| {
    } else if s[from..from + |pat|] == pat {
      assert OccursAt(s, pat, from);
    } else {
      ContainsFromMeaning(s, pat, from + 1);
      assert !OccursAt(s, pat, from);
    }
  }

  /** Python's `pat in s`. */
  function Contains(s: String, pat: String): bool {
    ContainsFrom(s, pat, 0)
  }

  /** `pat in s` holds exactly when `pat` occurs somewhere in `s`. */
  lemma ContainsMeaning(s: String, pat: String)
    ensures Contains(s, pat) <==> exists i :: OccursAt(s, pat, i)
  {
    ContainsFromMeaning(s, pat, 0);
  }

  predicate IsDigit(c: char) {
    '0' <= c <= '9'
  }

  /** `int(ds)` for a run of ASCII digits. */
  function DecimalValue(ds: String): (n: nat)
    requires forall i | 0 <= i < |ds| :: IsDigit(ds[i])
  {
    if ds == [] then 0
    else
      assert IsDigit(ds[|ds| - 1]);
      DecimalValue(ds[..|ds| - 1]) * 10 + (ds[|ds| - 1] as int - '0' as int)
  }

  /** `10 ** n`. */
  function Pow10(n: nat): (p: nat)
    ensures p >= 1
  {
    if n == 0 then 1 else 10 * Pow10(n - 1)
  }

  /** Reading `a + b` reads `a`, shifted left by the digits of `b`, then `b`. */
  lemma {:induction false} DecimalValueAppend(a: String, b: String)
    requires forall i | 0 <= i < |a| :: IsDigit(a[i])
    requires forall i | 0 <= i < |b| :: IsDigit(b[i])
    ensures forall i | 0 <= i < |a + b| :: IsDigit((a + b)[i])
    ensures DecimalValue(a + b) == DecimalValue(a) * Pow10(|b|) + DecimalValue(b)
    decreases |b|
  {
    DigitsAppend(a, b);
    if b == [] {
      assert a + b == a;
    } else {
      var init := b[..|b| - 1];
      assert (a + b)[..|a + b| - 1] == a + init;
      assert (a + b)[|a + b| - 1] == b[|b| - 1];
      assert b[..|b| - 1] == init;
      DecimalValueAppend(a, init);
      var d := b[|b| - 1] as int - '0' as int;
      ShiftDigit(DecimalValue(a + b), DecimalValue(b), Pow10(|b|), DecimalValue(a + init),
                 DecimalValue(a), Pow10(|init|), DecimalValue(init), d);
    }
  }

  /** Digit runs are closed under concatenation. */
  lemma DigitsAppend(a: String, b: String)
    requires forall i | 0 <= i < |a| :: IsDigit(a[i])
    requires forall i | 0 <= i < |b| :: IsDigit(b[i])
    ensures forall i | 0 <= i < |a + b| :: IsDigit((a + b)[i])
  {
    forall i | 0 <= i < |a + b| ensures IsDigit((a + b)[i]) {
      if i < |a| { assert (a + b)[i] == a[i]; } else { assert (a + b)[i] == b[i - |a|]; }
    }
  }

  /** Appending digit `d` to a number read as `x * p + y`. */
  lemma ShiftDigit(v: int, vb: int, pb: int, w: int, x: int, p: int, y: int, d: int)
    requires w == x * p + y && v == w * 10 + d && vb == y * 10 + d && pb == 10 * p
    ensures v == x * pb + vb
  {
    calc {
      v;
      (x * p + y) * 10 + d;
      x * (p * 10) + (y * 10 + d);
    }
  }

  /** Leading zeros do not change the value: `int("007") == 7`. */
  lemma DecimalValueLeadingZero(ds: String)
    requires forall i | 0 <= i < |ds| :: IsDigit(ds[i])
    ensures forall i | 0 <= i < |['0'] + ds| :: IsDigit((['0'] + ds)[i])
    ensures DecimalValue(['0'] + ds) == DecimalValue(ds)
  {
    assert DecimalValue(['0']) == 0 by { assert ['0'][..0] == []; }
    DecimalValueAppend(['0'], ds);
  }

  /** A run of `n` digits reads as a number below `10^n`. */
  lemma {:induction false} DecimalValueBound(ds: String)
    requires forall i | 0 <= i < |ds| :: IsDigit(ds[i])
    ensures DecimalValue(ds) < Pow10(|ds|)
    decreases |ds|
  {
    if ds != [] {
      DecimalValueBound(ds[..|ds| - 1]);
    }
  }
}
