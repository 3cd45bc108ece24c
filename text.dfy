/** Substring tests on strings: Python's `w in s`, and the case-insensitive regular-expression search pandas runs for `str.contains(w, case=False)`. */
module Text {

  /** `w` occurs in `s` starting at position `i`. */
  predicate OccursAt(s: string, w: string, i: nat)
  {
    i + |w| <= |s| && s[i..i + |w|] == w
  }

  /** Python's `w in s` for strings. */
  predicate Contains(s: string, w: string)
  {
    exists i: nat | i <= |s| :: OccursAt(s, w, i)
  }

  /**
   * The text character `c` matches the lower-case pattern character `p` under
   * Python's `re.IGNORECASE`: the character itself, its ASCII upper-case form,
   * and the non-ASCII characters the regular-expression engine folds onto an
   * ASCII letter (U+017F LATIN SMALL LETTER LONG S onto `s`, U+212A KELVIN SIGN
   * onto `k`, U+0130 and U+0131 onto `i`).
   */
  predicate MatchesIgnoringCase(c: char, p: char)
  {
    || c == p
    || ('a' <= p <= 'z' && c as int == p as int - 32)
    || (p == 's' && c == '\U{17F}')
    || (p == 'k' && c == '\U{212A}')
    || (p == 'i' && (c == '\U{130}' || c == '\U{131}'))
  }

  /** `w` (written in lower case) occurs in `s` at position `i`, ignoring case. */
  predicate OccursIgnoringCaseAt(s: string, w: string, i: nat)
  {
    i + |w| <= |s| && forall k :: 0 <= k < |w| ==> MatchesIgnoringCase(s[i + k], w[k])
  }

  /**
   * `re.search(w, s, re.IGNORECASE)` succeeds, for a pattern `w` without
   * special characters. An occurrence needs room for the whole pattern, and
   * every exact occurrence is also one when case is ignored.
   */
  predicate ContainsIgnoringCase(s: string, w: string): (b: bool)
    ensures b ==> |w| <= |s|
    ensures Contains(s, w) ==> b
  {
    assert Contains(s, w) ==> exists i: nat | i <= |s| :: OccursIgnoringCaseAt(s, w, i) by {
      if Contains(s, w) {
        var i: nat :| i <= |s| && OccursAt(s, w, i);
        forall k | 0 <= k < |w|
          ensures MatchesIgnoringCase(s[i + k], w[k])
        {
          assert s[i..i + |w|][k] == s[i + k];
        }
        assert OccursIgnoringCaseAt(s, w, i);
      }
    }
    exists i: nat | i <= |s| :: OccursIgnoringCaseAt(s, w, i)
  }

  /** A lower-case ASCII character and its upper-case form. */
  predicate SameLetterAnyCase(c: char, p: char)
  {
    c == p || ('a' <= p <= 'z' && c as int == p as int - 32)
  }

  /**
   * Every spelling of `w` that differs from it only in the case of its ASCII
   * letters ("As of", "AS OF", "aS oF", ...) is found by the case-insensitive
   * search, wherever it stands in `s`.
   */
  lemma AnyCaseSpellingIsFound(s: string, w: string, i: nat)
    requires i + |w| <= |s|
    requires forall k :: 0 <= k < |w| ==> SameLetterAnyCase(s[i + k], w[k])
    ensures ContainsIgnoringCase(s, w)
  {
    assert OccursIgnoringCaseAt(s, w, i);
  }
}
