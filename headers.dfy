/**
 * Header canonicalisation: the chain
 * `str.strip().str.lower().str.replace(' ', '_').str.replace(r'[^a-z0-9_]', '')`
 * applied to every column header of the scraped table.
 */
module Headers {
  import Sequences

  /** The characters Python's `str.isspace()` accepts, which `str.strip()` removes from both ends. */
  predicate IsSpace(c: char)
  {
    || ('\t' <= c <= '\r')
    || ('\U{1C}' <= c <= ' ')
    || c == '\U{85}' || c == '\U{A0}' || c == '\U{1680}'
    || ('\U{2000}' <= c <= '\U{200A}')
    || c == '\U{2028}' || c == '\U{2029}' || c == '\U{202F}' || c == '\U{205F}' || c == '\U{3000}'
  }

  /** Every character of `s` outside the `n` positions starting at `i` is whitespace. */
  ghost predicate SpaceOutside(s: string, i: int, n: int)
  {
    forall k :: 0 <= k < |s| && !(i <= k < i + n) ==> IsSpace(s[k])
  }

  /** The characters the final regular expression keeps: `[a-z0-9_]`. */
  predicate IsCanonicalChar(c: char)
  {
    ('a' <= c <= 'z') || ('0' <= c <= '9') || c == '_'
  }

  ghost predicate IsCanonical(s: string)
  {
    forall k :: 0 <= k < |s| ==> IsCanonicalChar(s[k])
  }

  /** The number of whitespace characters `s` starts with. */
  function LeadingSpaces(s: string): (n: nat)
    ensures n <= |s|
    ensures forall k :: 0 <= k < n ==> IsSpace(s[k])
    ensures n == |s| || !IsSpace(s[n])
  {
    if |s| > 0 && IsSpace(s[0]) then 1 + LeadingSpaces(s[1..]) else 0
  }

  /** The number of whitespace characters `s` ends with. */
  function TrailingSpaces(s: string): (n: nat)
    ensures n <= |s|
    ensures forall k :: |s| - n <= k < |s| ==> IsSpace(s[k])
    ensures n == |s| || !IsSpace(s[|s| - n - 1])
  {
    if |s| > 0 && IsSpace(s[|s| - 1]) then 1 + TrailingSpaces(s[..|s| - 1]) else 0
  }

  /**
   * Python's `str.strip()`: the result is a slice of `s` with only whitespace
   * before and after it, and it neither starts nor ends with whitespace.
   */
  function Strip(s: string): (r: string)
    ensures exists i :: 0 <= i <= |s| - |r| && r == s[i..i + |r|] && SpaceOutside(s, i, |r|)
    ensures r == [] || (!IsSpace(r[0]) && !IsSpace(r[|r| - 1]))
  {
    var i := LeadingSpaces(s);
    var j := if i == |s| then |s| else |s| - TrailingSpaces(s);
    assert SpaceOutside(s, i, j - i);
    s[i..j]
  }

  /**
   * The lower-case form of one character, for the characters whose lower-case
   * form contains a character of `[a-z0-9_]`: the ASCII capitals, U+212A KELVIN
   * SIGN (lower-cased to `k`) and U+0130 (lower-cased to `i` followed by U+0307).
   * Every other character is left as it is; for a non-ASCII capital this
   * differs from Python only in a character the final filter deletes either way.
   */
  function LowerChar(c: char): (r: string)
  {
    if 'A' <= c <= 'Z' then [(c as int + 32) as char]
    else if c == '\U{212A}' then "k"
    else if c == '\U{130}' then "i\U{307}"
    else [c]
  }

  /** `str.lower()`: no ASCII capital is left. */
  function Lower(s: string): (r: string)
    ensures forall k :: 0 <= k < |r| ==> !('A' <= r[k] <= 'Z')
  {
    if s == [] then [] else LowerChar(s[0]) + Lower(s[1..])
  }

  /**
   * Lower-casing works character by character and keeps their order: a
   * single character becomes its `LowerChar` form, and the lower-case form of
   * a concatenation is the concatenation of the lower-case forms.
   */
  lemma LowerOne(c: char)
    ensures Lower([c]) == LowerChar(c)
  {
    assert [c][1..] == [];
  }

  lemma {:induction false} LowerAppend(a: string, b: string)
    ensures Lower(a + b) == Lower(a) + Lower(b)
  {
    if a == [] {
      assert a + b == b;
    } else {
      assert (a + b)[1..] == a[1..] + b;
      LowerAppend(a[1..], b);
      assert Lower(a + b) == LowerChar(a[0]) + Lower(a[1..] + b);
    }
  }

  /** `str.replace(' ', '_')`: every space becomes `_`, every other character stays where it is. */
  function SpacesToUnderscores(s: string): (r: string)
    ensures |r| == |s| && ' ' !in r
    ensures forall k :: 0 <= k < |s| && s[k] != ' ' ==> r[k] == s[k]
    ensures forall k :: 0 <= k < |s| && s[k] == ' ' ==> r[k] == '_'
  {
    seq(|s|, k requires 0 <= k < |s| => if s[k] == ' ' then '_' else s[k])
  }

  /**
   * `str.replace(r'[^a-z0-9_]', '', regex=True)`: only `[a-z0-9_]` is left,
   * each of those characters as often as in `s`, in the order of `s`.
   */
  function KeepCanonicalChars(s: string): (r: string)
    ensures IsCanonical(r)
    ensures forall c :: IsCanonicalChar(c) ==> multiset(r)[c] == multiset(s)[c]
    ensures Sequences.IsSubsequence(r, s)
  {
    Sequences.Filter(s, IsCanonicalChar)
  }

  /**
   * The canonical form of a header (src/app.py line 22). It holds only
   * characters of `[a-z0-9_]`, so in particular no space and no capital
   * letter; every lower-case letter and digit of the lower-cased header
   * survives as often as it occurs there; every space and underscore of it
   * becomes an underscore; and the order is kept.
   */
  function Canonical(header: string): (r: string)
    ensures IsCanonical(r)
    ensures forall c :: IsCanonicalChar(c) && c != '_' ==> multiset(r)[c] == multiset(Lower(Strip(header)))[c]
    ensures multiset(r)['_'] == multiset(Lower(Strip(header)))['_'] + multiset(Lower(Strip(header)))[' ']
    ensures Sequences.IsSubsequence(r, SpacesToUnderscores(Lower(Strip(header))))
  {
    var lowered := Lower(Strip(header));
    var underscored := SpacesToUnderscores(lowered);
    UnderscoringKeepsOtherCounts(lowered);
    UnderscoringCountsSpaces(lowered);
    KeepCanonicalChars(underscored)
  }

  /** After replacing spaces by underscores, the underscores are the old underscores and the old spaces. */
  lemma {:induction false} UnderscoringCountsSpaces(s: string)
    ensures multiset(SpacesToUnderscores(s))['_'] == multiset(s)['_'] + multiset(s)[' ']
  {
    if s != [] {
      var init, last := s[..|s| - 1], s[|s| - 1];
      UnderscoringCountsSpaces(init);
      assert s == init + [last];
      var v := SpacesToUnderscores([last]);
      assert v == [if last == ' ' then '_' else last];
      assert SpacesToUnderscores(s) == SpacesToUnderscores(init) + v;
      assert multiset(SpacesToUnderscores(s)) == multiset(SpacesToUnderscores(init)) + multiset(v);
      assert multiset(s) == multiset(init) + multiset([last]);
    }
  }

  /**
   * How many times `c` occurs in the lower-case form of a string whose
   * characters are counted by `m`: its own occurrences (unless it is a
   * character lower-casing replaces), plus one for each capital that
   * lower-cases to it, KELVIN SIGN counting for `k` and U+0130 for both `i`
   * and the combining dot U+0307 that follows it.
   */
  ghost function LoweredCount(m: multiset<char>, c: char): int
  {
    (if 'A' <= c <= 'Z' || c == '\U{212A}' || c == '\U{130}' then 0 else m[c])
    + (if 'a' <= c <= 'z' then m[(c as int - 32) as char] else 0)
    + (if c == 'k' then m['\U{212A}'] else 0)
    + (if c == 'i' || c == '\U{307}' then m['\U{130}'] else 0)
  }

  /** Every character of `Lower(s)` is counted by `LoweredCount`. */
  lemma {:induction false} LowerCounts(s: string, c: char)
    ensures multiset(Lower(s))[c] == LoweredCount(multiset(s), c)
  {
    if s != [] {
      LowerCounts(s[1..], c);
      LowerCharCounts(s[0], c);
      SplitFirst(s);
      LoweredCountAdds(multiset([s[0]]), multiset(s[1..]), c);
      var rest := Lower(s[1..]);
      assert Lower(s) == LowerChar(s[0]) + rest;
      assert multiset(Lower(s)) == multiset(LowerChar(s[0])) + multiset(rest);
    }
  }

  /** A non-empty string's characters are its first one and the rest. */
  lemma SplitFirst(s: string)
    requires s != []
    ensures multiset(s) == multiset([s[0]]) + multiset(s[1..])
  {
    assert s == [s[0]] + s[1..];
  }

  /** `LoweredCount` adds up over a union of multisets. */
  lemma LoweredCountAdds(m1: multiset<char>, m2: multiset<char>, c: char)
    ensures LoweredCount(m1 + m2, c) == LoweredCount(m1, c) + LoweredCount(m2, c)
  {
  }

  /** `LowerCounts` for a single character. */
  lemma LowerCharCounts(x: char, c: char)
    ensures multiset(LowerChar(x))[c] == LoweredCount(multiset([x]), c)
  {
    if 'A' <= x <= 'Z' {
      assert LowerChar(x) == [(x as int + 32) as char];
    } else if x == '\U{130}' {
      assert LowerChar(x) == ['i', '\U{307}'];
    }
  }

  /**
   * The letters and digits of a canonical header, counted against the
   * stripped header: each lower-case letter or digit of it, and each capital
   * whose lower-case form gives the letter.
   */
  lemma CanonicalCounts(header: string, c: char)
    requires IsCanonicalChar(c) && c != '_'
    ensures multiset(Canonical(header))[c] ==
      multiset(Strip(header))[c]
      + (if 'a' <= c <= 'z' then multiset(Strip(header))[(c as int - 32) as char] else 0)
      + (if c == 'k' then multiset(Strip(header))['\U{212A}'] else 0)
      + (if c == 'i' then multiset(Strip(header))['\U{130}'] else 0)
  {
    LowerCounts(Strip(header), c);
  }

  /** The underscores of a canonical header are the spaces and underscores of the stripped header. */
  lemma CanonicalUnderscores(header: string)
    ensures multiset(Canonical(header))['_'] == multiset(Strip(header))['_'] + multiset(Strip(header))[' ']
  {
    LowerCounts(Strip(header), '_');
    LowerCounts(Strip(header), ' ');
  }

  /** Replacing spaces by underscores changes no other character's count. */
  lemma {:induction false} UnderscoringKeepsOtherCounts(s: string)
    ensures forall c :: c != '_' && c != ' ' ==> multiset(SpacesToUnderscores(s))[c] == multiset(s)[c]
  {
    if s != [] {
      var init := s[..|s| - 1];
      UnderscoringKeepsOtherCounts(init);
      assert s == init + [s[|s| - 1]];
      assert SpacesToUnderscores(s) == SpacesToUnderscores(init) + SpacesToUnderscores([s[|s| - 1]]);
    }
  }

  lemma StripOfCanonical(s: string)
    requires IsCanonical(s)
    ensures Strip(s) == s
  {
  }

  lemma {:induction false} LowerOfCanonical(s: string)
    requires IsCanonical(s)
    ensures Lower(s) == s
  {
    if s != [] {
      LowerOfCanonical(s[1..]);
      assert s == [s[0]] + s[1..];
    }
  }

  /** A canonical header is its own canonical form. */
  lemma CanonicalOfCanonical(s: string)
    requires IsCanonical(s)
    ensures Canonical(s) == s
  {
    StripOfCanonical(s);
    LowerOfCanonical(s);
    assert SpacesToUnderscores(s) == s;
    Sequences.FilterKeepsAll(s, IsCanonicalChar);
  }

  /** Canonicalisation is idempotent. */
  lemma CanonicalIdempotent(header: string)
    ensures Canonical(Canonical(header)) == Canonical(header)
  {
    CanonicalOfCanonical(Canonical(header));
  }

  /** The headers canonicalisation leaves unchanged are exactly those made of `[a-z0-9_]`. */
  lemma CanonicalFixpoints(header: string)
    ensures Canonical(header) == header <==> IsCanonical(header)
  {
    if IsCanonical(header) {
      CanonicalOfCanonical(header);
    }
  }
}
