/**
  The string operations the filters rely on: Spring's StringUtils.hasText,
  the containment a SQL `LIKE '%x%'` pattern performs, and the ordering of
  an ORDER BY on a text column.
 */
module Strings {
  import opened Nullable

  /**
    Character.isWhitespace: the Unicode space, line and paragraph separators
    other than the three no-break spaces, plus the ASCII controls
    tab, line feed, vertical tab, form feed, carriage return and
    U+001C..U+001F.
   */
  predicate IsWhitespace(c: char) {
    var n := c as int;
    n == 0x20 || 0x09 <= n <= 0x0D || 0x1C <= n <= 0x1F
    || n == 0x1680 || 0x2000 <= n <= 0x2006 || 0x2008 <= n <= 0x200A
    || n == 0x2028 || n == 0x2029 || n == 0x205F || n == 0x3000
  }

  /** StringUtils.hasText: not null, not empty, and some character is not whitespace. */
  predicate HasText(s: Option<string>): (r: bool)
    ensures r ==> s.Some? && |s.value| > 0
  {
    s.Some? && exists i :: 0 <= i < |s.value| && !IsWhitespace(s.value[i])
  }

  /** Null, empty and whitespace-only strings are all "blank", and only they are. */
  lemma BlankForms(s: string)
    ensures !HasText(None) && !HasText(Some(""))
    ensures (forall i :: 0 <= i < |s| ==> IsWhitespace(s[i])) <==> !HasText(Some(s))
  {
  }

  lemma BlankExamples()
    ensures !HasText(Some(" \t\n"))
    ensures HasText(Some(" IT "))
  {
    assert !IsWhitespace(" IT "[1]);
  }

  /** `fragment` occurs in `s` starting at index `i`. */
  ghost predicate OccursAt(s: string, fragment: string, i: int) {
    0 <= i && i + |fragment| <= |s| && s[i..i + |fragment|] == fragment
  }

  /** `s LIKE '%' + fragment + '%'` for a fragment free of wildcards: a plain substring test. */
  function Contains(s: string, fragment: string): (r: bool)
    ensures fragment <= s ==> r
    ensures r ==> |fragment| <= |s|
    decreases |s|
  {
    fragment <= s || (|s| > 0 && Contains(s[1..], fragment))
  }

  /** An occurrence in the tail of `s` is an occurrence in `s` one position later, and back. */
  lemma OccursInTail(s: string, fragment: string, i: int)
    requires |s| > 0
    ensures OccursAt(s[1..], fragment, i) <==> 0 <= i && OccursAt(s, fragment, i + 1)
  {
    if 0 <= i && i + |fragment| <= |s[1..]| {
      assert s[1..][i..i + |fragment|] == s[i + 1..i + 1 + |fragment|];
    }
  }

  lemma {:induction false} ContainsImpliesOccurs(s: string, fragment: string)
    requires Contains(s, fragment)
    ensures exists i :: OccursAt(s, fragment, i)
    decreases |s|
  {
    if fragment <= s {
      assert OccursAt(s, fragment, 0);
    } else {
      ContainsImpliesOccurs(s[1..], fragment);
      var i :| OccursAt(s[1..], fragment, i);
      OccursInTail(s, fragment, i);
    }
  }

  lemma {:induction false} OccursImpliesContains(s: string, fragment: string, i: int)
    requires OccursAt(s, fragment, i)
    ensures Contains(s, fragment)
    decreases i
  {
    if i == 0 {
      assert fragment <= s;
    } else {
      OccursInTail(s, fragment, i - 1);
      OccursImpliesContains(s[1..], fragment, i - 1);
    }
  }

  lemma ContainsIffOccurs(s: string, fragment: string)
    ensures Contains(s, fragment) <==> exists i :: OccursAt(s, fragment, i)
  {
    if Contains(s, fragment) {
      ContainsImpliesOccurs(s, fragment);
    }
    forall i | OccursAt(s, fragment, i) ensures Contains(s, fragment) {
      OccursImpliesContains(s, fragment, i);
    }
  }

  /**
    The sign of comparing two strings character by character by code point,
    a proper prefix coming first.
   */
  function Compare(s: string, t: string): int
    decreases |s|
  {
    if s == [] then (if t == [] then 0 else -1)
    else if t == [] then 1
    else if s[0] < t[0] then -1
    else if t[0] < s[0] then 1
    else Compare(s[1..], t[1..])
  }

  lemma {:induction false} CompareAntisymmetric(s: string, t: string)
    ensures Compare(s, t) == -Compare(t, s)
    decreases |s|
  {
    if s != [] && t != [] && s[0] == t[0] {
      CompareAntisymmetric(s[1..], t[1..]);
    }
  }

  lemma {:induction false} CompareZeroIffEqual(s: string, t: string)
    ensures Compare(s, t) == 0 <==> s == t
    decreases |s|
  {
    if s != [] && t != [] && s[0] == t[0] {
      CompareZeroIffEqual(s[1..], t[1..]);
      assert s == [s[0]] + s[1..] && t == [t[0]] + t[1..];
    }
  }

  lemma {:induction false} CompareTransitive(s: string, t: string, u: string)
    requires Compare(s, t) <= 0 && Compare(t, u) <= 0
    ensures Compare(s, u) <= 0
    decreases |s|
  {
    if s != [] && t != [] && u != [] && s[0] == t[0] && t[0] == u[0] {
      CompareTransitive(s[1..], t[1..], u[1..]);
    }
  }
}
