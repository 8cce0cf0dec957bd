/**
 * The parts of Java's case mapping that the contact index relies on.
 *
 * `String.toLowerCase` normalises every name and prefix before a walk, and
 * `String.equalsIgnoreCase` decides which contacts a delete removes. Both are
 * modelled for ASCII letters and for one character that makes case folding
 * non-trivial: LATIN CAPITAL LETTER I WITH DOT ABOVE (U+0130), whose
 * `String.toLowerCase` form (outside Turkic locales) is the two characters
 * 'i' and COMBINING DOT ABOVE (U+0307), while `Character.toLowerCase` maps it
 * to the single character 'i'. Every other character is its own upper and
 * lower case.
 */
module CaseFolding {

  const CapitalDottedI: char := '\U{0130}'
  const CombiningDotAbove: char := '\U{0307}'

  /** `Character.toLowerCase` on one character. */
  function LowerChar(c: char): char
  {
    if 'A' <= c <= 'Z' then (c as int + 32) as char
    else if c == CapitalDottedI then 'i'
    else c
  }

  /** `Character.toUpperCase` on one character. */
  function UpperChar(c: char): char
  {
    if 'a' <= c <= 'z' then (c as int - 32) as char else c
  }

  /** The lower-case form `String.toLowerCase` gives one character. */
  function LowerPart(c: char): string
  {
    if c == CapitalDottedI then ['i', CombiningDotAbove] else [LowerChar(c)]
  }

  /** `String.toLowerCase`: the lower-case forms of the characters, in order. */
  function Lower(s: string): (r: string)
    ensures |s| <= |r| <= 2 * |s|
    ensures CapitalDottedI !in r
  {
    if s == [] then [] else LowerPart(s[0]) + Lower(s[1..])
  }

  /** Lower-casing distributes over concatenation. */
  lemma {:induction false} LowerAppend(a: string, b: string)
    ensures Lower(a + b) == Lower(a) + Lower(b)
  {
    if a != [] {
      assert (a + b)[0] == a[0];
      assert (a + b)[1..] == a[1..] + b;
      LowerAppend(a[1..], b);
    } else {
      assert a + b == b;
    }
  }

  /** A prefix of a name lower-cases to a prefix of the name's lower-case form. */
  lemma {:induction false} LowerPrefix(p: string, s: string)
    requires p <= s
    ensures Lower(p) <= Lower(s)
  {
    assert s == p + s[|p|..];
    LowerAppend(p, s[|p|..]);
  }

  /** Lower-casing a lower-case string changes nothing. */
  lemma {:induction false} LowerIdempotent(s: string)
    ensures Lower(Lower(s)) == Lower(s)
  {
    if s != [] {
      LowerIdempotent(s[1..]);
      var part := LowerPart(s[0]);
      LowerAppend(part, Lower(s[1..]));
      if s[0] == CapitalDottedI {
        assert part == ['i'] + [CombiningDotAbove];
        LowerAppend(['i'], [CombiningDotAbove]);
      }
    }
  }

  /** The per-character test of `String.equalsIgnoreCase` (via `regionMatches`). */
  predicate CharsMatchIgnoringCase(a: char, b: char)
  {
    a == b || UpperChar(a) == UpperChar(b) || LowerChar(UpperChar(a)) == LowerChar(UpperChar(b))
  }

  /** `String.equalsIgnoreCase`: equal lengths and every character pair matches. */
  predicate EqualsIgnoreCase(s: string, t: string)
  {
    |s| == |t| && forall i :: 0 <= i < |s| ==> CharsMatchIgnoringCase(s[i], t[i])
  }

  /** The character test is exactly equality of `Character.toLowerCase` forms. */
  lemma CharsMatchIsLowerEqual(a: char, b: char)
    ensures CharsMatchIgnoringCase(a, b) <==> LowerChar(a) == LowerChar(b)
  {
    assert LowerChar(UpperChar(a)) == LowerChar(a);
    assert LowerChar(UpperChar(b)) == LowerChar(b);
  }

  /** Without U+0130, lower-casing works character by character. */
  lemma {:induction false} LowerWithoutDottedI(s: string)
    requires CapitalDottedI !in s
    ensures |Lower(s)| == |s|
    ensures forall i :: 0 <= i < |s| ==> Lower(s)[i] == LowerChar(s[i])
  {
    if s != [] {
      assert CapitalDottedI !in s[1..];
      LowerWithoutDottedI(s[1..]);
    }
  }

  /**
   * For names without U+0130 the two notions of case-insensitivity agree:
   * `equalsIgnoreCase` holds exactly when the `toLowerCase` forms are equal.
   */
  lemma IgnoreCaseAgreesWithLower(s: string, t: string)
    requires CapitalDottedI !in s && CapitalDottedI !in t
    ensures EqualsIgnoreCase(s, t) <==> Lower(s) == Lower(t)
  {
    LowerWithoutDottedI(s);
    LowerWithoutDottedI(t);
    forall i | 0 <= i < |s| && i < |t|
      ensures CharsMatchIgnoringCase(s[i], t[i]) <==> Lower(s)[i] == Lower(t)[i]
    {
      CharsMatchIsLowerEqual(s[i], t[i]);
    }
  }

  /** U+0130 is where the two disagree: it matches "i" ignoring case, yet lower-cases differently. */
  lemma DottedIDisagrees()
    ensures EqualsIgnoreCase([CapitalDottedI], "i")
    ensures Lower([CapitalDottedI]) != Lower("i")
  {
    assert CharsMatchIgnoringCase([CapitalDottedI][0], "i"[0]);
    assert Lower([CapitalDottedI]) == ['i', CombiningDotAbove] + Lower([]);
  }
}
