/**
  The two pieces of Python string behaviour the announcement router relies on:
  `str.strip()` with no argument, and the built-in ordering of `str` values,
  which the router uses to compare dates.
 */
module Text {

  /** Python's `str.isspace()` for one character, the set `str.strip()` removes: the
      ASCII whitespace characters, the separators U+001C..U+001F, U+0085 (next line),
      U+2028 and U+2029 (line and paragraph separator), and the Unicode space
      separators (category Zs). */
  predicate IsSpace(c: char) {
    || c == ' '
    || ('\t' <= c <= '\r')
    || ('\U{1C}' <= c <= '\U{1F}')
    || c == '\U{85}'
    || c == '\U{A0}'
    || c == '\U{1680}'
    || ('\U{2000}' <= c <= '\U{200A}')
    || c == '\U{2028}'
    || c == '\U{2029}'
    || c == '\U{202F}'
    || c == '\U{205F}'
    || c == '\U{3000}'
  }

  /** Every character of `s` at a position in `lo..hi` is whitespace. */
  predicate SpacesBetween(s: string, lo: int, hi: int)
    requires 0 <= lo <= hi <= |s|
  {
    forall k :: lo <= k < hi ==> IsSpace(s[k])
  }

  /** Every character is whitespace (the empty string included). */
  predicate IsBlank(s: string) {
    SpacesBetween(s, 0, |s|)
  }

  /** Neither the first nor the last character is whitespace. */
  predicate IsTrimmed(s: string) {
    s == [] || (!IsSpace(s[0]) && !IsSpace(s[|s| - 1]))
  }

  /** Declarative meaning of `s.strip()`: `r` is a slice `s[i..j]` that starts and ends
      with non-whitespace, and everything cut away on either side is whitespace. */
  ghost predicate IsStripOf(s: string, r: string) {
    exists i, j :: 0 <= i <= j <= |s| && r == s[i..j] && SpacesBetween(s, 0, i) && SpacesBetween(s, j, |s|) && IsTrimmed(r)
  }

  /** The position of the first non-whitespace character at or after `i`, or `|s|`. */
  function SkipSpaces(s: string, i: nat): (r: nat)
    requires i <= |s|
    ensures i <= r <= |s|
    ensures SpacesBetween(s, i, r)
    ensures r < |s| ==> !IsSpace(s[r])
    decreases |s| - i
  {
    if i < |s| && IsSpace(s[i]) then SkipSpaces(s, i + 1) else i
  }

  /** The position just after the last non-whitespace character in `lo..j`, or `lo`. */
  function SkipSpacesBack(s: string, lo: nat, j: nat): (r: nat)
    requires lo <= j <= |s|
    ensures lo <= r <= j
    ensures SpacesBetween(s, r, j)
    ensures lo < r ==> !IsSpace(s[r - 1])
    decreases j
  {
    if lo < j && IsSpace(s[j - 1]) then SkipSpacesBack(s, lo, j - 1) else j
  }

  /** `s.strip()`: cut the leading whitespace, then the trailing whitespace. */
  function Strip(s: string): (r: string)
    ensures IsStripOf(s, r)
    ensures IsTrimmed(r)
    ensures r == [] <==> IsBlank(s)
  {
    var i := SkipSpaces(s, 0);
    var j := SkipSpacesBack(s, i, |s|);
    assert |s[i..j]| == j - i;
    assert i < j ==> s[i..j][0] == s[i] && s[i..j][j - i - 1] == s[j - 1];
    assert IsStripOf(s, s[i..j]);
    assert i == j ==> IsBlank(s);
    assert i < j ==> !IsBlank(s);
    s[i..j]
  }

  /** Two cuts that both leave only whitespace before a non-whitespace character start at the same place. */
  lemma SameStart(s: string, i: nat, i': nat)
    requires i < |s| && i' < |s|
    requires SpacesBetween(s, 0, i) && !IsSpace(s[i])
    requires SpacesBetween(s, 0, i') && !IsSpace(s[i'])
    ensures i == i'
  {
  }

  /** Two cuts that both leave only whitespace after a non-whitespace character end at the same place. */
  lemma SameEnd(s: string, j: nat, j': nat)
    requires 0 < j <= |s| && 0 < j' <= |s|
    requires SpacesBetween(s, j, |s|) && !IsSpace(s[j - 1])
    requires SpacesBetween(s, j', |s|) && !IsSpace(s[j' - 1])
    ensures j == j'
  {
  }

  /** A non-empty slice with non-whitespace at both ends and only whitespace cut away
      is `Strip(s)`. */
  lemma TrimmedSliceIsStrip(s: string, i: nat, j: nat)
    requires i < j <= |s|
    requires SpacesBetween(s, 0, i) && SpacesBetween(s, j, |s|)
    requires !IsSpace(s[i]) && !IsSpace(s[j - 1])
    ensures s[i..j] == Strip(s)
  {
    var i' := SkipSpaces(s, 0);
    var j' := SkipSpacesBack(s, i', |s|);
    SameStart(s, i, i');
    SameEnd(s, j, j');
  }

  /** The declarative description pins the stripped string down: whatever satisfies
      it is what `Strip` computes. */
  lemma StripIsUnique(s: string, r: string)
    requires IsStripOf(s, r)
    ensures r == Strip(s)
  {
    var i, j :| 0 <= i <= j <= |s| && r == s[i..j] && SpacesBetween(s, 0, i) && SpacesBetween(s, j, |s|) && IsTrimmed(r);
    if i == j {
      assert IsBlank(s);
    } else {
      assert r[0] == s[i] && r[j - i - 1] == s[j - 1];
      TrimmedSliceIsStrip(s, i, j);
    }
  }

  /** Stripping twice changes nothing, so a stored (already stripped) message is a fixed point. */
  lemma StripIsIdempotent(s: string)
    ensures Strip(Strip(s)) == Strip(s)
  {
    var r := Strip(s);
    assert r[0..|r|] == r;
    assert IsStripOf(r, r);
    StripIsUnique(r, r);
  }

  /** Python's `a < b` on `str`: compare code points from the left; at the first
      difference the smaller code point wins; a proper prefix is smaller. */
  predicate Less(a: string, b: string)
    decreases |a|
  {
    if a == [] then b != []
    else b != [] && (a[0] < b[0] || (a[0] == b[0] && Less(a[1..], b[1..])))
  }

  /** Python's `a <= b` on `str`. */
  predicate LessEq(a: string, b: string) {
    Less(a, b) || a == b
  }

  lemma {:induction false} LessIsIrreflexive(a: string)
    ensures !Less(a, a)
    decreases |a|
  {
    if a != [] {
      LessIsIrreflexive(a[1..]);
    }
  }

  lemma {:induction false} LessIsTransitive(a: string, b: string, c: string)
    requires Less(a, b) && Less(b, c)
    ensures Less(a, c)
    decreases |a|
  {
    if a != [] && a[0] == b[0] && b[0] == c[0] {
      LessIsTransitive(a[1..], b[1..], c[1..]);
    }
  }

  /** Exactly one of `a < b`, `a == b`, `b < a` holds. */
  lemma {:induction false} LessIsTrichotomous(a: string, b: string)
    ensures Less(a, b) || a == b || Less(b, a)
    ensures !(Less(a, b) && Less(b, a))
    decreases |a|
  {
    if a != [] && b != [] {
      LessIsTrichotomous(a[1..], b[1..]);
      if a[0] == b[0] && a[1..] == b[1..] {
        assert a == [a[0]] + a[1..] && b == [b[0]] + b[1..];
      }
    }
    LessIsIrreflexive(a);
  }

  /** Python's `not (b < a)` is `a <= b`: the order is total. */
  lemma NotLessIsLessEq(a: string, b: string)
    ensures !Less(b, a) <==> LessEq(a, b)
  {
    LessIsTrichotomous(a, b);
    LessIsIrreflexive(a);
  }

  lemma LessEqIsTransitive(a: string, b: string, c: string)
    requires LessEq(a, b) && LessEq(b, c)
    ensures LessEq(a, c)
  {
    if Less(a, b) && Less(b, c) {
      LessIsTransitive(a, b, c);
    }
  }

  lemma LessEqIsAntisymmetric(a: string, b: string)
    requires LessEq(a, b) && LessEq(b, a)
    ensures a == b
  {
    LessIsTrichotomous(a, b);
  }

  /** The empty string is below every other string. */
  lemma EmptyIsLeast(a: string)
    ensures LessEq("", a)
    ensures LessEq(a, "") ==> a == ""
  {
  }
}
