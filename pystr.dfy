/** The two Python string builtins the assembler relies on: `str.find` and
    `str.strip()` (with no argument), over strings as sequences of characters. */
module PyStr {

  /** The ASCII characters for which Python's `str.isspace()` holds: space,
      tab, line feed, vertical tab, form feed, carriage return and the four
      information separators 0x1C-0x1F. */
  predicate IsSpace(c: char) {
    c == ' ' || c == '\t' || c == '\n' || c == '\U{B}' || c == '\U{C}' || c == '\r'
    || ('\U{1C}' <= c <= '\U{1F}')
  }

  /** `pat` occurs in `s` starting at index `i`. */
  predicate OccursAt(s: string, pat: string, i: int) {
    0 <= i && i + |pat| <= |s| && s[i..i + |pat|] == pat
  }

  /** `pat in s` */
  predicate Contains(s: string, pat: string) {
    exists i | 0 <= i <= |s| :: OccursAt(s, pat, i)
  }

  /** `s.find(pat)`: the lowest index at which `pat` occurs in `s`, or -1. */
  function Find(s: string, pat: string): (r: int)
    ensures r == -1 <==> !Contains(s, pat)
    ensures r != -1 ==> OccursAt(s, pat, r)
    ensures forall j :: 0 <= j < r ==> !OccursAt(s, pat, j)
  {
    FindFrom(s, pat, 0)
  }

  /** `s.find(pat, start)` for a start inside the string. */
  function FindFrom(s: string, pat: string, start: nat): (r: int)
    requires start <= |s|
    ensures r == -1 <==> forall j :: start <= j ==> !OccursAt(s, pat, j)
    ensures r != -1 ==> start <= r && OccursAt(s, pat, r)
    ensures forall j :: start <= j < r ==> !OccursAt(s, pat, j)
    decreases |s| - start
  {
    if start + |pat| > |s| then -1
    else if s[start..start + |pat|] == pat then assert OccursAt(s, pat, start); start
    else FindFrom(s, pat, start + 1)
  }

  /** The index of the first non-whitespace character of `s` at or after
      `i`, or `|s|` if there is none. */
  function SkipSpaces(s: string, i: nat): (k: nat)
    requires i <= |s|
    ensures i <= k <= |s|
    ensures forall m :: i <= m < k ==> IsSpace(s[m])
    ensures k == |s| || !IsSpace(s[k])
    decreases |s| - i
  {
    if i < |s| && IsSpace(s[i]) then SkipSpaces(s, i + 1) else i
  }

  /** The end of `s[lo..j]` once its trailing whitespace is dropped. */
  function SkipSpacesBack(s: string, lo: nat, j: nat): (k: nat)
    requires lo <= j <= |s|
    ensures lo <= k <= j
    ensures forall m :: k <= m < j ==> IsSpace(s[m])
    ensures k == lo || !IsSpace(s[k - 1])
  {
    if lo < j && IsSpace(s[j - 1]) then SkipSpacesBack(s, lo, j - 1) else j
  }

  /** A string with no whitespace at either end. */
  predicate IsTrimmed(s: string) {
    s == [] || (!IsSpace(s[0]) && !IsSpace(s[|s| - 1]))
  }

  /** `s.strip()`: `s` without its leading and trailing whitespace. */
  function Strip(s: string): (r: string)
    ensures |r| <= |s| && IsTrimmed(r)
  {
    var i := SkipSpaces(s, 0);
    s[i..SkipSpacesBack(s, i, |s|)]
  }

  /** `Strip` returns a slice of its argument, and everything it drops is
      whitespace. */
  lemma StripSlice(s: string)
    ensures exists i, j :: 0 <= i <= j <= |s| && Strip(s) == s[i..j]
                           && (forall k :: 0 <= k < i ==> IsSpace(s[k]))
                           && (forall k :: j <= k < |s| ==> IsSpace(s[k]))
  {
    var i := SkipSpaces(s, 0);
    var j := SkipSpacesBack(s, i, |s|);
    assert Strip(s) == s[i..j];
  }

  /** Stripping a string that has no edge whitespace gives it back. */
  lemma StripTrimmed(s: string)
    requires IsTrimmed(s)
    ensures Strip(s) == s
  {
  }

  /** An occurrence in a slice is an occurrence in the whole string. */
  lemma OccursInSlice(s: string, pat: string, i: int, j: int, k: int)
    requires 0 <= i <= j <= |s|
    ensures OccursAt(s[i..j], pat, k) ==> OccursAt(s, pat, i + k)
  {
    if OccursAt(s[i..j], pat, k) {
      forall m | 0 <= m < |pat|
        ensures s[i + k..i + k + |pat|][m] == pat[m]
      {
        assert pat[m] == s[i..j][k..k + |pat|][m] == s[i..j][k + m];
      }
      assert s[i + k..i + k + |pat|] == pat;
    }
  }

  /** A pattern that does not occur in `s` occurs in no slice of `s`. */
  lemma NotContainsSlice(s: string, pat: string, i: int, j: int)
    requires 0 <= i <= j <= |s|
    requires !Contains(s, pat)
    ensures !Contains(s[i..j], pat)
  {
    forall k | 0 <= k <= j - i
      ensures !OccursAt(s[i..j], pat, k)
    {
      OccursInSlice(s, pat, i, j, k);
    }
  }
}
