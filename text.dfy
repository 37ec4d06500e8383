/** The string operations the catalogue relies on: Python's `str.strip()` and
    `str.isspace()`, the "empty or whitespace-only" test of the validators,
    lower-casing and substring search (for `icontains` and for reading
    IntegrityError messages). */
module Text {

  /** The characters Python's `str.isspace()` accepts, which are exactly the
      ones `str.strip()` removes when called without arguments. */
  predicate IsSpace(c: char) {
    || c == ' '
    || ('\t' <= c <= '\r')
    || ('\U{1c}' <= c <= '\U{1f}')
    || c == '\U{85}' || c == '\U{a0}' || c == '\U{1680}'
    || ('\U{2000}' <= c <= '\U{200a}')
    || c == '\U{2028}' || c == '\U{2029}' || c == '\U{202f}' || c == '\U{205f}' || c == '\U{3000}'
  }

  predicate AllSpace(s: string) {
    forall i | 0 <= i < |s| :: IsSpace(s[i])
  }

  /** The first index at or after `i` that does not hold whitespace (or `|s|`):
      where `s.lstrip()` starts. */
  function SkipSpace(s: string, i: nat): (j: nat)
    requires i <= |s|
    ensures i <= j <= |s|
    ensures forall k | i <= k < j :: IsSpace(s[k])
    ensures j < |s| ==> !IsSpace(s[j])
    decreases |s| - i
  {
    if i < |s| && IsSpace(s[i]) then SkipSpace(s, i + 1) else i
  }

  /** The end of `s[lo..hi]` once trailing whitespace is dropped: where
      `s.rstrip()` ends. */
  function SkipSpaceBack(s: string, lo: nat, hi: nat): (j: nat)
    requires lo <= hi <= |s|
    ensures lo <= j <= hi
    ensures forall k | j <= k < hi :: IsSpace(s[k])
    ensures j > lo ==> !IsSpace(s[j - 1])
  {
    if lo < hi && IsSpace(s[hi - 1]) then SkipSpaceBack(s, lo, hi - 1) else hi
  }

  /** `s.strip()`: the slice of `s` between its leading and its trailing
      whitespace. */
  function Strip(s: string): (r: string)
    ensures |r| <= |s|
    ensures r == [] || (!IsSpace(r[0]) && !IsSpace(r[|r| - 1]))
  {
    var i := SkipSpace(s, 0);
    s[i..SkipSpaceBack(s, i, |s|)]
  }

  /** What `strip()` removes is whitespace, and what it keeps begins and ends
      with non-whitespace; together these determine the result. */
  lemma StripRemovesOnlySpace(s: string)
    ensures var i := SkipSpace(s, 0); var j := SkipSpaceBack(s, i, |s|);
      && Strip(s) == s[i..j]
      && forall k | 0 <= k < |s| && (k < i || j <= k) :: IsSpace(s[k])
  {
  }

  /** Python's `not value or not value.strip()`: the test every text validator
      applies before accepting a title, author or genre. */
  predicate IsBlank(s: string) {
    s == [] || Strip(s) == []
  }

  /** What `strip()` leaves of a string is empty exactly when the string is
      all whitespace. */
  lemma StripEmptyIffAllSpace(s: string)
    ensures Strip(s) == [] <==> AllSpace(s)
  {
    StripRemovesOnlySpace(s);
    var i := SkipSpace(s, 0);
    if AllSpace(s) && i < |s| {
      assert IsSpace(s[i]);
    }
  }

  /** A blank string is exactly one made of whitespace only. */
  lemma BlankIffAllSpace(s: string)
    ensures IsBlank(s) <==> AllSpace(s)
  {
    StripEmptyIffAllSpace(s);
  }

  /** Stripping twice is stripping once. */
  lemma StripIdempotent(s: string)
    ensures Strip(Strip(s)) == Strip(s)
  {
    var r := Strip(s);
    if r != [] {
      assert SkipSpace(r, 0) == 0;
      assert SkipSpaceBack(r, 0, |r|) == |r|;
      assert r[0..|r|] == r;
    }
  }

  /** A string accepted by a text validator strips to a non-empty result with
      no whitespace at either end, which is itself not blank. */
  lemma StrippedNotBlank(s: string)
    requires !IsBlank(s)
    ensures Strip(s) != [] && !IsSpace(Strip(s)[0]) && !IsSpace(Strip(s)[|Strip(s)| - 1])
    ensures !IsBlank(Strip(s))
    ensures |Strip(s)| <= |s|
  {
    StripIdempotent(s);
  }

  /** ASCII lower-casing, as the database applies it for case-insensitive matching. */
  function LowerChar(c: char): (r: char)
    ensures 'A' <= c <= 'Z' ==> 'a' <= r <= 'z' && r as int == c as int + 32
    ensures !('A' <= c <= 'Z') ==> r == c
  {
    if 'A' <= c <= 'Z' then (c as int + 32) as char else c
  }

  function Lower(s: string): (r: string)
    ensures |r| == |s|
    ensures forall i | 0 <= i < |s| :: r[i] == LowerChar(s[i])
  {
    seq(|s|, i requires 0 <= i < |s| => LowerChar(s[i]))
  }

  predicate OccursAt(s: string, sub: string, i: nat) {
    i + |sub| <= |s| && s[i..i + |sub|] == sub
  }

  /** Python's `sub in s`. */
  predicate Contains(s: string, sub: string) {
    exists i: nat | i <= |s| :: OccursAt(s, sub, i)
  }

  /** What `strip()` returns is a substring of its argument. */
  lemma {:induction false} StripIsSubstring(s: string)
    ensures Contains(s, Strip(s))
  {
    var i := SkipSpace(s, 0);
    assert OccursAt(s, Strip(s), i);
  }

  /** Django's `icontains` lookup: a case-insensitive substring match. */
  predicate IContains(s: string, sub: string) {
    Contains(Lower(s), Lower(sub))
  }
}
