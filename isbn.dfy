/** The shape check of `validate_isbn` (books/models.py): a `re.match` of

      ^(?:ISBN(?:-1[03])?:? )?
       (?=[0-9X]{10}$|(?=(?:[0-9]+[- ]){3})[- 0-9X]{13}$|97[89][0-9]{10}$|(?=(?:[0-9]+[- ]){4})[- 0-9]{17}$)
       (?:97[89][- ]?)?[0-9]{1,5}[- ]?[0-9]+[- ]?[0-9]+[- ]?[0-9X]$

    A regular expression accepts a string when some way of splitting it fits
    the pattern, so each part of the pattern becomes a predicate on a slice
    and each choice of split an existential over positions. The check digit is
    never computed: this is a check of shape only. */
module IsbnFormat {

  predicate IsDigit(c: char) { '0' <= c <= '9' }

  /** `[- ]` */
  predicate IsSep(c: char) { c == '-' || c == ' ' }

  /** `[0-9X]`, the last character of an ISBN-10 */
  predicate IsCheckChar(c: char) { IsDigit(c) || c == 'X' }

  /** `[0-9]*` over positions `lo` to `hi` of `s` */
  predicate DigitsIn(s: string, lo: int, hi: int)
    requires 0 <= lo <= hi <= |s|
  {
    forall i | lo <= i < hi :: IsDigit(s[i])
  }

  /** `[- ]?` over positions `lo` to `hi` of `s` */
  predicate OptSepIn(s: string, lo: int, hi: int)
    requires 0 <= lo <= hi <= |s|
  {
    hi == lo || (hi == lo + 1 && IsSep(s[lo]))
  }

  /** `97[89]` at the start of `s` */
  predicate EanPrefix(s: string) {
    |s| >= 3 && s[0] == '9' && s[1] == '7' && (s[2] == '8' || s[2] == '9')
  }

  /** `(?:ISBN(?:-1[03])?:? )?`, each way the optional label can be written */
  const Labels: seq<string> := ["", "ISBN ", "ISBN: ", "ISBN-10 ", "ISBN-10: ", "ISBN-13 ", "ISBN-13: "]

  /** In Python, `$` (without MULTILINE) matches at the end of the string or
      just before a newline that ends it; no other part of the pattern can
      consume that newline, so the pattern must fit the string without it. */
  function WithoutFinalNewline(s: string): (t: string)
    ensures t == s || s == t + "\n"
  {
    if s != [] && s[|s| - 1] == '\n' then s[..|s| - 1] else s
  }

  /** `(?:[0-9]+[- ]){n}` from position `p` of `s` (the pattern may continue after it) */
  predicate LeadingGroups(s: string, p: nat, n: nat)
    requires p <= |s|
    decreases n
  {
    n == 0 || exists i | p < i < |s| :: DigitsIn(s, p, i) && IsSep(s[i]) && LeadingGroups(s, i + 1, n - 1)
  }

  /** `[0-9X]{10}$` */
  predicate Shape10(r: string) {
    |r| == 10 && forall i | 0 <= i < |r| :: IsCheckChar(r[i])
  }

  /** `(?=(?:[0-9]+[- ]){3})[- 0-9X]{13}$` */
  predicate Shape13Grouped(r: string) {
    |r| == 13 && (forall i | 0 <= i < |r| :: IsCheckChar(r[i]) || IsSep(r[i])) && LeadingGroups(r, 0, 3)
  }

  /** `97[89][0-9]{10}$` */
  predicate Shape13Plain(r: string) {
    |r| == 13 && EanPrefix(r) && DigitsIn(r, 3, 13)
  }

  /** `(?=(?:[0-9]+[- ]){4})[- 0-9]{17}$` */
  predicate Shape17Grouped(r: string) {
    |r| == 17 && (forall i | 0 <= i < |r| :: IsDigit(r[i]) || IsSep(r[i])) && LeadingGroups(r, 0, 4)
  }

  /** The lookahead: one of the four overall shapes. */
  predicate Lookahead(r: string) {
    Shape10(r) || Shape13Grouped(r) || Shape13Plain(r) || Shape17Grouped(r)
  }

  /** `[- ]?[0-9]+` over positions `p` to `q` */
  predicate SepDigits(u: string, p: int, q: int)
    requires 0 <= p <= q <= |u|
  {
    (p < q && DigitsIn(u, p, q)) || (p + 1 < q && IsSep(u[p]) && DigitsIn(u, p + 1, q))
  }

  /** `(?:[- ]?[0-9]+){n}[- ]?` over positions `p` to `hi` */
  predicate SepGroups(u: string, p: int, hi: int, n: nat)
    requires 0 <= p <= hi <= |u|
    decreases n
  {
    if n == 0 then OptSepIn(u, p, hi)
    else exists q | p < q <= hi :: SepDigits(u, p, q) && SepGroups(u, q, hi, n - 1)
  }

  /** `[0-9]{1,5}[- ]?[0-9]+[- ]?[0-9]+[- ]?` over positions `lo` to `hi`:
      three digit groups, the first of one to five digits, each followed by
      an optional separator. */
  predicate Groups(u: string, lo: int, hi: int)
    requires 0 <= lo <= hi <= |u|
  {
    exists a | lo < a <= lo + 5 && a <= hi :: DigitsIn(u, lo, a) && SepGroups(u, a, hi, 2)
  }

  /** `[0-9]{1,5}[- ]?[0-9]+[- ]?[0-9]+[- ]?[0-9X]$` from position `p` */
  predicate Core(r: string, p: nat) {
    p < |r| && IsCheckChar(r[|r| - 1]) && Groups(r, p, |r| - 1)
  }

  /** `(?:97[89][- ]?)?` followed by `Core` */
  predicate Body(r: string) {
    || Core(r, 0)
    || (EanPrefix(r) && Core(r, 3))
    || (EanPrefix(r) && |r| >= 4 && IsSep(r[3]) && Core(r, 4))
  }

  /** The pattern after the optional label. */
  predicate Unlabelled(r: string) {
    Lookahead(r) && Body(r)
  }

  /** `validate_isbn` accepts `value` (raises no ValidationError). */
  predicate ValidIsbn(value: string) {
    var t := WithoutFinalNewline(value);
    exists k | 0 <= k < |Labels| :: Labels[k] <= t && Unlabelled(t[|Labels[k]|..])
  }

  // ---------------------------------------------------------------------------
  // What the shape check accepts and rejects

  lemma {:induction false} SepGroupsChars(u: string, p: int, hi: int, n: nat)
    requires 0 <= p <= hi <= |u| && SepGroups(u, p, hi, n)
    ensures forall i | p <= i < hi :: IsDigit(u[i]) || IsSep(u[i])
    decreases n
  {
    if n > 0 {
      var q :| p < q <= hi && SepDigits(u, p, q) && SepGroups(u, q, hi, n - 1);
      SepGroupsChars(u, q, hi, n - 1);
    }
  }

  /** Every character a `Groups` match covers is a digit or a separator. */
  lemma {:induction false} GroupsChars(u: string, lo: int, hi: int)
    requires 0 <= lo <= hi <= |u| && Groups(u, lo, hi)
    ensures forall i | lo <= i < hi :: IsDigit(u[i]) || IsSep(u[i])
  {
    var a :| lo < a <= lo + 5 && a <= hi && DigitsIn(u, lo, a) && SepGroups(u, a, hi, 2);
    SepGroupsChars(u, a, hi, 2);
  }

  /** Apart from its last character, a `Body` match holds only digits and separators. */
  lemma {:induction false} BodyChars(r: string)
    requires Body(r)
    ensures |r| >= 1
    ensures forall i | 0 <= i < |r| - 1 :: IsDigit(r[i]) || IsSep(r[i])
  {
    if Core(r, 0) {
      GroupsChars(r, 0, |r| - 1);
    } else if EanPrefix(r) && Core(r, 3) {
      GroupsChars(r, 3, |r| - 1);
    } else {
      GroupsChars(r, 4, |r| - 1);
    }
  }

  /** A leading group needs a separator. */
  lemma {:induction false} LeadingGroupsHasSep(s: string, p: nat, n: nat)
    requires p <= |s| && n >= 1 && LeadingGroups(s, p, n)
    ensures exists i | p <= i < |s| :: IsSep(s[i])
  {
    var i :| p < i < |s| && DigitsIn(s, p, i) && IsSep(s[i]) && LeadingGroups(s, i + 1, n - 1);
  }

  /** Ten characters, nine digits then a digit or `X`: accepted whatever the
      check digit, because none is computed. */
  lemma {:induction false} Isbn10ShapeAccepted(s: string)
    requires |s| == 10 && DigitsIn(s, 0, 9) && IsCheckChar(s[9])
    ensures ValidIsbn(s)
  {
    assert WithoutFinalNewline(s) == s;
    assert Labels[0] == "" && s[|Labels[0]|..] == s;
    assert SepGroups(s, 9, 9, 0) && SepDigits(s, 2, 9);
    assert SepGroups(s, 2, 9, 1) && SepDigits(s, 1, 2);
    assert SepGroups(s, 1, 9, 2) && DigitsIn(s, 0, 1);
    assert Core(s, 0);
  }

  /** `978` or `979` then ten digits: accepted. */
  lemma {:induction false} Isbn13ShapeAccepted(s: string)
    requires |s| == 13 && EanPrefix(s) && DigitsIn(s, 3, 13)
    ensures ValidIsbn(s)
  {
    assert WithoutFinalNewline(s) == s;
    assert Labels[0] == "" && s[|Labels[0]|..] == s;
    assert SepGroups(s, 12, 12, 0) && SepDigits(s, 5, 12);
    assert SepGroups(s, 5, 12, 1) && SepDigits(s, 4, 5);
    assert SepGroups(s, 4, 12, 2) && DigitsIn(s, 3, 4);
    assert Core(s, 3);
  }

  /** A candidate that starts with a digit or `X` carries no label. */
  lemma NoLabel(s: string)
    requires |s| > 0 && IsCheckChar(s[0])
    ensures forall k | 1 <= k < |Labels| :: !(Labels[k] <= s)
  {
    forall k | 1 <= k < |Labels| ensures !(Labels[k] <= s) {
      assert Labels[k][0] == 'I';
    }
  }

  /** Without a separator there is no leading group. */
  lemma {:induction false} NoSepNoGroups(s: string, p: nat, n: nat)
    requires p <= |s| && n >= 1
    requires forall i | 0 <= i < |s| :: !IsSep(s[i])
    ensures !LeadingGroups(s, p, n)
  {
  }

  /** The converse of the two lemmas above: a candidate made only of digits
      and `X` that passes has one of the two plain forms. */
  lemma {:induction false} PlainIsbnOnlyPlainForms(s: string)
    requires forall i | 0 <= i < |s| :: IsCheckChar(s[i])
    requires ValidIsbn(s)
    ensures || (|s| == 10 && DigitsIn(s, 0, 9))
            || (|s| == 13 && EanPrefix(s) && DigitsIn(s, 3, 13))
  {
    var t := WithoutFinalNewline(s);
    assert t == s by {
      if s != [] { assert IsCheckChar(s[|s| - 1]); }
    }
    var k :| 0 <= k < |Labels| && Labels[k] <= t && Unlabelled(t[|Labels[k]|..]);
    assert |s| > 0;
    NoLabel(s);
    assert k == 0;
    assert t[|Labels[k]|..] == s;
    assert Unlabelled(s);
    BodyChars(s);
    NoSepNoGroups(s, 0, 3);
    NoSepNoGroups(s, 0, 4);
    assert Shape10(s) || Shape13Plain(s);
    if Shape10(s) {
      forall i | 0 <= i < 9 ensures IsDigit(s[i]) {
        assert IsCheckChar(s[i]) && !IsSep(s[i]);
      }
    }
  }

  /** For a candidate made only of digits and `X` (no label, separator or
      newline), the shape check accepts exactly the two plain forms: nine
      digits then a digit or `X`, and `978`/`979` then ten digits. */
  lemma {:induction false} PlainIsbnCharacterised(s: string)
    requires forall i | 0 <= i < |s| :: IsCheckChar(s[i])
    ensures ValidIsbn(s) <==>
      || (|s| == 10 && DigitsIn(s, 0, 9))
      || (|s| == 13 && EanPrefix(s) && DigitsIn(s, 3, 13))
  {
    if |s| == 10 && DigitsIn(s, 0, 9) {
      Isbn10ShapeAccepted(s);
    } else if |s| == 13 && EanPrefix(s) && DigitsIn(s, 3, 13) {
      Isbn13ShapeAccepted(s);
    } else if ValidIsbn(s) {
      PlainIsbnOnlyPlainForms(s);
    }
  }

  /** The usual 3-1-3-5-1 grouping of an ISBN-13 with separators. */
  predicate Grouped13(s: string) {
    && |s| == 17 && EanPrefix(s)
    && IsSep(s[3]) && IsSep(s[5]) && IsSep(s[9]) && IsSep(s[15])
    && IsDigit(s[4]) && DigitsIn(s, 6, 9) && DigitsIn(s, 10, 15) && IsDigit(s[16])
  }

  lemma {:induction false} Grouped13Leading(s: string)
    requires Grouped13(s)
    ensures LeadingGroups(s, 0, 4)
  {
    assert DigitsIn(s, 10, 15);
    LeadingStep(s, 10, 15, 1);
    assert DigitsIn(s, 6, 9);
    LeadingStep(s, 6, 9, 2);
    assert DigitsIn(s, 4, 5);
    LeadingStep(s, 4, 5, 3);
    assert DigitsIn(s, 0, 3);
    LeadingStep(s, 0, 3, 4);
  }

  /** One more `[0-9]+[- ]` in front of `n - 1` leading groups. */
  lemma LeadingStep(s: string, p: nat, i: nat, n: nat)
    requires p < i < |s| && n >= 1
    requires DigitsIn(s, p, i) && IsSep(s[i]) && LeadingGroups(s, i + 1, n - 1)
    ensures LeadingGroups(s, p, n)
  {
  }

  lemma {:induction false} Grouped13Lookahead(s: string)
    requires Grouped13(s)
    ensures Shape17Grouped(s)
  {
    Grouped13Leading(s);
    forall i | 0 <= i < 17 ensures IsDigit(s[i]) || IsSep(s[i]) {
      Grouped13Char(s, i);
    }
  }

  lemma Grouped13Char(s: string, i: int)
    requires Grouped13(s) && 0 <= i < 17
    ensures IsDigit(s[i]) || IsSep(s[i])
  {
    if i < 3 {
      assert i == 0 || i == 1 || i == 2;
    } else if i < 9 {
      assert i == 3 || i == 4 || i == 5 || DigitsIn(s, 6, 9);
    } else if i >= 10 && i < 15 {
      assert DigitsIn(s, 10, 15);
    }
  }

  lemma {:induction false} Grouped13Body(s: string)
    requires Grouped13(s)
    ensures Core(s, 4)
  {
    assert SepGroups(s, 15, 16, 0) && SepDigits(s, 9, 15);
    assert SepGroups(s, 9, 16, 1) && SepDigits(s, 5, 9);
    assert DigitsIn(s, 4, 5);
    assert SepGroups(s, 5, 16, 2);
    assert Groups(s, 4, 16);
  }

  /** An ISBN-13 written with separators in the usual 3-1-3-5-1 grouping passes. */
  lemma {:induction false} GroupedIsbn13Accepted(s: string)
    requires Grouped13(s)
    ensures ValidIsbn(s)
  {
    Grouped13Lookahead(s);
    Grouped13Body(s);
    assert WithoutFinalNewline(s) == s;
    assert Labels[0] == "" && s[|Labels[0]|..] == s;
  }

  /** For instance the hyphenated form of 978-0-306-40615-7. */
  lemma HyphenatedIsbn13Accepted()
    ensures ValidIsbn("978-0-306-40615-7")
  {
    var s := "978-0-306-40615-7";
    assert DigitsIn(s, 6, 9) && DigitsIn(s, 10, 15);
    GroupedIsbn13Accepted(s);
  }

  /** A label in front and a final newline are both tolerated. */
  lemma LabelledIsbnAccepted()
    ensures ValidIsbn("ISBN-10: 0306406152\n")
  {
    var s := "ISBN-10: 0306406152\n";
    var t := WithoutFinalNewline(s);
    assert t == "ISBN-10: 0306406152";
    assert Labels[4] == "ISBN-10: " && Labels[4] <= t;
    var r := t[9..];
    assert r == "0306406152";
    assert SepGroups(r, 9, 9, 0) && SepDigits(r, 2, 9);
    assert SepGroups(r, 2, 9, 1) && SepDigits(r, 1, 2);
    assert SepGroups(r, 1, 9, 2) && DigitsIn(r, 0, 1);
    assert Core(r, 0) && Shape10(r);
    assert Unlabelled(t[|Labels[4]|..]);
  }
}
