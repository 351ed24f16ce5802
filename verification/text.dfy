/**
 * ASCII models of the Python string operations the catalogue relies on:
 * str.lower, str.capitalize, str.strip and the `in` substring test.
 */
module Text {

  /** str.isspace on the ASCII range: tab, line feed, vertical tab, form feed,
      carriage return, the separators 0x1C-0x1F and space. */
  predicate IsSpace(c: char) {
    (9 <= c as int <= 13) || (28 <= c as int <= 32)
  }

  predicate IsUpper(c: char) { 'A' <= c <= 'Z' }

  predicate IsLower(c: char) { 'a' <= c <= 'z' }

  function LowerChar(c: char): char {
    if IsUpper(c) then (c as int + 32) as char else c
  }

  function UpperChar(c: char): char {
    if IsLower(c) then (c as int - 32) as char else c
  }

  /** str.lower() */
  function Lower(s: string): string {
    seq(|s|, i requires 0 <= i < |s| => LowerChar(s[i]))
  }

  /** str.capitalize(): first character upper case, the rest lower case. */
  function Capitalize(s: string): string {
    if s == [] then [] else [UpperChar(s[0])] + Lower(s[1..])
  }

  /** Capitalizing never changes how a text compares case-insensitively, so a
      name written to the file capitalized is found by the same lookups as the
      text the user typed. */
  lemma CapitalizeKeepsLower(s: string)
    ensures Lower(Capitalize(s)) == Lower(s)
  {
  }

  /** `part` sits in `text` starting at index i. */
  predicate OccursAt(text: string, part: string, i: nat) {
    i + |part| <= |text| && text[i..i + |part|] == part
  }

  /** Python's `part in text` for strings. */
  predicate Contains(text: string, part: string) {
    exists i: nat :: i <= |text| && OccursAt(text, part, i)
  }

  /** Every text contains itself, so an equality test is subsumed by the
      substring test. */
  lemma ContainsItself(s: string)
    ensures Contains(s, s)
  {
    assert OccursAt(s, s, 0);
  }

  predicate Blank(s: string) {
    forall i :: 0 <= i < |s| ==> IsSpace(s[i])
  }

  /** The first index at or after i that does not hold whitespace. */
  function SkipForward(s: string, i: nat): (j: nat)
    requires i <= |s|
    ensures i <= j <= |s| && (j == |s| || !IsSpace(s[j]))
    ensures forall k :: i <= k < j ==> IsSpace(s[k])
    decreases |s| - i
  {
    if i < |s| && IsSpace(s[i]) then SkipForward(s, i + 1) else i
  }

  /** The least index k in lo..j such that s[k..j] is all whitespace. */
  function SkipBackward(s: string, lo: nat, j: nat): (k: nat)
    requires lo <= j <= |s|
    ensures lo <= k <= j && (k == lo || !IsSpace(s[k - 1]))
    ensures forall m :: k <= m < j ==> IsSpace(s[m])
    decreases j - lo
  {
    if lo < j && IsSpace(s[j - 1]) then SkipBackward(s, lo, j - 1) else j
  }

  /** str.strip() with no argument. */
  function Strip(s: string): string {
    var i := SkipForward(s, 0);
    s[i..SkipBackward(s, i, |s|)]
  }

  /** The stripped text is the slice of `s` that neither starts nor ends with
      whitespace, everything cut away on either side being whitespace; it is
      empty exactly when `s` is blank. */
  lemma StripCharacterised(s: string)
    ensures var r := Strip(s);
            && (r == [] || (!IsSpace(r[0]) && !IsSpace(r[|r| - 1])))
            && (exists i: nat ::
                  && OccursAt(s, r, i)
                  && (forall k :: 0 <= k < i ==> IsSpace(s[k]))
                  && (forall k :: i + |r| <= k < |s| ==> IsSpace(s[k])))
            && (r == [] <==> Blank(s))
  {
    var i := SkipForward(s, 0);
    var j := SkipBackward(s, i, |s|);
    assert OccursAt(s, s[i..j], i);
  }

  /** A text that neither starts nor ends with whitespace is left alone. */
  lemma StripKeepsTrimmed(s: string)
    requires s == [] || (!IsSpace(s[0]) && !IsSpace(s[|s| - 1]))
    ensures Strip(s) == s
  {
  }
}
