/** Character classification and case mapping used by the casing library.
    These stand in for the parts of Go's `unicode` and `strings` packages
    that the library calls, restricted to ASCII: a char is a letter when it is
    in 'A'..'Z' or 'a'..'z' and a digit when it is in '0'..'9'. Every other
    char (punctuation, whitespace, and every non-ASCII char) is neither. */
module Runes {

  predicate IsUpper(c: char) { 'A' <= c <= 'Z' }

  predicate IsLower(c: char) { 'a' <= c <= 'z' }

  predicate IsLetter(c: char) { IsUpper(c) || IsLower(c) }

  /** `unicode.IsDigit` and `unicode.IsNumber` agree on ASCII. */
  predicate IsDigit(c: char) { '0' <= c <= '9' }

  /** `unicode.ToLower` on ASCII. */
  function ToLower(c: char): (d: char)
    ensures IsUpper(c) ==> IsLower(d) && d as int == c as int + 32
    ensures !IsUpper(c) ==> d == c
  {
    if IsUpper(c) then (c as int + 32) as char else c
  }

  /** `unicode.ToTitle` on ASCII, where title case and upper case coincide. */
  function ToTitle(c: char): (d: char)
    ensures IsLower(c) ==> IsUpper(d) && d as int == c as int - 32
    ensures !IsLower(c) ==> d == c
  {
    if IsLower(c) then (c as int - 32) as char else c
  }

  /** `strings.ToLower` on ASCII: `ToLower` applied to every char. */
  function Lower(s: string): (r: string)
    ensures |r| == |s| && forall i :: 0 <= i < |s| ==> r[i] == ToLower(s[i])
  {
    seq(|s|, i requires 0 <= i < |s| => ToLower(s[i]))
  }

  /** Case mapping never moves a char between the letter, digit and other classes. */
  lemma CaseMappingKeepsClass(c: char)
    ensures IsLetter(ToLower(c)) == IsLetter(c) && IsDigit(ToLower(c)) == IsDigit(c)
    ensures IsLetter(ToTitle(c)) == IsLetter(c) && IsDigit(ToTitle(c)) == IsDigit(c)
    ensures ToLower(ToTitle(c)) == ToLower(c) && ToLower(ToLower(c)) == ToLower(c)
  {
  }

  lemma LowerAppend(a: string, b: string)
    ensures Lower(a + b) == Lower(a) + Lower(b)
  {
  }
}
