/**
 * The character case maps used by `toLowerCase` and `toUpperCase`, over a small
 * alphabet: ASCII letters and the accented Spanish letters. Every other
 * character is left as it is.
 */
module Casing {

  // The accented pairs: Á á, É é, Í í, Ó ó, Ú ú, Ü ü, Ñ ñ.

  function LowerChar(c: char): char {
    if 'A' <= c <= 'Z' then (c as int + 32) as char
    else if c == '\U{00C1}' then '\U{00E1}'
    else if c == '\U{00C9}' then '\U{00E9}'
    else if c == '\U{00CD}' then '\U{00ED}'
    else if c == '\U{00D3}' then '\U{00F3}'
    else if c == '\U{00DA}' then '\U{00FA}'
    else if c == '\U{00DC}' then '\U{00FC}'
    else if c == '\U{00D1}' then '\U{00F1}'
    else c
  }

  function UpperChar(c: char): char {
    if 'a' <= c <= 'z' then (c as int - 32) as char
    else if c == '\U{00E1}' then '\U{00C1}'
    else if c == '\U{00E9}' then '\U{00C9}'
    else if c == '\U{00ED}' then '\U{00CD}'
    else if c == '\U{00F3}' then '\U{00D3}'
    else if c == '\U{00FA}' then '\U{00DA}'
    else if c == '\U{00FC}' then '\U{00DC}'
    else if c == '\U{00F1}' then '\U{00D1}'
    else c
  }

  /** `s.toLowerCase()` */
  function Lower(s: string): (r: string)
    ensures |r| == |s|
    ensures forall i :: 0 <= i < |s| ==> r[i] == LowerChar(s[i])
  {
    if s == [] then [] else [LowerChar(s[0])] + Lower(s[1..])
  }

  /** `s.toUpperCase()` */
  function Upper(s: string): (r: string)
    ensures |r| == |s|
    ensures forall i :: 0 <= i < |s| ==> r[i] == UpperChar(s[i])
  {
    if s == [] then [] else [UpperChar(s[0])] + Upper(s[1..])
  }

  /** Upper-casing forgets whether the input had been lower-cased first. */
  lemma UpperAfterLower(s: string)
    ensures Upper(Lower(s)) == Upper(s)
  {
    assert forall i :: 0 <= i < |s| ==> UpperChar(LowerChar(s[i])) == UpperChar(s[i]);
  }

  /** Lower-casing is idempotent. */
  lemma LowerIdempotent(s: string)
    ensures Lower(Lower(s)) == Lower(s)
  {
    assert forall i :: 0 <= i < |s| ==> LowerChar(LowerChar(s[i])) == LowerChar(s[i]);
  }

  /** Upper-casing leaves capital letters alone. */
  lemma UpperOfCapitals(s: string)
    requires forall i :: 0 <= i < |s| ==> 'A' <= s[i] <= 'Z'
    ensures Upper(s) == s
  {
  }
}
