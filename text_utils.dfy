/**
 * Accent- and case-insensitive search: `normalizeText` lower-cases, applies
 * Unicode canonical decomposition (NFD, Unicode Standard Annex #15) and strips
 * the Combining Diacritical Marks block U+0300..U+036F; `textIncludes` is
 * substring containment of the normalised needle in the normalised haystack.
 */
module TextUtils {
  import opened Casing

  /** A code point of the Combining Diacritical Marks block. */
  predicate IsCombiningMark(c: char) {
    '\U{0300}' <= c <= '\U{036F}'
  }

  const Acute: char := '\U{0301}'
  const Tilde: char := '\U{0303}'
  const Diaeresis: char := '\U{0308}'

  /** Canonical decomposition of one character of the modelled alphabet. */
  function DecomposeChar(c: char): seq<char> {
    if c == '\U{00E1}' then ['a', Acute]
    else if c == '\U{00E9}' then ['e', Acute]
    else if c == '\U{00ED}' then ['i', Acute]
    else if c == '\U{00F3}' then ['o', Acute]
    else if c == '\U{00FA}' then ['u', Acute]
    else if c == '\U{00FC}' then ['u', Diaeresis]
    else if c == '\U{00F1}' then ['n', Tilde]
    else if c == '\U{00C1}' then ['A', Acute]
    else if c == '\U{00C9}' then ['E', Acute]
    else if c == '\U{00CD}' then ['I', Acute]
    else if c == '\U{00D3}' then ['O', Acute]
    else if c == '\U{00DA}' then ['U', Acute]
    else if c == '\U{00DC}' then ['U', Diaeresis]
    else if c == '\U{00D1}' then ['N', Tilde]
    else [c]
  }

  /** `s.normalize('NFD')` over the modelled alphabet. */
  function Nfd(s: string): string {
    if s == [] then [] else DecomposeChar(s[0]) + Nfd(s[1..])
  }

  /** `s.replace(/[̀-ͯ]/g, '')` */
  function StripMarks(s: string): string
  {
    if s == [] then []
    else (if IsCombiningMark(s[0]) then [] else [s[0]]) + StripMarks(s[1..])
  }

  /** Stripping keeps only characters of the input that are not combining marks. */
  lemma {:induction false} StripMarksRemovesMarks(s: string)
    ensures forall c :: c in StripMarks(s) ==> !IsCombiningMark(c) && c in s
  {
    if s != [] {
      StripMarksRemovesMarks(s[1..]);
    }
  }

  /** `normalizeText` */
  function NormalizeText(s: string): string
  {
    StripMarks(Nfd(Lower(s)))
  }

  /** A normalised text never holds a combining mark. */
  lemma NormalizedHasNoMarks(s: string)
    ensures forall c :: c in NormalizeText(s) ==> !IsCombiningMark(c)
  {
    StripMarksRemovesMarks(Nfd(Lower(s)));
  }

  /** `n` occurs in `h` starting at position `i`. */
  predicate OccursAt(h: string, n: string, i: int) {
    0 <= i && i + |n| <= |h| && h[i..i + |n|] == n
  }

  /** `h.includes(n)`: `n` occurs in `h` as a contiguous block. */
  predicate Contains(h: string, n: string) {
    exists i :: 0 <= i <= |h| - |n| && OccursAt(h, n, i)
  }

  /** `textIncludes(haystack, needle)` */
  predicate TextIncludes(haystack: string, needle: string) {
    Contains(NormalizeText(haystack), NormalizeText(needle))
  }

  /** The empty search term matches every text. */
  lemma IncludesEmpty(h: string)
    ensures TextIncludes(h, "")
  {
    assert NormalizeText("") == "";
    assert OccursAt(NormalizeText(h), "", 0);
  }

  /** Every text matches itself. */
  lemma IncludesSelf(h: string)
    ensures TextIncludes(h, h)
  {
    var n := NormalizeText(h);
    assert OccursAt(n, n, 0);
  }

  /** Needles with the same normal form are interchangeable: the search ignores case and accents. */
  lemma NormalFormDecides(x: string, a: string, b: string)
    requires NormalizeText(a) == NormalizeText(b)
    ensures TextIncludes(x, a) == TextIncludes(x, b)
  {
  }

  lemma ContainsTransitive(a: string, b: string, c: string)
    requires Contains(a, b) && Contains(b, c)
    ensures Contains(a, c)
  {
    var i :| 0 <= i <= |a| - |b| && OccursAt(a, b, i);
    var j :| 0 <= j <= |b| - |c| && OccursAt(b, c, j);
    forall k | 0 <= k < |c|
      ensures a[i + j + k] == c[k]
    {
      assert b[j + k] == c[k];
      assert a[i + (j + k)] == b[j + k];
    }
    assert a[i + j..i + j + |c|] == c;
    assert OccursAt(a, c, i + j);
  }

  /** Text containment is transitive. */
  lemma IncludesTransitive(a: string, b: string, c: string)
    requires TextIncludes(a, b) && TextIncludes(b, c)
    ensures TextIncludes(a, c)
  {
    ContainsTransitive(NormalizeText(a), NormalizeText(b), NormalizeText(c));
  }

  lemma NfdConcat(s: string, t: string)
    ensures Nfd(s + t) == Nfd(s) + Nfd(t)
  {
    if s != [] {
      assert (s + t)[0] == s[0] && (s + t)[1..] == s[1..] + t;
      NfdConcat(s[1..], t);
      calc {
        Nfd(s + t);
        DecomposeChar(s[0]) + Nfd(s[1..] + t);
        DecomposeChar(s[0]) + (Nfd(s[1..]) + Nfd(t));
        (DecomposeChar(s[0]) + Nfd(s[1..])) + Nfd(t);
      }
    } else {
      assert s + t == t;
    }
  }

  lemma StripMarksConcat(s: string, t: string)
    ensures StripMarks(s + t) == StripMarks(s) + StripMarks(t)
  {
    if s == [] {
      assert s + t == t;
    } else {
      var u := s + t;
      assert u[0] == s[0] && u[1..] == s[1..] + t;
      StripMarksConcat(s[1..], t);
    }
  }

  /** The normal form of a single character. */
  function NormChar(c: char): string {
    StripMarks(DecomposeChar(LowerChar(c)))
  }

  lemma {:induction false} NormalizeCons(c: char, s: string)
    ensures NormalizeText([c] + s) == NormChar(c) + NormalizeText(s)
  {
    var l := LowerChar(c);
    assert Lower([c]) == [l];
    assert [l][1..] == [];
    assert Nfd([l]) == DecomposeChar(l) + Nfd([]);
    assert Nfd([]) == [];
    assert Nfd([l]) == DecomposeChar(l);
    assert NormalizeText([c]) == NormChar(c);
    NormalizeConcat([c], s);
  }

  /** Lower-case accented letters of the modelled alphabet. */
  predicate IsAccentedLower(c: char) {
    c == '\U{00E1}' || c == '\U{00E9}' || c == '\U{00ED}' || c == '\U{00F3}' ||
    c == '\U{00FA}' || c == '\U{00FC}' || c == '\U{00F1}'
  }

  /** Lower-casing leaves a character that decomposes into itself or into an ASCII letter and one mark. */
  lemma DecomposeLowered(c: char)
    ensures var l := LowerChar(c);
      if IsAccentedLower(l) then
        var d := DecomposeChar(l);
        |d| == 2 && 'a' <= d[0] <= 'z' && IsCombiningMark(d[1])
      else
        DecomposeChar(l) == [l]
  {
  }

  /** A character normalises to nothing or to one character that normalisation keeps. */
  lemma NormCharShape(c: char)
    ensures var h := NormChar(c);
      h == [] || (|h| == 1 && NormChar(h[0]) == h)
  {
    var l := LowerChar(c);
    var d := DecomposeChar(l);
    DecomposeLowered(c);
    if IsAccentedLower(l) {
      assert StripMarks(d) == [d[0]] + StripMarks([d[1]]);
      assert StripMarks([d[1]]) == [] + StripMarks([]);
      assert NormChar(c) == [d[0]];
      assert LowerChar(d[0]) == d[0] && DecomposeChar(d[0]) == [d[0]];
      assert StripMarks([d[0]]) == [d[0]] + StripMarks([]);
    } else if !IsCombiningMark(l) {
      assert StripMarks([l]) == [l] + StripMarks([]);
      assert LowerChar(l) == l;
      DecomposeLowered(l);
    } else {
      assert StripMarks([l]) == [] + StripMarks([]);
    }
  }

  /** Normalising an already normalised text changes nothing. */
  lemma {:induction false} NormalizeIdempotent(s: string)
    ensures NormalizeText(NormalizeText(s)) == NormalizeText(s)
  {
    if s == [] {
    } else {
      var head := NormChar(s[0]);
      assert s == [s[0]] + s[1..];
      NormalizeCons(s[0], s[1..]);
      NormCharShape(s[0]);
      assert NormalizeText(head) == head by {
        if head != [] {
          assert head == [head[0]] + [];
          NormalizeCons(head[0], []);
        }
      }
      NormalizeIdempotent(s[1..]);
      NormalizeConcat(head, NormalizeText(s[1..]));
    }
  }

  lemma NormalizeConcat(s: string, t: string)
    ensures NormalizeText(s + t) == NormalizeText(s) + NormalizeText(t)
  {
    LowerConcat(s, t);
    NfdConcat(Lower(s), Lower(t));
    StripMarksConcat(Nfd(Lower(s)), Nfd(Lower(t)));
  }

  lemma LowerConcat(s: string, t: string)
    ensures Lower(s + t) == Lower(s) + Lower(t)
  {
  }

  /** Text made only of lower-case ASCII letters and spaces. */
  predicate IsLowerPlainText(s: string) {
    forall k :: 0 <= k < |s| ==> 'a' <= s[k] <= 'z' || s[k] == ' '
  }

  lemma PlainCharIsNormal(c: char)
    requires 'a' <= c <= 'z' || c == ' '
    ensures NormChar(c) == [c]
  {
    assert LowerChar(c) == c && DecomposeChar(c) == [c];
    assert StripMarks([c]) == [c] + StripMarks([]);
  }

  /** Unaccented lower-case text is already in normal form. */
  lemma {:induction false} LowerPlainTextIsNormal(s: string)
    requires IsLowerPlainText(s)
    ensures NormalizeText(s) == s
  {
    if s != [] {
      assert s == [s[0]] + s[1..];
      NormalizeCons(s[0], s[1..]);
      PlainCharIsNormal(s[0]);
      LowerPlainTextIsNormal(s[1..]);
    }
  }

  /** An ASCII letter that is not the base of an accented letter appears in the normal form only if it, or its capital, appears in the text. */
  lemma {:induction false} NormalizeIntroducesNoLetter(s: string, x: char)
    requires 'a' <= x <= 'z' && x !in "aeiou" && x != 'n'
    requires x !in s && UpperChar(x) !in s
    ensures x !in NormalizeText(s)
  {
    if s != [] {
      var c := s[0];
      assert s == [c] + s[1..];
      NormalizeCons(c, s[1..]);
      DecomposeLowered(c);
      var l := LowerChar(c);
      assert l != x;
      if IsAccentedLower(l) {
        var d := DecomposeChar(l);
        assert StripMarks(d) == [d[0]] + StripMarks([d[1]]);
        assert StripMarks([d[1]]) == [] + StripMarks([]);
      } else {
        assert StripMarks([l]) == (if IsCombiningMark(l) then [] else [l]) + StripMarks([]);
      }
      NormalizeIntroducesNoLetter(s[1..], x);
    }
  }

  /** Text appended after a match does not undo it. */
  lemma IncludesExtends(a: string, b: string, n: string)
    requires TextIncludes(a, n)
    ensures TextIncludes(a + b, n)
  {
    NormalizeConcat(a, b);
    var h := NormalizeText(a);
    var m := NormalizeText(n);
    var i :| 0 <= i <= |h| - |m| && OccursAt(h, m, i);
    assert (h + NormalizeText(b))[i..i + |m|] == h[i..i + |m|];
    assert OccursAt(h + NormalizeText(b), m, i);
  }

  /** `s` and `t` have the same length and agree position by position up to case and accents. */
  predicate AgreeUpToCaseAndAccents(s: string, t: string) {
    |s| == |t| &&
    (s == [] || (NormChar(s[0]) == NormChar(t[0]) && AgreeUpToCaseAndAccents(s[1..], t[1..])))
  }

  /** Texts that agree character by character up to case and accents have the same normal form. */
  lemma {:induction false} SameNormalForm(s: string, t: string)
    requires AgreeUpToCaseAndAccents(s, t)
    ensures NormalizeText(s) == NormalizeText(t)
  {
    if s != [] {
      assert s == [s[0]] + s[1..];
      assert t == [t[0]] + t[1..];
      SameNormalForm(s[1..], t[1..]);
      NormalizeCons(s[0], s[1..]);
      NormalizeCons(t[0], t[1..]);
    }
  }

  /** Case is ignored: a letter and its capital normalise alike. */
  lemma CaseIgnored(c: char)
    ensures NormChar(UpperChar(c)) == NormChar(c)
  {
    assert LowerChar(UpperChar(c)) == LowerChar(c);
  }

  /** Accents are ignored: an accented lower-case letter normalises to its base letter. */
  lemma AccentIgnored(c: char)
    requires IsAccentedLower(c)
    ensures |DecomposeChar(c)| == 2
    ensures NormChar(c) == NormChar(DecomposeChar(c)[0]) == [DecomposeChar(c)[0]]
  {
    DecomposeLowered(c);
    var d := DecomposeChar(c);
    assert LowerChar(c) == c;
    assert StripMarks(d) == [d[0]] + StripMarks([d[1]]);
    assert StripMarks([d[1]]) == [] + StripMarks([]);
    PlainCharIsNormal(d[0]);
  }

  /** The search ignores case and accents: needles that agree up to case and accents find the same texts. */
  lemma CaseAndAccentInsensitive(h: string, n: string, m: string)
    requires AgreeUpToCaseAndAccents(n, m)
    ensures TextIncludes(h, n) == TextIncludes(h, m)
  {
    SameNormalForm(n, m);
  }

  /** Every character of a contained block occurs in the containing text. */
  lemma ContainsKeepsChars(h: string, n: string, c: char)
    requires Contains(h, n) && c in n
    ensures c in h
  {
    var i :| 0 <= i <= |h| - |n| && OccursAt(h, n, i);
    var k :| 0 <= k < |n| && n[k] == c;
    assert h[i..i + |n|][k] == h[i + k];
  }

  /** A plain lower-case letter of the text survives normalisation. */
  lemma {:induction false} PlainLetterSurvives(s: string, x: char)
    requires 'a' <= x <= 'z' && x in s
    ensures x in NormalizeText(s)
  {
    assert s == [s[0]] + s[1..];
    NormalizeCons(s[0], s[1..]);
    if s[0] == x {
      PlainCharIsNormal(x);
    } else {
      PlainLetterSurvives(s[1..], x);
    }
  }

  /** A needle holding a letter that the text lacks in every case and accent form is not found. */
  lemma MissingLetterNotFound(h: string, n: string, x: char)
    requires 'a' <= x <= 'z' && x !in "aeiou" && x != 'n'
    requires x !in h && UpperChar(x) !in h && x in n
    ensures !TextIncludes(h, n)
  {
    NormalizeIntroducesNoLetter(h, x);
    PlainLetterSurvives(n, x);
    if TextIncludes(h, n) {
      ContainsKeepsChars(NormalizeText(h), NormalizeText(n), x);
    }
  }
}
