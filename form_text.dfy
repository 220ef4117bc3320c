/**
 * The text handling that the upload, edit and calendar forms share: JavaScript's
 * `String.prototype.trim`, `split(',')`, and the comma-separated tag list that
 * the upload and edit forms parse and the edit form prints back with `join(', ')`.
 */
module FormText {

  /** The characters `trim` removes: ECMAScript's WhiteSpace and LineTerminator code points. */
  predicate IsSpace(c: char) {
    c == '\t' || c == '\n' || c == '\U{000B}' || c == '\U{000C}' || c == '\r' || c == ' ' ||
    c == '\U{00A0}' || c == '\U{1680}' || ('\U{2000}' <= c <= '\U{200A}') ||
    c == '\U{2028}' || c == '\U{2029}' || c == '\U{202F}' || c == '\U{205F}' ||
    c == '\U{3000}' || c == '\U{FEFF}'
  }

  /** The number of leading spaces of `s`. */
  function LeadingSpaces(s: string): (k: nat)
    ensures k <= |s|
  {
    if s == [] || !IsSpace(s[0]) then 0 else 1 + LeadingSpaces(s[1..])
  }

  /** The number of trailing spaces of `s`. */
  function TrailingSpaces(s: string): (k: nat)
    ensures k <= |s|
  {
    if s == [] || !IsSpace(s[|s| - 1]) then 0 else 1 + TrailingSpaces(s[..|s| - 1])
  }

  /** `s.trimStart()` */
  function TrimStart(s: string): string {
    s[LeadingSpaces(s)..]
  }

  /** `s.trimEnd()` */
  function TrimEnd(s: string): string {
    s[..|s| - TrailingSpaces(s)]
  }

  /** `s.trim()` */
  function Trim(s: string): string {
    TrimEnd(TrimStart(s))
  }

  /** Neither end of `s` is a space. */
  predicate IsTrimmed(s: string) {
    s == [] || (!IsSpace(s[0]) && !IsSpace(s[|s| - 1]))
  }

  /** Exactly the leading spaces are counted: all of them are spaces and the next character is not. */
  lemma {:induction false} LeadingSpacesExact(s: string)
    ensures forall i :: 0 <= i < LeadingSpaces(s) ==> IsSpace(s[i])
    ensures LeadingSpaces(s) < |s| ==> !IsSpace(s[LeadingSpaces(s)])
  {
    if s != [] && IsSpace(s[0]) {
      LeadingSpacesExact(s[1..]);
    }
  }

  /** Exactly the trailing spaces are counted. */
  lemma {:induction false} TrailingSpacesExact(s: string)
    ensures forall i :: |s| - TrailingSpaces(s) <= i < |s| ==> IsSpace(s[i])
    ensures TrailingSpaces(s) < |s| ==> !IsSpace(s[|s| - TrailingSpaces(s) - 1])
  {
    if s != [] && IsSpace(s[|s| - 1]) {
      TrailingSpacesExact(s[..|s| - 1]);
    }
  }

  /** `trim` removes spaces only, and all of them from both ends: the result is a slice of `s` whose outside is all space and whose ends are not. */
  lemma TrimRemovesExactlyOuterSpaces(s: string)
    ensures exists i, j ::
      && 0 <= i <= j <= |s| && Trim(s) == s[i..j]
      && (forall k :: 0 <= k < i ==> IsSpace(s[k]))
      && (forall k :: j <= k < |s| ==> IsSpace(s[k]))
    ensures IsTrimmed(Trim(s))
  {
    var i := LeadingSpaces(s);
    var t := s[i..];
    var j := i + |t| - TrailingSpaces(t);
    LeadingSpacesExact(s);
    TrailingSpacesExact(t);
    assert Trim(s) == s[i..j];
    forall k | j <= k < |s|
      ensures IsSpace(s[k])
    {
      assert s[k] == t[k - i];
    }
    if Trim(s) != [] {
      assert Trim(s)[0] == t[0];
      if TrailingSpaces(t) == 0 {
        assert !IsSpace(t[0]);
      }
    }
  }

  /** Trimming a trimmed text changes nothing. */
  lemma TrimKeepsTrimmed(s: string)
    requires IsTrimmed(s)
    ensures Trim(s) == s
  {
    assert LeadingSpaces(s) == 0;
    assert TrailingSpaces(s) == 0;
  }

  /** `s.split(sep)` for a one-character separator: the pieces between separators, at least one. */
  function Split(s: string, sep: char): (r: seq<string>)
    ensures |r| >= 1
  {
    if s == [] then [[]]
    else
      var rest := Split(s[1..], sep);
      if s[0] == sep then [[]] + rest
      else [[s[0]] + rest[0]] + rest[1..]
  }

  /** `parts.join(sep)` */
  function Join(parts: seq<string>, sep: string): string {
    if parts == [] then []
    else if |parts| == 1 then parts[0]
    else parts[0] + sep + Join(parts[1..], sep)
  }

  /** `.map(tag => tag.trim()).filter(tag => tag.length > 0)` */
  function CleanTags(parts: seq<string>): seq<string> {
    if parts == [] then []
    else (if Trim(parts[0]) != [] then [Trim(parts[0])] else []) + CleanTags(parts[1..])
  }

  /** `tags.split(',').map(tag => tag.trim()).filter(tag => tag.length > 0)` */
  function ParseTags(text: string): seq<string> {
    CleanTags(Split(text, ','))
  }

  /** What the edit form shows for a document's tags: `tags.join(', ')`. */
  function ShowTags(tags: seq<string>): string {
    Join(tags, ", ")
  }

  /** A well-formed tag: non-empty, trimmed and free of commas. */
  predicate IsTag(t: string) {
    t != [] && IsTrimmed(t) && ',' !in t
  }

  /** No piece of a split holds the separator. */
  lemma {:induction false} SplitPiecesAvoidSeparator(s: string, sep: char)
    ensures forall i :: 0 <= i < |Split(s, sep)| ==> sep !in Split(s, sep)[i]
  {
    if s != [] {
      SplitPiecesAvoidSeparator(s[1..], sep);
    }
  }

  /** Pieces around one separator: splitting `a + [sep] + b` splits `a` and `b` apart. */
  lemma {:induction false} SplitAround(a: string, sep: char, b: string)
    requires sep !in a
    ensures Split(a + [sep] + b, sep) == [a] + Split(b, sep)
  {
    if a == [] {
      assert [sep] + b == a + [sep] + b;
      assert ([sep] + b)[1..] == b;
    } else {
      var s := a + [sep] + b;
      assert s[0] == a[0] && s[1..] == a[1..] + [sep] + b;
      SplitAround(a[1..], sep, b);
      assert [a[0]] + a[1..] == a;
    }
  }

  /** A text without the separator is one piece. */
  lemma {:induction false} SplitWithoutSeparator(a: string, sep: char)
    requires sep !in a
    ensures Split(a, sep) == [a]
  {
    if a != [] {
      SplitWithoutSeparator(a[1..], sep);
      assert [a[0]] + a[1..] == a;
    }
  }

  /** Every parsed tag is a well-formed tag. */
  lemma {:induction false} CleanTagsAreTags(parts: seq<string>)
    requires forall i :: 0 <= i < |parts| ==> ',' !in parts[i]
    ensures forall i :: 0 <= i < |CleanTags(parts)| ==> IsTag(CleanTags(parts)[i])
  {
    if parts != [] {
      CleanTagsAreTags(parts[1..]);
      TrimRemovesExactlyOuterSpaces(parts[0]);
      var t := Trim(parts[0]);
      var i, j :| 0 <= i <= j <= |parts[0]| && t == parts[0][i..j];
      assert forall c :: c in t ==> c in parts[0];
    }
  }

  /** Tag parsing yields only non-empty, trimmed, comma-free tags. */
  lemma ParsedTagsAreTags(text: string)
    ensures forall i :: 0 <= i < |ParseTags(text)| ==> IsTag(ParseTags(text)[i])
  {
    SplitPiecesAvoidSeparator(text, ',');
    CleanTagsAreTags(Split(text, ','));
  }

  /** Tag order follows the text: parsing `a,b` parses `a`, then `b`. */
  lemma ParseTagsAround(a: string, b: string)
    requires ',' !in a
    ensures ParseTags(a + "," + b) == ParseTags(a) + ParseTags(b)
  {
    SplitAround(a, ',', b);
    SplitWithoutSeparator(a, ',');
    assert a + "," + b == a + [','] + b;
    assert CleanTags([a] + Split(b, ',')) == CleanTags([a]) + CleanTags(Split(b, ','))
      by { assert ([a] + Split(b, ','))[1..] == Split(b, ','); }
  }

  /** Saving untouched tags gives back the same tags: parsing what the edit form shows is the identity on well-formed tags. */
  lemma {:induction false} ParseShowTags(tags: seq<string>)
    requires forall i :: 0 <= i < |tags| ==> IsTag(tags[i])
    ensures ParseTags(ShowTags(tags)) == tags
  {
    if tags == [] {
      assert Split([], ',') == [[]];
      assert Trim([]) == [];
    } else if |tags| == 1 {
      ParseOneTag(tags[0]);
    } else {
      assert ShowTags(tags) == tags[0] + ", " + ShowTags(tags[1..]);
      ParseTagThenRest(tags[0], ShowTags(tags[1..]));
      ParseShowTags(tags[1..]);
      assert [tags[0]] + tags[1..] == tags;
    }
  }

  /** A well-formed tag parses to itself. */
  lemma ParseOneTag(t: string)
    requires IsTag(t)
    ensures ParseTags(t) == [t]
  {
    SplitWithoutSeparator(t, ',');
    TrimKeepsTrimmed(t);
    assert CleanTags([t]) == [t] + CleanTags([]);
  }

  /** A well-formed tag followed by ", " parses to that tag followed by the rest's tags. */
  lemma ParseTagThenRest(t: string, rest: string)
    requires IsTag(t)
    ensures ParseTags(t + ", " + rest) == [t] + ParseTags(rest)
  {
    assert t + ", " + rest == t + "," + (" " + rest);
    ParseTagsAround(t, " " + rest);
    ParseOneTag(t);
    ParseTagsSkipsLeadingSpace(rest);
  }

  /** A space in front of the text does not change the parsed tags. */
  lemma ParseTagsSkipsLeadingSpace(s: string)
    ensures ParseTags(" " + s) == ParseTags(s)
  {
    var p := Split(s, ',');
    var q := Split(" " + s, ',');
    assert (" " + s)[1..] == s;
    assert q == [" " + p[0]] + p[1..];
    assert Trim(" " + p[0]) == Trim(p[0]) by {
      assert LeadingSpaces(" " + p[0]) == 1 + LeadingSpaces(p[0]);
      assert (" " + p[0])[1 + LeadingSpaces(p[0])..] == p[0][LeadingSpaces(p[0])..];
    }
    assert q[1..] == p[1..];
    assert p == [p[0]] + p[1..];
  }
}
