/**
 * File-type detection from a file name (`detectFileType`), the list of types the
 * catalog accepts (`isValidFileType`), their human-readable descriptions
 * (`getFileTypeDescription`), and the "name without extension" that the upload
 * and edit forms use as a default title.
 */
module FileUtils {
  import opened Wrappers
  import opened Casing

  /** `name.split('.').pop()`: the part of the name after its last dot, or the whole name when it has none. */
  function LastSegment(name: string): string {
    if name == [] then []
    else if name[|name| - 1] == '.' then []
    else LastSegment(name[..|name| - 1]) + [name[|name| - 1]]
  }

  /** The last segment is the longest dot-free suffix of the name. */
  lemma {:induction false} LastSegmentIsLongestDotFreeSuffix(name: string)
    ensures var r := LastSegment(name);
      '.' !in r && |r| <= |name| && name[|name| - |r|..] == r &&
      (|r| < |name| ==> name[|name| - |r| - 1] == '.')
  {
    if name != [] && name[|name| - 1] != '.' {
      var init := name[..|name| - 1];
      LastSegmentIsLongestDotFreeSuffix(init);
      var r0 := LastSegment(init);
      assert name[|name| - |r0| - 1..] == init[|init| - |r0|..] + [name[|name| - 1]];
      if |r0| < |init| {
        assert name[|name| - |r0| - 2] == init[|init| - |r0| - 1];
      }
    }
  }

  /** The label of an unrecognisable file. */
  const Unknown: string := "UNKNOWN"

  /** An association list: the model of a string-keyed object literal. */
  type Table = seq<(string, string)>

  /** `table[key]`: the value of the first entry whose key is `key`, if any. */
  function Get(table: Table, key: string): (r: Option<string>)
    ensures r.Some? ==> exists i :: 0 <= i < |table| && table[i] == (key, r.value)
    ensures r.None? ==> forall i :: 0 <= i < |table| ==> table[i].0 != key
  {
    if table == [] then None
    else if table[0].0 == key then Some(table[0].1)
    else
      var r := Get(table[1..], key);
      assert forall i :: 0 <= i < |table| - 1 ==> table[1..][i] == table[i + 1];
      r
  }

  // The extension table of `detectFileType`, in the groups its source lists them.

  const PdfWordPowerPoint: Table := [("pdf", "PDF"), ("doc", "DOC"), ("docx", "DOCX"), ("ppt", "PPT"), ("pptx", "PPTX")]
  const ExcelAndText: Table := [("xls", "XLS"), ("xlsx", "XLSX"), ("txt", "TXT"), ("rtf", "RTF")]
  const Images: Table := [("jpg", "JPG"), ("jpeg", "JPEG"), ("png", "PNG"), ("gif", "GIF"), ("svg", "SVG")]
  const OtherFormats: Table := [("zip", "ZIP"), ("rar", "RAR"), ("csv", "CSV"), ("json", "JSON"), ("xml", "XML")]

  const FileTypeTable: Table := PdfWordPowerPoint + ExcelAndText + Images + OtherFormats

  /** `detectFileType(fileName)` */
  function DetectFileType(name: string): string {
    if name == [] then Unknown
    else
      var ext := Lower(LastSegment(name));
      if ext == [] then Unknown
      else match Get(FileTypeTable, ext)
        case Some(t) => t
        case None => Upper(ext)
  }

  /** The types the catalog accepts for a document's file. */
  const ValidTypes: seq<string> := ["PDF", "DOC", "DOCX", "PPT", "PPTX", "XLS", "XLSX", "TXT", "RTF", "CSV"]

  /** `isValidFileType(fileType)` */
  predicate IsValidFileType(t: string) {
    t in ValidTypes
  }

  /** `getFileTypeDescription(fileType)` */
  function GetFileTypeDescription(t: string): string {
    if t == "PDF" then "Documento PDF"
    else if t == "DOC" then "Documento de Word (legacy)"
    else if t == "DOCX" then "Documento de Word"
    else if t == "PPT" then "Presentaci\U{00F3}n de PowerPoint (legacy)"
    else if t == "PPTX" then "Presentaci\U{00F3}n de PowerPoint"
    else if t == "XLS" then "Hoja de c\U{00E1}lculo de Excel (legacy)"
    else if t == "XLSX" then "Hoja de c\U{00E1}lculo de Excel"
    else if t == "TXT" then "Archivo de texto"
    else if t == "RTF" then "Texto enriquecido"
    else if t == "CSV" then "Valores separados por comas"
    else "Archivo " + t
  }

  /** `name.replace(/\.[^/.]+$/, "")`: drops a final dot and the non-empty, slash-free extension after it. */
  function StripExtension(name: string): string {
    var ext := LastSegment(name);
    if ext != [] && |ext| < |name| && '/' !in ext then name[..|name| - |ext| - 1]
    else name
  }

  /** A name that is empty or ends with a dot has no detectable type. */
  lemma NoExtensionIsUnknown(name: string)
    requires name == [] || name[|name| - 1] == '.'
    ensures DetectFileType(name) == Unknown
  {
  }

  /** Every entry of `table` maps a key to its own upper-case spelling. */
  predicate UpperCased(table: Table) {
    forall i :: 0 <= i < |table| ==> Upper(table[i].0) == table[i].1
  }

  /** `upper` is `lower` spelled with capitals: both have the same length and each letter of `lower` is a small ASCII letter. */
  predicate CapitalOf(lower: string, upper: string) {
    && |lower| == |upper|
    && forall i :: 0 <= i < |lower| ==> 'a' <= lower[i] <= 'z' && upper[i] as int == lower[i] as int - 32
  }

  lemma CapitalOfIsUpper(lower: string, upper: string)
    requires CapitalOf(lower, upper)
    ensures Upper(lower) == upper
  {
  }

  /** Each entry of `table` pairs a small-letter extension with its capital spelling. */
  predicate CapitalPairs(table: Table) {
    forall i :: 0 <= i < |table| ==> CapitalOf(table[i].0, table[i].1)
  }

  lemma PdfWordPowerPointCapitals() ensures CapitalPairs(PdfWordPowerPoint) {}
  lemma ExcelAndTextCapitals() ensures CapitalPairs(ExcelAndText) {}
  lemma ImagesCapitals() ensures CapitalPairs(Images) {}
  lemma OtherFormatsCapitals() ensures CapitalPairs(OtherFormats) {}

  lemma CapitalPairsJoin(a: Table, b: Table)
    requires CapitalPairs(a) && CapitalPairs(b)
    ensures CapitalPairs(a + b)
  {
    forall i | 0 <= i < |a + b|
      ensures CapitalOf((a + b)[i].0, (a + b)[i].1)
    {
      if i >= |a| {
        assert (a + b)[i] == b[i - |a|];
      }
    }
  }

  /** Every entry of the extension table maps an extension to its own upper-case spelling. */
  lemma TableIsUpperCased()
    ensures UpperCased(FileTypeTable)
  {
    PdfWordPowerPointCapitals();
    ExcelAndTextCapitals();
    ImagesCapitals();
    OtherFormatsCapitals();
    CapitalPairsJoin(PdfWordPowerPoint, ExcelAndText);
    CapitalPairsJoin(PdfWordPowerPoint + ExcelAndText, Images);
    CapitalPairsJoin(PdfWordPowerPoint + ExcelAndText + Images, OtherFormats);
    forall i | 0 <= i < |FileTypeTable|
      ensures Upper(FileTypeTable[i].0) == FileTypeTable[i].1
    {
      CapitalOfIsUpper(FileTypeTable[i].0, FileTypeTable[i].1);
    }
  }

  /** The table never changes the outcome: the detected type is the upper-cased extension. */
  lemma DetectIsUpperExtension(name: string)
    requires LastSegment(name) != []
    ensures DetectFileType(name) == Upper(LastSegment(name))
  {
    UpperAfterLower(LastSegment(name));
    TableIsUpperCased();
  }

  /** A detected type is never empty, so the forms' "a type was detected" test always passes once a file is chosen. */
  lemma DetectNeverEmpty(name: string)
    ensures DetectFileType(name) != []
  {
    if name != [] && LastSegment(name) != [] {
      DetectIsUpperExtension(name);
    }
  }

  /** Lower-casing commutes with taking the last dot-separated segment. */
  lemma {:induction false} LastSegmentOfLower(name: string)
    ensures LastSegment(Lower(name)) == Lower(LastSegment(name))
  {
    if name != [] {
      var init := name[..|name| - 1];
      var last := name[|name| - 1];
      var lowered := Lower(name);
      assert lowered[..|lowered| - 1] == Lower(init);
      assert lowered[|lowered| - 1] == LowerChar(last);
      LowerCharKeepsDot(last);
      LastSegmentOfLower(init);
      if last != '.' {
        LowerAppend(LastSegment(init), last);
      }
    }
  }

  /** Lower-casing maps the dot, and only the dot, to a dot. */
  lemma LowerCharKeepsDot(c: char)
    ensures LowerChar(c) == '.' <==> c == '.'
  {
  }

  lemma LowerAppend(s: string, c: char)
    ensures Lower(s + [c]) == Lower(s) + [LowerChar(c)]
  {
  }

  /** Detection ignores the case of the file name. */
  lemma DetectIgnoresCase(n1: string, n2: string)
    requires Lower(n1) == Lower(n2)
    ensures DetectFileType(n1) == DetectFileType(n2)
  {
    LastSegmentOfLower(n1);
    LastSegmentOfLower(n2);
  }

  /** Accepted types are upper-case. */
  lemma ValidTypesAreUpper(t: string)
    requires IsValidFileType(t)
    ensures Upper(t) == t
  {
    ValidTypesAreCapitals();
    UpperOfCapitals(t);
  }

  /** Every accepted type is spelled in capital letters. */
  lemma ValidTypesAreCapitals()
    ensures forall t, i :: t in ValidTypes && 0 <= i < |t| ==> 'A' <= t[i] <= 'Z'
  {
  }

  /** A file whose extension is an accepted type, in any case, is detected as that type. */
  lemma ValidTypesDetected(base: string, ext: string)
    requires '.' !in ext && IsValidFileType(Upper(ext))
    ensures DetectFileType(base + "." + ext) == Upper(ext)
  {
    LastSegmentOfJoin(base, ext);
    DetectIsUpperExtension(base + "." + ext);
  }

  /** Exactly the accepted types have a description of their own; every other label gets the generic one. */
  lemma DescribedIffValid(t: string)
    ensures IsValidFileType(t) <==> GetFileTypeDescription(t) != "Archivo " + t
  {
  }

  /** Removing the extension undoes appending one. */
  lemma StripExtensionOfJoin(base: string, ext: string)
    requires ext != [] && '.' !in ext && '/' !in ext
    ensures StripExtension(base + "." + ext) == base
  {
    var name := base + "." + ext;
    LastSegmentOfJoin(base, ext);
    assert name[..|name| - |ext| - 1] == base;
    assert name[|name| - |ext| - 1] == '.';
  }

  /** The last segment of `base.ext` is `ext` when `ext` holds no dot. */
  lemma {:induction false} LastSegmentOfJoin(base: string, ext: string)
    requires '.' !in ext
    ensures LastSegment(base + "." + ext) == ext
  {
    var name := base + "." + ext;
    if ext != [] {
      var init := ext[..|ext| - 1];
      assert name[..|name| - 1] == base + "." + init;
      assert name[|name| - 1] == ext[|ext| - 1];
      LastSegmentOfJoin(base, init);
      assert init + [ext[|ext| - 1]] == ext;
    }
  }

  /** A name without a dot is kept as it is. */
  lemma StripExtensionWithoutDot(name: string)
    requires '.' !in name
    ensures StripExtension(name) == name
  {
    LastSegmentIsLongestDotFreeSuffix(name);
  }
}
