/**
 * The names the save handler gives its downloads: the JSON sidecar
 * `name + '.metadata.json'` (image and audio branches) and the rewritten PDF
 * `name.replace(/\\.pdf$/i, '') + '_modified.pdf'`.
 */
module DownloadNames {
  import opened FileExtension
  import opened Dispatch
  import opened Strings

  const SidecarSuffix: string := ".metadata.json"
  const ModifiedSuffix: string := "_modified.pdf"

  /** The sidecar's download name. */
  function SidecarName(name: string): string {
    name + SidecarSuffix
  }

  /** Removes the sidecar suffix again (the inverse of SidecarName on its image). */
  function SidecarOriginal(sidecar: string): string
    requires |sidecar| >= |SidecarSuffix|
  {
    sidecar[..|sidecar| - |SidecarSuffix|]
  }

  /** The sidecar name is the original name followed by `.metadata.json`, and it gives the name back. */
  lemma SidecarRoundTrip(name: string)
    ensures var r := SidecarName(name);
      |r| == |name| + |SidecarSuffix| && r[..|name|] == name && r[|name|..] == SidecarSuffix
      && SidecarOriginal(r) == name
  {
  }

  /** Different files get different sidecars. */
  lemma SidecarInjective(a: string, b: string)
    requires SidecarName(a) == SidecarName(b)
    ensures a == b
  {
    SidecarRoundTrip(a);
    SidecarRoundTrip(b);
  }

  /** A sidecar is itself recognised by its `json` extension, which no branch reads or writes. */
  lemma SidecarExtension(name: string)
    ensures Extension(SidecarName(name)) == "json"
    ensures ReadDispatch(Extension(SidecarName(name))) == Unrecognized
    ensures WriteDispatch(Extension(SidecarName(name))) == NotWritable
  {
    assert SidecarName(name) == (name + ".metadata") + "." + "json";
    ExtensionOfDotted(name + ".metadata", "json");
  }

  /** The last three characters spell `pdf` in any mix of upper and lower case (the regex `i` flag). */
  predicate EndsWithPdfAnyCase(s: string) {
    |s| >= 3 && ToLower(s[|s| - 3..]) == "pdf"
  }

  /** The characters the regex `.` does not match: the four ECMAScript line terminators. */
  predicate IsLineTerminator(c: char) {
    c == '\n' || c == '\r' || c == '\U{2028}' || c == '\U{2029}'
  }

  /**
   * The regex as written, `/\\.pdf$/i`: a literal backslash, any one character other than a
   * line terminator, then `pdf` in any case, at the very end of the name.
   */
  predicate MatchesAsWritten(name: string) {
    |name| >= 5 && name[|name| - 5] == '\\' && !IsLineTerminator(name[|name| - 4])
    && EndsWithPdfAnyCase(name)
  }

  /** The PDF download name as the source computes it. */
  function PdfDownloadNameAsWritten(name: string): string {
    (if MatchesAsWritten(name) then name[..|name| - 5] else name) + ModifiedSuffix
  }

  /** The regex `/\.pdf$/i`: a dot followed by `pdf` in any case, at the very end of the name. */
  predicate HasPdfSuffix(name: string) {
    |name| >= 4 && name[|name| - 4] == '.' && EndsWithPdfAnyCase(name)
  }

  /** The PDF download name with the `.pdf` suffix removed before `_modified.pdf` is appended. */
  function PdfDownloadName(name: string): string {
    (if HasPdfSuffix(name) then name[..|name| - 4] else name) + ModifiedSuffix
  }

  /** As written, an ordinary file name keeps its `.pdf`: report.pdf becomes report.pdf_modified.pdf. */
  lemma AsWrittenKeepsPdfSuffix()
    ensures PdfDownloadNameAsWritten("report.pdf") == "report.pdf_modified.pdf"
  {
  }

  /** As written, the regex removes a backslash together with the four characters after it: `a\\.pdf` becomes `a_modified.pdf`. */
  lemma AsWrittenStripsAfterBackslash()
    ensures PdfDownloadNameAsWritten("a\\.pdf") == "a_modified.pdf"
  {
  }

  /** As written, a name without a backslash is never shortened: the suffix is simply appended. */
  lemma AsWrittenAppendsToPlainNames(name: string)
    requires '\\' !in name
    ensures PdfDownloadNameAsWritten(name) == name + ModifiedSuffix
  {
    if |name| >= 5 {
      assert name[|name| - 5] in name;
    }
  }

  /** With the intended regex, a `.pdf` suffix in any case is replaced by `_modified.pdf`. */
  lemma StripsPdfSuffix(base: string, ext: string)
    requires |ext| == 3 && ToLower(ext) == "pdf"
    ensures PdfDownloadName(base + "." + ext) == base + ModifiedSuffix
  {
    var name := base + "." + ext;
    assert name[|name| - 3..] == ext;
    assert name[..|name| - 4] == base;
  }

  /** Any other name keeps its full text and gets `_modified.pdf` appended. */
  lemma KeepsOtherNames(name: string)
    requires !HasPdfSuffix(name)
    ensures PdfDownloadName(name) == name + ModifiedSuffix
  {
  }

  /** Both versions always end in `_modified.pdf`, so the download is itself handled as a PDF. */
  lemma DownloadEndsModifiedPdf(name: string)
    ensures var r, w := PdfDownloadName(name), PdfDownloadNameAsWritten(name);
      |r| >= |ModifiedSuffix| && r[|r| - |ModifiedSuffix|..] == ModifiedSuffix
      && |w| >= |ModifiedSuffix| && w[|w| - |ModifiedSuffix|..] == ModifiedSuffix
    ensures Extension(PdfDownloadName(name)) == "pdf"
    ensures Extension(PdfDownloadNameAsWritten(name)) == "pdf"
  {
    var r, w := PdfDownloadName(name), PdfDownloadNameAsWritten(name);
    var rb, wb := r[..|r| - 4], w[..|w| - 4];
    assert r == rb + "." + "pdf";
    assert w == wb + "." + "pdf";
    ExtensionOfDotted(rb, "pdf");
    ExtensionOfDotted(wb, "pdf");
  }

  /**
   * For every dotted name the save handler sends down the PDF branch, the intended name
   * drops exactly the four characters of its `.pdf` suffix.
   */
  lemma PdfBranchNames(name: string)
    requires WriteDispatch(Extension(name)) == PdfRewrite && '.' in name
    ensures |name| >= 4 && HasPdfSuffix(name)
    ensures PdfDownloadName(name) == name[..|name| - 4] + ModifiedSuffix
  {
    var last := LastPiece(name);
    LastPieceIsSuffix(name);
    assert ToLower(last) == "pdf";
    var k := |name| - |last|;
    assert k > 0;
    assert name[|name| - 3..] == last;
  }
}
