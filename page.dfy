/**
 * The page's module-level state (`currentFile`, `currentMetadata`, `currentBytes`) and the
 * two click handlers that update it: Read, which loads a file's metadata, and Save, which
 * collects the edit rows and produces the downloads. The foreign readers and the
 * document serialiser are not modelled; what they return is a parameter.
 */
module Page {
  import opened Common
  import opened Strings
  import opened FileExtension
  import opened Dispatch
  import opened Listing
  import opened Edits
  import opened PdfInfo
  import opened DownloadNames
  import opened HtmlEscape

  /** The selected File: its name, MIME type and contents. */
  datatype FileRef = FileRef(name: string, mimeType: string, bytes: seq<Byte>)

  /** A loaded pdf-lib document: the bytes it was loaded from and its information fields. */
  datatype PdfDocument = PdfDocument(loadedFrom: seq<Byte>, info: Info)

  /** A value in the metadata object: text, `undefined`, or the stored document handle. */
  datatype MetaValue = Text(text: string) | Undefined | Document(doc: PdfDocument)

  /** String(v), as the page renders a value. */
  function StringOf(v: MetaValue): string {
    match v
    case Text(s) => s
    case Undefined => "undefined"
    case Document(_) => "[object Object]"
  }

  /** What an awaited foreign call gives: a value, or a rejection that lands in the catch block. */
  datatype Reply<T> = Threw | Returned(value: T)

  /**
   * The foreign readers' answers for the selected file: exifr.parse (which may return
   * `undefined`), the `common` tags of music-metadata-browser, and the fields of the
   * document PDFDocument.load returns.
   */
  datatype Readers = Readers(
    exif: Reply<Option<map<string, string>>>,
    audio: Reply<map<string, string>>,
    pdf: Reply<Info>)

  /** What the read handler shows. */
  datatype ReadOutcome =
    | NoFileSelected
    | Shown(md: map<string, MetaValue>, exeHints: bool)
    | NotRecognized
    | ReadError

  /** The payload of one download. */
  datatype Content =
    | OriginalBytes(bytes: seq<Byte>, mimeType: string)
    | JsonSidecar(tags: map<string, string>)
    | SavedPdf(doc: PdfDocument)

  datatype Download = Download(filename: string, content: Content)

  /** What the save handler does. */
  datatype SaveOutcome =
    | NoFileLoaded
    | Downloads(files: seq<Download>)
    | PdfDocumentMissing
    | CannotWrite

  function AsText(m: map<string, string>): map<string, MetaValue> {
    map k | k in m :: Text(m[k])
  }

  /** A pdf-lib getter's result as a metadata value. */
  function FieldValue(o: Option<string>): MetaValue {
    match o
    case Some(s) => Text(s)
    case None => Undefined
  }

  /** The metadata object of the PDF branch: the three fields, then the document under `_pdfDoc`. */
  function PdfMetadata(bytes: seq<Byte>, info: Info): map<string, MetaValue> {
    map["Title" := FieldValue(info.title), "Author" := FieldValue(info.author),
        "Subject" := FieldValue(info.subject), "_pdfDoc" := Document(PdfDocument(bytes, info))]
  }

  /** The one entry the executable branch shows (it is not stored). */
  const ExeNote: map<string, MetaValue> :=
    map["Note" := Text("EXE editing not supported client-side. Use server option.")]

  /** The metadata a read of this kind stores, or None when it stores nothing. */
  function Loaded(kind: ReadKind, bytes: seq<Byte>, readers: Readers): Option<map<string, MetaValue>> {
    match kind
    case Image =>
      (match readers.exif
       case Returned(exif) => Some(if exif.Some? then AsText(exif.value) else map[])
       case Threw => None)
    case Audio =>
      (match readers.audio
       case Returned(common) => Some(AsText(common))
       case Threw => None)
    case Pdf =>
      (match readers.pdf
       case Returned(info) => Some(PdfMetadata(bytes, info))
       case Threw => None)
    case _ => None
  }

  /** What the read handler shows when it stores nothing. */
  function NotLoaded(kind: ReadKind): ReadOutcome {
    if kind == Exe then Shown(ExeNote, true)
    else if kind == Unrecognized then NotRecognized
    else ReadError
  }

  /** The metadata holds a document under `_pdfDoc`. */
  predicate HasDocument(md: map<string, MetaValue>) {
    "_pdfDoc" in md && md["_pdfDoc"].Document?
  }

  /**
   * The text a prefilled value input starts with, for the evidently intended behaviour:
   * a field that is `undefined` starts empty instead of holding the word "undefined".
   */
  function PrefillText(v: MetaValue): string {
    if v.Undefined? then "" else StringOf(v)
  }

  /** Carriage return and line feed, which a text input's value never holds. */
  predicate IsLineBreak(c: char) {
    c == '\n' || c == '\r'
  }

  /** A value a text input holds exactly as given: no CR, LF or NUL. */
  predicate InputSafe(s: string) {
    forall i :: 0 <= i < |s| ==> !IsLineBreak(s[i]) && s[i] != '\U{0000}'
  }

  /**
   * What a text input makes of the attribute text it is given: the HTML parser turns NUL
   * into U+FFFD, and the input's value sanitization strips every CR and LF.
   */
  function Sanitize(s: string): (r: string)
    ensures |r| <= |s|
    ensures InputSafe(r)
  {
    if s == [] then []
    else if IsLineBreak(s[0]) then Sanitize(s[1..])
    else [if s[0] == '\U{0000}' then '\U{FFFD}' else s[0]] + Sanitize(s[1..])
  }

  /** Sanitizing changes nothing exactly when there is no CR, LF or NUL to remove or replace. */
  lemma {:induction false} SanitizeIdentityIff(s: string)
    ensures Sanitize(s) == s <==> InputSafe(s)
  {
    if s != [] && InputSafe(s) {
      assert InputSafe(s[1..]) by {
        forall i | 0 <= i < |s[1..]| ensures !IsLineBreak(s[1..][i]) && s[1..][i] != '\U{0000}' {
          assert s[1..][i] == s[i + 1];
        }
      }
      SanitizeIdentityIff(s[1..]);
      assert !IsLineBreak(s[0]) && s[0] != '\U{0000}';
    }
  }

  /**
   * The value an `<input value="${escapeHtml(s)}">` ends up holding. The browser decodes the
   * character references in the attribute; the only ones escapeHtml's output contains are
   * the four it writes, so decoding gives s back, and the input then sanitizes it.
   */
  function AttributeValue(s: string): (r: string)
    ensures r == Sanitize(s)
    ensures InputSafe(s) ==> r == s
  {
    UnescapeEscape(s);
    SanitizeIdentityIff(s);
    Sanitize(Unescape(EscapeHtml(s)))
  }

  /** The edit rows the page puts up for md as written: one per displayed key, in order, holding String(v). */
  function RenderedRowsAsWritten(md: map<string, MetaValue>): (rows: seq<EditRow>)
    ensures |rows| == |DisplayKeys(md)|
    ensures forall i :: 0 <= i < |rows| ==>
      var k := DisplayKeys(md)[i]; k in md && rows[i] == EditRow(Sanitize(k), Sanitize(StringOf(md[k])))
  {
    var keys := DisplayKeys(md);
    seq(|keys|, i requires 0 <= i < |keys| =>
      EditRow(AttributeValue(keys[i]), AttributeValue(StringOf(md[keys[i]]))))
  }

  /** The edit rows the page puts up for md, with an `undefined` value prefilled as empty. */
  function RenderedRows(md: map<string, MetaValue>): (rows: seq<EditRow>)
    ensures |rows| == |DisplayKeys(md)|
    ensures forall i :: 0 <= i < |rows| ==>
      var k := DisplayKeys(md)[i]; k in md && rows[i] == EditRow(Sanitize(k), Sanitize(PrefillText(md[k])))
  {
    var keys := DisplayKeys(md);
    seq(|keys|, i requires 0 <= i < |keys| =>
      EditRow(AttributeValue(keys[i]), AttributeValue(PrefillText(md[keys[i]]))))
  }

  /**
   * A displayed key comes back from its key input unchanged: it is non-empty, equal to its
   * trimmed form, and holds no CR, LF or NUL.
   */
  predicate KeysSurviveInput(md: map<string, MetaValue>) {
    forall k :: k in md && !Hidden(k) ==> k != "" && Trim(k) == k && InputSafe(k)
  }

  /** The visible part of md as the prefilled value inputs hold it. */
  function VisiblePrefill(md: map<string, MetaValue>): map<string, string> {
    map k | k in md && !Hidden(k) :: Sanitize(PrefillText(md[k]))
  }

  /**
   * Saving the rows the page put up, untouched, collects exactly the visible entries of the
   * metadata with their prefilled text as the inputs hold it, provided every displayed key
   * comes back from its input unchanged.
   */
  lemma CollectRenderedRows(md: map<string, MetaValue>)
    requires KeysSurviveInput(md)
    ensures Collected(RenderedRows(md)) == VisiblePrefill(md)
  {
    var got, want := Collected(RenderedRows(md)), VisiblePrefill(md);
    forall k ensures (k in got <==> k in want) && (k in got ==> got[k] == want[k]) {
      RenderedEntry(md, k);
    }
    SameEntries(got, want);
  }

  /** Two maps with the same keys and the same value at each key are equal. */
  lemma SameEntries(a: map<string, string>, b: map<string, string>)
    requires forall k :: k in a <==> k in b
    requires forall k :: k in a ==> a[k] == b[k]
    ensures a == b
  {
  }

  /** One key of CollectRenderedRows: present on both sides or on neither, with the same value. */
  lemma RenderedEntry(md: map<string, MetaValue>, k: string)
    requires KeysSurviveInput(md)
    ensures var got, want := Collected(RenderedRows(md)), VisiblePrefill(md);
      (k in got <==> k in want) && (k in got ==> got[k] == want[k])
  {
    RenderedKeyPresent(md, k);
    if k in md && !Hidden(k) {
      RenderedValue(md, k);
    }
  }

  /** A key is collected from the rendered rows exactly when it is a visible key of md. */
  lemma RenderedKeyPresent(md: map<string, MetaValue>, k: string)
    requires KeysSurviveInput(md)
    ensures k in Collected(RenderedRows(md)) <==> k in md && !Hidden(k)
  {
    var rows, keys := RenderedRows(md), DisplayKeys(md);
    KeyPresentIff(rows, k);
    if k in md && !Hidden(k) {
      var i :| 0 <= i < |keys| && keys[i] == k;
      SanitizeIdentityIff(k);
      assert Trim(rows[i].key) == k;
    }
    if k in Collected(rows) {
      var i :| 0 <= i < |rows| && Trim(rows[i].key) == k;
      SanitizeIdentityIff(keys[i]);
      assert rows[i].key == keys[i];
    }
  }

  /** The value collected for a visible key is its prefilled text as the value input holds it. */
  lemma RenderedValue(md: map<string, MetaValue>, k: string)
    requires KeysSurviveInput(md)
    requires k in md && !Hidden(k)
    ensures k in Collected(RenderedRows(md))
    ensures Collected(RenderedRows(md))[k] == Sanitize(PrefillText(md[k]))
  {
    var rows, keys := RenderedRows(md), DisplayKeys(md);
    var i :| 0 <= i < |keys| && keys[i] == k;
    SanitizeIdentityIff(k);
    assert rows[i] == EditRow(k, Sanitize(PrefillText(md[k])));
    forall j | i < j < |rows| ensures Trim(rows[j].key) != k {
      var kj := keys[j];
      assert kj in md && !Hidden(kj);
      SanitizeIdentityIff(kj);
      assert rows[j].key == kj;
      assert Trim(kj) == kj;
      assert Less(k, kj);
      LessIrreflexive(k);
    }
    LastRowWins(rows, i);
  }

  /** The PDF metadata lists Author, Subject, Title in that order. */
  lemma PdfDisplayKeys(bytes: seq<Byte>, info: Info)
    ensures DisplayKeys(PdfMetadata(bytes, info)) == ["Author", "Subject", "Title"]
  {
    var listing := ["Author", "Subject", "Title"];
    assert Less("Author", "Subject") && Less("Subject", "Title");
    LessTransitive("Author", "Subject", "Title");
    DisplayKeysUnique(PdfMetadata(bytes, info), listing);
  }

  /** The three field names come back from their key inputs unchanged. */
  lemma FieldNamesSurviveInput()
    ensures Trim("Title") == "Title" && Trim("Author") == "Author" && Trim("Subject") == "Subject"
    ensures InputSafe("Title") && InputSafe("Author") && InputSafe("Subject")
  {
    TrimFixedIff("Title");
    TrimFixedIff("Author");
    TrimFixedIff("Subject");
  }

  /** The keys a PDF read shows are Title, Author and Subject, each coming back from its input unchanged. */
  lemma PdfKeysSurviveInput(bytes: seq<Byte>, info: Info)
    ensures KeysSurviveInput(PdfMetadata(bytes, info))
  {
    var md := PdfMetadata(bytes, info);
    FieldNamesSurviveInput();
    forall k | k in md && !Hidden(k) ensures k != "" && Trim(k) == k && InputSafe(k) {
      assert k == "Title" || k == "Author" || k == "Subject";
    }
  }

  /**
   * As written, a PDF whose Title is not set is prefilled with the text "undefined", so
   * saving it without touching the rows sets its Title to "undefined" (and likewise for
   * Author and Subject).
   */
  lemma UntouchedSaveAsWrittenSetsUndefined(bytes: seq<Byte>, info: Info)
    requires info.title == None
    ensures ApplyEdits(info, Collected(RenderedRowsAsWritten(PdfMetadata(bytes, info)))).title
         == Some("undefined")
  {
    var md := PdfMetadata(bytes, info);
    assert md["Title"] == Undefined;
    PdfDisplayKeys(bytes, info);
    FieldNamesSurviveInput();
    UndefinedSurvivesInput();
    LastRowAsWritten(md, "Title", "undefined");
  }

  /** The text "undefined" comes back from a value input unchanged. */
  lemma UndefinedSurvivesInput()
    ensures Sanitize("undefined") == "undefined"
  {
    assert InputSafe("undefined");
    SanitizeIdentityIff("undefined");
  }

  /** The last displayed key is collected from the as-written rows with its String(v) text. */
  lemma LastRowAsWritten(md: map<string, MetaValue>, k: string, text: string)
    requires |DisplayKeys(md)| > 0 && DisplayKeys(md)[|DisplayKeys(md)| - 1] == k && k in md
    requires k != "" && Trim(k) == k && InputSafe(k) && Sanitize(StringOf(md[k])) == text
    ensures k in Collected(RenderedRowsAsWritten(md))
    ensures Collected(RenderedRowsAsWritten(md))[k] == text
  {
    var rows := RenderedRowsAsWritten(md);
    SanitizeIdentityIff(k);
    assert rows[|rows| - 1] == EditRow(k, text);
    LastRowWins(rows, |rows| - 1);
  }

  /**
   * A field after an untouched save: an unset field stays unset, and a set one becomes its
   * text as the input holds it when that is non-empty.
   */
  function AfterUntouchedSave(o: Option<string>): Option<string> {
    if o.Some? && Sanitize(o.value) != "" then Some(Sanitize(o.value)) else o
  }

  /** A field whose edit is its own prefilled text, as the input holds it, ends as AfterUntouchedSave says. */
  lemma PrefillKeepsField(o: Option<string>, tags: map<string, string>, key: string)
    requires key in tags && tags[key] == Sanitize(PrefillText(FieldValue(o)))
    ensures Edited(o, tags, key) == AfterUntouchedSave(o)
  {
  }

  /** The field of info a key of the PDF metadata holds. */
  function FieldOf(info: Info, key: string): Option<string> {
    if key == "Title" then info.title else if key == "Author" then info.author else info.subject
  }

  /** The value the rendered rows of a PDF collect for one of its three fields. */
  lemma PdfFieldCollected(bytes: seq<Byte>, info: Info, key: string)
    requires key in InfoKeys
    ensures var tags := Collected(RenderedRows(PdfMetadata(bytes, info)));
      key in tags && tags[key] == Sanitize(PrefillText(FieldValue(FieldOf(info, key))))
  {
    var md := PdfMetadata(bytes, info);
    PdfKeysSurviveInput(bytes, info);
    assert key[0] != '_';
    assert md[key] == FieldValue(FieldOf(info, key));
    RenderedValue(md, key);
  }

  /** What saving a PDF's prefilled rows untouched does to one of Title, Author and Subject. */
  lemma UntouchedSaveField(bytes: seq<Byte>, info: Info, key: string)
    requires key in InfoKeys
    ensures var tags := Collected(RenderedRows(PdfMetadata(bytes, info)));
      Edited(FieldOf(info, key), tags, key) == AfterUntouchedSave(FieldOf(info, key))
  {
    PdfFieldCollected(bytes, info, key);
    PrefillKeepsField(FieldOf(info, key), Collected(RenderedRows(PdfMetadata(bytes, info))), key);
  }

  /** What saving a PDF's prefilled rows untouched does to each of Title, Author and Subject. */
  lemma UntouchedSaveResult(bytes: seq<Byte>, info: Info)
    ensures ApplyEdits(info, Collected(RenderedRows(PdfMetadata(bytes, info))))
         == Info(AfterUntouchedSave(info.title), AfterUntouchedSave(info.author),
                 AfterUntouchedSave(info.subject))
  {
    UntouchedSaveField(bytes, info, "Title");
    UntouchedSaveField(bytes, info, "Author");
    UntouchedSaveField(bytes, info, "Subject");
  }

  /** With `undefined` prefilled as empty, an untouched save leaves every unset field unset. */
  lemma UntouchedSaveKeepsUnsetFields(bytes: seq<Byte>, info: Info)
    ensures var r := ApplyEdits(info, Collected(RenderedRows(PdfMetadata(bytes, info))));
      && (info.title == None ==> r.title == None)
      && (info.author == None ==> r.author == None)
      && (info.subject == None ==> r.subject == None)
  {
    UntouchedSaveResult(bytes, info);
  }

  /** A field an input can hold exactly (no CR, LF or NUL) is unchanged by an untouched save. */
  lemma AfterUntouchedSaveKeepsSafe(o: Option<string>)
    requires o.Some? ==> InputSafe(o.value)
    ensures AfterUntouchedSave(o) == o
  {
    if o.Some? {
      SanitizeIdentityIff(o.value);
    }
  }

  /**
   * Saving a PDF's prefilled rows untouched leaves its Title, Author and Subject as they
   * were, when none of them holds a CR, LF or NUL.
   */
  lemma UntouchedSaveKeepsInfo(bytes: seq<Byte>, info: Info)
    requires info.title.Some? ==> InputSafe(info.title.value)
    requires info.author.Some? ==> InputSafe(info.author.value)
    requires info.subject.Some? ==> InputSafe(info.subject.value)
    ensures ApplyEdits(info, Collected(RenderedRows(PdfMetadata(bytes, info)))) == info
  {
    UntouchedSaveResult(bytes, info);
    AfterUntouchedSaveKeepsSafe(info.title);
    AfterUntouchedSaveKeepsSafe(info.author);
    AfterUntouchedSaveKeepsSafe(info.subject);
  }

  /** Which name the save handler gives a rewritten PDF: the regex as written, or the intended one. */
  datatype Naming = AsWritten | Intended

  /** The rewritten PDF's download name under the given naming. */
  function PdfName(naming: Naming, name: string): string {
    match naming
    case AsWritten => PdfDownloadNameAsWritten(name)
    case Intended => PdfDownloadName(name)
  }

  class Page {
    var currentFile: Option<FileRef>
    var currentMetadata: map<string, MetaValue>
    var currentBytes: Option<seq<Byte>>

    /** The state when the page has loaded. */
    constructor ()
      ensures Valid() && DocumentIsCurrent()
      ensures currentFile == None && currentMetadata == map[] && currentBytes == None
    {
      currentFile := None;
      currentMetadata := map[];
      currentBytes := None;
    }

    /** currentBytes holds the contents of currentFile. */
    ghost predicate Valid()
      reads this
    {
      currentBytes == if currentFile.Some? then Some(currentFile.value.bytes) else None
    }

    /** A stored document was loaded from the current file's contents. */
    ghost predicate DocumentIsCurrent()
      reads this
    {
      HasDocument(currentMetadata) ==> currentBytes == Some(currentMetadata["_pdfDoc"].doc.loadedFrom)
    }

    /**
     * The read handler as written. The file and its bytes are stored before the readers
     * run; when no metadata is loaded (a reader threw, an executable, an unknown type)
     * currentMetadata keeps whatever an earlier read left in it.
     */
    method ReadAsWritten(selected: Option<FileRef>, readers: Readers) returns (shown: ReadOutcome)
      requires Valid()
      modifies this
      ensures Valid()
      ensures selected.None? ==>
        shown == NoFileSelected && currentFile == old(currentFile)
        && currentMetadata == old(currentMetadata) && currentBytes == old(currentBytes)
      ensures selected.Some? ==>
        var f := selected.value;
        var kind := ReadDispatch(Extension(f.name));
        var loaded := Loaded(kind, f.bytes, readers);
        && currentFile == selected
        && (loaded.Some? ==> currentMetadata == loaded.value && shown == Shown(loaded.value, false))
        && (loaded.None? ==> currentMetadata == old(currentMetadata) && shown == NotLoaded(kind))
    {
      if selected.None? {
        shown := NoFileSelected;
        return;
      }
      var f := selected.value;
      currentFile := selected;
      currentBytes := Some(f.bytes);
      var kind := ReadDispatch(Extension(f.name));
      if kind == Image {
        match readers.exif
        case Threw =>
          shown := ReadError;
        case Returned(exif) =>
          currentMetadata := if exif.Some? then AsText(exif.value) else map[];
          shown := Shown(currentMetadata, false);
      } else if kind == Audio {
        match readers.audio
        case Threw =>
          shown := ReadError;
        case Returned(common) =>
          currentMetadata := AsText(common);
          shown := Shown(currentMetadata, false);
      } else if kind == Pdf {
        match readers.pdf
        case Threw =>
          shown := ReadError;
        case Returned(info) =>
          currentMetadata := PdfMetadata(currentBytes.value, info);
          shown := Shown(currentMetadata, false);
      } else if kind == Exe {
        shown := Shown(ExeNote, true);
      } else {
        shown := NotRecognized;
      }
    }

    /**
     * The read handler with the stale-metadata defect removed: a read that selects a file
     * but loads no metadata for it also clears currentMetadata, so no document of an earlier
     * file stays behind.
     */
    method Read(selected: Option<FileRef>, readers: Readers) returns (shown: ReadOutcome)
      requires Valid() && DocumentIsCurrent()
      modifies this
      ensures Valid() && DocumentIsCurrent()
      ensures selected.None? ==>
        shown == NoFileSelected && currentFile == old(currentFile)
        && currentMetadata == old(currentMetadata) && currentBytes == old(currentBytes)
      ensures selected.Some? ==>
        var f := selected.value;
        var kind := ReadDispatch(Extension(f.name));
        var loaded := Loaded(kind, f.bytes, readers);
        && currentFile == selected
        && (loaded.Some? ==> currentMetadata == loaded.value && shown == Shown(loaded.value, false))
        && (loaded.None? ==> currentMetadata == map[] && shown == NotLoaded(kind))
    {
      shown := ReadAsWritten(selected, readers);
      if selected.Some? && !(shown.Shown? && !shown.exeHints) {
        currentMetadata := map[];
      }
    }

    /**
     * The save handler: collect the edit rows, then download according to the file's type.
     * Images get their unchanged bytes plus a JSON sidecar, mp3, flac and m4a files a
     * sidecar only, a PDF its stored document with the Title/Author/Subject rule applied
     * (the document is updated in place, so it stays updated for a later save). With
     * `AsWritten` the PDF download is named as the source names it; with `Intended` its
     * `.pdf` suffix is replaced.
     */
    method Save(rows: seq<EditRow>, naming: Naming) returns (out: SaveOutcome)
      requires Valid()
      modifies this
      ensures Valid() && currentFile == old(currentFile) && currentBytes == old(currentBytes)
      ensures old(DocumentIsCurrent()) ==> DocumentIsCurrent()
      ensures currentFile.None? ==> out == NoFileLoaded && currentMetadata == old(currentMetadata)
      ensures currentFile.Some? ==>
        var f := currentFile.value;
        var kind := WriteDispatch(Extension(f.name));
        var tags := Collected(rows);
        && (kind == ImageSidecar ==>
              out == Downloads([Download(f.name, OriginalBytes(f.bytes, f.mimeType)),
                                Download(SidecarName(f.name), JsonSidecar(tags))])
              && currentMetadata == old(currentMetadata))
        && (kind == PdfRewrite && HasDocument(old(currentMetadata)) ==>
              var doc := old(currentMetadata)["_pdfDoc"].doc;
              var saved := PdfDocument(doc.loadedFrom, ApplyEdits(doc.info, tags));
              out == Downloads([Download(PdfName(naming, f.name), SavedPdf(saved))])
              && currentMetadata == old(currentMetadata)["_pdfDoc" := Document(saved)])
        && (kind == PdfRewrite && !HasDocument(old(currentMetadata)) ==>
              out == PdfDocumentMissing && currentMetadata == old(currentMetadata))
        && (kind == AudioSidecar ==>
              out == Downloads([Download(SidecarName(f.name), JsonSidecar(tags))])
              && currentMetadata == old(currentMetadata))
        && (kind == NotWritable ==> out == CannotWrite && currentMetadata == old(currentMetadata))
    {
      if currentFile.None? {
        out := NoFileLoaded;
        return;
      }
      var f := currentFile.value;
      var tags := CollectTags(rows);
      var kind := WriteDispatch(Extension(f.name));
      if kind == ImageSidecar {
        out := Downloads([Download(f.name, OriginalBytes(currentBytes.value, f.mimeType)),
                          Download(SidecarName(f.name), JsonSidecar(tags))]);
      } else if kind == PdfRewrite {
        if HasDocument(currentMetadata) {
          var doc := currentMetadata["_pdfDoc"].doc;
          var saved := PdfDocument(doc.loadedFrom, ApplyEdits(doc.info, tags));
          currentMetadata := currentMetadata["_pdfDoc" := Document(saved)];
          out := Downloads([Download(PdfName(naming, f.name), SavedPdf(saved))]);
        } else {
          out := PdfDocumentMissing;
        }
      } else if kind == AudioSidecar {
        out := Downloads([Download(SidecarName(f.name), JsonSidecar(tags))]);
      } else {
        out := CannotWrite;
      }
    }
  }

  /**
   * The stale-document defect as written: read a PDF whose document loads, then a second
   * PDF whose document fails to load, then save whatever rows are on the page, all with the
   * handlers as written. The download is named after the second file but holds the document
   * loaded from the first file's bytes, edited by those rows.
   */
  method StaleDocumentAsWritten(first: FileRef, second: FileRef, info: Info, rows: seq<EditRow>)
    returns (current: seq<Byte>, out: SaveOutcome)
    requires ReadDispatch(Extension(first.name)) == Pdf && ReadDispatch(Extension(second.name)) == Pdf
    ensures current == second.bytes
    ensures out == Downloads([Download(PdfDownloadNameAsWritten(second.name),
                                       SavedPdf(PdfDocument(first.bytes, ApplyEdits(info, Collected(rows)))))])
  {
    var page := new Page();
    var _ := page.ReadAsWritten(Some(first), Readers(Threw, Threw, Returned(info)));
    var _ := page.ReadAsWritten(Some(second), Readers(Threw, Threw, Threw));
    WritableIsReadable(Extension(second.name));
    out := page.Save(rows, AsWritten);
    current := page.currentBytes.value;
  }

  /** The same steps with the corrected handlers: the save reports the missing document. */
  method StaleDocumentCorrected(first: FileRef, second: FileRef, info: Info) returns (out: SaveOutcome)
    requires ReadDispatch(Extension(first.name)) == Pdf && ReadDispatch(Extension(second.name)) == Pdf
    ensures out == PdfDocumentMissing
  {
    var page := new Page();
    var _ := page.Read(Some(first), Readers(Threw, Threw, Returned(info)));
    var _ := page.Read(Some(second), Readers(Threw, Threw, Threw));
    WritableIsReadable(Extension(second.name));
    out := page.Save([], Intended);
  }

  /** For instance a.pdf, then b.pdf: the download is b.pdf_modified.pdf holding a.pdf's document. */
  method StaleDocumentExample() returns (current: seq<Byte>, out: SaveOutcome)
    ensures current == [2]
    ensures out == Downloads([Download("b.pdf_modified.pdf", SavedPdf(PdfDocument([1], Info(None, None, None))))])
  {
    var a, b := "a" + ".pdf", "b" + ".pdf";
    PdfNamed("a");
    PdfNamed("b");
    assert b + ModifiedSuffix == "b.pdf_modified.pdf";
    NoEditsNoChange(Info(None, None, None), Collected([]));
    current, out := StaleDocumentAsWritten(FileRef(a, "application/pdf", [1]),
                                           FileRef(b, "application/pdf", [2]),
                                           Info(None, None, None), []);
  }

  /**
   * A name `base.pdf` takes the PDF read branch, whatever dots `base` holds, and with the
   * regex as written it is downloaded with `_modified.pdf` appended to the whole name, as
   * long as `base` does not end in a backslash (`a\\.pdf` becomes `a_modified.pdf`).
   */
  lemma PdfNamed(base: string)
    requires base == [] || base[|base| - 1] != '\\'
    ensures ReadDispatch(Extension(base + ".pdf")) == Pdf
    ensures PdfDownloadNameAsWritten(base + ".pdf") == base + ".pdf" + ModifiedSuffix
  {
    var name := base + ".pdf";
    assert name == base + "." + "pdf";
    ExtensionOfDotted(base, "pdf");
    if |name| >= 5 {
      assert name[|name| - 5] == base[|base| - 1];
    }
  }
}
