# Client-side metadata editor: decision and string rules

The browser script `javascript.js` lets a user pick a file, read its metadata, edit it as
key/value rows and download the result. Reading and writing the actual formats is done by
exifr, music-metadata-browser and pdf-lib. What the script decides for itself is modelled
here:

- which branch a file takes, by its extension;
- how values are escaped for the page;
- which metadata keys are shown, and in what order;
- how the edit rows become a `tags` map;
- how a PDF's Title/Author/Subject are updated;
- what the downloads are called;
- how the page's state (`currentFile`, `currentMetadata`, `currentBytes`) changes across the Read and Save clicks.

Modules, one per file:

- `Common`: `Option` and a `Byte` type.
- `Strings`: `String.prototype.trim` and `toLowerCase`.
- `HtmlEscape`: `escapeHtml` and a decoder for the four entities it writes.
- `FileExtension`: `split('.').pop().toLowerCase()`.
- `Dispatch`: the extension tables of the two handlers.
- `Listing`: `Object.keys(md).filter(k => !k.startsWith('_')).sort()`.
- `Edits`: the save handler's `forEach` over the edit rows, as a method with a loop.
- `PdfInfo`: the document's three information fields and the conditional setter calls.
- `DownloadNames`: the sidecar name and the rewritten PDF's name.
- `Page`: a class with the three module-level variables and the two click handlers.
  - The results of the foreign readers are inputs to the read handler.
  - The rows on the page when Save is clicked are an input to the save handler.
  - The rows a read puts up are a function of the metadata.

## Model

| member | source | states |
|---|---|---|
| Strings.Trim | javascript.js:111 | the result has no trimmable character at either end and is no longer than the input |
| Strings.TrimIsSlice | javascript.js:111 | `trim()` returns the slice between a leading and a trailing run of trimmable characters |
| Strings.TrimFixedIff | javascript.js:111 | trimming changes nothing exactly when neither end is trimmable |
| Strings.TrimIdempotent | javascript.js:111 | trimming twice is trimming once |
| Strings.ToLower | javascript.js:34 | same length; each character lower-cased on its own |
| Strings.ToLowerSlice | javascript.js:34 | lower-casing commutes with taking a suffix |
| Strings.ToLowerIdempotent | javascript.js:34 | lower-casing twice is lower-casing once |
| HtmlEscape.EscapeHtml | javascript.js:160 | the output contains no `<`, `>` or `"` and is never shorter than the input |
| HtmlEscape.EscapeConcat | javascript.js:160 | escaping works character by character: escaping a concatenation concatenates the escapes |
| HtmlEscape.EscapeIdentityIff | javascript.js:160 | escaping changes nothing exactly when the input has none of `&<>"` |
| HtmlEscape.EscapeIsWellEscaped | javascript.js:160 | every `&` in the output starts one of `&amp;`, `&lt;`, `&gt;`, `&quot;` |
| HtmlEscape.UnescapeEscape | javascript.js:160 | decoding the four entities gives back the input exactly |
| HtmlEscape.EscapeUnescape | javascript.js:160 | on well-escaped text, escaping the decoded text gives the text back |
| FileExtension.LastPiece | javascript.js:34 | `split('.').pop()`: the last piece of the split (its properties are in `LastPieceIsSuffix`) |
| FileExtension.Extension | javascript.js:34 | the last piece lower-cased, as both handlers compute it (also javascript.js:108); its properties are in the lemmas below |
| FileExtension.SplitOnDot | javascript.js:34 | `split('.')` gives at least one piece, no piece contains a dot, and joining with dots gives the name back |
| FileExtension.LastPieceIsSuffix | javascript.js:34 | `pop()` gives the dot-free suffix of the name that follows its last dot, or the whole name when there is no dot |
| FileExtension.ExtensionIsTextAfterLastDot | javascript.js:34 | the extension is the lower-cased text after the last dot and contains no dot |
| FileExtension.NoDotWholeName | javascript.js:34 | a name without a dot gives the whole name lower-cased |
| FileExtension.TrailingDotEmpty | javascript.js:108 | a name ending in a dot gives the empty extension |
| FileExtension.ExtensionOfDotted | javascript.js:108 | `base.ext` has extension `ext` lower-cased, whatever `base` is |
| FileExtension.ExtensionIgnoresCase | javascript.js:34 | a name and its lower-cased form have the same extension |
| Dispatch.ReadDispatch | javascript.js:37-73 | the read handler's if/else-if chain over the image list, the audio list, `pdf` and `exe` |
| Dispatch.WriteDispatch | javascript.js:117-143 | the save handler's if/else-if chain over the image list, `pdf` and the mp3/flac/m4a list |
| Dispatch.ReadDispatchByList | javascript.js:37-73 | each read branch is taken exactly for the extensions of its own list, so the lists do not overlap |
| Dispatch.WriteDispatchByList | javascript.js:117-143 | each save branch is taken exactly for the extensions of its own list |
| Dispatch.WritableIsReadable | javascript.js:117-143 | every extension the save handler writes is read as the same kind of file |
| Dispatch.ReadOnlyExtensions | javascript.js:45 | the extensions that are read but never written are exactly wav, ogg and exe |
| Listing.LessIrreflexive | javascript.js:82 | the sort's comparison is irreflexive |
| Listing.LessTransitive | javascript.js:82 | the sort's comparison is transitive |
| Listing.LessTotal | javascript.js:82 | the sort's comparison orders any two different strings |
| Listing.LessAsymmetric | javascript.js:82 | the sort's comparison is asymmetric |
| Listing.Sorted | javascript.js:82 | the result is strictly ascending and holds exactly the elements of the set |
| Listing.DisplayKeys | javascript.js:82 | the shown keys are strictly ascending, none starts with `_`, and they are exactly the metadata keys that do not start with `_` |
| Listing.DisplayKeysUnique | javascript.js:82 | any strictly ascending listing of exactly those keys is the one shown |
| Listing.PdfHandleNeverShown | javascript.js:62 | the `_pdfDoc` entry is never shown |
| Edits.CollectedPrefix | javascript.js:110-114 | the tags object after the first n rows: trimmed key, empty key skipped, `tags[k] = v` overwriting |
| Edits.Collected | javascript.js:110-114 | the tags object after all rows |
| Edits.CollectTags | javascript.js:110-114 | the loop builds the tags map defined row by row: trimmed key, empty keys skipped, later rows overwrite |
| Edits.KeysTrimmedNonEmpty | javascript.js:111-113 | every collected key is non-empty and equal to its trimmed form |
| Edits.KeyPresentIff | javascript.js:111-113 | a key is collected exactly when some row's trimmed key is that non-empty key |
| Edits.LastRowWins | javascript.js:112-113 | a key's value is the untrimmed value of the last row carrying that key |
| Edits.BlankRowIgnored | javascript.js:113 | a row whose trimmed key is empty adds nothing, wherever it stands |
| PdfInfo.Edited | javascript.js:130 | one `if (tags.K) pdfDoc.setK(tags.K)` step |
| PdfInfo.ApplyEdits | javascript.js:130-132 | the three conditional setter calls |
| PdfInfo.FieldRule | javascript.js:130-132 | each of Title, Author and Subject takes the edited value when it is present and non-empty, and keeps its old value otherwise |
| PdfInfo.OnlyInfoKeysMatter | javascript.js:130-132 | no key other than Title, Author and Subject affects the document |
| PdfInfo.AgreeOnInfoKeys | javascript.js:130-132 | two edit maps that agree on the three keys give the same document |
| PdfInfo.ApplyEditsIdempotent | javascript.js:130-132 | applying the same edits twice is applying them once |
| PdfInfo.NoEditsNoChange | javascript.js:130-132 | with no non-empty Title, Author or Subject edit the document is unchanged |
| DownloadNames.SidecarName | javascript.js:124 | `name + '.metadata.json'`, as in the image branch and the audio branch (javascript.js:140) |
| DownloadNames.PdfDownloadNameAsWritten | javascript.js:135 | `name.replace(/\\.pdf$/i, '') + '_modified.pdf'` with the regex as written |
| DownloadNames.PdfDownloadName | javascript.js:135 | the same with the intended regex `/\.pdf$/i` |
| DownloadNames.SidecarRoundTrip | javascript.js:124 | the sidecar name is the original name followed by `.metadata.json`, and removing the suffix gives the name back |
| DownloadNames.SidecarInjective | javascript.js:140 | different files get different sidecar names |
| DownloadNames.SidecarExtension | javascript.js:124 | a sidecar has extension `json`, which neither handler reads or writes |
| DownloadNames.AsWrittenKeepsPdfSuffix | javascript.js:135 | with the regex as written, `report.pdf` is downloaded as `report.pdf_modified.pdf` |
| DownloadNames.AsWrittenAppendsToPlainNames | javascript.js:135 | with the regex as written, a name without a backslash is never shortened |
| DownloadNames.AsWrittenStripsAfterBackslash | javascript.js:135 | with the regex as written, `a\.pdf` loses its backslash and the four characters after it, giving `a_modified.pdf` |
| DownloadNames.StripsPdfSuffix | javascript.js:135 | with the intended regex, a `.pdf` suffix in any case is replaced by `_modified.pdf` |
| DownloadNames.KeepsOtherNames | javascript.js:135 | with the intended regex `/\.pdf$/i`, a name without a `.pdf` suffix keeps its full text |
| DownloadNames.DownloadEndsModifiedPdf | javascript.js:135 | both versions of the name end in `_modified.pdf` and have extension `pdf` |
| DownloadNames.PdfBranchNames | javascript.js:126-135 | with the intended regex `/\.pdf$/i`, every dotted name the save handler sends down the PDF branch loses exactly its four-character `.pdf` suffix |
| Page.StringOf | javascript.js:87-92 | `String(v)` for text, `undefined` and the document handle |
| Page.PdfMetadata | javascript.js:57-62 | the PDF branch's metadata object: the three fields, then the document under `_pdfDoc` |
| Page.Loaded | javascript.js:37-73 | the metadata a read stores by branch, or nothing when the reader threw or the branch stores none |
| Page.Sanitize | javascript.js:92 | what a text input keeps of its value: no CR, LF or NUL is left, and the result is never longer |
| Page.SanitizeIdentityIff | javascript.js:92 | an input keeps its value exactly when the value has no CR, LF or NUL |
| Page.AttributeValue | javascript.js:92 | an input built as `value="${escapeHtml(s)}"` holds `s` with CR and LF removed and NUL replaced by U+FFFD, and holds `s` itself when `s` has none of them |
| Page.RenderedRowsAsWritten | javascript.js:82-95 | one edit row per shown key, in the shown order, holding the key and `String(v)` as the inputs keep them |
| Page.RenderedRows | javascript.js:82-95 | the same rows with an `undefined` value prefilled as empty |
| Page.CollectRenderedRows | javascript.js:82-95 | saving the rendered rows untouched collects exactly the visible entries with their prefilled text as the inputs keep it, when every shown key comes back from its input unchanged |
| Page.RenderedKeyPresent | javascript.js:92 | a key is collected from the rendered rows exactly when it is a visible metadata key |
| Page.RenderedValue | javascript.js:92 | the value collected for a visible key is its prefilled text as the value input keeps it |
| Page.PdfDisplayKeys | javascript.js:57-62 | a PDF's metadata is shown as Author, Subject, Title, in that order |
| Page.PdfKeysSurviveInput | javascript.js:57-62 | a PDF's shown keys come back from their inputs and the save handler's trim unchanged |
| Page.UntouchedSaveAsWrittenSetsUndefined | javascript.js:92 | as written, an unset Title is prefilled as "undefined" and an untouched save sets it to "undefined" |
| Page.UntouchedSaveResult | javascript.js:130-132 | with `undefined` prefilled as empty, an untouched save leaves an unset field unset, sets a field to its text as the input keeps it when that is non-empty, and keeps it otherwise |
| Page.UntouchedSaveKeepsUnsetFields | javascript.js:130-132 | with `undefined` prefilled as empty, an untouched save leaves every unset field unset |
| Page.UntouchedSaveKeepsInfo | javascript.js:130-132 | with `undefined` prefilled as empty, an untouched save leaves Title, Author and Subject as they were when none holds a CR, LF or NUL |
| Page.Page.constructor | javascript.js:17-19 | no file, empty metadata, no bytes |
| Page.Page.ReadAsWritten | javascript.js:26-77 | the read handler as written: without a file nothing changes; otherwise the file and its bytes are stored, and either the dispatched reader's metadata is stored and shown, or the old metadata stays and the executable note, "not recognised" or the error is reported |
| Page.Page.Read | javascript.js:26-77 | the same with the old metadata cleared when nothing is loaded; a stored document is always the current file's |
| Page.Page.Save | javascript.js:106-147 | without a file: "No file loaded". Otherwise, by branch: the image's bytes plus a sidecar; the stored document with the field rule applied, named by the regex as written (`AsWritten`) or the intended one (`Intended`); "PDF document missing"; an mp3/flac/m4a sidecar; or a refusal |
| Page.StaleDocumentAsWritten | javascript.js:29-73 | with both handlers as written, after a PDF read, a second PDF read whose load fails, and a save of whatever rows are on the page, the download is named after the second file but holds the first file's document, edited by those rows |
| Page.StaleDocumentCorrected | javascript.js:128-129 | with the corrected handlers the same steps end in "PDF document missing" |
| Page.StaleDocumentExample | javascript.js:29-73 | as written, reading a.pdf, then a failing b.pdf, then saving downloads `b.pdf_modified.pdf` holding a.pdf's document |
| Page.PdfNamed | javascript.js:135 | a name `base.pdf`, where `base` may hold dots but does not end in a backslash, takes the PDF read branch, and with the regex as written keeps its whole name before `_modified.pdf` |

## Left out

- DOM rendering, the message line and the hidden/visible toggles are not modelled. The page's edit list (including the add-row and remove buttons) is not state of the model: Save takes the rows present when it is clicked.
- exifr, music-metadata-browser and pdf-lib are not modelled. Their results are inputs to the read handler, and a value that makes the reader throw is `Threw`. pdf-lib's `save()` is assumed to succeed.
- Value types: a PDF document is reduced to the bytes it was loaded from plus three optional strings. Every value from exifr and music-metadata-browser is treated as a string.
- `File.arrayBuffer`, `Blob`, `URL.createObjectURL` and `triggerDownload` are not modelled. A download is its name plus its payload. `JSON.stringify` is not modelled: a sidecar carries its tags map.
- Timing: async interleaving is not modelled (for example a Save click while a read is still awaiting). A failing `arrayBuffer()` is not modelled either.
- Strings.ToLower: only A-Z are lower-cased, one character at a time. This does not change any dispatch decision. The only other characters whose lower case contains an ASCII letter are the Kelvin sign, which gives `k` (no extension contains `k`), and U+0130, which gives `i` followed by a combining dot (no extension contains that).
- Strings.ToLowerSlice and FileExtension.ExtensionIgnoresCase are facts of this character-by-character model, not of JavaScript. `toLowerCase` is context-sensitive for the capital sigma: `"AΣ".toLowerCase().slice(1)` is `"ς"`, while `"Σ".toLowerCase()` is `"σ"`.
- Strings are sequences of code points throughout. The source's `split` and regex `.` (DownloadNames.MatchesAsWritten) work on UTF-16 code units, which differs only for characters outside the Basic Multilingual Plane.
- Listing.Sorted: strings are compared by code point. JavaScript compares UTF-16 code units, and the two orders differ only between characters outside the Basic Multilingual Plane and characters U+E000-U+FFFF.
- Edits.CollectTags: keys are looked up as map keys. The special behaviour of the key `__proto__` on a plain JavaScript object is not modelled.
- Page.StringOf covers text, `undefined` and the document handle only. It is never applied to the document, because `_pdfDoc` is hidden. `String()` of numbers, dates and arrays from the readers is not modelled.
- Page.AttributeValue: the browser's decoding of character references is modelled by the decoder of the four entities escapeHtml writes, which suffices because every `&` in escaped text starts one of those entities. Of the parser's and the text input's other rules, the model keeps the two that change the value here: NUL becomes U+FFFD, and CR and LF are stripped.
- Page.CollectRenderedRows, Page.RenderedKeyPresent and Page.RenderedValue are stated only for metadata whose shown keys come back from their inputs unchanged (non-empty, already trimmed, no CR, LF or NUL). Keys that the input or the trim would change, and that could then collide, are not covered. Values are covered in general.
- Page.UntouchedSaveKeepsInfo is stated only for fields without CR, LF or NUL. The general case is Page.UntouchedSaveResult.

## Findings

| source | as written | input that shows it | evidently intended | confidence | as-written member | corrected member |
|---|---|---|---|---|---|---|
| javascript.js:135 | `/\\.pdf$/i` matches a backslash, one character and `pdf`, so a normal `.pdf` suffix is kept | `report.pdf`: the download is `report.pdf_modified.pdf` | `/\.pdf$/i`: the download is `report_modified.pdf` | high, not executed | DownloadNames.AsWrittenKeepsPdfSuffix | DownloadNames.StripsPdfSuffix |
| javascript.js:29-73 | a read that stores no metadata (the load throws, or an executable or unknown file) leaves the previous file's metadata, including its `_pdfDoc` | read a.pdf, then read b.pdf whose load fails, then Save: `b.pdf_modified.pdf` holds a.pdf's document | the save reports "PDF document missing" | medium, not executed | Page.StaleDocumentAsWritten | Page.StaleDocumentCorrected |
| javascript.js:92 | an unset PDF field is prefilled with `String(undefined)`, the text "undefined", and the Title/Author/Subject rule accepts it as the edit | a PDF without a Title, saved without touching the rows: its Title becomes "undefined" | an unset field starts empty, so an untouched save leaves it unset | medium, not executed | Page.UntouchedSaveAsWrittenSetsUndefined | Page.UntouchedSaveKeepsUnsetFields |

The page model uses the corrected versions:

- `Page.Page.Save` models both namings. `Page.StaleDocumentCorrected` calls it with `Intended`, which uses `DownloadNames.PdfDownloadName`.
- `Page.Page.Read` clears the metadata when a read loads none.
- `Page.RenderedRows` prefills an unset field as empty.
