/**
 * The three document-information fields the page reads from and writes to a PDF
 * (pdf-lib's getTitle/getAuthor/getSubject and setTitle/setAuthor/setSubject), and the
 * save handler's rule for updating them: `if (tags.Title) pdfDoc.setTitle(tags.Title)`
 * and likewise for Author and Subject.
 */
module PdfInfo {
  import opened Common

  /** The document's Title, Author and Subject; `None` is pdf-lib's `undefined` (field not set). */
  datatype Info = Info(title: Option<string>, author: Option<string>, subject: Option<string>)

  /** The three keys of the edit map the PDF branch consults. */
  const InfoKeys: set<string> := {"Title", "Author", "Subject"}

  /** `tags[key]` is truthy: present and not the empty string. */
  predicate Truthy(tags: map<string, string>, key: string) {
    key in tags && tags[key] != ""
  }

  /** One `if (tags.K) pdfDoc.setK(tags.K)` step. */
  function Edited(current: Option<string>, tags: map<string, string>, key: string): Option<string> {
    if Truthy(tags, key) then Some(tags[key]) else current
  }

  /** The document fields after the three conditional setter calls. */
  function ApplyEdits(info: Info, tags: map<string, string>): Info {
    Info(Edited(info.title, tags, "Title"),
         Edited(info.author, tags, "Author"),
         Edited(info.subject, tags, "Subject"))
  }

  /** A non-empty edit of one of the three fields replaces it; an absent or empty one keeps the old value. */
  lemma FieldRule(info: Info, tags: map<string, string>)
    ensures var r := ApplyEdits(info, tags);
      && (Truthy(tags, "Title") ==> r.title == Some(tags["Title"]))
      && (!Truthy(tags, "Title") ==> r.title == info.title)
      && (Truthy(tags, "Author") ==> r.author == Some(tags["Author"]))
      && (!Truthy(tags, "Author") ==> r.author == info.author)
      && (Truthy(tags, "Subject") ==> r.subject == Some(tags["Subject"]))
      && (!Truthy(tags, "Subject") ==> r.subject == info.subject)
  {
  }

  /** No key other than Title, Author and Subject affects the document. */
  lemma OnlyInfoKeysMatter(info: Info, tags: map<string, string>)
    ensures ApplyEdits(info, tags) == ApplyEdits(info, map k | k in tags && k in InfoKeys :: tags[k])
  {
  }

  /** Two edit maps that agree on the three keys give the same document. */
  lemma AgreeOnInfoKeys(info: Info, t1: map<string, string>, t2: map<string, string>)
    requires forall k :: k in InfoKeys ==> (k in t1 <==> k in t2)
    requires forall k :: k in InfoKeys && k in t1 ==> t1[k] == t2[k]
    ensures ApplyEdits(info, t1) == ApplyEdits(info, t2)
  {
    assert "Title" in InfoKeys && "Author" in InfoKeys && "Subject" in InfoKeys;
  }

  /** Saving twice with the same edits is the same as saving once. */
  lemma ApplyEditsIdempotent(info: Info, tags: map<string, string>)
    ensures ApplyEdits(ApplyEdits(info, tags), tags) == ApplyEdits(info, tags)
  {
  }

  /** With no truthy Title, Author or Subject edit the document is left as it was. */
  lemma NoEditsNoChange(info: Info, tags: map<string, string>)
    requires !Truthy(tags, "Title") && !Truthy(tags, "Author") && !Truthy(tags, "Subject")
    ensures ApplyEdits(info, tags) == info
  {
  }
}
