/**
 * The extension tables of the two handlers. The read handler picks one of five branches
 * (image, audio, PDF, executable, not recognised); the save handler picks one of four
 * (image sidecar, PDF rewrite, audio sidecar, refusal). Both test in a fixed order.
 */
module Dispatch {

  /** What the read handler does with a file. */
  datatype ReadKind = Image | Audio | Pdf | Exe | Unrecognized

  /** What the save handler does with a file. */
  datatype WriteKind = ImageSidecar | PdfRewrite | AudioSidecar | NotWritable

  const ImageExtensions: seq<string> := ["jpg", "jpeg", "tif", "tiff", "png"]
  const AudioReadExtensions: seq<string> := ["mp3", "flac", "m4a", "wav", "ogg"]
  const AudioWriteExtensions: seq<string> := ["mp3", "flac", "m4a"]

  /** The if/else-if chain of the read handler. */
  function ReadDispatch(ext: string): ReadKind {
    if ext in ImageExtensions then Image
    else if ext in AudioReadExtensions then Audio
    else if ext == "pdf" then Pdf
    else if ext == "exe" then Exe
    else Unrecognized
  }

  /** The if/else-if chain of the save handler (note the PDF test comes before audio). */
  function WriteDispatch(ext: string): WriteKind {
    if ext in ImageExtensions then ImageSidecar
    else if ext == "pdf" then PdfRewrite
    else if ext in AudioWriteExtensions then AudioSidecar
    else NotWritable
  }

  /** A file the read handler can show metadata for (the executable branch only shows a note). */
  predicate Readable(k: ReadKind) {
    k == Image || k == Audio || k == Pdf
  }

  /**
   * The extension lists do not overlap, so each branch is taken exactly for its own list:
   * the order of the tests does not matter.
   */
  lemma ReadDispatchByList(ext: string)
    ensures ReadDispatch(ext) == Image <==> ext in ImageExtensions
    ensures ReadDispatch(ext) == Audio <==> ext in AudioReadExtensions
    ensures ReadDispatch(ext) == Pdf <==> ext == "pdf"
    ensures ReadDispatch(ext) == Exe <==> ext == "exe"
    ensures (ReadDispatch(ext) == Unrecognized) <==>
      ext !in ImageExtensions + AudioReadExtensions + ["pdf", "exe"]
  {
  }

  /** The same for the save handler. */
  lemma WriteDispatchByList(ext: string)
    ensures WriteDispatch(ext) == ImageSidecar <==> ext in ImageExtensions
    ensures WriteDispatch(ext) == PdfRewrite <==> ext == "pdf"
    ensures WriteDispatch(ext) == AudioSidecar <==> ext in AudioWriteExtensions
    ensures (WriteDispatch(ext) == NotWritable) <==>
      ext !in ImageExtensions + AudioWriteExtensions + ["pdf"]
  {
  }

  /** Whatever the save handler can write, the read handler can read, as the same kind of file. */
  lemma WritableIsReadable(ext: string)
    ensures WriteDispatch(ext) == ImageSidecar <==> ReadDispatch(ext) == Image
    ensures WriteDispatch(ext) == PdfRewrite <==> ReadDispatch(ext) == Pdf
    ensures WriteDispatch(ext) == AudioSidecar ==> ReadDispatch(ext) == Audio
    ensures WriteDispatch(ext) != NotWritable ==> Readable(ReadDispatch(ext))
  {
  }

  /** The read-only extensions: wav, ogg and exe are read but never written. */
  lemma ReadOnlyExtensions(ext: string)
    ensures (ReadDispatch(ext) != Unrecognized && WriteDispatch(ext) == NotWritable)
              <==> ext in ["wav", "ogg", "exe"]
  {
  }
}
