/** The `/extract` handler: the file name's extension picks the extractor, and
    the response body carries the extracted text under `text`, or an error
    under `error` for an unsupported name. */
module Dispatch {
  import opened Text
  import Whitespace
  import Docx
  import Hyperlinks
  import PdfText
  import Pptx

  /** Python's `name.endswith(suffix)`, case-sensitive. */
  predicate EndsWith(name: string, suffix: string)
  {
    |suffix| <= |name| && name[|name| - |suffix|..] == suffix
  }

  datatype FileType = WordFile | PdfFile | SlidesFile

  predicate WordName(name: string)
  {
    EndsWith(name, ".docx") || EndsWith(name, ".doc")
  }

  predicate PdfName(name: string)
  {
    EndsWith(name, ".pdf")
  }

  predicate SlidesName(name: string)
  {
    EndsWith(name, ".pptx") || EndsWith(name, ".ppt")
  }

  /** The extension tests, in the handler's order. */
  function Classify(name: string): (r: Option<FileType>)
    ensures r == Some(WordFile) <==> WordName(name)
    ensures r == Some(PdfFile) <==> PdfName(name)
    ensures r == Some(SlidesFile) <==> SlidesName(name)
    ensures r == None <==> !WordName(name) && !PdfName(name) && !SlidesName(name)
  {
    SuffixesExclusive(name);
    if WordName(name) then Some(WordFile)
    else if PdfName(name) then Some(PdfFile)
    else if SlidesName(name) then Some(SlidesFile)
    else None
  }

  lemma EndsWithLast(name: string, suffix: string, k: nat)
    requires EndsWith(name, suffix) && k < |suffix|
    ensures name[|name| - |suffix| + k] == suffix[k]
  {
  }

  /** No name has two of the supported extensions, so the order of the tests
      never decides between two of them. */
  lemma SuffixesExclusive(name: string)
    ensures !(WordName(name) && PdfName(name))
    ensures !(WordName(name) && SlidesName(name))
    ensures !(PdfName(name) && SlidesName(name))
  {
    // Every supported extension is told apart from the others by its last
    // one or two characters.
    if EndsWith(name, ".docx") { EndsWithLast(name, ".docx", 4); }
    if EndsWith(name, ".doc") { EndsWithLast(name, ".doc", 3); }
    if EndsWith(name, ".pdf") { EndsWithLast(name, ".pdf", 3); }
    if EndsWith(name, ".pptx") { EndsWithLast(name, ".pptx", 4); }
    if EndsWith(name, ".ppt") { EndsWithLast(name, ".ppt", 3); EndsWithLast(name, ".ppt", 2); }
  }

  /** Examples: one name with each supported extension. */
  lemma ClassifySupportedExamples()
    ensures Classify("report.docx") == Some(WordFile)
    ensures Classify("old.doc") == Some(WordFile)
    ensures Classify("paper.pdf") == Some(PdfFile)
    ensures Classify("deck.ppt") == Some(SlidesFile)
    ensures Classify("deck.pptx") == Some(SlidesFile)
  {
  }

  /** Matching is case-sensitive and needs the dot; any other extension is
      unsupported. */
  lemma ClassifyUnsupportedExamples()
    ensures Classify("paper.PDF") == None
    ensures Classify("notes.txt") == None
    ensures Classify("pdf") == None
  {
  }

  /** What the document libraries report for the uploaded bytes; `None` where
      the library would raise on them. */
  datatype PdfView = PdfView(pageTexts: seq<string>, linkPages: seq<seq<Hyperlinks.Link>>)

  datatype Upload = Upload(
    filename: string,
    word: Option<Docx.Document>,
    pdf: Option<PdfView>,
    slides: Option<seq<Pptx.Slide>>)

  /** The JSON body: `{"text": ...}` or `{"error": ...}`. */
  datatype Body = TextBody(text: string) | ErrorBody(error: string)

  function Keys(b: Body): set<string>
  {
    match b
    case TextBody(_) => {"text"}
    case ErrorBody(_) => {"error"}
  }

  /** The handler either answers with a body or lets a library error escape. */
  datatype Outcome = Responded(body: Body) | Raised

  const Unsupported := "File type not supported"

  /** The text of the `.pdf` branch: page texts and hyperlink entries. */
  function PdfResponse(v: PdfView): string
  {
    PdfText.Response(v.pageTexts, Hyperlinks.HyperlinksOf(v.linkPages))
  }

  /** The `/extract` handler. */
  function Extract(u: Upload): (o: Outcome)
    ensures Classify(u.filename) == None <==> o == Responded(ErrorBody(Unsupported))
    ensures o.Responded? && Classify(u.filename).Some? ==> Keys(o.body) == {"text"}
    ensures Classify(u.filename).None? ==> o.Responded? && Keys(o.body) == {"error"}
  {
    match Classify(u.filename)
    case Some(WordFile) =>
      (match u.word
       case None => Raised
       case Some(d) => Responded(TextBody(Docx.ExtractText(d))))
    case Some(PdfFile) =>
      (match u.pdf
       case None => Raised
       case Some(v) => Responded(TextBody(PdfResponse(v))))
    case Some(SlidesFile) =>
      (match u.slides
       case None => Raised
       case Some(s) => Responded(TextBody(Pptx.PresentationText(s))))
    case None => Responded(ErrorBody(Unsupported))
  }

  /** The handler's branches, as the loop-based extractors compute them. */
  method ExtractWithLoops(u: Upload) returns (o: Outcome)
    ensures o == Extract(u)
  {
    match Classify(u.filename)
    case Some(WordFile) =>
      if u.word.None? {
        return Raised;
      }
      var items := Docx.CollectItems(u.word.value);
      o := Responded(TextBody(Whitespace.Normalize(Join("\n", items))));
    case Some(PdfFile) =>
      if u.pdf.None? {
        return Raised;
      }
      var hyperlinks := Hyperlinks.ExtractHyperlinks(u.pdf.value.linkPages);
      var text := PdfText.AssembleResponse(u.pdf.value.pageTexts, hyperlinks);
      o := Responded(TextBody(text));
    case Some(SlidesFile) =>
      if u.slides.None? {
        return Raised;
      }
      var text := Pptx.ExtractPptText(u.slides.value);
      o := Responded(TextBody(text));
    case None =>
      o := Responded(ErrorBody(Unsupported));
  }

  /** A readable Word upload is answered with the words of all its paragraph
      and cell texts, paragraphs first and then cells in table, row and cell
      order, separated by single spaces. */
  lemma ExtractWord(u: Upload, d: Docx.Document)
    requires WordName(u.filename) && u.word == Some(d)
    ensures Extract(u) == Responded(TextBody(Join(" ", Docx.WordsOfAll(Docx.AllTexts(d)))))
  {
    Docx.ExtractTextIsWords(d);
  }
}
