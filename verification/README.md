# document-extractor in Dafny

A model of the text post-processing in document-extractor, a small HTTP
service. The service takes an uploaded Word, PDF or PowerPoint file and
returns its text. It also turns a parsed phone number into `+<country
code><national number>`.

The document libraries are not modelled. What they report is given as plain
data:

- a Word document is its paragraph texts and its tables, given as rows of cell texts;
- a PDF is its page texts and, page by page, its links, each with an optional URI and the text inside the link's rectangle;
- a presentation is its slides, each a list of shapes with an optional text;
- a phone number is its country code and national number, as natural numbers.

The modules follow `main.py`:

| module | file | models |
|---|---|---|
| `Text` | text.dfy | Python's whitespace set (`str.isspace`, regex `\s`), `str.strip`, `str.join` |
| `Whitespace` | whitespace.dfy | `re.sub(r"\s+", " ", s).strip()` and its description through the words of `s` |
| `Docx` | docx.dfy | `extract_text_from_docx` |
| `Hyperlinks` | hyperlinks.dfy | `extract_hyperlinks_with_text` |
| `PdfText` | pdf.dfy | the response text of the `.pdf` branch |
| `Pptx` | pptx.dfy | `extract_text_from_ppt` |
| `Dispatch` | dispatch.dfy | the extension tests and response bodies of `extract_text_from_file` |
| `Phone` | phone.dfy | the format string of `normalize_phone_number` |

The loops of the source are methods. Each is proved equal to a functional
definition (`CollectItems`, `ExtractHyperlinks`, `AssembleResponse`,
`ExtractPptText`). The properties are stated about those functional
definitions.

The central result for Word files is `Docx.ExtractTextIsWords`. The returned
text is exactly the words of all paragraph texts, then of all table cells in
table, row and cell order, joined by single spaces. A word is a maximal run of non-whitespace characters,
as `str.split()` finds them. Two consequences follow:

- dropping blank paragraphs and cells never changes the result;
- the text has no leading, trailing, doubled or non-space whitespace.

## Model

| member | source | states |
|---|---|---|
| `Text.Strip` | main.py:28 | `strip()` keeps every non-whitespace character, in order, and leaves no whitespace at either end |
| `Text.StripUnique` | main.py:28 | `strip()` of whitespace + core + whitespace is that core whenever the core has non-whitespace ends, so `strip()` removes exactly the outer whitespace runs |
| `Text.StripEmptyIff` | main.py:19-20 | `text.strip()` is empty exactly when every character of `text` is whitespace |
| `Whitespace.CollapseKeepsNonWs` | main.py:28 | replacing whitespace runs by one space keeps the non-whitespace characters in order |
| `Whitespace.CollapseShape` | main.py:28 | the collapsed string is the words joined by single spaces, with one space before them when the input starts with whitespace and one after them when it ends with whitespace after a word |
| `Whitespace.NormalizeIsJoinedWords` | main.py:28 | collapse-then-strip equals `" ".join(s.split())` |
| `Whitespace.NormalizeCanonical` | main.py:28 | the normalised text has no whitespace at either end, no two whitespace characters in a row, and only `' '` as whitespace |
| `Whitespace.NormalizeKeepsNonWs` | main.py:28 | the normalised text has the same non-whitespace characters as the input, in order |
| `Whitespace.NormalizeEmptyIff` | main.py:28 | the normalised text is empty exactly when the input is all whitespace |
| `Whitespace.NormalizeIdempotent` | main.py:28 | normalising twice gives the same text as normalising once |
| `Whitespace.WordsAppendSep` | main.py:28 | a whitespace character between two texts separates their words and adds none |
| `Whitespace.WordsOfJoin` | main.py:28 | splitting words joined by spaces gives back those words |
| `Docx.ExtractText` | main.py:14-28 | the text of a Word document has no leading, trailing or doubled whitespace, and every whitespace character in it is a space |
| `Docx.CollectItems` | main.py:16-26 | the loops collect the non-blank paragraphs in order, then the non-blank cells in table, row and cell order |
| `Docx.KeepNonBlankSound` | main.py:19-20 | no blank text is kept, and the list never grows |
| `Docx.KeepNonBlankMembers` | main.py:18-26 | a text is kept exactly when it occurs and is not blank |
| `Docx.WordsOfNewlineJoin` | main.py:28 | the words of the newline-joined items are the words of each item in turn |
| `Docx.ExtractTextIsWords` | main.py:14-28 | the text is the words of all paragraph texts, then of all cell texts in table, row and cell order, joined by single spaces |
| `Docx.BlankParagraphIgnored` | main.py:18-20 | inserting a blank paragraph anywhere leaves the text unchanged |
| `Docx.HelloWorldExample` | main.py:14-28 | paragraphs `Hello`, empty and `World`, with no tables, give `Hello World` |
| `Docx.ExtractTextKeepsNonWs` | main.py:18-28 | the text's non-whitespace characters are exactly those of the paragraphs followed by the cells |
| `Docx.ExtractTextEmptyIff` | main.py:18-28 | the text is empty exactly when every paragraph and cell text is blank |
| `Hyperlinks.LabelShape` | main.py:43-48 | an entry's caption is never empty and has non-whitespace ends; it is `Unknown Text` for a blank anchor and otherwise has the anchor's non-whitespace characters |
| `Hyperlinks.ParseEntry` | main.py:46-48 | a parsed entry has the form `(` caption `)[` URI `]` |
| `Hyperlinks.ParseEntryRoundTrip` | main.py:46-48 | an entry reads back as its caption and URI whenever the URI does not contain `)[` |
| `Hyperlinks.EntriesIndexed` | main.py:39-48 | there is one entry per link that has a URI, and the k-th entry is formatted from the k-th such link |
| `Hyperlinks.HyperlinksReadBack` | main.py:35-50 | reading the list back recovers the caption and URI of every link with a URI, in page order and then link order; it recovers the caption, not whether the anchor was blank |
| `Hyperlinks.BlankAnchorLooksLikePlaceholder` | main.py:45-48 | any blank anchor and an anchor reading `Unknown Text` give the same entry |
| `Hyperlinks.LinkWithoutUriSkipped` | main.py:40 | a link without a URI adds no entry |
| `Hyperlinks.ExtractHyperlinks` | main.py:31-50 | the page and link loops produce exactly the entries of the links with a URI |
| `PdfText.AssembleResponse` | main.py:72-77 | the loop builds the joined page texts, then the separator line, then every entry followed by a newline |
| `PdfText.ResponseParts` | main.py:72-77 | the response splits into the joined page texts, the separator and the terminated entries; with no hyperlinks it ends with the separator |
| `PdfText.TerminatedReadBack` | main.py:76-77 | when no entry contains a newline, the lines of the terminated entries are the entries |
| `PdfText.ResponseReadBack` | main.py:72-79 | when no entry contains a newline, the lines after the separator are exactly the hyperlink entries, in order |
| `Pptx.ExtractPptText` | main.py:53-61 | the slide and shape loops produce the texts of all shapes that have text, run together in order |
| `Pptx.PresentationTextAppend` | main.py:56-59 | the text of consecutive slides is the concatenation of their texts, with no separator |
| `Pptx.ShapeWithoutTextIgnored` | main.py:58-59 | a shape without text contributes nothing |
| `Pptx.SingleSlideText` | main.py:57-59 | two text shapes give their texts concatenated, untrimmed |
| `Pptx.PresentationLength` | main.py:54-61 | the length of the text is the total length of the shape texts, so nothing is added or removed |
| `Dispatch.Classify` | main.py:66-84 | a name goes to Word, PDF or PowerPoint exactly when it ends with one of that type's extensions; otherwise it is unsupported |
| `Dispatch.SuffixesExclusive` | main.py:66-80 | no name ends with extensions of two different types, so the order of the tests never decides |
| `Dispatch.ClassifySupportedExamples` | main.py:66-80 | `report.docx` and `old.doc` go to Word, `paper.pdf` to PDF, and `deck.ppt` and `deck.pptx` to PowerPoint |
| `Dispatch.ClassifyUnsupportedExamples` | main.py:66-84 | `paper.PDF`, `notes.txt` and `pdf` are unsupported, because matching is case-sensitive and needs the dot |
| `Dispatch.Extract` | main.py:64-84 | an unsupported name, and only such a name, gets the `error` body `File type not supported`; every other response carries only the key `text` |
| `Dispatch.ExtractWithLoops` | main.py:64-84 | the handler built from the loop-based extractors answers like the functional handler |
| `Dispatch.ExtractWord` | main.py:66-68 | a readable Word upload is answered with the words of all its paragraph and cell texts, joined by single spaces |
| `Phone.Decimal` | main.py:95 | `str(n)` is a non-empty string of digits; it starts with `0` only for zero, and it has one digit exactly below ten |
| `Phone.DecimalReadBack` | main.py:95 | reading `str(n)` back gives `n` |
| `Phone.DecimalOfValue` | main.py:95 | a digit string without a leading zero is `str` of its value |
| `Phone.FormatPhoneShape` | main.py:95 | the result is `+` followed only by digits, at least two of them |
| `Phone.FormatPhoneReadBack` | main.py:95 | given the length of the country code, both numbers can be read back from the result |
| `Phone.FormatPhoneInjective` | main.py:95 | for one country code, different national numbers give different results |
| `Phone.FormatPhoneNeedsPrefixFreeCodes` | main.py:95 | country code 1 with number 23 and country code 12 with number 3 give the same string, so the output relies on country codes being prefix-free |
| `Phone.FormatPhoneExample` | main.py:95 | country code 1 with national number 4155552671 gives `+14155552671` |

## Left out

- HTTP plumbing: FastAPI routing, `UploadFile`, the async handlers, the pydantic request model and the uvicorn entry point (main.py:64-65, 87-102).
- The document libraries: python-docx, python-pptx, pypdf and PyMuPDF (`Document`, `Presentation`, `PdfReader`, `extract_text`, `fitz.open`, `get_links`, `get_textbox`). What they report is an input. When a library raises on the uploaded bytes, its input is `None` and the outcome is `Raised`.
- `phonenumbers.parse` and its parse errors (main.py:94). The country code and national number are inputs. This includes the library's dropping of an Italian leading zero from the national number. Idempotence under re-parsing needs the parser and is not stated.
- Table placement: a document is its paragraphs and its tables, with no record of where each table stands among the paragraphs. The source reads every paragraph before any table cell (main.py:18-26), so a table between two paragraphs comes after both in the text.
- Stream handling in the PDF branch (main.py:70-73): the file is read once for the hyperlink pass and then handed to `PdfReader`. Both passes see the same content in the model.
- Unicode: whitespace is Python's `str.isspace` set, which is also what `\s` matches in a `str` pattern. A Python `str` and a Dafny `string` both hold one element per code point. Lone surrogate code points, which a Python `str` can hold (after `surrogateescape` decoding, say), cannot be represented. Python treats them as non-whitespace, so leaving them out changes no result.
- `Hyperlinks.HyperlinksReadBack`: read-back is stated only for URIs that do not contain `)[`. With such a URI the entry is ambiguous.
- `PdfText.ResponseReadBack`: read-back is stated only for entries without a newline. An anchor may contain an inner newline after stripping, and its entry then spans several lines.
