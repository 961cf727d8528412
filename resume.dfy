/**
 * Reading the uploaded resume: choosing an extractor from the file name,
 * concatenating the text of PDF pages, and joining the non-blank paragraphs
 * of a DOCX document. Decoding the binary formats is done by outside
 * libraries; here a PDF is the sequence of its pages' extracted text
 * (`None` for a page without a text layer) and a DOCX the sequence of its
 * paragraphs' text.
 */
module Resume {
  import opened Wrappers
  import opened Text

  newtype byte = x: int | 0 <= x < 256

  /** What the upload widget hands over: the client's file name and the bytes. */
  datatype UploadedFile = UploadedFile(name: string, content: seq<byte>)

  datatype Format = Pdf | Docx | Unsupported

  /** A name cannot end in both ".pdf" and ".docx": their last characters differ. */
  lemma SuffixesExclusive(s: string)
    ensures !(EndsWith(s, ".pdf") && EndsWith(s, ".docx"))
  {
    if EndsWith(s, ".pdf") {
      assert s[|s| - 1] == s[|s| - 4..][3] == 'f';
      if |s| >= 5 {
        assert s[|s| - 5..][4] == s[|s| - 1] != 'x';
      }
    }
  }

  /** The extractor `read_resume` dispatches to, by the lower-cased suffix of the name. */
  function FormatOf(name: string): (f: Format)
    ensures f == Pdf <==> EndsWith(Lower(name), ".pdf")
    ensures f == Docx <==> EndsWith(Lower(name), ".docx")
    ensures f == Unsupported <==> !EndsWith(Lower(name), ".pdf") && !EndsWith(Lower(name), ".docx")
  {
    var fname := Lower(name);
    SuffixesExclusive(fname);
    if EndsWith(fname, ".pdf") then Pdf
    else if EndsWith(fname, ".docx") then Docx
    else Unsupported
  }

  /** Dispatch ignores the case of the name. */
  lemma FormatCaseInsensitive(name: string)
    ensures FormatOf(Lower(name)) == FormatOf(name)
  {
    LowerIdempotent(name);
  }

  // ---------------------------------------------------------------- PDF

  /** `page.extract_text() or ""`: a page without text contributes the empty string. */
  function PageText(page: Option<string>): string {
    page.GetOr("")
  }

  /** A page that adds nothing visible: no text layer, or only whitespace. */
  predicate PageBlank(page: Option<string>) {
    AllWs(PageText(page))
  }

  /** The pages' text concatenated in document order with no separator. */
  function ConcatPages(pages: seq<Option<string>>): string {
    if pages == [] then ""
    else ConcatPages(pages[..|pages| - 1]) + PageText(pages[|pages| - 1])
  }

  /** Concatenation distributes over splitting the page sequence, so pages keep their order. */
  lemma {:induction false} ConcatPagesAppend(a: seq<Option<string>>, b: seq<Option<string>>)
    ensures ConcatPages(a + b) == ConcatPages(a) + ConcatPages(b)
    decreases |b|
  {
    if b == [] {
      assert a + b == a;
    } else {
      var last := b[|b| - 1];
      assert (a + b)[..|a + b| - 1] == a + b[..|b| - 1];
      ConcatPagesAppend(a, b[..|b| - 1]);
    }
  }

  /** A page with no text layer, or with empty text, changes nothing wherever it stands. */
  lemma EmptyPageIgnored(a: seq<Option<string>>, page: Option<string>, b: seq<Option<string>>)
    requires PageText(page) == ""
    ensures ConcatPages(a + [page] + b) == ConcatPages(a + b)
  {
    ConcatPagesAppend(a + [page], b);
    ConcatPagesAppend(a, [page]);
    ConcatPagesAppend(a, b);
    SinglePage(page);
  }

  /** The concatenation is all whitespace exactly when every page is blank. */
  lemma {:induction false} ConcatPagesAllWs(pages: seq<Option<string>>)
    ensures AllWs(ConcatPages(pages)) <==> forall i :: 0 <= i < |pages| ==> PageBlank(pages[i])
  {
    if pages != [] {
      var init := pages[..|pages| - 1];
      ConcatPagesAllWs(init);
      AllWsAppend(ConcatPages(init), PageText(pages[|pages| - 1]));
      assert forall i :: 0 <= i < |init| ==> init[i] == pages[i];
    }
  }

  /** What `extract_text_from_pdf` returns: the stripped concatenation of the pages. */
  function PdfText(pages: seq<Option<string>>): (r: string)
    ensures r == [] || (!IsWs(r[0]) && !IsWs(r[|r| - 1]))
    ensures r == [] <==> forall i :: 0 <= i < |pages| ==> PageBlank(pages[i])
  {
    ConcatPagesAllWs(pages);
    Strip(ConcatPages(pages))
  }

  /** The loop of `extract_text_from_pdf`: append each page's text, then strip. */
  method ExtractPdfText(pages: seq<Option<string>>) returns (text: string)
    ensures text == PdfText(pages)
  {
    text := "";
    for i := 0 to |pages|
      invariant text == ConcatPages(pages[..i])
    {
      assert pages[..i + 1][..i] == pages[..i];
      text := text + PageText(pages[i]);
    }
    assert pages[..|pages|] == pages;
    text := Strip(text);
  }

  /** A text page, an image-only page and a text page yield the two texts, adjacent. */
  lemma PdfSkipsImagePage(first: string, third: string)
    ensures PdfText([Some(first), None, Some(third)]) == Strip(first + third)
  {
    assert [Some(first), None, Some(third)] == [Some(first)] + [None] + [Some(third)];
    EmptyPageIgnored([Some(first)], None, [Some(third)]);
    ConcatPagesAppend([Some(first)], [Some(third)]);
    SinglePage(Some(first));
    SinglePage(Some(third));
    assert ConcatPages([Some(first), None, Some(third)]) == first + third;
  }

  lemma SinglePage(page: Option<string>)
    ensures ConcatPages([page]) == PageText(page)
  {
    assert [page][..0] == [];
  }

  // ---------------------------------------------------------------- DOCX

  /** `if p.text.strip()`: the paragraph has a character that is not whitespace. */
  predicate NonBlank(paragraph: string) {
    Strip(paragraph) != ""
  }

  /** A paragraph is non-blank exactly when some character of it is not whitespace. */
  lemma NonBlankIff(paragraph: string)
    ensures NonBlank(paragraph) <==> exists k :: 0 <= k < |paragraph| && !IsWs(paragraph[k])
  {
  }

  /** The paragraphs `extract_text_from_docx` keeps, unstripped and in order. */
  function Kept(paragraphs: seq<string>): (r: seq<string>)
    ensures |r| <= |paragraphs|
    ensures forall i :: 0 <= i < |r| ==> NonBlank(r[i]) && r[i] in paragraphs
    ensures r == [] <==> forall i :: 0 <= i < |paragraphs| ==> !NonBlank(paragraphs[i])
  {
    if paragraphs == [] then []
    else
      var rest := Kept(paragraphs[1..]);
      assert forall i :: 0 <= i < |paragraphs[1..]| ==> paragraphs[1..][i] == paragraphs[i + 1];
      if NonBlank(paragraphs[0]) then [paragraphs[0]] + rest else rest
  }

  /** Filtering commutes with concatenation: the kept paragraphs stay in document order. */
  lemma {:induction false} KeptAppend(a: seq<string>, b: seq<string>)
    ensures Kept(a + b) == Kept(a) + Kept(b)
  {
    if a == [] {
      assert a + b == b;
    } else {
      assert (a + b)[0] == a[0];
      assert (a + b)[1..] == a[1..] + b;
      KeptAppend(a[1..], b);
    }
  }

  /** A single paragraph is kept as it is, whitespace included, exactly when it is not blank. */
  lemma KeptSingle(paragraph: string)
    ensures Kept([paragraph]) == if NonBlank(paragraph) then [paragraph] else []
  {
    assert [paragraph][1..] == [];
  }

  /** What `extract_text_from_docx` returns: the kept paragraphs joined by "\n". */
  function DocxText(paragraphs: seq<string>): string {
    Join("\n", Kept(paragraphs))
  }

  /** The DOCX text is empty exactly when no paragraph has a non-whitespace character. */
  lemma DocxEmptyIff(paragraphs: seq<string>)
    ensures DocxText(paragraphs) == "" <==> forall i :: 0 <= i < |paragraphs| ==> !NonBlank(paragraphs[i])
  {
    var kept := Kept(paragraphs);
    JoinEmptyIff("\n", kept);
  }

  /** With no line break inside a paragraph, splitting the DOCX text on "\n"
      gives back exactly the kept paragraphs: one "\n" between neighbours. */
  lemma DocxSegments(paragraphs: seq<string>)
    requires exists i :: 0 <= i < |paragraphs| && NonBlank(paragraphs[i])
    requires forall i :: 0 <= i < |paragraphs| ==> '\n' !in paragraphs[i]
    ensures Split(DocxText(paragraphs), '\n') == Kept(paragraphs)
  {
    var kept := Kept(paragraphs);
    assert "\n" == ['\n'];
    SplitJoin(kept, '\n');
  }

  // ---------------------------------------------------------------- dispatch

  /** `read_resume`: the extractor chosen by the name's suffix, or "" for any other name. */
  function ReadResume(file: UploadedFile,
                      pdfPages: seq<byte> -> seq<Option<string>>,
                      docxParagraphs: seq<byte> -> seq<string>): (text: string)
    ensures FormatOf(file.name) == Pdf ==> text == PdfText(pdfPages(file.content))
    ensures FormatOf(file.name) == Docx ==> text == DocxText(docxParagraphs(file.content))
    ensures FormatOf(file.name) == Unsupported ==> text == ""
  {
    match FormatOf(file.name)
    case Pdf => PdfText(pdfPages(file.content))
    case Docx => DocxText(docxParagraphs(file.content))
    case Unsupported => ""
  }
}
