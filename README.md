# ATS resume checker — a Dafny model of its local logic

The ATS resume checker is a single Streamlit page. A user uploads a resume (PDF or DOCX) and pastes a job
description. The page extracts the resume's text and sends both texts to a hosted language model. It then
cuts a JSON object out of the reply, decodes it, and shows a score, strengths, missing skills, a verdict and
recommendations. This project models the deterministic part of that pipeline:

- **Resume** — `read_resume` dispatches on the lower-cased file name. `extract_text_from_pdf` concatenates
  the pages' text with no separator and strips the result. It is modelled as a method with a loop, proved
  equal to `PdfText`. `extract_text_from_docx` keeps the non-blank paragraphs and joins them with `"\n"`.
  A PDF is given as the sequence of its pages' extracted text (`None` for a page without a text layer).
  A DOCX is given as the sequence of its paragraphs' text. The two library decoders that produce these
  sequences from the file's bytes are function parameters.
- **Evaluation** — `ats_evaluate` builds the prompt (job description before resume) and calls the model.
  It strips the reply and narrows it to the greedy `{ … }` span matched by `\{[\s\S]*\}`. It decodes the
  result or wraps the failure as `{"error": …}`. The model call and `json.loads` are parameters that
  either succeed or fail with an exception message.
- **App** — the page flow from line 85 on. Without an upload or a job description, the instructions are
  shown. An empty extraction is reported as "Could not read resume …" without consulting the model. A
  result whose `"error"` entry is truthy is shown as an error. Otherwise the five sections are shown,
  each missing key falling back to `0`, `"N/A"` or `[]`.
- **Text**, **Json**, **Wrappers** — ASCII models of `str.strip`, `str.lower`, `str.endswith`, `sep.join`
  and `str.split`; the values `json.loads` produces, their truthiness and `dict.get`; an `Option` type.

Three details of the code that the model keeps:
- PDF pages are joined with no separator (ats_project.py:23).
- The decode-failure message quotes the candidate string that `json.loads` was given
  (ats_project.py:74). When the reply has no brace span, that candidate is the stripped reply.
- Missing result keys fall back to display defaults (ats_project.py:97-113).

## Model

| member | source | states |
|---|---|---|
| Text.Strip | ats_project.py:24 | the result is a slice of the input with only whitespace cut from either end; no whitespace at either end of the result; empty exactly when the input is all whitespace |
| Text.StripIdempotent | ats_project.py:65 | stripping twice equals stripping once |
| Text.StripFixed | ats_project.py:65 | a string with no whitespace at either end is unchanged by strip |
| Text.EndsWith | ats_project.py:32-34 | `s.endswith(suffix)`: the suffix is no longer than `s` and equals its last characters |
| Text.LowerChar | ats_project.py:31 | upper-case ASCII letters map to their lower-case letters (offset 32); every other character is unchanged |
| Text.Lower | ats_project.py:31 | length is kept and every character is case-folded |
| Text.LowerIdempotent | ats_project.py:31 | lower-casing twice equals lower-casing once |
| Text.AllWsAppend | ats_project.py:23-24 | a concatenation is all whitespace iff both parts are |
| Text.FindFirst | ats_project.py:67 | the index of the first occurrence of a character, or none exactly when it does not occur |
| Text.FindLast | ats_project.py:67 | the index of the last occurrence of a character, or none exactly when it does not occur |
| Text.Join | ats_project.py:28 | `sep.join(xs)`: the pieces in order with one separator between neighbours; its properties are `JoinEmptyIff` and `SplitJoin` |
| Text.JoinEmptyIff | ats_project.py:28 | a join of non-empty pieces is empty iff there are no pieces |
| Text.SplitJoin | ats_project.py:28 | splitting a join on its one-character separator gives back the pieces, provided no piece contains the separator |
| Json.Truthy | ats_project.py:93 | Python truthiness of a decoded value: null, false, zero and empty strings, lists and dicts are false, all else true |
| Json.Get | ats_project.py:97-113 | `dict.get`: a present key yields its stored value, even a falsy one; a missing key yields the default |
| Json.ErrorObject | ats_project.py:63 | the failure result is a dict whose only key is "error", holding the message as a string |
| Resume.SuffixesExclusive | ats_project.py:32-35 | no name ends in both ".pdf" and ".docx", so dispatch is unambiguous |
| Resume.FormatOf | ats_project.py:30-37 | PDF iff the lower-cased name ends in ".pdf"; DOCX iff it ends in ".docx"; unsupported iff neither |
| Resume.FormatCaseInsensitive | ats_project.py:31 | dispatch gives the same answer for a name and its lower-cased form |
| Resume.PageText | ats_project.py:23 | `page.extract_text() or ""`: a page without a text layer contributes "" |
| Resume.ConcatPages | ats_project.py:21-23 | the accumulator: page texts concatenated in order with no separator; its properties are the `ConcatPages*` lemmas |
| Resume.ConcatPagesAppend | ats_project.py:22-23 | the concatenation of a split page sequence is the concatenation of the parts' texts, in order |
| Resume.EmptyPageIgnored | ats_project.py:23 | a page with no text layer or empty text changes nothing, wherever it stands |
| Resume.SinglePage | ats_project.py:23 | one page contributes exactly its text, or "" when it has none |
| Resume.ConcatPagesAllWs | ats_project.py:22-24 | the concatenation is all whitespace iff every page is missing or blank |
| Resume.PdfText | ats_project.py:19-24 | the PDF text has no whitespace at either end, and it is empty iff every page is missing or blank |
| Resume.ExtractPdfText | ats_project.py:19-24 | the page loop followed by strip computes `PdfText`: the stripped in-order concatenation with no separator, for any pages, with no error case |
| Resume.PdfSkipsImagePage | ats_project.py:21-24 | pages [text, no text layer, text] yield the two texts adjacent, then stripped |
| Resume.NonBlank | ats_project.py:28 | `p.text.strip()` is truthy: the paragraph has a character that is not whitespace, as `NonBlankIff` states |
| Resume.NonBlankIff | ats_project.py:28 | a paragraph passes `p.text.strip()` iff some character of it is not whitespace |
| Resume.Kept | ats_project.py:28 | kept paragraphs are non-blank members of the input; none are kept iff no paragraph is non-blank |
| Resume.KeptAppend | ats_project.py:28 | filtering commutes with concatenation, so the order of kept paragraphs is the document order |
| Resume.KeptSingle | ats_project.py:28 | one paragraph is kept unstripped, whitespace included, exactly when it is non-blank |
| Resume.DocxText | ats_project.py:26-28 | the kept paragraphs joined by "\n"; `DocxEmptyIff` and `DocxSegments` state its properties |
| Resume.DocxEmptyIff | ats_project.py:26-28 | the DOCX text is "" iff no paragraph has a non-whitespace character |
| Resume.DocxSegments | ats_project.py:28 | with no line break inside a paragraph, splitting the DOCX text on "\n" gives exactly the kept paragraphs in order, so there is one "\n" between neighbours |
| Resume.ReadResume | ats_project.py:30-37 | a PDF name yields the PDF text of its pages, a DOCX name the DOCX text of its paragraphs, any other name "" |
| Evaluation.Prompt | ats_project.py:40-56 | the prompt holds the job description, unchanged, before the resume, unchanged, between fixed text |
| Evaluation.HasBraceSpan | ats_project.py:67-68 | the regex matches (`if m:`) iff some "{" stands before some "}", equivalently, as `HasBraceSpanIff` states, iff the first "{" precedes the last "}" |
| Evaluation.HasBraceSpanIff | ats_project.py:67-68 | some "{" precedes some "}" iff the first "{" precedes the last "}" |
| Evaluation.BraceSpan | ats_project.py:66-69 | when some "{" precedes some "}", the result is the slice from the first "{" to the last "}" inclusive; it starts with "{", ends with "}" and is no longer than the input; otherwise the input is unchanged |
| Evaluation.BraceSpanAt | ats_project.py:67-69 | the span is determined by the first "{" and the last "}" |
| Evaluation.BraceSpanIdempotent | ats_project.py:67-69 | cutting the span out of its own result changes nothing |
| Evaluation.Candidate | ats_project.py:65-69 | the decoder's input is brace-delimited and no longer than the reply when the stripped reply has a span; otherwise it is the stripped reply |
| Evaluation.CandidateIdempotent | ats_project.py:65-69 | strip followed by span selection is idempotent |
| Evaluation.CandidateDropsCommentary | ats_project.py:65-69 | when the text before an object has no "{" and the text after it has no "}", the decoder receives exactly the object |
| Evaluation.SliceKeepsSpan | ats_project.py:65-69 | stripping that keeps the first "{" and the last "}" keeps the span |
| Evaluation.Evaluate | ats_project.py:57-76 | a failed model call yields `{"error": "API request failed: …"}`; a decode failure yields an error naming the exception and quoting the candidate; otherwise the decoded value is returned unchanged |
| Evaluation.ParseErrorQuotesCandidate | ats_project.py:71-74 | the decode-failure message ends with the candidate that failed to decode |
| App.Present | ats_project.py:93-114 | a non-dict result cannot be shown; a dict with a truthy "error" entry is shown as that error; every other dict is shown as a report, each section with its value when present and its fallback (0, [], [], "N/A", []) when missing |
| App.Analyze | ats_project.py:85-116 | no upload or empty job description shows the instructions; an empty extraction shows the read error; otherwise the evaluator's result is presented |
| App.EmptyResumeSkipsEvaluation | ats_project.py:87-92 | with an empty extraction the outcome is the read error whatever the model and decoder would do, so the evaluator is never consulted |
| App.UnsupportedFileIsReadFailure | ats_project.py:30-37 | a name with neither supported suffix ends in the read error |
| App.BlankPdfIsReadFailure | ats_project.py:87-89 | a PDF whose pages are all missing or blank ends in the read error |
| App.EvaluatorErrorsAreShown | ats_project.py:93-94 | both evaluator failures carry a non-empty error string and are shown as errors |
| App.EmptyDictShowsDefaults | ats_project.py:97-114 | every decoded dict with none of the five keys and no truthy "error" shows score 0, empty lists and verdict "N/A" |

## Left out

- Streamlit widgets and rendering (`st.*`): presentation only. `Display` records what would be shown.
  The upload widget's own restriction to "pdf" and "docx" is a widget setting and is not modelled.
- Decoding PDF and DOCX bytes (PyPDF2, python-docx): foreign libraries. They enter as functions from
  bytes to pages or paragraphs. An exception they raise on a malformed file is not caught in the source,
  and it is not modelled.
- The Gemini client, the API key from `st.secrets` and the network call: external I/O. The call is a
  function from (model name, prompt) to a reply or an exception message.
- `json.loads`: a library decoder. It is a function from a string to a value or an exception message.
- A reply whose `text` is `None` would make `.strip()` raise outside the handled block. The model takes
  the reply's text as a string.
- `st.progress(score / 100)` and the formatting of the score: floating-point display. A score that is
  not a number between 0 and 100 makes the page raise after the score is shown (ats_project.py:99);
  the model still shows the full report. Iterating a section that is not a list is also not modelled.
- Json: floats are real numbers; NaN and infinities, which `json.loads` accepts, are not represented.
- Text.Strip: strips only the ASCII whitespace that Python's `str.isspace` accepts (9-13, 28-31, 32). Non-ASCII
  whitespace such as U+00A0 is not stripped by the model.
- Text.Lower: ASCII case folding only. Python's full Unicode lower-casing is not modelled.
- Evaluation.Prompt: the prompt's wording is kept as three constants. Nothing is proved about it beyond
  the positions of the two inputs.
