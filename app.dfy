/**
 * The page's control flow once a resume and a job description are present:
 * read the resume, refuse an empty extraction without calling the evaluator,
 * and show either the evaluator's error or the five result sections with
 * their fallback values. Widgets and rendering are not modelled; a `Display`
 * records what the page would show.
 */
module App {
  import opened Wrappers
  import opened Json
  import opened Resume
  import opened Evaluation

  const ReadFailureMessage := "Could not read resume \U{2014} unsupported file or extraction failed."

  datatype Display =
    | Waiting             // no upload or no job description: the instructions are shown
    | Idle                // inputs present, "Analyze" not pressed
    | ErrorShown(message: Json)
    | Report(score: Json, strengths: Json, missingSkills: Json, verdict: Json, recommendations: Json)
    | NotAnObject(result: Json)  // a decoded non-dict: `result.get` raises

  /** How the evaluator's result is shown: a dict whose "error" entry is truthy is an
      error; any other dict is a report in which every missing key takes its fallback
      (score 0, verdict "N/A", empty lists) and every present key its value. */
  function Present(result: Json): (d: Display)
    ensures !result.JObject? <==> d.NotAnObject?
    ensures d.ErrorShown? <==> result.JObject? && "error" in result.fields && Truthy(result.fields["error"])
    ensures d.ErrorShown? ==> d.message == result.fields["error"]
    ensures result.JObject? && !("error" in result.fields && Truthy(result.fields["error"])) ==> d.Report?
    ensures d.Report? ==>
      var m := result.fields;
      && d.score == (if "score" in m then m["score"] else JInt(0))
      && d.strengths == (if "strengths" in m then m["strengths"] else JArray([]))
      && d.missingSkills == (if "missing_skills" in m then m["missing_skills"] else JArray([]))
      && d.verdict == (if "verdict" in m then m["verdict"] else JString("N/A"))
      && d.recommendations == (if "recommendations" in m then m["recommendations"] else JArray([]))
  {
    match result
    case JObject(m) =>
      if Truthy(Get(m, "error", JNull)) then ErrorShown(m["error"])
      else Report(Get(m, "score", JInt(0)),
                  Get(m, "strengths", JArray([])),
                  Get(m, "missing_skills", JArray([])),
                  Get(m, "verdict", JString("N/A")),
                  Get(m, "recommendations", JArray([])))
    case _ => NotAnObject(result)
  }

  /** One run of the page: the input guard, the button, reading the resume,
      the empty-text guard, evaluation and presentation. */
  function Analyze(upload: Option<UploadedFile>, jd: string, clicked: bool,
                   pdfPages: seq<byte> -> seq<Option<string>>,
                   docxParagraphs: seq<byte> -> seq<string>,
                   llm: (string, string) -> CallOutcome,
                   decode: string -> Decoded): (d: Display)
    ensures upload.None? || jd == "" ==> d == Waiting
    ensures upload.Some? && jd != "" && !clicked ==> d == Idle
    ensures upload.Some? && jd != "" && clicked ==>
      var text := ReadResume(upload.value, pdfPages, docxParagraphs);
      && (text == "" ==> d == ErrorShown(JString(ReadFailureMessage)))
      && (text != "" ==> d == Present(Evaluate(text, jd, llm, decode)))
  {
    if upload.None? || jd == "" then Waiting
    else if !clicked then Idle
    else
      var text := ReadResume(upload.value, pdfPages, docxParagraphs);
      if text == "" then ErrorShown(JString(ReadFailureMessage))
      else Present(Evaluate(text, jd, llm, decode))
  }

  /** An empty extraction is reported without consulting the model: the outcome is
      the same whatever the model and the decoder would have done. */
  lemma EmptyResumeSkipsEvaluation(file: UploadedFile, jd: string,
                                   pdfPages: seq<byte> -> seq<Option<string>>,
                                   docxParagraphs: seq<byte> -> seq<string>,
                                   llm1: (string, string) -> CallOutcome, decode1: string -> Decoded,
                                   llm2: (string, string) -> CallOutcome, decode2: string -> Decoded)
    requires jd != ""
    requires ReadResume(file, pdfPages, docxParagraphs) == ""
    ensures Analyze(Some(file), jd, true, pdfPages, docxParagraphs, llm1, decode1)
         == Analyze(Some(file), jd, true, pdfPages, docxParagraphs, llm2, decode2)
         == ErrorShown(JString(ReadFailureMessage))
  {
  }

  /** An upload whose name ends neither in ".pdf" nor ".docx" (any case) is a read failure. */
  lemma UnsupportedFileIsReadFailure(file: UploadedFile, jd: string,
                                     pdfPages: seq<byte> -> seq<Option<string>>,
                                     docxParagraphs: seq<byte> -> seq<string>,
                                     llm: (string, string) -> CallOutcome, decode: string -> Decoded)
    requires jd != ""
    requires FormatOf(file.name) == Unsupported
    ensures Analyze(Some(file), jd, true, pdfPages, docxParagraphs, llm, decode)
         == ErrorShown(JString(ReadFailureMessage))
  {
  }

  /** A PDF whose pages are all missing or blank is a read failure too. */
  lemma BlankPdfIsReadFailure(file: UploadedFile, jd: string,
                              pdfPages: seq<byte> -> seq<Option<string>>,
                              docxParagraphs: seq<byte> -> seq<string>,
                              llm: (string, string) -> CallOutcome, decode: string -> Decoded)
    requires jd != ""
    requires FormatOf(file.name) == Pdf
    requires forall i :: 0 <= i < |pdfPages(file.content)| ==> PageBlank(pdfPages(file.content)[i])
    ensures Analyze(Some(file), jd, true, pdfPages, docxParagraphs, llm, decode)
         == ErrorShown(JString(ReadFailureMessage))
  {
  }

  /** Both evaluator failures reach the user as errors: their "error" text is never empty. */
  lemma EvaluatorErrorsAreShown(resume: string, jd: string,
                                llm: (string, string) -> CallOutcome, decode: string -> Decoded)
    requires var out := llm(ModelName, Prompt(resume, jd));
      out.CallFailed? || decode(Candidate(out.text)).DecodeFailed?
    ensures Present(Evaluate(resume, jd, llm, decode)).ErrorShown?
  {
    var r := Evaluate(resume, jd, llm, decode);
    assert r.fields["error"].JString? && r.fields["error"].s != "" by {
      var out := llm(ModelName, Prompt(resume, jd));
      if out.CallFailed? {
        assert r.fields["error"].s == "API request failed: " + out.exception;
      } else {
        var c := Candidate(out.text);
        assert r.fields["error"].s
            == "Failed to parse JSON: " + decode(c).exception + "\nResponse: " + c;
      }
    }
  }

  /** A decoded dict with none of the expected keys, and no truthy "error", is shown with every fallback. */
  lemma EmptyDictShowsDefaults(m: map<string, Json>)
    requires "score" !in m && "strengths" !in m && "missing_skills" !in m
    requires "verdict" !in m && "recommendations" !in m
    requires !("error" in m && Truthy(m["error"]))
    ensures Present(JObject(m)) == Report(JInt(0), JArray([]), JArray([]), JString("N/A"), JArray([]))
  {
  }
}
