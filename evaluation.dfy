/**
 * `ats_evaluate`: build the prompt, call the hosted model, cut the JSON
 * object out of its reply and decode it, turning each failure into an
 * `{"error": ...}` dict. The model call and the JSON decoder are outside
 * collaborators and enter as function parameters that may fail.
 */
module Evaluation {
  import opened Wrappers
  import opened Text
  import opened Json

  /** The model identifier sent with every request. */
  const ModelName := "gemini-2.5-flash"

  /** The fixed parts of the prompt around the job description and the resume. */
  const PromptHead := "\nYou are an expert hiring consultant.  \nCompare the resume and the job description below.\n\n=== JOB DESCRIPTION ===\n"
  const PromptMiddle := "\n\n=== RESUME ===\n"
  const PromptTail := "\n\nProvide output in **strict JSON** format with keys:\n- score  (integer 0\U{2013}100)\n- strengths  (list of strings)\n- missing_skills  (list of strings)\n- verdict  (one of: Shortlist / Consider / Not a Match)\n- recommendations  (list of strings)\n"

  /** The outcome of `client.models.generate_content`: the reply's text, or the exception's message. */
  datatype CallOutcome = Reply(text: string) | CallFailed(exception: string)

  /** The outcome of `json.loads`: the decoded value, or the exception's message. */
  datatype Decoded = Decoded(value: Json) | DecodeFailed(exception: string)

  /** The prompt holds the job description, unchanged, before the resume, unchanged. */
  function Prompt(resume: string, jd: string): (p: string)
    ensures |p| == |PromptHead| + |jd| + |PromptMiddle| + |resume| + |PromptTail|
    ensures p[|PromptHead|..|PromptHead| + |jd|] == jd
    ensures p[|PromptHead| + |jd| + |PromptMiddle|..|p| - |PromptTail|] == resume
  {
    var p := PromptHead + jd + PromptMiddle + resume + PromptTail;
    assert p[|PromptHead|..|PromptHead| + |jd|] == jd;
    assert p[|PromptHead| + |jd| + |PromptMiddle|..|p| - |PromptTail|] == resume;
    p
  }

  /** Whether `re.search(r"\{[\s\S]*\}", s)` matches: some "{" stands before some "}". */
  predicate HasBraceSpan(s: string) {
    exists i, j :: 0 <= i < j < |s| && s[i] == '{' && s[j] == '}'
  }

  /** The regex matches exactly when the first "{" stands before the last "}". */
  lemma HasBraceSpanIff(s: string)
    ensures HasBraceSpan(s) <==>
      FindFirst(s, '{').Some? && FindLast(s, '}').Some? && FindFirst(s, '{').value < FindLast(s, '}').value
  {
    if HasBraceSpan(s) {
      var i, j :| 0 <= i < j < |s| && s[i] == '{' && s[j] == '}';
      assert s[i] in s && s[j] in s;
    }
  }

  /** The text the regex step leaves: the greedy match, from the first "{" to the
      last "}" inclusive, when there is one, and `s` unchanged otherwise. */
  function BraceSpan(s: string): (r: string)
    ensures HasBraceSpan(s) ==>
      exists i, j :: 0 <= i < j < |s| && r == s[i..j + 1] && s[i] == '{' && s[j] == '}'
                     && (forall k :: 0 <= k < i ==> s[k] != '{')
                     && (forall k :: j < k < |s| ==> s[k] != '}')
    ensures HasBraceSpan(s) ==> 2 <= |r| <= |s| && r[0] == '{' && r[|r| - 1] == '}'
    ensures !HasBraceSpan(s) ==> r == s
  {
    var first := FindFirst(s, '{');
    var last := FindLast(s, '}');
    if first.Some? && last.Some? && first.value < last.value then
      s[first.value..last.value + 1]
    else
      s
  }

  /** Cutting the brace span out of its own result changes nothing. */
  lemma BraceSpanIdempotent(s: string)
    ensures BraceSpan(BraceSpan(s)) == BraceSpan(s)
  {
    var r := BraceSpan(s);
    if HasBraceSpan(s) {
      assert HasBraceSpan(r) by { assert r[0] == '{' && r[|r| - 1] == '}'; }
      assert FindFirst(r, '{') == Some(0);
      assert FindLast(r, '}') == Some(|r| - 1);
      assert r[0..|r|] == r;
    }
  }

  /** The string handed to `json.loads`: the stripped reply, narrowed to its brace span. */
  function Candidate(reply: string): (c: string)
    ensures HasBraceSpan(Strip(reply)) ==> 2 <= |c| <= |reply| && c[0] == '{' && c[|c| - 1] == '}'
    ensures !HasBraceSpan(Strip(reply)) ==> c == Strip(reply)
  {
    BraceSpan(Strip(reply))
  }

  /** Post-processing is idempotent: a candidate is its own candidate. */
  lemma CandidateIdempotent(reply: string)
    ensures Candidate(Candidate(reply)) == Candidate(reply)
  {
    var stripped := Strip(reply);
    var c := BraceSpan(stripped);
    if HasBraceSpan(stripped) {
      StripFixed(c);
    } else {
      StripIdempotent(reply);
    }
    BraceSpanIdempotent(stripped);
  }

  /** Commentary around a JSON object is cut away: when the text before the
      object has no "{" and the text after it has no "}", the candidate is
      exactly the object. */
  lemma CandidateDropsCommentary(before: string, json: string, after: string)
    requires 2 <= |json| && json[0] == '{' && json[|json| - 1] == '}'
    requires '{' !in before && '}' !in after
    ensures Candidate(before + json + after) == json
  {
    var reply := before + json + after;
    var open, close := |before|, |before| + |json| - 1;
    WrappedIndices(before, json, after);
    var stripped := Strip(reply);
    var i, j :| 0 <= i <= j <= |reply| && stripped == reply[i..j]
                && (forall k :: 0 <= k < i ==> IsWs(reply[k]))
                && (forall k :: j <= k < |reply| ==> IsWs(reply[k]));
    assert i <= open && close < j;
    SliceKeepsSpan(reply, i, j, open, close);
    assert BraceSpan(stripped) == json;
  }

  /** Where the pieces of `before + json + after` sit. */
  lemma WrappedIndices(before: string, json: string, after: string)
    requires 2 <= |json| && json[0] == '{' && json[|json| - 1] == '}'
    requires '{' !in before && '}' !in after
    ensures var reply := before + json + after;
      var open, close := |before|, |before| + |json| - 1;
      && reply[open] == '{' && reply[close] == '}'
      && (forall k :: 0 <= k < open ==> reply[k] != '{')
      && (forall k :: close < k < |reply| ==> reply[k] != '}')
      && reply[open..close + 1] == json
  {
    var reply := before + json + after;
    forall k | 0 <= k < |before| ensures reply[k] != '{' {
      assert reply[k] == before[k];
    }
    forall k | |before| + |json| <= k < |reply| ensures reply[k] != '}' {
      assert reply[k] == after[k - |before| - |json|];
    }
  }

  /** A slice that contains the first "{" and the last "}" of `s` has the same span. */
  lemma SliceKeepsSpan(s: string, i: nat, j: nat, open: nat, close: nat)
    requires i <= open < close < j <= |s|
    requires s[open] == '{' && s[close] == '}'
    requires forall k :: 0 <= k < open ==> s[k] != '{'
    requires forall k :: close < k < |s| ==> s[k] != '}'
    ensures BraceSpan(s[i..j]) == s[open..close + 1]
  {
    var t := s[i..j];
    BraceSpanAt(t, open - i, close - i);
    var span := t[open - i..close - i + 1];
    assert |span| == |s[open..close + 1]|;
    forall k | 0 <= k < |span| ensures span[k] == s[open..close + 1][k] {
      assert span[k] == t[open - i + k] == s[open + k];
    }
    assert span == s[open..close + 1];
  }

  /** The span is pinned down by the first "{" and the last "}". */
  lemma BraceSpanAt(s: string, i: nat, j: nat)
    requires i < j < |s| && s[i] == '{' && s[j] == '}'
    requires forall k :: 0 <= k < i ==> s[k] != '{'
    requires forall k :: j < k < |s| ==> s[k] != '}'
    ensures BraceSpan(s) == s[i..j + 1]
  {
    var first := FindFirst(s, '{');
    var last := FindLast(s, '}');
    assert s[i] in s && s[j] in s;
    assert first == Some(i) && last == Some(j);
  }

  /** `ats_evaluate`: on an exception from the model call, an error dict naming it;
      on a reply whose candidate does not decode, an error dict naming the
      exception and quoting the candidate; otherwise the decoded value itself. */
  function Evaluate(resume: string, jd: string,
                    llm: (string, string) -> CallOutcome,
                    decode: string -> Decoded): (r: Json)
    ensures var out := llm(ModelName, Prompt(resume, jd));
      out.CallFailed? ==> r == ErrorObject("API request failed: " + out.exception)
    ensures var out := llm(ModelName, Prompt(resume, jd));
      out.Reply? && decode(Candidate(out.text)).DecodeFailed? ==>
        r == ErrorObject("Failed to parse JSON: " + decode(Candidate(out.text)).exception
                         + "\nResponse: " + Candidate(out.text))
    ensures var out := llm(ModelName, Prompt(resume, jd));
      out.Reply? && decode(Candidate(out.text)).Decoded? ==> r == decode(Candidate(out.text)).value
  {
    match llm(ModelName, Prompt(resume, jd))
    case CallFailed(e) => ErrorObject("API request failed: " + e)
    case Reply(text) =>
      var candidate := Candidate(text);
      match decode(candidate)
      case DecodeFailed(e) => ErrorObject("Failed to parse JSON: " + e + "\nResponse: " + candidate)
      case Decoded(value) => value
  }

  /** The decode-failure message ends with the candidate text it could not decode. */
  lemma ParseErrorQuotesCandidate(resume: string, jd: string,
                                  llm: (string, string) -> CallOutcome,
                                  decode: string -> Decoded)
    requires llm(ModelName, Prompt(resume, jd)).Reply?
    requires decode(Candidate(llm(ModelName, Prompt(resume, jd)).text)).DecodeFailed?
    ensures var r := Evaluate(resume, jd, llm, decode);
      r.JObject? && "error" in r.fields && r.fields["error"].JString?
      && EndsWith(r.fields["error"].s, Candidate(llm(ModelName, Prompt(resume, jd)).text))
  {
  }
}
