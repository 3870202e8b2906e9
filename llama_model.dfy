/** The two decisions `LlamaModel` in llama-service makes from language-model
    output: the guard model's allowed/inappropriate answer and the retention
    verdict. The models themselves are oracles: each call is given as the text
    it generated, or as the exception it raised. */
module LlamaModel {
  import opened Base
  import opened Text
  import opened Redis

  /** One call of a language model: its generated text, or an exception. */
  datatype Reply = Generated(text: string) | Raised

  /** The closed set of retention actions `analyze_request` returns. */
  datatype Verdict = Delete | Refresh | Keep

  lemma NotAllowedHasNo(t: string)
    requires Contains(t, "not allowed")
    ensures Contains(t, "no")
  {
    assert OccursAt("not allowed", "no", 0);
    ContainsTransitive(t, "not allowed", "no");
  }

  /** The guard's answer text `response` judged as in `check_inappropriate_content`:
      the request is inappropriate exactly when the lower-cased answer contains
      "no" (the "not allowed" test adds nothing, as "not allowed" contains "no"). */
  function GuardAllows(response: string): (allowed: bool)
    ensures allowed <==> !Contains(Lower(response), "no")
  {
    var t := Lower(response);
    if Contains(t, "not allowed") then NotAllowedHasNo(t); false
    else !Contains(t, "no")
  }

  /** `check_inappropriate_content`: an exception of the guard model propagates
      to the caller; otherwise True means the content is allowed. */
  function CheckInappropriateContent(guard: Reply): (r: Result<bool>)
    ensures guard.Raised? <==> r.Err?
    ensures guard.Generated? ==> r == Ok(!Contains(Lower(guard.text), "no"))
  {
    match guard
    case Raised => Err(InferenceError)
    case Generated(response) => Ok(GuardAllows(response))
  }

  /** The reduction of the model's free-form answer to a verdict by keyword
      containment on the lower-cased text, `delete` tested before `refresh`. */
  function ReduceVerdict(text: string): (v: Verdict)
    ensures v == Delete <==> Contains(Lower(text), "delete")
    ensures v == Refresh <==> !Contains(Lower(text), "delete") && Contains(Lower(text), "refresh")
    ensures v == Keep <==> !Contains(Lower(text), "delete") && !Contains(Lower(text), "refresh")
  {
    var t := Lower(text);
    if Contains(t, "delete") then Delete
    else if Contains(t, "refresh") then Refresh
    else Keep
  }

  /** The keywords are found whatever their case in the model's answer: a
      spelling of "delete" in any case yields `Delete`, and a spelling of
      "refresh" yields `Refresh` unless "delete" occurs too. */
  lemma ReduceVerdictIgnoresCase(text: string, w: string)
    requires Contains(text, w)
    ensures Lower(w) == "delete" ==> ReduceVerdict(text) == Delete
    ensures Lower(w) == "refresh" ==> ReduceVerdict(text) != Keep
  {
    ContainsLower(text, w);
  }

  /** The fields the prompt reads with `request_data[...]`, in the order it reads them. */
  const PromptFields: seq<string> := ["request_method", "request_url", "request_headers", "response"]

  /** The first prompt field missing from `data`, if any. */
  function MissingField(data: Hash): (m: Option<string>)
    ensures m.None? <==> forall f :: f in PromptFields ==> f in data
    ensures m.Some? ==> m.value in PromptFields && m.value !in data
    ensures m.Some? ==>
      exists i :: 0 <= i < |PromptFields| && PromptFields[i] == m.value &&
        forall j :: 0 <= j < i ==> PromptFields[j] in data
  {
    if "request_method" !in data then Some("request_method")
    else if "request_url" !in data then Some("request_url")
    else if "request_headers" !in data then Some("request_headers")
    else if "response" !in data then Some("response")
    else None
  }

  /** `analyze_request`: building the prompt raises KeyError for a missing
      field (outside the try block); an exception of the model itself is
      caught and gives `Keep`; otherwise the answer is reduced to a verdict. */
  function AnalyzeRequest(data: Hash, reply: Reply): (r: Result<Verdict>)
    ensures r.Err? <==> MissingField(data).Some?
    ensures r.Err? ==> r.error == KeyError(MissingField(data).value)
    ensures r.Ok? && reply.Raised? ==> r.value == Keep
    ensures r.Ok? && reply.Generated? ==> r.value == ReduceVerdict(reply.text)
    ensures r == Ok(Delete) ==> reply.Generated? && Contains(Lower(reply.text), "delete")
  {
    match MissingField(data)
    case Some(f) => Err(KeyError(f))
    case None =>
      match reply
      case Raised => Ok(Keep)
      case Generated(text) => Ok(ReduceVerdict(text))
  }
}
