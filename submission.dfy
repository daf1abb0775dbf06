/**
 * What `handleSubmit` sends and how it reads the answer: the JSON payload (with the case
 * documents left out of the stages) and the error text shown after a failed request.
 * The request itself is not modelled; its outcome is an input.
 */
module Submission {
  import opened Team

  /** A stage as sent: identifier and content, without the document link. */
  datatype StagePayload = StagePayload(id: string, content: string)

  /** The body of the POST request: `{ name, count, members, stages }`. */
  datatype Payload = Payload(name: string, count: nat, members: seq<Member>, stages: seq<StagePayload>)

  /** `stages.map((s) => ({ id: s.id, content: s.content }))`. */
  function ProjectStages(stages: seq<Stage>): (r: seq<StagePayload>)
    ensures |r| == |stages|
    ensures forall i :: 0 <= i < |r| ==> r[i].id == stages[i].id && r[i].content == stages[i].content
  {
    if stages == [] then []
    else [StagePayload(stages[0].id, stages[0].content)] + ProjectStages(stages[1..])
  }

  /** The projected stages of a well-formed form name the eight cases in order. */
  lemma {:induction false} ProjectedStagesNameCases(stages: seq<Stage>)
    requires StagesWellFormed(stages)
    ensures |ProjectStages(stages)| == 8
    ensures forall i :: 0 <= i < 8 ==> ProjectStages(stages)[i].id == Cases[i].id
    ensures ProjectStages(stages)[0].id == "case1" && ProjectStages(stages)[7].id == "case8"
  {
  }

  /** How the request ended: an HTTP response with its status and text body, or a failure
      before any response, carrying the thrown error's message. */
  datatype Response = HttpResponse(status: int, body: string) | NetworkFailure(message: string)

  /** `response.ok`: a status in the 2xx range. */
  predicate IsOkStatus(status: int) {
    200 <= status <= 299
  }

  predicate Accepted(response: Response) {
    response.HttpResponse? && IsOkStatus(response.status)
  }

  const RequestFailedMessage := "Request failed"
  const SendFailedMessage := "Ошибка при отправке"

  /** The message of the error the request path throws: `new Error(data || "Request failed")`
      for a rejected response, the failure's own message otherwise. */
  function ThrownMessage(response: Response): string
    requires !Accepted(response)
  {
    match response
    case HttpResponse(_, body) => if body == "" then RequestFailedMessage else body
    case NetworkFailure(message) => message
  }

  /** The error text the form shows: `err?.message || "Ошибка при отправке"`. */
  function ErrorText(response: Response): string
    requires !Accepted(response)
  {
    var m := ThrownMessage(response);
    if m == "" then SendFailedMessage else m
  }

  /** A rejected response shows its body verbatim, or "Request failed" when the body is
      empty; a failed request shows its message, or the generic text when it has none; the
      error shown is never empty. */
  lemma ErrorTextSpec(response: Response)
    requires !Accepted(response)
    ensures response.HttpResponse? ==>
      ErrorText(response) == if response.body == "" then RequestFailedMessage else response.body
    ensures response.NetworkFailure? ==>
      ErrorText(response) == if response.message == "" then SendFailedMessage else response.message
    ensures ErrorText(response) != ""
  {
  }
}
