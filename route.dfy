/** The topic-extraction endpoint (app/api/extract-topics/route.ts): request validation, the
    call to the extractor, and the shape of the reply. */
module Route {
  import opened Text
  import Extraction

  /** A field of the parsed JSON request body. JSON has no NaN, so every number but zero is
      truthy. `Absent` is a field the body does not have (`undefined`). */
  datatype JsonValue = Absent | Null | Bool(b: bool) | Number(n: real) | Str(s: String) | Composite

  /** JavaScript truthiness of a JSON value. */
  predicate Truthy(v: JsonValue) {
    match v
    case Absent => false
    case Null => false
    case Bool(b) => b
    case Number(n) => n != 0.0
    case Str(s) => s != []
    case Composite => true
  }

  datatype RequestBody = RequestBody(conversation: JsonValue, title: JsonValue)

  datatype Payload = Payload(
    topics: seq<Extraction.Topic>,
    conversationSummary: String,
    title: JsonValue,
    conversationContent: String)

  datatype ResponseBody = Failure(error: String) | Success(data: Payload)

  datatype Response = Response(status: int, body: ResponseBody)

  const MinConversationLength: nat := 50
  const RequiredError: String := "Conversation content is required"
  const TooShortError: String := "Conversation is too short for topic extraction"
  const FailedError: String := "Failed to extract topics. Please try again."
  const UntitledTitle: String := "Untitled Conversation"

  /** `POST`: `body` is `None` when the request body is not JSON, and also when it is the JSON
      value `null`, since destructuring `null` throws too; both end in the `catch` at lines
      28-31. `reply` stands for the extractor's remote exchange. */
  function HandlePost(body: Option<RequestBody>, reply: Extraction.Reply): (resp: Response)
    ensures body.None? ==> resp == Response(500, Failure(FailedError))
    ensures body.Some? && !(body.value.conversation.Str? && body.value.conversation.s != []) ==>
              resp == Response(400, Failure(RequiredError))
    ensures body.Some? && body.value.conversation.Str? && 0 < |body.value.conversation.s| < MinConversationLength ==>
              resp == Response(400, Failure(TooShortError))
    ensures resp.status == 200 <==>
              body.Some? && body.value.conversation.Str? && |body.value.conversation.s| >= MinConversationLength
    ensures resp.status != 200 ==> resp.body.Failure?
    ensures resp.status == 200 ==>
              var conversation := body.value.conversation.s;
              var result := Extraction.ExtractTopics(conversation, reply);
              && resp.body.Success?
              && resp.body.data.topics == result.topics
              && resp.body.data.conversationSummary == result.conversationSummary
              && resp.body.data.conversationContent == conversation
              && |resp.body.data.topics| >= 1
              && (Truthy(body.value.title) ==> resp.body.data.title == body.value.title)
              && (!Truthy(body.value.title) ==> resp.body.data.title == Str(UntitledTitle))
  {
    match body
    case None => Response(500, Failure(FailedError))
    case Some(request) =>
      if !Truthy(request.conversation) || !request.conversation.Str? then
        Response(400, Failure(RequiredError))
      else if |request.conversation.s| < MinConversationLength then
        Response(400, Failure(TooShortError))
      else
        var result := Extraction.ExtractTopics(request.conversation.s, reply);
        var title := if Truthy(request.title) then request.title else Str(UntitledTitle);
        Response(200, Success(Payload(result.topics, result.conversationSummary, title, request.conversation.s)))
  }

  /** The length bound is strict and applies to the untrimmed text: 49 characters are
      rejected as too short, 50 proceed. */
  lemma LengthBoundary(conversation: String, title: JsonValue, reply: Extraction.Reply)
    ensures |conversation| == 49 ==>
              HandlePost(Some(RequestBody(Str(conversation), title)), reply) == Response(400, Failure(TooShortError))
    ensures |conversation| == 50 ==>
              HandlePost(Some(RequestBody(Str(conversation), title)), reply).status == 200
  {
  }

  /** The type check comes first: a value that is not a string is reported as missing content
      whatever its other properties, never as too short. */
  lemma TypeCheckFirst(conversation: JsonValue, title: JsonValue, reply: Extraction.Reply)
    requires !conversation.Str?
    ensures HandlePost(Some(RequestBody(conversation, title)), reply).body.error == RequiredError
  {
  }
}
