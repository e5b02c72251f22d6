/**
 * The `/process-image/` route and the relay call beneath it: validate the
 * upload, send the prompt and the image as a data URL to the completion
 * endpoint, reshape the reply, and wrap the outcome. The endpoint itself is a
 * parameter: a function from the request sent to what the call returns.
 */
module Process {
  import opened Wrappers
  import opened PyValue
  import Base64
  import DataUrl
  import Upload
  import Reply

  /** Where and as whom requests are sent, and to which model. */
  datatype Settings = Settings(apiKey: string, apiUrl: string, model: string)

  /** One part of the user message: the prompt text or the image URL. */
  datatype ContentPart = TextPart(text: string) | ImageUrlPart(url: string)

  /** A chat completion request holding a single user message. */
  datatype ChatRequest = ChatRequest(
    baseUrl: string, apiKey: string, model: string, role: string, content: seq<ContentPart>)

  /** What `chat.completions.create` gives: its choices' messages, or the failure it raised. */
  datatype ApiOutcome = Completed(choices: seq<Reply.Message>) | CallFailed(message: string)

  /** What `process_image_with_ai` returns: the text reply and the list of images. */
  datatype AiResult = AiResult(textResponse: Option<string>, images: seq<Value>)

  /** `HTTPException(status_code, detail)`. */
  datatype HttpException = HttpException(statusCode: nat, detail: string)

  datatype Status = Success | Error

  /** The JSON body of the route's answer. */
  datatype ProcessResponse = ProcessResponse(
    status: Status, textResponse: Option<string>, images: Option<seq<Value>>,
    processedAt: string, error: Option<string>)

  /** What the route does: answer with a body, or raise an HTTP error. */
  datatype RouteOutcome = Respond(response: ProcessResponse) | Raise(exception: HttpException)

  /** How the `try` block of the route ends. */
  datatype TryOutcome =
    | Returned(result: AiResult)
    | RaisedHttp(exception: HttpException)
    | RaisedOther(message: string)

  const FailurePrefix: string := "API 调用失败: "

  /** `str(IndexError)` for `choices[0]` on an empty list. */
  const NoChoiceMessage: string := "list index out of range"

  /** The message sent: the prompt text first, then the image as a data URL. */
  function BuildRequest(settings: Settings, imageBytes: seq<Base64.byte>, contentType: string, prompt: string): (req: ChatRequest)
    ensures req.baseUrl == settings.apiUrl && req.apiKey == settings.apiKey && req.model == settings.model
    ensures req.role == "user" && |req.content| == 2
    ensures req.content[0] == TextPart(prompt) && req.content[1].ImageUrlPart?
    ensures var url := req.content[1].url;
      && |contentType| + 13 <= |url|
      && url[..|contentType| + 13] == DataUrl.Header(contentType)
      && Base64.Decode(url[|contentType| + 13..]) == Some(imageBytes)
  {
    ChatRequest(settings.apiUrl, settings.apiKey, settings.model, "user",
                [TextPart(prompt), ImageUrlPart(DataUrl.EncodeImageFromBytes(imageBytes, contentType))])
  }

  /**
   * The body of `process_image_with_ai` once the call has returned: every
   * failure, of the call itself, of `choices[0]` or of the reshaping, becomes
   * a 500 whose detail is the prefix and the failure's text.
   */
  function Relay(outcome: ApiOutcome): (r: Result<AiResult, HttpException>)
    ensures r.Err? ==> r.error.statusCode == 500 && FailurePrefix <= r.error.detail
    ensures r.Ok? ==> outcome.Completed? && |outcome.choices| > 0
    ensures r.Ok? ==> r.value.textResponse == Reply.TextResponse(outcome.choices[0].content)
    ensures outcome.CallFailed? ==> r == Err(HttpException(500, FailurePrefix + outcome.message))
    ensures outcome.Completed? && |outcome.choices| == 0 ==> r == Err(HttpException(500, FailurePrefix + NoChoiceMessage))
    ensures outcome.Completed? && |outcome.choices| > 0 ==>
      var images := Reply.Normalise(Reply.Entries(outcome.choices[0].images));
      && (images.Ok? <==> r.Ok?)
      && (images.Ok? ==> r.value.images == images.value)
      && (images.Err? ==> r.error.detail == FailurePrefix + Describe(images.error))
  {
    match outcome
    case CallFailed(message) => Err(HttpException(500, FailurePrefix + message))
    case Completed(choices) =>
      if |choices| == 0 then Err(HttpException(500, FailurePrefix + NoChoiceMessage))
      else
        var message := choices[0];
        match Reply.Normalise(Reply.Entries(message.images))
        case Err(e) => Err(HttpException(500, FailurePrefix + Describe(e)))
        case Ok(images) => Ok(AiResult(Reply.TextResponse(message.content), images))
  }

  /** `process_image_with_ai`: build and send the request, then reshape the reply. */
  method ProcessImageWithAi(
    settings: Settings, imageBytes: seq<Base64.byte>, contentType: string, prompt: string,
    api: ChatRequest -> ApiOutcome)
    returns (request: ChatRequest, r: Result<AiResult, HttpException>)
    ensures request == BuildRequest(settings, imageBytes, contentType, prompt)
    ensures r == Relay(api(request))
  {
    request := BuildRequest(settings, imageBytes, contentType, prompt);
    var outcome := api(request);
    if outcome.CallFailed? {
      return request, Err(HttpException(500, FailurePrefix + outcome.message));
    }
    if |outcome.choices| == 0 {
      return request, Err(HttpException(500, FailurePrefix + NoChoiceMessage));
    }
    var message := outcome.choices[0];
    var textResponse := Reply.TextResponse(message.content);
    var images := Reply.NormaliseImages(message.images);
    if images.Err? {
      return request, Err(HttpException(500, FailurePrefix + Describe(images.error)));
    }
    r := Ok(AiResult(textResponse, images.value));
  }

  /** The invariant of a response body: an error carries a message and nothing else, a success no error. */
  predicate WellFormedResponse(r: ProcessResponse)
  {
    && (r.status == Error ==> r.textResponse.None? && r.images.None? && r.error.Some?)
    && (r.status == Success ==> r.error.None?)
  }

  /**
   * The `try`/`except` of the route: a result becomes a success body; an
   * `HTTPException` is raised again unchanged; any other exception becomes an
   * error body carrying its text.
   */
  function Wrap(t: TryOutcome, processedAt: string): (o: RouteOutcome)
    ensures o.Respond? ==> WellFormedResponse(o.response) && o.response.processedAt == processedAt
    ensures t.RaisedHttp? <==> o.Raise?
    ensures t.RaisedHttp? ==> o.exception == t.exception
    ensures t.RaisedOther? ==> o.Respond? && o.response.status == Error && o.response.error == Some(t.message)
    ensures t.Returned? ==> (o.Respond? && o.response.status == Success
      && o.response.textResponse == t.result.textResponse && o.response.images == Some(t.result.images))
  {
    match t
    case Returned(result) =>
      Respond(ProcessResponse(Success, result.textResponse, Some(result.images), processedAt, None))
    case RaisedHttp(e) => Raise(e)
    case RaisedOther(message) => Respond(ProcessResponse(Error, None, None, processedAt, Some(message)))
  }

  /**
   * `process_image`: validate the upload, then relay it. A rejected upload
   * raises its 400 and sends nothing; an accepted one sends exactly one
   * request, whose image part decodes to the uploaded bytes. Since the relay
   * turns every failure into an HTTP 500, the route never answers with an
   * error body: it either succeeds or raises.
   */
  method ProcessImage(
    settings: Settings, declaredType: Option<string>, contents: seq<Base64.byte>, prompt: string,
    api: ChatRequest -> ApiOutcome, processedAt: string)
    returns (sent: Option<ChatRequest>, o: RouteOutcome)
    ensures var v := Upload.Validate(declaredType, |contents|);
      v.Rejected? ==> sent.None? && o == Raise(HttpException(Upload.RejectionStatus, Upload.Detail(v.reason)))
    ensures var v := Upload.Validate(declaredType, |contents|);
      v.Accepted? ==> sent == Some(BuildRequest(settings, contents, v.contentType, prompt))
    ensures var v := Upload.Validate(declaredType, |contents|);
      v.Accepted? ==> var url := sent.value.content[1].url;
        url[..|v.contentType| + 13] == DataUrl.Header(v.contentType)
        && Base64.Decode(url[|v.contentType| + 13..]) == Some(contents)
    ensures o.Respond? ==> o.response.status == Success && WellFormedResponse(o.response)
    ensures o.Respond? <==> sent.Some? && Relay(api(sent.value)).Ok?
    ensures o.Respond? ==> sent.Some? && var result := Relay(api(sent.value)).value;
      o.response == ProcessResponse(Success, result.textResponse, Some(result.images), processedAt, None)
    ensures o.Raise? && sent.Some? ==> o.exception == Relay(api(sent.value)).error
  {
    var verdict := Upload.Validate(declaredType, |contents|);
    if verdict.Rejected? {
      return None, Raise(HttpException(Upload.RejectionStatus, Upload.Detail(verdict.reason)));
    }
    var request, result := ProcessImageWithAi(settings, contents, verdict.contentType, prompt, api);
    sent := Some(request);
    var t := if result.Ok? then Returned(result.value) else RaisedHttp(result.error);
    o := Wrap(t, processedAt);
  }
}
