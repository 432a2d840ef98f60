/** The non-streaming conversion endpoint: one chat call, a chain of checks
    on its reply, the insert of the accepted markup, and the mapping of
    everything thrown on the way to an HTTP error. */
module Convert {
  import opened Wrappers
  import opened Text
  import opened Request

  /** What the handler's `try` block can throw. */
  datatype Thrown =
    | SchemaError                                 // the body schema rejected the request
    | StatusError(status: int, message: string)   // an error carrying a status code
    | PlainError                                  // any other error

  datatype HttpError = HttpError(status: int, message: string)

  /** The first choice's `message.content`: absent (or the choice itself
      is), something other than a string, or a string. */
  datatype Content = Missing | NotText | Text(text: string)

  /** What the chat call does: throw, or reply with `choices` (`None` when
      the field is absent), each given by its message content. */
  datatype ChatReply = Threw(error: Thrown) | Replied(choices: Option<seq<Content>>)

  /** The JSON body of a successful response, `{ html, success: true }`. */
  datatype Reply = Reply(html: string, success: bool)

  datatype Effect = Call(request: UpstreamRequest) | Insert(row: Conversion)

  datatype Outcome = Outcome(response: Result<Reply, HttpError>, effects: seq<Effect>)

  const MissingChoices: string := "AI response missing choices"
  const MissingContent: string := "AI response missing content"
  const NoHtml: string := "Invalid response from AI - no HTML detected"

  /** Trimmed markup is accepted when it is non-empty and has both a `<`
      and a `>`. */
  predicate LooksLikeHtml(html: string) {
    html != "" && '<' in html && '>' in html
  }

  /** The checks on the chat reply, in order. */
  function ValidateReply(choices: Option<seq<Content>>): (r: Result<string, Thrown>)
    ensures r.Failure? ==> r.error in {StatusError(500, MissingChoices), StatusError(500, MissingContent), StatusError(500, NoHtml)}
    ensures r.Success? ==> LooksLikeHtml(r.value)
  {
    if choices.None? || |choices.value| == 0 then Failure(StatusError(500, MissingChoices))
    else
      var content := choices.value[0];
      if !content.Text? || content.text == "" then Failure(StatusError(500, MissingContent))
      else
        var html := Trim(content.text);
        if !LooksLikeHtml(html) then Failure(StatusError(500, NoHtml))
        else Success(html)
  }

  /** The `catch` block: a schema error is a bad request, an error with a
      status code is passed on unchanged, anything else is a generic 500. */
  function Classify(e: Thrown): HttpError {
    match e
    case SchemaError => HttpError(400, "Invalid request")
    case StatusError(status, message) => HttpError(status, message)
    case PlainError => HttpError(500, "Conversion failed")
  }

  /** The `try` block: its result or what it throws, and its effects.
      `image` is the body's field (`None`: missing or not a string),
      `apiKey` and `model` the configuration, `freshId` the UUID, `reply`
      what the chat call does and `insert` whether the insert commits. */
  function Attempt(image: Option<string>, apiKey: Option<string>, model: Option<string>, freshId: string,
                   reply: ChatReply, insert: Conversion -> bool): (r: (Result<Reply, Thrown>, seq<Effect>))
    ensures |r.1| <= 2
    ensures r.1 != [] ==>
              image.Some? && IsImageDataUrl(image.value) && apiKey.Some? &&
              r.1[0] == Call(BuildRequest(model, Base64Payload(image.value)))
    ensures r.0.Success? ==>
              r.0.value.success && |r.1| == 2 && r.1[1] == Insert(Conversion(freshId, Anonymous, r.0.value.html))
  {
    if image.None? || !IsImageDataUrl(image.value) then (Failure(SchemaError), [])
    else if apiKey.None? then (Failure(StatusError(500, "API key not configured")), [])
    else
      var request := BuildRequest(model, Base64Payload(image.value));
      match reply
      case Threw(e) => (Failure(e), [Call(request)])
      case Replied(choices) =>
        match ValidateReply(choices)
        case Failure(e) => (Failure(e), [Call(request)])
        case Success(html) =>
          var row := Conversion(freshId, Anonymous, html);
          if insert(row) then (Success(Reply(html, true)), [Call(request), Insert(row)])
          else (Failure(PlainError), [Call(request), Insert(row)])
  }

  /** The endpoint: the attempt, with anything thrown classified. */
  function Convert(image: Option<string>, apiKey: Option<string>, model: Option<string>, freshId: string,
                   reply: ChatReply, insert: Conversion -> bool): (out: Outcome)
    ensures |out.effects| <= 2
    ensures out.effects != [] ==> out.effects[0].Call?
    ensures |out.effects| == 2 ==> out.effects[1].Insert?
    ensures out.response.Success? ==> |out.effects| == 2
  {
    var (result, effects) := Attempt(image, apiKey, model, freshId, reply, insert);
    match result
    case Success(body) => Outcome(Success(body), effects)
    case Failure(e) => Outcome(Failure(Classify(e)), effects)
  }

  // ---------------------------------------------------------------------
  // properties

  /** The reply is accepted exactly when there is a first choice whose
      content is a string that, trimmed, looks like markup; the accepted
      markup is that trimmed string, so trimming it again changes nothing. */
  lemma ValidateReplyAccepts(choices: Option<seq<Content>>)
    ensures ValidateReply(choices).Success? <==>
      choices.Some? && 0 < |choices.value| && choices.value[0].Text? && LooksLikeHtml(Trim(choices.value[0].text))
    ensures ValidateReply(choices).Success? ==>
      var html := ValidateReply(choices).value;
      html == Trim(choices.value[0].text) && Trim(html) == html && LooksLikeHtml(html)
  {
    if ValidateReply(choices).Success? {
      TrimIdempotent(choices.value[0].text);
    }
  }

  /** A reply without choices, or with an empty list of them, is reported
      as missing its choices. */
  lemma MissingChoicesReported(choices: Option<seq<Content>>)
    requires choices.None? || choices == Some([])
    ensures ValidateReply(choices) == Failure(StatusError(500, MissingChoices))
  {
  }

  /** Non-empty content that, trimmed, lacks a `<` or a `>` is reported as
      holding no markup. */
  lemma NoMarkupReported(text: string, others: seq<Content>)
    requires text != "" && !LooksLikeHtml(Trim(text))
    ensures ValidateReply(Some([Text(text)] + others)) == Failure(StatusError(500, NoHtml))
  {
  }

  /** Content made only of whitespace passes the content check and fails
      the markup check. */
  lemma {:induction false} BlankContentIsNoHtml(text: string, others: seq<Content>)
    requires text != "" && AllSpace(text)
    ensures ValidateReply(Some([Text(text)] + others)) == Failure(StatusError(500, NoHtml))
  {
    TrimEmptyIff(text);
  }

  /** An empty, missing or non-string content is reported as missing. */
  lemma EmptyContentIsMissing(content: Content, others: seq<Content>)
    requires content.Missing? || content.NotText? || content == Text("")
    ensures ValidateReply(Some([content] + others)) == Failure(StatusError(500, MissingContent))
  {
  }

  /** A malformed image is a 400 before anything is called or stored. */
  lemma MalformedImageIsBadRequest(image: Option<string>, apiKey: Option<string>, model: Option<string>,
                                   freshId: string, reply: ChatReply, insert: Conversion -> bool)
    requires image.None? || !IsImageDataUrl(image.value)
    ensures Convert(image, apiKey, model, freshId, reply, insert) == Outcome(Failure(HttpError(400, "Invalid request")), [])
  {
  }

  /** A missing API key is a 500 that keeps its own message. */
  lemma MissingKeyKeepsItsMessage(image: string, model: Option<string>, freshId: string,
                                  reply: ChatReply, insert: Conversion -> bool)
    requires IsImageDataUrl(image)
    ensures Convert(Some(image), None, model, freshId, reply, insert)
      == Outcome(Failure(HttpError(500, "API key not configured")), [])
  {
  }

  /** Every error the handler raises itself is a 400 or a 500; any other
      status can only come from the chat call, passed on unchanged. */
  lemma {:induction false} ErrorStatuses(image: Option<string>, apiKey: Option<string>, model: Option<string>,
                                         freshId: string, reply: ChatReply, insert: Conversion -> bool)
    ensures var out := Convert(image, apiKey, model, freshId, reply, insert);
      out.response.Failure? ==>
        (out.response.error.status == 400 || out.response.error.status == 500
         || (reply.Threw? && reply.error.StatusError?
             && out.response.error == HttpError(reply.error.status, reply.error.message)))
  {
    var (result, effects) := Attempt(image, apiKey, model, freshId, reply, insert);
    if result.Failure? && !(reply.Threw? && reply.error.StatusError?) {
      var e := result.error;
      assert e.SchemaError? || e.PlainError? || (e.StatusError? && (e.status == 500));
    }
  }

  /** On success the markup returned is exactly the markup stored, under the
      fresh id and user `anonymous`, after the single chat call; the id is
      not part of the response. */
  lemma SuccessStoresWhatItReturns(image: Option<string>, apiKey: Option<string>, model: Option<string>,
                                   freshId: string, reply: ChatReply, insert: Conversion -> bool)
    requires Convert(image, apiKey, model, freshId, reply, insert).response.Success?
    ensures var out := Convert(image, apiKey, model, freshId, reply, insert);
      && image.Some? && IsImageDataUrl(image.value) && apiKey.Some? && reply.Replied?
      && var html := out.response.value.html;
         && out.response.value == Reply(html, true)
         && ValidateReply(reply.choices) == Success(html)
         && out.effects == [Call(BuildRequest(model, Base64Payload(image.value))), Insert(Conversion(freshId, "anonymous", html))]
  {
  }

  /** A failed insert is a generic 500, after the row was attempted. */
  lemma {:induction false} FailedInsertIsGeneric(image: string, apiKey: string, model: Option<string>, freshId: string,
                                                 choices: Option<seq<Content>>, html: string, insert: Conversion -> bool)
    requires IsImageDataUrl(image) && ValidateReply(choices) == Success(html)
    requires !insert(Conversion(freshId, Anonymous, html))
    ensures Convert(Some(image), Some(apiKey), model, freshId, Replied(choices), insert)
      == Outcome(Failure(HttpError(500, "Conversion failed")),
                 [Call(BuildRequest(model, Base64Payload(image))), Insert(Conversion(freshId, Anonymous, html))])
  {
    InsertAttempted(image, apiKey, model, freshId, choices, html, insert);
  }

  /** A validated reply leads to the insert, and the attempt fails exactly
      when the insert does. */
  lemma InsertAttempted(image: string, apiKey: string, model: Option<string>, freshId: string,
                        choices: Option<seq<Content>>, html: string, insert: Conversion -> bool)
    requires IsImageDataUrl(image) && ValidateReply(choices) == Success(html)
    ensures var row := Conversion(freshId, Anonymous, html);
      Attempt(Some(image), Some(apiKey), model, freshId, Replied(choices), insert)
      == (if insert(row) then Success(Reply(html, true)) else Failure(PlainError),
          [Call(BuildRequest(model, Base64Payload(image))), Insert(row)])
  {
  }
}
