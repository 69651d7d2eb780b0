/**
 * The `/api/chat` endpoint of the proxy: the model whitelist check, the
 * rate-limit gate in front of the route, the error texts the validators
 * produce, and the choice of HTTP status and body once validation is done
 * and the upstream completion service has answered (or failed to).
 */
module ChatEndpoint {
  import opened Wrappers
  import opened Json
  import opened Text
  import opened Sanitizer
  import opened MessageValidation

  const AllowedModels: seq<string> := ["z-ai/glm-4.5-air:free", "qwen/qwen2.5-vl-32b-instruct:free"]
  const RateLimitWindow := 60000
  const RateLimitMax := 15
  const MaxTokens := 1000
  const ChatPath := "/api/chat"

  // ---------------------------------------------------------------------
  // validateModel
  // ---------------------------------------------------------------------

  datatype ModelResult = ModelOk(model: string) | ModelInvalid(error: string)

  const ModelNotString := "Model must be a string"

  /** The rejection text for a string that is not on the whitelist. */
  function ModelNotAllowed(): (t: string)
    ensures t == "Invalid model. Allowed models: " + AllowedModels[0] + ", " + AllowedModels[1]
  {
    assert AllowedModels[1..] == [AllowedModels[1]];
    assert Join(AllowedModels, ", ") == AllowedModels[0] + ", " + AllowedModels[1];
    "Invalid model. Allowed models: " + Join(AllowedModels, ", ")
  }

  /** `validateModel(model)`: a missing or falsy model selects the first
      whitelisted one, a truthy non-string is refused, a string must be on the
      whitelist. */
  function ValidateModel(model: Option<Json>): (r: ModelResult)
    ensures r.ModelOk? ==> r.model in AllowedModels
    ensures !Truthy(model) ==> r == ModelOk(AllowedModels[0])
    ensures r.ModelOk? && Truthy(model) ==> model == Some(Str(r.model))
    ensures Truthy(model) && !model.value.Str? ==> r == ModelInvalid(ModelNotString)
    ensures model.Some? && model.value.Str? && model.value.s !in AllowedModels && Truthy(model) ==>
              r == ModelInvalid(ModelNotAllowed())
  {
    if !Truthy(model) then ModelOk(AllowedModels[0])
    else if !model.value.Str? then ModelInvalid(ModelNotString)
    else if model.value.s !in AllowedModels then ModelInvalid(ModelNotAllowed())
    else ModelOk(model.value.s)
  }

  /** A model is accepted exactly when it is absent or falsy, or a whitelisted
      string; every accepted request names a whitelisted model. */
  lemma ModelAcceptedIff(model: Option<Json>)
    ensures ValidateModel(model).ModelOk? <==>
              !Truthy(model) || (model.value.Str? && model.value.s in AllowedModels)
  {
  }

  // ---------------------------------------------------------------------
  // Error texts of validateMessages
  // ---------------------------------------------------------------------

  /** The text after `Message ${i}: ` for each kind of fault. */
  function FaultDescription(f: Fault): string
  {
    match f
    case InvalidFormat => "Invalid format"
    case InvalidRole => "Invalid role. Must be one of: " + Join(ValidRoles, ", ")
    case ContentNotString => "Content must be a string"
    case ContentTooLong => "Content too long. Maximum " + NatToString(MaxMessageLength) + " characters"
    case ContentEmpty => "Content cannot be empty"
  }

  /** One entry of the `errors` list, `Message ${i}: ...`. */
  function FaultText(mf: MessageFault): string
  {
    "Message " + NatToString(mf.index) + ": " + FaultDescription(mf.fault)
  }

  /** The `error` string of a failed `validateMessages`. */
  function MessagesErrorText(e: MessagesError): (t: string)
    ensures e.PerMessage? && |e.faults| == 1 ==> t == FaultText(e.faults[0])
  {
    match e
    case NotAnArray => "Messages must be an array"
    case EmptyArray => "Messages array cannot be empty"
    case TooManyMessages => "Too many messages. Maximum " + NatToString(MaxMessages) + " allowed"
    case TotalTooLong => "Total message length too long. Maximum " + NatToString(MaxTotalChars) + " characters"
    case PerMessage(faults) => Join(seq(|faults|, i requires 0 <= i < |faults| => FaultText(faults[i])), "; ")
  }

  /** The text of a failed check lists the entry of every fault, not only
      the first. */
  lemma ErrorTextListsEveryFault(fs: seq<MessageFault>, k: nat)
    requires k < |fs|
    ensures Occurs(FaultText(fs[k]), MessagesErrorText(PerMessage(fs)))
  {
    var texts := seq(|fs|, i requires 0 <= i < |fs| => FaultText(fs[i]));
    JoinHasEveryPart(texts, "; ", k);
  }

  /** The longest prefix of `s` made of decimal digits. */
  function DigitRun(s: string): (r: string)
    ensures |r| <= |s| && r == s[..|r|]
    ensures forall k :: 0 <= k < |r| ==> IsDigit(r[k])
    ensures |r| < |s| ==> !IsDigit(s[|r|])
  {
    if s != [] && IsDigit(s[0]) then [s[0]] + DigitRun(s[1..]) else []
  }

  /** Reads back the index named by an entry of the `errors` list. */
  function ReadIndex(t: string): Option<nat>
  {
    if |t| < 8 || t[..8] != "Message " then None
    else
      var d := DigitRun(t[8..]);
      if d == [] then None else Some(ParseNat(d))
  }

  lemma {:induction false} DigitRunStopsAtSeparator(d: string, rest: string)
    requires forall k :: 0 <= k < |d| ==> IsDigit(d[k])
    requires rest != [] && !IsDigit(rest[0])
    ensures DigitRun(d + rest) == d
    decreases |d|
  {
    if d != [] {
      assert (d + rest)[1..] == d[1..] + rest;
      DigitRunStopsAtSeparator(d[1..], rest);
    }
  }

  /** An entry built from index `n` reads back as `n`. */
  lemma ReadIndexOfEntry(n: nat, description: string)
    ensures ReadIndex("Message " + NatToString(n) + ": " + description) == Some(n)
  {
    var d := NatToString(n);
    var rest := ": " + description;
    var t := "Message " + d + ": " + description;
    assert t == "Message " + (d + rest);
    assert t[..8] == "Message ";
    assert t[8..] == d + rest;
    DigitRunStopsAtSeparator(d, rest);
    ParseNatToString(n);
  }

  /** Each entry of the `errors` list names the index of its message, so a
      client can tell which message failed. */
  lemma FaultTextNamesIndex(mf: MessageFault)
    ensures ReadIndex(FaultText(mf)) == Some(mf.index)
  {
    ReadIndexOfEntry(mf.index, FaultDescription(mf.fault));
  }

  /** Different faults get different descriptions, so the fault can be told
      from the text as well. */
  lemma FaultDescriptionsDistinct(f: Fault, g: Fault)
    requires f != g
    ensures FaultDescription(f) != FaultDescription(g)
  {
  }

  /** The fixed texts of the checks that reject the whole array... */
  lemma WholeArrayTexts()
    ensures MessagesErrorText(NotAnArray) == "Messages must be an array"
    ensures MessagesErrorText(EmptyArray) == "Messages array cannot be empty"
  {
  }

  /** ... with the limits written out in decimal. */
  lemma TooManyMessagesText()
    ensures MessagesErrorText(TooManyMessages) == "Too many messages. Maximum 50 allowed"
  {
  }

  lemma TotalTooLongText()
    ensures MessagesErrorText(TotalTooLong) == "Total message length too long. Maximum 30000 characters"
  {
  }

  // ---------------------------------------------------------------------
  // Rate limiting
  // ---------------------------------------------------------------------

  /** The limiter's `skip` option as written: every path other than the exact
      string `/api/chat` is exempt. */
  predicate Skip(path: string)
  {
    path != ChatPath
  }

  /** `s` with ASCII letters lower-cased. */
  function FoldAll(s: string): (r: string)
    ensures |r| == |s| && forall k :: 0 <= k < |s| ==> r[k] == Fold(s[k])
  {
    seq(|s|, k requires 0 <= k < |s| => Fold(s[k]))
  }

  /** The paths the `app.post('/api/chat', ...)` route serves: routes match
      case-insensitively and allow one trailing slash unless the application
      turns on case-sensitive or strict routing, which this one does not. */
  predicate RoutesToChat(path: string)
  {
    FoldAll(path) == ChatPath || FoldAll(path) == ChatPath + "/"
  }

  /** The exemption the comment beside `skip` describes: exempt exactly the
      paths that do not reach the chat route. */
  predicate SkipChatRouteOnly(path: string)
  {
    !RoutesToChat(path)
  }

  lemma ChatPathIsRouted()
    ensures RoutesToChat(ChatPath)
  {
    assert FoldAll(ChatPath) == ChatPath;
  }

  /** As written, a request for `/api/chat/` reaches the chat handler without
      being counted by the limiter. */
  lemma SkipExemptsTrailingSlash()
    ensures RoutesToChat("/api/chat/") && Skip("/api/chat/")
  {
    assert FoldAll("/api/chat/") == ChatPath + "/";
  }

  /** So does a request for `/API/chat`. */
  lemma SkipExemptsUpperCase()
    ensures RoutesToChat("/API/chat") && Skip("/API/chat")
  {
    assert FoldAll("/API/chat") == ChatPath;
  }

  /** The corrected exemption counts every request the chat route serves and
      agrees with the written one everywhere else. */
  lemma SkipChatRouteOnlyCoversRoute(path: string)
    ensures !Skip(path) ==> !SkipChatRouteOnly(path)
    ensures !RoutesToChat(path) || path == ChatPath ==> SkipChatRouteOnly(path) == Skip(path)
    ensures RoutesToChat(path) <==> !SkipChatRouteOnly(path)
  {
    if path == ChatPath {
      ChatPathIsRouted();
    }
  }

  /** express-rate-limit refuses a request once the number of requests from
      the same client in the current window, this one included, exceeds the
      maximum. */
  predicate OverLimit(hits: nat)
  {
    hits > RateLimitMax
  }

  /** `Math.ceil(a / b)` for non-negative `a` and positive `b`. */
  function CeilDiv(a: nat, b: nat): (r: nat)
    requires b > 0
    ensures (r - 1) * b < a <= r * b || (a == 0 && r == 0)
  {
    (a + b - 1) / b
  }

  /** The `retryAfter` of the 429 answer, in seconds. */
  function RetryAfter(): (r: nat)
    ensures r * 1000 >= RateLimitWindow && (r - 1) * 1000 < RateLimitWindow
  {
    CeilDiv(RateLimitWindow, 1000)
  }

  lemma RetryAfterIsOneMinute()
    ensures RetryAfter() == 60
  {
  }

  // ---------------------------------------------------------------------
  // Responses
  // ---------------------------------------------------------------------

  datatype ErrorCode = InvalidMessages | InvalidModel | ApiError | ServerError

  function CodeText(c: ErrorCode): string
  {
    match c
    case InvalidMessages => "INVALID_MESSAGES"
    case InvalidModel => "INVALID_MODEL"
    case ApiError => "API_ERROR"
    case ServerError => "SERVER_ERROR"
  }

  /** What the handler sends: the upstream's JSON relayed as is, a failure
      `{ error, code }` with a status, or the limiter's 429 answer. */
  datatype Response =
    | Relayed(data: Json)
    | Failed(status: int, error: string, code: ErrorCode)
    | TooManyRequests(error: string, retryAfter: nat)

  /** The status line of a response; `res.json(data)` keeps the default 200. */
  function Status(r: Response): int
  {
    match r
    case Relayed(_) => 200
    case Failed(status, _, _) => status
    case TooManyRequests(_, _) => 429
  }

  /** The JSON body of a response. */
  function Body(r: Response): Json
  {
    match r
    case Relayed(data) => data
    case Failed(_, error, code) => Obj(map["error" := Str(error), "code" := Str(CodeText(code))])
    case TooManyRequests(error, retryAfter) => Obj(map["error" := Str(error), "retryAfter" := Num(retryAfter)])
  }

  function LimitedResponse(): (r: Response)
    ensures r.TooManyRequests? && r.error == "Too many requests. Please try again later."
    ensures Status(r) == 429 && Body(r) == Obj(map["error" := Str(r.error), "retryAfter" := Num(60)])
  {
    RetryAfterIsOneMinute();
    TooManyRequests("Too many requests. Please try again later.", RetryAfter())
  }

  /** How the upstream call ended: `fetch` rejected (network failure or the
      30 s timeout), or it answered with a status and a body that did or did
      not parse as JSON. */
  datatype Upstream = Unreachable | Answered(status: int, data: Option<Json>)

  /** `response.ok`. */
  predicate Ok(status: int)
  {
    200 <= status <= 299
  }

  /** The request the handler sends upstream (the fixed `temperature` is not
      modelled). */
  datatype UpstreamRequest = UpstreamRequest(model: string, messages: seq<Json>, maxTokens: nat)

  /** The handler's answer once both validations have run. A rejection by
      either validator answers 400 without calling upstream. A body that is
      not JSON, a failed `fetch`, and a JSON `null` body (whose `.error` or
      `.usage` read throws) all end in the catch block's 500. A non-2xx answer
      is reported with its own status but a fixed text; a 2xx answer is
      relayed with status 200. */
  function ChatResponse(mv: MessagesResult, mr: ModelResult, up: Upstream): (r: Response)
    ensures !r.TooManyRequests?
    ensures r.Relayed? ==> up.Answered? && Ok(up.status) && up.data == Some(r.data)
  {
    if mv.MessagesInvalid? then Failed(400, MessagesErrorText(mv.error), InvalidMessages)
    else if mr.ModelInvalid? then Failed(400, mr.error, InvalidModel)
    else match up
      case Unreachable => Failed(500, "Internal server error", ServerError)
      case Answered(status, data) =>
        if data.None? || data.value == Null then Failed(500, "Internal server error", ServerError)
        else if !Ok(status) then Failed(status, "Failed to get AI response", ApiError)
        else Relayed(data.value)
  }

  /** Every way the handler can answer, and exactly when each one happens. */
  lemma ChatResponseCases(mv: MessagesResult, mr: ModelResult, up: Upstream)
    ensures var r := ChatResponse(mv, mr, up);
      && (r.Failed? && r.code == InvalidMessages <==> mv.MessagesInvalid?)
      && (r.Failed? && r.code == InvalidModel <==> mv.MessagesValid? && mr.ModelInvalid?)
      && (r.Failed? && (r.code == InvalidMessages || r.code == InvalidModel) ==> r.status == 400)
      && (r.Failed? && r.code == ServerError <==>
            mv.MessagesValid? && mr.ModelOk? &&
            (up.Unreachable? || up.data.None? || up.data.value == Null))
      && (r.Failed? && r.code == ServerError ==> r.status == 500 && r.error == "Internal server error")
      && (r.Failed? && r.code == ApiError <==>
            mv.MessagesValid? && mr.ModelOk? && up.Answered? && up.data.Some? &&
            up.data.value != Null && !Ok(up.status))
      && (r.Failed? && r.code == ApiError ==> r.status == up.status && r.error == "Failed to get AI response")
      && (r.Relayed? <==>
            mv.MessagesValid? && mr.ModelOk? && up.Answered? && up.data.Some? &&
            up.data.value != Null && Ok(up.status))
      && (r.Relayed? ==> r.data == up.data.value && Status(r) == 200)
      && !r.TooManyRequests?
  {
  }

  /** A rejected request never depends on what upstream would have said. */
  lemma RejectionIgnoresUpstream(mv: MessagesResult, mr: ModelResult, up1: Upstream, up2: Upstream)
    requires mv.MessagesInvalid? || mr.ModelInvalid?
    ensures ChatResponse(mv, mr, up1) == ChatResponse(mv, mr, up2)
  {
  }

  /** An upstream failure is reported without its details: two error answers
      with the same status give the same response whatever their bodies. */
  lemma UpstreamErrorHidesDetails(mv: MessagesResult, mr: ModelResult, status: int, d1: Json, d2: Json)
    requires !Ok(status) && d1 != Null && d2 != Null
    ensures ChatResponse(mv, mr, Answered(status, Some(d1))) == ChatResponse(mv, mr, Answered(status, Some(d2)))
  {
  }

  /** The verdict of `validateMessages` on the request's `messages`, given as
      the array's contents or None when it is not an array. */
  function MessagesVerdict(ms: Option<seq<Json>>): MessagesResult
  {
    if ms.None? then MessagesInvalid(NotAnArray) else Verdict(ms.value)
  }

  /** A POST to `path`, which the chat route serves, by a client that has made
      `hits` requests in the current window, this one included. `messages` is
      null when the request's `messages` is not an array; `upstream` is how the
      upstream call would end. The limiter answers 429 only when it counts the
      request, i.e. when its `skip` (Skip) is false and the client is over the
      limit; a routed path other than `/api/chat` itself is never counted.
      Otherwise the messages are validated and sanitised in place, the model
      validated and, only when both pass, the request returned in `sent` goes
      upstream. */
  method PostChat(path: string, hits: nat, model: Option<Json>, messages: array?<Json>, upstream: Upstream)
    returns (resp: Response, sent: Option<UpstreamRequest>)
    requires RoutesToChat(path)
    modifies messages
    ensures !Skip(path) && OverLimit(hits) ==> resp == LimitedResponse() && sent == None
    ensures !Skip(path) && OverLimit(hits) && messages != null ==> messages[..] == old(messages[..])
    ensures Skip(path) || !OverLimit(hits) ==>
              resp == ChatResponse(old(MessagesVerdict(if messages == null then None else Some(messages[..]))),
                                   ValidateModel(model), upstream)
    ensures sent.Some? <==>
              && (Skip(path) || !OverLimit(hits))
              && old(MessagesVerdict(if messages == null then None else Some(messages[..]))) == MessagesValid
              && ValidateModel(model).ModelOk?
    ensures sent.Some? ==>
              && messages != null
              && messages[..] == SanitizedAll(old(messages[..]))
              && sent.value == UpstreamRequest(ValidateModel(model).model, messages[..], MaxTokens)
    ensures (Skip(path) || !OverLimit(hits)) && messages != null && 0 < messages.Length <= MaxMessages ==>
              messages[..] == SanitizedAll(old(messages[..]))
    ensures messages != null && (messages.Length == 0 || messages.Length > MaxMessages) ==>
              messages[..] == old(messages[..])
  {
    if !Skip(path) && OverLimit(hits) {
      return LimitedResponse(), None;
    }
    var mv := ValidateMessages(messages);
    var mr := ValidateModel(model);
    if mv.MessagesValid? && mr.ModelOk? {
      sent := Some(UpstreamRequest(mr.model, messages[..], MaxTokens));
    } else {
      sent := None;
    }
    resp := ChatResponse(mv, mr, upstream);
  }

  /** An empty `messages` array is refused with the fixed text. */
  lemma EmptyMessagesRefused(up: Upstream, model: Option<Json>)
    ensures var r := ChatResponse(Verdict([]), ValidateModel(model), up);
      Status(r) == 400 && Body(r) == Obj(map["error" := Str("Messages array cannot be empty"),
                                             "code" := Str("INVALID_MESSAGES")])
  {
    WholeArrayTexts();
  }

  /** A single user turn of plain text passes `validateMessages`. */
  lemma PlainTurnAccepted(m: Json)
    requires m == Obj(map["role" := Str("user"), "content" := Str("hi")])
    ensures Verdict([m]) == MessagesValid
  {
    assert !IsJsWhitespace('h') && !IsJsWhitespace('i');
    SanitizeKeepsPlainText("hi");
    assert WellFormed(m);
    NoFaultsIffWellFormed([m]);
    assert TotalChars([m]) == TotalChars([]) + SanitizedLength(m);
  }

  /** Once the messages pass, a model that is not on the whitelist is refused
      for the model (PlainTurnAccepted gives such messages). */
  lemma UnknownModelRefused(ms: seq<Json>, up: Upstream)
    requires Verdict(ms) == MessagesValid
    ensures ChatResponse(Verdict(ms), ValidateModel(Some(Str("gpt-4"))), up) ==
              Failed(400, ModelNotAllowed(), InvalidModel)
  {
    assert ValidateModel(Some(Str("gpt-4"))) == ModelInvalid(ModelNotAllowed());
  }
}
