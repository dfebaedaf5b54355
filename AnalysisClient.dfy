/** The analysis call of the background analyzer, `analyzePolarization`
    (background/background.js:229-305), with the network request replaced by
    its outcome: the request itself is not modelled, the reply is an input.
    A reply that is not ok is mapped to one error message per status. */
module AnalysisClient {
  import opened Wrappers
  import opened JsText
  import opened ResponseParser

  /** The analyzer's `apiConfig` when it is set. */
  datatype ApiConfig = ApiConfig(key: string, preferredApi: string)

  /** `this.apiConfig?.key` is truthy. */
  predicate HasKey(config: Option<ApiConfig>) {
    config.Some? && config.value.key != []
  }

  /** What `fetch` settles with. `Rejected` is a network failure, carrying
      the browser's message; `Received` carries the status, the body text and
      what `response.json()` gives (a failure when the body is not JSON,
      again with the browser's message). */
  datatype Reply =
    | Rejected(message: string)
    | Received(status: nat, bodyText: string, json: Result<JsValue, string>)

  /** `response.ok`. */
  predicate IsOk(status: nat) {
    200 <= status <= 299
  }

  /** The error kinds of the status switch. */
  datatype ServiceError =
    | BrowserAccessNotConfigured
    | InvalidApiKey
    | Forbidden
    | RateLimited
    | ServiceFault
    | Unknown(status: nat, body: string)

  const NotConfiguredMessage: string := "API not configured"
  // Each fixed message is written as its opening characters followed by the
  // rest, so that the verifier can read how it opens: `MessageInjective` and
  // `Message` tell the messages apart by their first characters.
  const BrowserAccessMessage: string := "B" + "rowser access not properly configured. Please check API headers."
  const InvalidKeyMessage: string := "I" + "nvalid API key. Please check your settings."
  const ForbiddenMessage: string := "Ac" + "cess forbidden. Please check API permissions."
  const RateLimitMessage: string := "R" + "ate limit exceeded. Please try again later."
  const ServiceFaultMessage: string := "C" + "laude API service error. Please try again later."
  const UnknownPrefix: string := "API Error: "
  const UnknownSeparator: string := " - "

  /** The `switch (response.status)`: 401 splits on whether the body mentions
      CORS; 403, 429 and 500 have their own kinds; every other status is
      unknown and keeps the status and body. */
  function ClassifyStatus(status: nat, body: string): (e: ServiceError)
    ensures e.Unknown? <==> status !in {401, 403, 429, 500}
    ensures e.Unknown? ==> e == Unknown(status, body)
    ensures (e == BrowserAccessNotConfigured || e == InvalidApiKey) <==> status == 401
    ensures e == BrowserAccessNotConfigured <==> status == 401 && Contains(body, "CORS")
    ensures e == Forbidden <==> status == 403
    ensures e == RateLimited <==> status == 429
    ensures e == ServiceFault <==> status == 500
  {
    if status == 401 then
      if Contains(body, "CORS") then BrowserAccessNotConfigured else InvalidApiKey
    else if status == 403 then Forbidden
    else if status == 429 then RateLimited
    else if status == 500 then ServiceFault
    else Unknown(status, body)
  }

  /** The message each error is thrown with. The message of an unknown
      status reads back as that status and body; the five fixed messages
      never read as one. */
  function Message(e: ServiceError): (r: string)
    ensures e.Unknown? ==> UnknownOfMessage(r) == Some((e.status, e.body))
    ensures !e.Unknown? ==> UnknownOfMessage(r) == None
  {
    match e
    case BrowserAccessNotConfigured => FixedMessageNotUnknown(BrowserAccessMessage); BrowserAccessMessage
    case InvalidApiKey => FixedMessageNotUnknown(InvalidKeyMessage); InvalidKeyMessage
    case Forbidden => FixedMessageNotUnknown(ForbiddenMessage); ForbiddenMessage
    case RateLimited => FixedMessageNotUnknown(RateLimitMessage); RateLimitMessage
    case ServiceFault => FixedMessageNotUnknown(ServiceFaultMessage); ServiceFaultMessage
    case Unknown(status, body) =>
      UnknownMessageRoundTrip(status, body);
      UnknownPrefix + NatToString(status) + UnknownSeparator + body
  }

  /** Reads the status and the body back from the message of an unknown
      status: the partner of `Message` on that kind. */
  function UnknownOfMessage(m: string): Option<(nat, string)> {
    if |m| >= |UnknownPrefix| && m[..|UnknownPrefix|] == UnknownPrefix then
      var rest := m[|UnknownPrefix|..];
      var n := DigitRun(rest, 0);
      var afterDigits := rest[n..];
      if n > 0 && |afterDigits| >= |UnknownSeparator| && afterDigits[..|UnknownSeparator|] == UnknownSeparator then
        Some((DigitsValue(rest[..n]), afterDigits[|UnknownSeparator|..]))
      else None
    else None
  }

  /** The message of an unknown status keeps both the status and the whole
      body. */
  lemma {:induction false} UnknownMessageRoundTrip(status: nat, body: string)
    ensures UnknownOfMessage(UnknownPrefix + NatToString(status) + UnknownSeparator + body) == Some((status, body))
  {
    var digits := NatToString(status);
    var m := UnknownPrefix + NatToString(status) + UnknownSeparator + body;
    assert m == UnknownPrefix + (digits + (UnknownSeparator + body));
    var rest := m[|UnknownPrefix|..];
    assert m[..|UnknownPrefix|] == UnknownPrefix;
    assert rest == digits + (UnknownSeparator + body);
    DigitRunOfMaximalRun(rest, 0, |digits|);
    assert rest[..|digits|] == digits;
    assert rest[|digits|..] == UnknownSeparator + body;
    NatToStringRoundTrip(status);
  }

  /** A text that does not open with "AP" is not the message of an unknown
      status. */
  lemma FixedMessageNotUnknown(m: string)
    requires |m| >= 2 && (m[0] != 'A' || m[1] != 'P')
    ensures UnknownOfMessage(m) == None
  {
    if |m| >= |UnknownPrefix| {
      assert m[..|UnknownPrefix|][..2] == m[..2];
    }
  }

  /** Two errors are thrown with the same message only when they are the
      same error: the five fixed messages differ from each other, and the
      message of an unknown status keeps the status and the whole body. */
  lemma MessageInjective(e1: ServiceError, e2: ServiceError)
    requires Message(e1) == Message(e2)
    ensures e1 == e2
  {
    if !e1.Unknown? && !e2.Unknown? {
      assert Message(e1)[0] == Message(e2)[0];
    }
  }

  /** The body of an unknown status is copied into the message, so whatever
      the body mentions, the message mentions too. */
  lemma UnknownMessageMentionsBody(status: nat, body: string, sub: string)
    requires Contains(body, sub)
    ensures Contains(Message(Unknown(status, body)), sub)
  {
    assert Message(Unknown(status, body)) == (UnknownPrefix + NatToString(status) + UnknownSeparator) + body;
    ContainsInSuffix(UnknownPrefix + NatToString(status) + UnknownSeparator, body, sub);
  }

  /** `analyzePolarization(content)` given the reply to its request. */
  function AnalyzePolarization(config: Option<ApiConfig>, reply: Reply): (r: Result<AnalysisReport, string>)
    ensures !HasKey(config) ==> r == Failure(NotConfiguredMessage)
    ensures HasKey(config) && reply.Received? && !IsOk(reply.status) ==>
              r == Failure(Message(ClassifyStatus(reply.status, reply.bodyText)))
    ensures r.Success? ==> reply.Received? && IsOk(reply.status) && reply.json.Success?
    ensures r.Success? ==>
              ReplyText(reply.json.value).Success? &&
              r.value == ReportOf(ReplyText(reply.json.value).value) &&
              WellFormedReport(r.value)
    ensures HasKey(config) && reply.Rejected? ==> r == Failure(reply.message)
    ensures HasKey(config) && reply.Received? && IsOk(reply.status) && reply.json.Failure? ==>
              r == Failure(reply.json.error)
    ensures HasKey(config) && reply.Received? && IsOk(reply.status) && reply.json.Success? ==>
              (r.Success? <==> ReplyText(reply.json.value).Success?) &&
              (r.Failure? ==> r.error == ParseErrorPrefix + ReplyText(reply.json.value).error)
  {
    if !HasKey(config) then Failure(NotConfiguredMessage)
    else
      match reply
      case Rejected(message) => Failure(message)
      case Received(status, bodyText, json) =>
        if !IsOk(status) then Failure(Message(ClassifyStatus(status, bodyText)))
        else
          match json
          case Failure(message) => Failure(message)
          case Success(value) => ParseAnalysis(value)
  }

  /** A 401 whose body does not mention CORS asks for the API key; a 429 is
      the rate limit. */
  lemma UnauthorizedAndRateLimited(config: Option<ApiConfig>, body: string, json: Result<JsValue, string>)
    requires HasKey(config) && !Contains(body, "CORS")
    ensures AnalyzePolarization(config, Received(401, body, json)) == Failure(InvalidKeyMessage)
    ensures AnalyzePolarization(config, Received(429, body, json)) == Failure(RateLimitMessage)
  {
  }
}
