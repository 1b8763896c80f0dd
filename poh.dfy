/**
 * The upstream client of the proxy (server.js, `verifyPoH`): one GET of
 * `<LineaPohApiBase>/<address>` whose outcome is mapped to the record
 * `{isHuman, error}`.
 *
 * The network call is not modelled; its outcome is an input. `fetch` either
 * throws (a transport failure) or yields a response with a status; reading
 * the body of an ok response either gives its text or throws. Whatever is
 * thrown inside the `try` ends in the `catch` branch.
 */
module PoH {
  import opened Wrappers
  import opened JsText

  const LineaPohApiBase: string := "https://poh-api.linea.build/poh/v2"

  /** The URL `verifyPoH` requests for an address. */
  function PohUrl(address: string): (url: string)
    ensures |url| == |LineaPohApiBase| + 1 + |address|
    ensures url[..|LineaPohApiBase|] == LineaPohApiBase && url[|LineaPohApiBase|] == '/'
    ensures url[|LineaPohApiBase| + 1..] == address
  {
    LineaPohApiBase + "/" + address
  }

  /** Distinct addresses are requested at distinct URLs. */
  lemma PohUrlInjective(a: string, b: string)
    requires PohUrl(a) == PohUrl(b)
    ensures a == b
  {
  }

  /** What `await response.text()` produced. */
  datatype BodyRead = BodyText(text: string) | BodyReadError(message: string)

  /** What `await fetch(...)` produced. */
  datatype FetchOutcome =
    | TransportFailure(message: string)
    | Response(status: nat, body: BodyRead)
  {
    /** `response.ok`: by the Fetch standard, the status is in 200-299. */
    predicate Ok()
      requires Response?
      ensures Ok() <==> status / 100 == 2
    {
      200 <= status <= 299
    }
  }

  /** The record `{isHuman, error}`; `error` is `null` when absent. */
  datatype PohResult = PohResult(isHuman: bool, error: Option<string>)

  const StatusErrorPrefix: string := "Linea PoH API returned status "
  const UnexpectedResponsePrefix: string := "Unexpected response from Linea PoH API: "
  const CallFailedPrefix: string := "Failed to call Linea PoH API: "

  /** The outcome carries an answer at all: an ok response whose body was read. */
  predicate Answered(outcome: FetchOutcome) {
    outcome.Response? && outcome.Ok() && outcome.body.BodyText?
  }

  /** The upstream said "true", up to surrounding whitespace. */
  predicate SaysHuman(outcome: FetchOutcome) {
    Answered(outcome) && Trim(outcome.body.text) == "true"
  }

  /** The upstream said "false", up to surrounding whitespace. */
  predicate SaysNotHuman(outcome: FetchOutcome) {
    Answered(outcome) && Trim(outcome.body.text) == "false"
  }

  /** The classification in `verifyPoH`, once `fetch` has produced `outcome`.
      Only a trimmed "true" is human; an error comes with `isHuman == false`,
      and every error message is a non-empty string (so JavaScript treats it
      as true); there is no error exactly when the upstream said "true" or "false". */
  function Classify(outcome: FetchOutcome): (r: PohResult)
    ensures r.isHuman <==> SaysHuman(outcome)
    ensures r.error.None? <==> SaysHuman(outcome) || SaysNotHuman(outcome)
    ensures r.error.Some? ==> !r.isHuman && r.error.value != ""
  {
    match outcome
    case TransportFailure(message) =>
      PohResult(false, Some(CallFailedPrefix + message))
    case Response(status, body) =>
      if !outcome.Ok() then
        PohResult(false, Some(StatusErrorPrefix + DecimalString(status)))
      else
        match body
        case BodyReadError(message) =>
          PohResult(false, Some(CallFailedPrefix + message))
        case BodyText(raw) =>
          var text := Trim(raw);
          if text == "true" then PohResult(true, None)
          else if text == "false" then PohResult(false, None)
          else PohResult(false, Some(UnexpectedResponsePrefix + text))
  }

  /** `verifyPoH(address)`, with the network supplied as `fetch`. */
  function VerifyPoH(address: string, fetch: string -> FetchOutcome): (r: PohResult)
    ensures r.isHuman <==> SaysHuman(fetch(PohUrl(address)))
    ensures r.error.Some? ==> !r.isHuman
  {
    Classify(fetch(PohUrl(address)))
  }

  /** A non-ok status is an error, whatever the body; the message names the status. */
  lemma NonOkIsError(status: nat, body: BodyRead)
    requires !(200 <= status <= 299)
    ensures var r := Classify(Response(status, body));
      !r.isHuman && r.error == Some(StatusErrorPrefix + DecimalString(status))
  {
  }

  /** A transport failure is an error that carries the thrown message. */
  lemma TransportFailureIsError(message: string)
    ensures var r := Classify(TransportFailure(message));
      !r.isHuman && r.error == Some(CallFailedPrefix + message)
  {
  }

  /** An ok response is decided by its trimmed body: "true" is human, "false"
      is not human, anything else is an error quoting the trimmed body. */
  lemma OkBodyDecides(status: nat, raw: string)
    requires 200 <= status <= 299
    ensures Trim(raw) == "true" ==> Classify(Response(status, BodyText(raw))) == PohResult(true, None)
    ensures Trim(raw) == "false" ==> Classify(Response(status, BodyText(raw))) == PohResult(false, None)
    ensures Trim(raw) != "true" && Trim(raw) != "false" ==>
      Classify(Response(status, BodyText(raw))) == PohResult(false, Some(UnexpectedResponsePrefix + Trim(raw)))
  {
  }

  /** Whitespace around the upstream's answer does not change it. */
  lemma PaddedAnswer(status: nat, w1: string, answer: string, w2: string)
    requires 200 <= status <= 299
    requires AllWhitespace(w1) && AllWhitespace(w2)
    requires answer == "true" || answer == "false"
    ensures Classify(Response(status, BodyText(w1 + answer + w2))) == PohResult(answer == "true", None)
  {
    TrimPadded(w1, answer, w2);
  }

  /** The status in an error message reads back as the status received. */
  lemma StatusMessageCarriesStatus(status: nat, body: BodyRead)
    requires !(200 <= status <= 299)
    ensures var e := Classify(Response(status, body)).error;
      && e.Some?
      && |e.value| > |StatusErrorPrefix|
      && e.value[..|StatusErrorPrefix|] == StatusErrorPrefix
      && AllDigits(e.value[|StatusErrorPrefix|..])
      && DecimalValue(e.value[|StatusErrorPrefix|..]) == status
  {
    var e := StatusErrorPrefix + DecimalString(status);
    assert e[|StatusErrorPrefix|..] == DecimalString(status);
    DecimalRoundTrip(status);
  }
}
