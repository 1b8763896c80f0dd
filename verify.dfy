/**
 * The `/verify` endpoint of the proxy (server.js, `app.get('/verify', ...)`):
 * a chain of early returns from the `address` query parameter, through the
 * address check and the upstream client, to the HTTP status code and JSON body.
 *
 * The query parameter arrives as `Option<string>` (absent or a string); the
 * network is supplied as `fetch`, so that the lemmas can state which requests
 * never reach it.
 */
module VerifyEndpoint {
  import opened Wrappers
  import opened EthAddress
  import opened JsText
  import opened PoH

  /** The JSON `status` field. */
  datatype BodyStatus = Success | Failed

  /** An HTTP answer: the status code and the JSON body `{status, message?}`. */
  datatype HttpResponse = HttpResponse(code: nat, status: BodyStatus, message: Option<string>)

  const MissingAddressMessage: string := "Missing required parameter: address"
  const InvalidAddressMessage: string := "Invalid Ethereum address format"
  const InternalErrorMessage: string := "Internal server error while verifying PoH status"

  /** JavaScript truthiness of a value that is `undefined`/`null` or a string:
      only a non-empty string is true. */
  predicate Truthy(v: Option<string>)
    ensures !Truthy(v) <==> v == None || v == Some("")
  {
    v.Some? && v.value != ""
  }

  /** The handler of `GET /verify?address=...`. Every answer is 200, 400 or 500;
      every answer but 200 has status "failed" and a message; a 200 has none. */
  function HandleVerify(address: Option<string>, fetch: string -> FetchOutcome): (r: HttpResponse)
    ensures r.code in {200, 400, 500}
    ensures r.code != 200 ==> r.status == Failed && r.message.Some?
    ensures r.code == 200 ==> r.message.None?
  {
    if !Truthy(address) then
      HttpResponse(400, Failed, Some(MissingAddressMessage))
    else if !IsValidEthereumAddress(address.value) then
      HttpResponse(400, Failed, Some(InvalidAddressMessage))
    else
      var result := VerifyPoH(address.value, fetch);
      if Truthy(result.error) then
        HttpResponse(500, Failed, Some(InternalErrorMessage))
      else if result.isHuman then
        HttpResponse(200, Success, None)
      else
        HttpResponse(200, Failed, None)
  }

  /** An absent or empty address is a 400 "missing parameter", before any
      format check and whatever the upstream would say. */
  lemma MissingAddress(address: Option<string>, fetch: string -> FetchOutcome)
    requires address == None || address == Some("")
    ensures HandleVerify(address, fetch) == HttpResponse(400, Failed, Some(MissingAddressMessage))
  {
  }

  /** A present but malformed address is a 400 "invalid format", and the
      answer is the same whatever the network would have done: the upstream
      client is never consulted. */
  lemma InvalidAddressNeverQueriesUpstream(a: string, fetch1: string -> FetchOutcome, fetch2: string -> FetchOutcome)
    requires a != "" && !WellFormedAddress(a)
    ensures HandleVerify(Some(a), fetch1) == HttpResponse(400, Failed, Some(InvalidAddressMessage))
    ensures HandleVerify(Some(a), fetch1) == HandleVerify(Some(a), fetch2)
  {
    ValidIff(a);
  }

  /** For a present address, the answer depends on the network only through
      the one request for that address's URL. */
  lemma OnlyTheAddressUrlIsQueried(a: string, fetch1: string -> FetchOutcome, fetch2: string -> FetchOutcome)
    requires fetch1(PohUrl(a)) == fetch2(PohUrl(a))
    ensures HandleVerify(Some(a), fetch1) == HandleVerify(Some(a), fetch2)
  {
  }

  /** Every error from the upstream client becomes a 500: non-ok status,
      unreadable body, unexpected body and transport failure alike. */
  lemma UpstreamErrorIsInternalError(a: string, fetch: string -> FetchOutcome)
    requires WellFormedAddress(a)
    requires Classify(fetch(PohUrl(a))).error.Some?
    ensures HandleVerify(Some(a), fetch) == HttpResponse(500, Failed, Some(InternalErrorMessage))
  {
    ValidIff(a);
  }

  /** An upstream answering 503 (or 429) is still a 500 here: no status is
      passed through and nothing distinguishes upstream rate limiting. */
  lemma UpstreamUnavailableIsInternalError(a: string, fetch: string -> FetchOutcome, body: BodyRead)
    requires WellFormedAddress(a)
    requires fetch(PohUrl(a)) == Response(503, body) || fetch(PohUrl(a)) == Response(429, body)
    ensures HandleVerify(Some(a), fetch).code == 500
  {
    UpstreamErrorIsInternalError(a, fetch);
  }

  /** The answer is 200 "success" exactly when the address is well formed and
      the upstream answered "true"; 200 "failed" exactly when it is well formed
      and the upstream answered "false". */
  lemma Decision(address: Option<string>, fetch: string -> FetchOutcome)
    ensures HandleVerify(address, fetch) == HttpResponse(200, Success, None)
        <==> address.Some? && WellFormedAddress(address.value) && SaysHuman(fetch(PohUrl(address.value)))
    ensures HandleVerify(address, fetch) == HttpResponse(200, Failed, None)
        <==> address.Some? && WellFormedAddress(address.value) && SaysNotHuman(fetch(PohUrl(address.value)))
  {
    if address.Some? {
      ValidIff(address.value);
    }
  }

  /** The `status` field is "success" exactly on a 200 for a human. */
  lemma SuccessIffHuman(address: Option<string>, fetch: string -> FetchOutcome)
    ensures HandleVerify(address, fetch).status == Success
        <==> address.Some? && WellFormedAddress(address.value) && VerifyPoH(address.value, fetch).isHuman
  {
    if address.Some? {
      ValidIff(address.value);
    }
  }

  /** Scenario: an address of forty `A`s whose upstream body is "true"
      followed by a newline is answered 200 "success". */
  lemma HumanScenario(fetch: string -> FetchOutcome)
    requires fetch(PohUrl("0x" + seq(40, _ => 'A'))) == Response(200, BodyText("true\n"))
    ensures HandleVerify(Some("0x" + seq(40, _ => 'A')), fetch) == HttpResponse(200, Success, None)
  {
    var a := "0x" + seq(40, _ => 'A');
    assert WellFormedAddress(a);
    PaddedAnswer(200, "", "true", "\n");
    assert "" + "true" + "\n" == "true\n";
    Decision(Some(a), fetch);
  }
}
