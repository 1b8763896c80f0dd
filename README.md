# Linea PoH API proxy — verified model

This project models the decision logic of a small HTTP proxy that answers
`GET /verify?address=...` for a third-party quest platform by asking Linea's
Proof-of-Humanity (PoH) service whether an Ethereum address belongs to a
verified human. The proxy has three pieces of logic, and each one becomes a
Dafny module of pure functions and lemmas:

- `EthAddress` is the address check `isValidEthereumAddress`. That check is the
  regular expression `/^0x[a-fA-F0-9]{40}$/`. The model follows the structure
  of the expression: an anchored sequence of fixed-count character-class pieces.
  It proves that the expression accepts exactly the 42-character strings that
  are a lower-case `0x` followed by 40 hexadecimal digits of either case.
- `PoH` is the upstream client `verifyPoH` with the network taken out. What
  `fetch` produced is an input, `FetchOutcome`: a thrown transport error, or a
  response with a status and a body read. The body read is either the text or
  an error thrown while reading. `Classify` maps an outcome to the record
  `{isHuman, error}`.
- `VerifyEndpoint` is the `/verify` handler. It runs a fixed-precedence chain:
  missing address, then malformed address, then upstream error, then human or
  not human. The network is a parameter `fetch: string -> FetchOutcome`, so
  the lemmas can state which requests never reach the network.
- `JsText` holds the JavaScript string behaviour the client relies on:
  `String.prototype.trim` over the ECMA-262 WhiteSpace and LineTerminator
  characters, and the decimal rendering of the status in a template literal.
- `Wrappers` holds `Option`, which stands for `null`/`undefined`.

JavaScript truthiness is modelled where the code relies on it. `if (!address)`
rejects an absent address and also an empty one. `if (result.error)` holds only
for a non-empty string. `Classify` proves that every error message is
non-empty, so in this model an error always leads to the 500 answer.

`response.ok` is derived from the status, as the Fetch standard defines it
(200–299). It is not a separate input.

`server.js` has no result cache, no rate limiter, no 429 or 503 answer and no
lower-casing of addresses. Every upstream error is a 500, an upstream 503 or
429 included (`UpstreamUnavailableIsInternalError`), and addresses are
forwarded with their case unchanged.

## Model

| member | source | states |
|---|---|---|
| EthAddress.MatchesAnchored | server.js:14 | an anchored, flag-free match of fixed-count pieces consumes the whole string, so a match has exactly the pattern's length |
| EthAddress.IsValidEthereumAddress | server.js:13-15 | the regular-expression test `/^0x[a-fA-F0-9]{40}$/.test(address)`; only strings of exactly 42 characters pass |
| EthAddress.ValidIff | server.js:13-15 | the regular expression accepts a string iff it has 42 characters, starts with lower-case `0x`, and every character from index 2 to 41 is in `0-9`, `a-f` or `A-F` |
| EthAddress.HexTailIff | server.js:14 | the anchored piece `[a-fA-F0-9]{40}$` accepts exactly forty hexadecimal digits |
| EthAddress.RejectsEmpty | server.js:14 | the anchored expression rejects the empty string |
| EthAddress.RejectsUpperCasePrefix | server.js:14 | without the `i` flag, a string whose second character is `X` is rejected |
| EthAddress.RejectsWrongLength | server.js:14 | every length other than 42 is rejected, 41 and 43 included (so is a trailing newline, since `$` is not multiline) |
| EthAddress.RejectsNonHex | server.js:14 | one non-hexadecimal character after the prefix is enough to reject |
| EthAddress.LowerHexLetters | server.js:14 | maps each of `A`-`F` to the matching letter `a`-`f`, changes no other character, and keeps the length and which characters are hex digits |
| EthAddress.CaseOfHexLettersIrrelevant | server.js:14 | acceptance does not depend on the case of the hex letters: there is no EIP-55 checksum check |
| EthAddress.AcceptsMixedCase | server.js:14 | a concrete mixed-case address is accepted on syntax alone |
| JsText.IsWhitespace | server.js:39 | the ECMA-262 WhiteSpace and LineTerminator characters that `trim` strips; no ASCII letter or digit is among them |
| JsText.TrimStart | server.js:39 | the result is a suffix of the input, everything dropped is whitespace, and the result does not start with whitespace |
| JsText.TrimEnd | server.js:39 | the result is a prefix of the input, everything dropped is whitespace, and the result does not end with whitespace |
| JsText.Trim | server.js:39 | `trim` returns a slice of the input whose both sides are all whitespace and whose ends are not whitespace |
| JsText.TrimPadded | server.js:39 | trimming any whitespace-padded text without whitespace at its ends gives back exactly that text |
| JsText.TrimIdempotent | server.js:39 | trimming twice is the same as trimming once |
| JsText.DigitChar | server.js:35 | a digit below 10 is rendered as the character whose offset from `0` is that digit |
| JsText.DecimalString | server.js:35 | a status in a template literal renders as at least one decimal digit, with no leading zero |
| JsText.DecimalRoundTrip | server.js:35 | reading the rendered digits back gives the original number |
| PoH.PohUrl | server.js:24 | the request URL is the PoH base URL, a `/`, and the address unchanged |
| PoH.PohUrlInjective | server.js:24 | distinct addresses are requested at distinct URLs |
| PoH.FetchOutcome.Ok | server.js:31 | `response.ok` holds exactly for a status in the 2xx class |
| PoH.Classify | server.js:31-58 | `isHuman` holds iff the response is ok, the body was read, and the trimmed body is "true"; `error` is null iff the trimmed body of such a response is "true" or "false"; a non-null error means not human and is a non-empty string |
| PoH.VerifyPoH | server.js:22-59 | `verifyPoH(address)` reports human iff the request for that address's URL was answered "true"; an error never comes with `isHuman` |
| PoH.NonOkIsError | server.js:31-37 | a non-ok status gives `isHuman == false` and an error naming the status, whatever the body |
| PoH.TransportFailureIsError | server.js:53-57 | a thrown transport error gives `isHuman == false` and an error carrying its message |
| PoH.OkBodyDecides | server.js:39-52 | for an ok response, a trimmed "true" gives `{true, null}`, a trimmed "false" gives `{false, null}`, and anything else gives `isHuman == false` with an error quoting the trimmed body |
| PoH.PaddedAnswer | server.js:39-45 | whitespace around "true" or "false" in an ok response does not change the verdict |
| PoH.StatusMessageCarriesStatus | server.js:35 | the non-ok error message is the fixed prefix followed by decimal digits that read back as the received status |
| VerifyEndpoint.Truthy | server.js:77 | JavaScript truthiness as used by `!address` and `result.error` (also line 95): a value is falsy exactly when it is absent or the empty string |
| VerifyEndpoint.HandleVerify | server.js:73-113 | every answer has code 200, 400 or 500; every non-200 answer has status "failed" and a message; a 200 answer has no message |
| VerifyEndpoint.MissingAddress | server.js:77-82 | an absent or empty address gives 400 "Missing required parameter: address", ahead of the format check and whatever the upstream would say |
| VerifyEndpoint.InvalidAddressNeverQueriesUpstream | server.js:84-92 | a present but malformed address gives 400 "Invalid Ethereum address format", and the answer is the same for every network behaviour |
| VerifyEndpoint.OnlyTheAddressUrlIsQueried | server.js:92 | for a present address, the answer depends on the network only through the request for that address's URL |
| VerifyEndpoint.UpstreamErrorIsInternalError | server.js:95-101 | for a valid address, any upstream error gives 500 "Internal server error while verifying PoH status" |
| VerifyEndpoint.UpstreamUnavailableIsInternalError | server.js:95-101 | an upstream 503 or 429 is answered 500; no upstream status is passed through |
| VerifyEndpoint.Decision | server.js:73-113 | the answer is 200 "success" iff the address is well formed and the upstream said "true"; it is 200 "failed" iff the address is well formed and the upstream said "false" |
| VerifyEndpoint.SuccessIffHuman | server.js:103-112 | the `status` field is "success" iff the address is well formed and `verifyPoH` reported a human |
| VerifyEndpoint.HumanScenario | server.js:73-113 | an address of forty `A`s whose upstream body is "true" plus a newline is answered 200 "success" |

## Left out

- The Express app, routing, `app.listen` and the port setting (server.js:1-3, 141-147) are framework plumbing.
- Query-string parsing is left out. The address is `Option<string>`. Express can also produce an array or an object for `address` (for example `?address[]=...`); the model does not cover that.
- The real `fetch`, `await` and `response.text()` (server.js:24-29, 39) are network I/O and asynchrony. Their outcome is an input. There is no timeout and no retry, and the model has none either.
- The request's `Accept: text/plain` header (server.js:26-28) is not modelled. It affects only the upstream.
- The `console.error` and `console.log` logging (server.js:96, 142-144) is output only.
- The `/health` and `/` endpoints (server.js:118-138) return constant JSON and have no logic.
- `FetchOutcome.status` is a `nat`, so the model does not bound HTTP statuses to 200–599.
- A thrown value without a `message` (rendered "undefined") is not modelled. A transport failure always carries a string.
- Cache, rate limiter, 429 and 503 answers, and cache-key normalisation are not modelled because `server.js` has none of them.
