# Forwarder core, modelled in Dafny

`ForwarderController` is a single-upstream HTTP relay built on Spring WebFlux.
It takes any request on any path and sends an equivalent request to one
configured host. The caller gets the upstream's status with no body, or 502 (Bad
Gateway) when the call fails or the upstream answers 4xx/5xx. The upstream
response headers that the returned entity also carries are not modelled.

This project models the controller's forwarding core as values and proves
what the code promises:

- `validateConfiguration` rejects a null or blank upstream host.
- `extractClientIp` picks the client address from `X-Forwarded-For`, or else
  from the peer address, or else uses `"unknown"`.
- The target string handed to `WebClient.uri(...)` is the host, the raw
  path and `?` plus the raw query, unchanged.
- The outbound headers are the inbound ones, copied value by value. Then
  `X-Original-IP` is set to the resolved client.
- The outbound body is the inbound body, or `""` when there is none. The
  logged content length is the UTF-8 byte count, or 0.
- An access record is written before dispatch, and only when
  `access.logging.enabled` is true.
- Any error from the single upstream call becomes 502 plus one error record
  naming the target.

Modules:

- `Wrappers`: `Option` (a possibly-null value) and `Result` (a computation
  that may throw).
- `JavaText`: the JDK string operations the controller relies on.
  - `String.isBlank`, based on `Character.isWhitespace`.
  - `String.trim`.
  - `String.split` with a one-character separator and limit 0. This covers
    the removal of trailing empty strings, and the empty array that a value
    of separators alone produces.
  - Case-insensitive comparison of header names.
  - The UTF-8 byte length of a string.
- `Headers`: Spring's `HttpHeaders`, a case-insensitive multi-map kept as a
  list of `(name, values)` entries.
  - `add` and `set` are pure functions.
  - `HttpHeaders` is a class holding the mutable builder that the request
    spec's `headers(...)` callback fills in.
  - `CopyHeaders` is the callback's nested copy loop, proved equal to
    `OutboundHeaders`.
- `Forwarder`: the configuration gate, client resolution, URL assembly,
  body and length, the outcome mapping, and the whole exchange.
  - `Exchange` is the exchange as a function.
  - `ForwardRequest` is the exchange as the controller runs it, step by step.

Inputs that the framework supplies become plain parameters: the host and the
logging flag (as `Config`), and the method, raw path, raw query, headers,
body and peer address (as `Request`). The upstream call is the input value
`Upstream`: either a status code or a transport failure. The events the
handler leaves behind form an output sequence: an access record, the one
request handed to `WebClient` (method, target string, headers built by the
callback, body value), and an error record.

Three behaviours of the code differ from what a reader of a "transparent
relay" might expect. The model follows the code:

- Not every upstream status is relayed. `retrieve()` raises an error for
  every 4xx and 5xx status, so `onErrorResume` turns an upstream 404 into
  502 as well (`Forwarder.NotFoundBecomesBadGateway`).
- The resolved client address can be empty. A first segment of blanks trims
  to `""` (`Forwarder.ClientIpMayBeEmpty`).
- Client resolution can fail. An `X-Forwarded-For` value made only of commas
  makes `split(",")` return an empty array, and `[0]` throws. The handler
  then fails before logging or sending anything
  (`Forwarder.ClientIpCommasThrow`, `Forwarder.ExchangeSpec`).

## Model

| member | source | states |
|---|---|---|
| `Forwarder.ValidateConfiguration` | src/main/java/com/banyazavi/forwarder/ForwarderController.java:31-36 | startup fails, with the fixed message, exactly when the host is null or blank; otherwise the configuration holds the host and flag unchanged |
| `Forwarder.ValidationIsOnlyBlankness` | src/main/java/com/banyazavi/forwarder/ForwarderController.java:33-35 | a host that is not a URL is accepted; a host of whitespace, an empty host and a null host are rejected |
| `Forwarder.TargetShape` | src/main/java/com/banyazavi/forwarder/ForwarderController.java:43-46 | the target is the host followed by the logged URI; that URI is the raw path, then `?` and the raw query exactly when a query is present; an empty query still leaves a trailing `?` |
| `Forwarder.UriRoundTrip` | src/main/java/com/banyazavi/forwarder/ForwarderController.java:43-45 | no decoding or normalisation: the raw path and raw query are recovered exactly from the URI string passed on |
| `Forwarder.UriRebuilt` | src/main/java/com/banyazavi/forwarder/ForwarderController.java:45 | every URI is rebuilt exactly from the path and query read off it (the converse of the round trip) |
| `Forwarder.ContentLength` | src/main/java/com/banyazavi/forwarder/ForwarderController.java:48-49 | 0 without a body; with one, between one and four bytes per code point |
| `Forwarder.ContentLengthOfSentBody` | src/main/java/com/banyazavi/forwarder/ForwarderController.java:48-49 | the logged length is the UTF-8 size of the body actually sent (line 66): the inbound body, or `""` when absent |
| `Forwarder.ClientIpOrder` | src/main/java/com/banyazavi/forwarder/ForwarderController.java:73-86 | the first signal wins. With an `X-Forwarded-For` value, the result is the trimmed text before the first comma of the first value, and it fails exactly when that value is commas alone. Without one, the result is the peer address, or `"unknown"` |
| `Forwarder.ClientIpFirstHop` | src/main/java/com/banyazavi/forwarder/ForwarderController.java:77-78 | for `first,rest`, the result is `trim(first)` whatever the later hops, later header values and peer |
| `Forwarder.ClientIpExample` | src/main/java/com/banyazavi/forwarder/ForwarderController.java:78 | `10.0.0.5, 10.0.0.1` resolves to exactly `10.0.0.5` |
| `Forwarder.ClientIpMayBeEmpty` | src/main/java/com/banyazavi/forwarder/ForwarderController.java:78 | ` ,x` resolves to the empty string, with no fallback |
| `Forwarder.ClientIpCommasThrow` | src/main/java/com/banyazavi/forwarder/ForwarderController.java:78 | `,,` makes `split(",")[0]` throw, whatever the peer |
| `Forwarder.CallerStatusSpec` | src/main/java/com/banyazavi/forwarder/ForwarderController.java:66-70 | a non-error upstream status passes through unchanged; a transport failure or a 4xx/5xx status becomes 502; the caller never sees any other error status; an error reaches `onErrorResume` exactly in those cases |
| `Forwarder.NotFoundBecomesBadGateway` | src/main/java/com/banyazavi/forwarder/ForwarderController.java:66-69 | an upstream 404 reaches the caller as 502; 204 and 302 pass through |
| `Forwarder.ExchangeSpec` | src/main/java/com/banyazavi/forwarder/ForwarderController.java:42-70 | once the client is resolved, the events are: one access record first, exactly when logging is on; then exactly one dispatch, of the translated request; then exactly one error record naming the full target, exactly when the call failed. The reply is the mapped status. If resolution throws, there are no events at all |
| `Forwarder.NoAccessLogWhenDisabled` | src/main/java/com/banyazavi/forwarder/ForwarderController.java:53-55 | with logging off, no request yields an access record, whatever its outcome |
| `Forwarder.DispatchedRequest` | src/main/java/com/banyazavi/forwarder/ForwarderController.java:57-66 | the request handed to `WebClient` has: the inbound method; the target string built by lines 45-46; under each name other than `X-Original-IP`, exactly the inbound values; `X-Original-IP` holding only the client; no duplicate names; the inbound body or `""`, whose UTF-8 size is the logged length |
| `Forwarder.ForwardRequest` | src/main/java/com/banyazavi/forwarder/ForwarderController.java:39-71 | the statement-by-statement handler, including the header copy loop, produces exactly `Exchange` |
| `Headers.CopyHeaders` | src/main/java/com/banyazavi/forwarder/ForwarderController.java:57-64 | the nested `forEach`/`for` loop of `add` calls, followed by `set`, builds exactly `OutboundHeaders` |
| `Headers.HttpHeaders.Add` | src/main/java/com/banyazavi/forwarder/ForwarderController.java:60 | `add` keeps the map case-insensitive; the new entries are `AddValue` of the old ones |
| `Headers.HttpHeaders.Set` | src/main/java/com/banyazavi/forwarder/ForwarderController.java:63 | `set` keeps the map case-insensitive; the new entries are `SetValue` of the old ones |
| `Headers.AddValueSpec` | src/main/java/com/banyazavi/forwarder/ForwarderController.java:60 | `add` appends exactly one value under the names equal to its key, ignoring case, and changes no other name |
| `Headers.AddValuesSpec` | src/main/java/com/banyazavi/forwarder/ForwarderController.java:59-61 | adding a value list appends exactly that list, in order, under the key |
| `Headers.CopyIntoSpec` | src/main/java/com/banyazavi/forwarder/ForwarderController.java:58-62 | copying appends under every name exactly the inbound values for it, in order and with multiplicity, and keeps names distinct |
| `Headers.SetValueSpec` | src/main/java/com/banyazavi/forwarder/ForwarderController.java:63 | `set` leaves exactly one value under the key, ignoring case, and every other name as it was |
| `Headers.OutboundHeadersSpec` | src/main/java/com/banyazavi/forwarder/ForwarderController.java:57-64 | under `X-Original-IP` (any case) the outbound headers hold only the resolved client, replacing inbound values; under every other name they hold exactly the inbound values; `get("X-Original-IP")` is that one value |
| `Headers.GetIsValues` | src/main/java/com/banyazavi/forwarder/ForwarderController.java:75 | `get` is null exactly when no entry has the name, ignoring case; its list is always a prefix of the name's values, and all of them in a case-insensitive map; there, when no entry is an empty list, `get` is null exactly when the name has no values |
| `JavaText.Trim` | src/main/java/com/banyazavi/forwarder/ForwarderController.java:78 | `trim` output starts and ends with a char above U+0020, is empty for input made only of chars at or below U+0020, and leaves untrimmed input unchanged |
| `JavaText.TrimIsSlice` | src/main/java/com/banyazavi/forwarder/ForwarderController.java:78 | `trim` output is the slice of the input between margins made only of chars at or below U+0020 |
| `JavaText.SplitEmpty` | src/main/java/com/banyazavi/forwarder/ForwarderController.java:78 | `split(",")` returns an empty array, so that `[0]` throws, exactly when the text is a non-empty run of commas |
| `JavaText.SplitHead` | src/main/java/com/banyazavi/forwarder/ForwarderController.java:78 | when `split(",")` is not empty, its first element is the text before the first comma, or the whole text when there is no comma |
| `JavaText.EqualsIgnoreCaseLetters` | src/main/java/com/banyazavi/forwarder/ForwarderController.java:75 | header names are the same key exactly when they have the same length and differ, char by char, at most in the case of ASCII letters |
| `JavaText.Utf8Length` | src/main/java/com/banyazavi/forwarder/ForwarderController.java:49 | the UTF-8 length is between one and four bytes per code point |
| `JavaText.Utf8LengthAscii` | src/main/java/com/banyazavi/forwarder/ForwarderController.java:49 | the UTF-8 length equals the number of chars exactly when the text is ASCII |
| `JavaText.Utf8LengthConcat` | src/main/java/com/banyazavi/forwarder/ForwarderController.java:49 | the UTF-8 length of a concatenation is the sum of the two lengths |
| `Forwarder.ExtractClientIp` | src/main/java/com/banyazavi/forwarder/ForwarderController.java:73-86 | `extractClientIp`: the first `X-Forwarded-For` value split on `,`, first piece trimmed, else the peer address, else `"unknown"`; what it resolves to is stated by `ClientIpOrder` and `ClientIpFirstHop` |
| `Forwarder.FullUri` | src/main/java/com/banyazavi/forwarder/ForwarderController.java:45 | the raw path, then `?` and the raw query when one is present; stated by `TargetShape`, `UriRoundTrip` and `UriRebuilt` |
| `Forwarder.FullTarget` | src/main/java/com/banyazavi/forwarder/ForwarderController.java:46 | the host followed by `FullUri`; stated by `TargetShape` |
| `Forwarder.IsError` | src/main/java/com/banyazavi/forwarder/ForwarderController.java:66 | `HttpStatusCode.isError`, the test `retrieve()` applies: a 4xx or 5xx status; stated by `CallerStatusSpec` |
| `Forwarder.Failed` | src/main/java/com/banyazavi/forwarder/ForwarderController.java:66-68 | the error `onErrorResume` receives, if any: an error status or a transport failure; stated by `CallerStatusSpec` |
| `Forwarder.CallerStatus` | src/main/java/com/banyazavi/forwarder/ForwarderController.java:66-69 | the status the caller gets: the upstream status, or 502 on any error; stated by `CallerStatusSpec` and `NotFoundBecomesBadGateway` |
| `Forwarder.AccessRecords` | src/main/java/com/banyazavi/forwarder/ForwarderController.java:53-55 | the access record, present only when logging is on; stated by `ExchangeSpec` and `NoAccessLogWhenDisabled` |
| `Forwarder.Exchange` | src/main/java/com/banyazavi/forwarder/ForwarderController.java:42-70 | one request from start to reply as a value; stated by `ExchangeSpec` and `DispatchedRequest`, and `ForwardRequest` is proved equal to it |
| `Headers.Get` | src/main/java/com/banyazavi/forwarder/ForwarderController.java:75 | `HttpHeaders.get`: the values of the first entry with the name, ignoring case, or null; stated by `GetIsValues` |
| `Headers.AddValue` | src/main/java/com/banyazavi/forwarder/ForwarderController.java:60 | `HttpHeaders.add`; stated by `AddValueSpec` |
| `Headers.CopyInto` | src/main/java/com/banyazavi/forwarder/ForwarderController.java:58-62 | the `forEach`/`for` copy as a value; stated by `CopyIntoSpec` |
| `Headers.SetValue` | src/main/java/com/banyazavi/forwarder/ForwarderController.java:63 | `HttpHeaders.set`; stated by `SetValueSpec` |
| `Headers.OutboundHeaders` | src/main/java/com/banyazavi/forwarder/ForwarderController.java:57-64 | the headers the callback builds; stated by `OutboundHeadersSpec`, and `CopyHeaders` is proved equal to it |
| `Forwarder.OutboundBody` | src/main/java/com/banyazavi/forwarder/ForwarderController.java:66 | the body value `body != null ? body : ""`; stated by `ContentLengthOfSentBody` and `DispatchedRequest` |
| `Forwarder.FailureRecords` | src/main/java/com/banyazavi/forwarder/ForwarderController.java:67-68 | the one `log.error` record naming the full target, present exactly when the call failed; stated by `ExchangeSpec` |
| `Headers.AddValues` | src/main/java/com/banyazavi/forwarder/ForwarderController.java:59-61 | the inner `for` of `add` calls over one entry's values; stated by `AddValuesSpec` |
| `JavaText.IsBlank` | src/main/java/com/banyazavi/forwarder/ForwarderController.java:33 | `String.isBlank`: empty or `Character.isWhitespace` code points only; stated, for the gate, by `ValidateConfiguration` and `ValidationIsOnlyBlankness` |
| `JavaText.Split` | src/main/java/com/banyazavi/forwarder/ForwarderController.java:78 | `String.split(",")` with limit 0; stated by `SplitEmpty` and `SplitHead` |

## Left out

- Spring wiring is not modelled. This covers `@Value` injection, the
  `@PostConstruct` lifecycle, `@RequestMapping` routing and `@RequestBody`
  decoding. Their results are plain inputs.
- The real `WebClient` call and the Reactor `Mono` are not modelled, because
  they are network I/O and asynchrony. The call's result is the input
  `Upstream`. The events follow the handler's logical order: access record,
  dispatch, error record.
- Upstream response headers in the `ResponseEntity` from `toBodilessEntity()`
  are not modelled. The reply is a status only; the model makes no claim that
  headers are dropped.
- SLF4J message formatting and log sinks are not modelled. Each record keeps
  only the fields the message prints. For a 4xx/5xx error, the record carries
  the status rather than the exception message.
- What status the framework sends when the handler throws, after a
  commas-only `X-Forwarded-For`, is not modelled. The reply is `Thrown`.
- `InetAddress.getHostAddress()` is not modelled. The peer address is an
  opaque string, and the case of an unresolved socket address (a null
  `getAddress()`) is left out.
- How the server adapter groups inbound header values into keys is not
  modelled. The inbound headers are the `(name, values)` list that `forEach`
  presents. No distinct-keys assumption is made.
- `JavaText.LowerChar`: header-name case folding covers ASCII letters only.
  The full Unicode lower-casing that `Locale.ENGLISH` applies to non-ASCII
  names is not modelled.
- `JavaText.Utf8Length`: strings are sequences of Unicode scalar values, so
  the encoding of unpaired UTF-16 surrogates (one `?` byte each in Java) is
  not modelled.
- `Forwarder.ContentLength`: a body whose UTF-8 encoding exceeds Java's
  array limit (`getBytes` then throws) is not modelled.
- `Headers.SetValue`: entry order and key spelling are defined by
  `SetValue`, but no lemma states them.
- `Headers.Get`: on the inbound list, which may hold several entries equal
  ignoring case, `get` reads only the first matching entry, so a first
  matching entry with no values hides later ones from `extractClientIp`.
  How the server adapter's own `get` merges such entries is not modelled.
- `Forwarder.DispatchedRequest`: `Dispatch` is the request as handed to
  `WebClient`. The URI-template encoding that `uri(String)` applies to the
  target (which can re-encode `%` and drop the `?` of an empty query) is not
  modelled, and neither are the `Content-Length` and `Content-Type` headers
  the body writer adds. Upstream status codes outside 100..999 cannot be
  represented by `StatusCode`.
