/**
 * The forwarding core of ForwarderController: the configuration gate, the
 * resolution of the client's address, the translation of an inbound request
 * into the outbound one, the optional access-log record and the mapping of
 * the upstream's outcome to the status the caller sees.
 *
 * The upstream call itself is not modelled: its result is an input value,
 * and one exchange consumes it exactly once.
 */
module Forwarder {
  import opened Wrappers
  import opened JavaText
  import opened Headers

  // ------------------------------------------------------ configuration gate

  const MISSING_HOST := "Missing required configuration: forwarder.target-host"

  /** The controller's two settings: `forwarder.target-host` and `access.logging.enabled`. */
  datatype Config = Config(forwardHost: string, loggingEnabled: bool)

  /** A configuration validateConfiguration let through: the only kind a
      request is ever served with. */
  type ValidConfig = c: Config | !IsBlank(c.forwardHost) witness Config("h", false)

  /** validateConfiguration: a null (absent) or blank host stops startup with
      an IllegalStateException; any other text is accepted as it is. */
  function ValidateConfiguration(forwardHost: Option<string>, loggingEnabled: bool): (r: Result<ValidConfig, string>)
    ensures r.Err? <==> forwardHost.None? || IsBlank(forwardHost.value)
    ensures r.Err? ==> r.error == MISSING_HOST
    ensures r.Ok? ==> r.value.forwardHost == forwardHost.value && r.value.loggingEnabled == loggingEnabled
  {
    match forwardHost
    case None => Err(MISSING_HOST)
    case Some(host) => if IsBlank(host) then Err(MISSING_HOST) else Ok(Config(host, loggingEnabled))
  }

  /** No syntax check: a host that is not a URL passes, one of spaces and tabs does not. */
  lemma ValidationIsOnlyBlankness()
    ensures ValidateConfiguration(Some("not a url"), true).Ok?
    ensures ValidateConfiguration(Some(" \t\n"), true).Err?
    ensures ValidateConfiguration(Some(""), false).Err?
    ensures ValidateConfiguration(None, false).Err?
  {
  }

  // ----------------------------------------------------------- target URL

  /** The path and query as the access log shows them: the raw path, then
      `?` and the raw query when the URI has one (even an empty one). */
  function FullUri(rawPath: string, rawQuery: Option<string>): string {
    rawPath + match rawQuery
              case Some(q) => "?" + q
              case None => ""
  }

  /** The URL the request is sent to: the host followed by FullUri. */
  function FullTarget(forwardHost: string, rawPath: string, rawQuery: Option<string>): string {
    forwardHost + FullUri(rawPath, rawQuery)
  }

  /** Reading a request URI back: the raw path runs up to the first `?`,
      the raw query is whatever follows it. */
  function SplitUri(uri: string): (string, Option<string>) {
    var path := UpTo(uri, '?');
    if |path| == |uri| then (uri, None) else (path, Some(uri[|path| + 1..]))
  }

  /** The target string keeps the host, the path and the query as they are: the host
      is its prefix, the logged URI is the rest, and nothing is inserted
      except the one `?` that a present query brings, empty or not. */
  lemma TargetShape(forwardHost: string, rawPath: string, rawQuery: Option<string>)
    ensures FullTarget(forwardHost, rawPath, rawQuery)[..|forwardHost|] == forwardHost
    ensures FullTarget(forwardHost, rawPath, rawQuery)[|forwardHost|..] == FullUri(rawPath, rawQuery)
    ensures FullUri(rawPath, rawQuery)[..|rawPath|] == rawPath
    ensures rawQuery.None? ==> FullTarget(forwardHost, rawPath, rawQuery) == forwardHost + rawPath
    ensures rawQuery.Some? ==> FullTarget(forwardHost, rawPath, rawQuery) == forwardHost + rawPath + "?" + rawQuery.value
    ensures rawQuery == Some("") ==> FullTarget(forwardHost, rawPath, rawQuery) == forwardHost + rawPath + "?"
  {
  }

  /** No decoding and no normalisation: a raw path (which never holds a `?`)
      and the raw query are recovered exactly from the URI string handed to WebClient. */
  lemma UriRoundTrip(rawPath: string, rawQuery: Option<string>)
    requires '?' !in rawPath
    ensures SplitUri(FullUri(rawPath, rawQuery)) == (rawPath, rawQuery)
  {
    var uri := FullUri(rawPath, rawQuery);
    UpToPrefix(rawPath, uri, '?');
    if rawQuery.Some? {
      assert uri == rawPath + "?" + rawQuery.value;
      assert uri[|rawPath| + 1..] == rawQuery.value;
    } else {
      assert uri == rawPath;
    }
  }

  /** And every URI is rebuilt exactly from the parts SplitUri reads off it. */
  lemma UriRebuilt(uri: string)
    ensures '?' !in SplitUri(uri).0
    ensures FullUri(SplitUri(uri).0, SplitUri(uri).1) == uri
  {
  }

  /** UpTo stops at the end of a separator-free prefix followed by a separator or the end. */
  lemma UpToPrefix(p: string, s: string, sep: char)
    requires sep !in p && |p| <= |s| && s[..|p|] == p
    requires |p| < |s| ==> s[|p|] == sep
    ensures UpTo(s, sep) == p
  {
  }

  // ------------------------------------------------------------ body

  /** The body sent upstream: the inbound one, or "" when there is none. */
  function OutboundBody(body: Option<string>): string {
    body.GetOr("")
  }

  /** The logged size: the UTF-8 length of the body, 0 without one. */
  function ContentLength(body: Option<string>): (n: nat)
    ensures body.None? ==> n == 0
    ensures body.Some? ==> |body.value| <= n <= 4 * |body.value|
  {
    match body
    case Some(b) => Utf8Length(b)
    case None => 0
  }

  /** The logged size is the byte size of the body actually sent, and an
      absent body is sent as the empty one. */
  lemma ContentLengthOfSentBody(body: Option<string>)
    ensures ContentLength(body) == Utf8Length(OutboundBody(body))
    ensures body.Some? ==> OutboundBody(body) == body.value
    ensures body.None? ==> OutboundBody(body) == ""
  {
  }

  // ------------------------------------------------------ client identity

  const FORWARDED_FOR := "X-Forwarded-For"
  const UNKNOWN := "unknown"

  /** `split(",")[0]` on a value made only of commas: split returns an empty
      array and the index throws ArrayIndexOutOfBoundsException. */
  datatype ClientError = IndexOutOfBounds

  /** extractClientIp: the first comma-separated segment of the first
      X-Forwarded-For value, trimmed; else the peer's address text; else
      "unknown". */
  function ExtractClientIp(headers: HeaderList, remoteAddress: Option<string>): Result<string, ClientError> {
    var header := Get(headers, FORWARDED_FOR);
    if header.Some? && header.value != [] then
      var parts := Split(header.value[0], ',');
      if parts == [] then Err(IndexOutOfBounds) else Ok(Trim(parts[0]))
    else if remoteAddress.Some? then
      Ok(remoteAddress.value)
    else
      Ok(UNKNOWN)
  }

  /** The first signal present wins. X-Forwarded-For with a value gives the
      trimmed text before the first comma of its first value (later values,
      later segments and the peer are ignored; the result may be empty), and
      fails only when that value is commas alone. Without it the peer's
      address is used, and without that the sentinel "unknown". */
  lemma ClientIpOrder(headers: HeaderList, remoteAddress: Option<string>)
    ensures var header := Get(headers, FORWARDED_FOR);
            header.Some? && header.value != [] ==>
              && (ExtractClientIp(headers, remoteAddress).Err? <==> OnlySeparators(header.value[0], ','))
              && (!OnlySeparators(header.value[0], ',') ==>
                    ExtractClientIp(headers, remoteAddress) == Ok(Trim(UpTo(header.value[0], ','))))
    ensures var header := Get(headers, FORWARDED_FOR);
            (header.None? || header.value == []) ==>
              ExtractClientIp(headers, remoteAddress) == Ok(remoteAddress.GetOr(UNKNOWN))
  {
    var header := Get(headers, FORWARDED_FOR);
    if header.Some? && header.value != [] {
      SplitEmpty(header.value[0], ',');
      if !OnlySeparators(header.value[0], ',') {
        SplitHead(header.value[0], ',');
      }
    }
  }

  /** A hop list "first, rest" resolves to the trimmed first hop, whatever
      the later hops, the later values and the peer. */
  lemma ClientIpFirstHop(first: string, rest: string, later: seq<string>, peer: Option<string>)
    requires ',' !in first && !OnlySeparators(first + "," + rest, ',')
    ensures ExtractClientIp([(FORWARDED_FOR, [first + "," + rest] + later)], peer) == Ok(Trim(first))
  {
    var v := first + "," + rest;
    var headers := [(FORWARDED_FOR, [v] + later)];
    assert EqualsIgnoreCase(headers[0].0, FORWARDED_FOR);
    assert Get(headers, FORWARDED_FOR) == Some([v] + later);
    ClientIpOrder(headers, peer);
    assert v[|first|] == ',';
    UpToPrefix(first, v, ',');
  }

  /** "10.0.0.5, 10.0.0.1" resolves to exactly "10.0.0.5". */
  lemma ClientIpExample(peer: Option<string>)
    ensures ExtractClientIp([(FORWARDED_FOR, ["10.0.0.5" + "," + " 10.0.0.1"])], peer) == Ok("10.0.0.5")
  {
    assert ("10.0.0.5" + "," + " 10.0.0.1")[0] == '1';
    assert forall i :: 0 <= i < 8 ==> "10.0.0.5"[i] != ',';
    ClientIpFirstHop("10.0.0.5", " 10.0.0.1", [], peer);
    assert [("10.0.0.5" + "," + " 10.0.0.1")] + [] == ["10.0.0.5" + "," + " 10.0.0.1"];
  }

  /** An empty first segment is passed on as the empty address. */
  lemma ClientIpMayBeEmpty()
    ensures ExtractClientIp([("x-forwarded-for", [" ,x"])], None) == Ok("")
  {
  }

  /** A value of commas alone makes the handler throw. */
  lemma ClientIpCommasThrow(peer: Option<string>)
    ensures ExtractClientIp([(FORWARDED_FOR, [",,"])], peer) == Err(IndexOutOfBounds)
  {
  }

  // --------------------------------------------------------------- outcome

  /** The range HttpStatusCode.valueOf accepts. */
  type StatusCode = c: int | 100 <= c <= 999 witness 200

  const BAD_GATEWAY: StatusCode := 502

  /** HttpStatusCode.isError: a 4xx or 5xx code, which retrieve() turns into an error. */
  predicate IsError(code: StatusCode) {
    code / 100 == 4 || code / 100 == 5
  }

  /** What the single upstream call produced. */
  datatype Upstream = Responded(status: StatusCode) | TransportFailure(message: string)

  /** What reaches onErrorResume: an error status raised by retrieve(), or a transport failure. */
  datatype Failure = ErrorStatus(status: StatusCode) | Transport(message: string)

  function Failed(upstream: Upstream): Option<Failure> {
    match upstream
    case Responded(s) => if IsError(s) then Some(ErrorStatus(s)) else None
    case TransportFailure(m) => Some(Transport(m))
  }

  /** The status of the bodiless ResponseEntity the caller gets. */
  function CallerStatus(upstream: Upstream): StatusCode {
    match Failed(upstream)
    case None => upstream.status
    case Some(_) => BAD_GATEWAY
  }

  /** Only a non-error upstream status reaches the caller; every error, a
      transport failure as much as a 4xx/5xx answer, becomes 502; so the
      caller never sees an error status other than 502. */
  lemma CallerStatusSpec(upstream: Upstream)
    ensures upstream.Responded? && !IsError(upstream.status) ==> CallerStatus(upstream) == upstream.status
    ensures upstream.TransportFailure? || IsError(upstream.status) ==> CallerStatus(upstream) == BAD_GATEWAY
    ensures CallerStatus(upstream) == BAD_GATEWAY || !IsError(CallerStatus(upstream))
    ensures Failed(upstream).Some? <==> upstream.TransportFailure? || IsError(upstream.status)
  {
  }

  /** An upstream 404 is not relayed: retrieve() raises it and the caller gets 502. */
  lemma NotFoundBecomesBadGateway()
    ensures CallerStatus(Responded(404)) == BAD_GATEWAY
    ensures CallerStatus(Responded(204)) == 204
    ensures CallerStatus(Responded(302)) == 302
  {
  }

  // -------------------------------------------------------------- exchange

  /** The parts of the inbound request the controller reads. */
  datatype Request = Request(
    httpMethod: string,
    rawPath: string,
    rawQuery: Option<string>,
    headers: HeaderList,
    body: Option<string>,
    remoteAddress: Option<string>)

  /** The request as handed to WebClient: method, target string, the headers
      the callback builds and the body value. */
  datatype OutboundRequest = OutboundRequest(httpMethod: string, target: string, headers: HeaderList, body: string)

  /** What one request leaves behind, in order. */
  datatype Event =
    | AccessLog(httpMethod: string, uri: string, contentLength: nat, client: string)
    | Dispatch(request: OutboundRequest)
    | ForwardFailed(target: string, cause: Failure)

  /** The caller's answer: the caller's status as modelled, or the exception that left the handler. */
  datatype Reply = Replied(status: StatusCode) | Thrown(error: ClientError)

  datatype Handled = Handled(events: seq<Event>, reply: Reply)

  /** The access record, written only when logging is enabled. */
  function AccessRecords(cfg: ValidConfig, req: Request, client: string): seq<Event> {
    if cfg.loggingEnabled then [AccessLog(req.httpMethod, FullUri(req.rawPath, req.rawQuery), ContentLength(req.body), client)]
    else []
  }

  /** The error record onErrorResume writes when the call failed. */
  function FailureRecords(target: string, upstream: Upstream): seq<Event> {
    match Failed(upstream)
    case Some(f) => [ForwardFailed(target, f)]
    case None => []
  }

  /** forwardRequest, from the inbound request and the upstream's result to
      the events it produces and the caller's reply. */
  function Exchange(cfg: ValidConfig, req: Request, upstream: Upstream): Handled {
    var target := FullTarget(cfg.forwardHost, req.rawPath, req.rawQuery);
    match ExtractClientIp(req.headers, req.remoteAddress)
    case Err(e) => Handled([], Thrown(e))
    case Ok(client) =>
      var outbound := OutboundRequest(req.httpMethod, target, OutboundHeaders(req.headers, client), OutboundBody(req.body));
      Handled(AccessRecords(cfg, req, client) + [Dispatch(outbound)] + FailureRecords(target, upstream),
              Replied(CallerStatus(upstream)))
  }

  /** One request, once its client is resolved: an access record first
      exactly when logging is on, then exactly one dispatch of the translated
      request, then exactly one failure record naming the target exactly when
      the call failed; the reply is CallerStatus. When the client cannot be
      resolved the handler throws before logging or sending anything. */
  lemma ExchangeSpec(cfg: ValidConfig, req: Request, upstream: Upstream)
    ensures var client := ExtractClientIp(req.headers, req.remoteAddress);
            var h := Exchange(cfg, req, upstream);
            client.Err? ==> h.events == [] && h.reply == Thrown(client.error)
    ensures var client := ExtractClientIp(req.headers, req.remoteAddress);
            var h := Exchange(cfg, req, upstream);
            var d := if cfg.loggingEnabled then 1 else 0;
            var target := FullTarget(cfg.forwardHost, req.rawPath, req.rawQuery);
            client.Ok? ==>
              && |h.events| == d + 1 + (if Failed(upstream).Some? then 1 else 0)
              && (forall i :: 0 <= i < |h.events| ==> (h.events[i].AccessLog? <==> cfg.loggingEnabled && i == 0))
              && (forall i :: 0 <= i < |h.events| ==> (h.events[i].Dispatch? <==> i == d))
              && (forall i :: 0 <= i < |h.events| ==> (h.events[i].ForwardFailed? <==> Failed(upstream).Some? && i == d + 1))
              && (cfg.loggingEnabled ==>
                    h.events[0] == AccessLog(req.httpMethod, FullUri(req.rawPath, req.rawQuery), ContentLength(req.body), client.value))
              && h.events[d] == Dispatch(OutboundRequest(req.httpMethod, target, OutboundHeaders(req.headers, client.value), OutboundBody(req.body)))
              && (Failed(upstream).Some? ==> h.events[d + 1] == ForwardFailed(target, Failed(upstream).value))
              && h.reply == Replied(CallerStatus(upstream))
  {
  }

  /** With access logging off no request, whatever its outcome, leaves an access record. */
  lemma NoAccessLogWhenDisabled(cfg: ValidConfig, req: Request, upstream: Upstream)
    requires !cfg.loggingEnabled
    ensures forall e :: e in Exchange(cfg, req, upstream).events ==> !e.AccessLog?
  {
  }

  /** The request handed to WebClient carries the inbound method, the target
      string, the inbound headers with X-Original-IP replaced by the resolved
      client, and the inbound body or "". */
  lemma DispatchedRequest(cfg: ValidConfig, req: Request, upstream: Upstream, key: string)
    requires ExtractClientIp(req.headers, req.remoteAddress).Ok?
    ensures var client := ExtractClientIp(req.headers, req.remoteAddress).value;
            var d := if cfg.loggingEnabled then 1 else 0;
            var out := Exchange(cfg, req, upstream).events[d].request;
            && out.httpMethod == req.httpMethod
            && out.target == cfg.forwardHost + FullUri(req.rawPath, req.rawQuery)
            && Distinct(out.headers)
            && Values(out.headers, key) == (if EqualsIgnoreCase(key, ORIGINAL_IP) then [client] else Values(req.headers, key))
            && Get(out.headers, ORIGINAL_IP) == Some([client])
            && out.body == req.body.GetOr("")
            && Utf8Length(out.body) == ContentLength(req.body)
  {
    ExchangeSpec(cfg, req, upstream);
    var client := ExtractClientIp(req.headers, req.remoteAddress).value;
    OutboundHeadersSpec(req.headers, client, key);
    ContentLengthOfSentBody(req.body);
  }

  /** forwardRequest as the controller runs it: the locals in source order,
      the access record when logging is on, the header callback's copy loop,
      then the single call and its error mapping. */
  method ForwardRequest(cfg: ValidConfig, req: Request, upstream: Upstream) returns (h: Handled)
    ensures h == Exchange(cfg, req, upstream)
  {
    var fullUri := FullUri(req.rawPath, req.rawQuery);
    var fullTarget := cfg.forwardHost + fullUri;
    var contentLength := ContentLength(req.body);
    var clientIp := ExtractClientIp(req.headers, req.remoteAddress);
    if clientIp.Err? {
      return Handled([], Thrown(clientIp.error));
    }
    var events: seq<Event> := [];
    if cfg.loggingEnabled {
      events := events + [AccessLog(req.httpMethod, fullUri, contentLength, clientIp.value)];
    }
    assert events == AccessRecords(cfg, req, clientIp.value);
    var headers := CopyHeaders(req.headers, clientIp.value);
    events := events + [Dispatch(OutboundRequest(req.httpMethod, fullTarget, headers, OutboundBody(req.body)))];
    var failure := Failed(upstream);
    if failure.Some? {
      events := events + [ForwardFailed(fullTarget, failure.value)];
    }
    h := Handled(events, Replied(CallerStatus(upstream)));
  }
}
