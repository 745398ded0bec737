/**
 * Http::perform and its delegations get/post/put/delete: method validation,
 * the stream-context options, the query merge, the retry loop and the
 * payload check. The transport is a parameter giving, for the request sent,
 * what each attempt yields; json_decode is a parameter too.
 */
module Http {
  import opened Wrappers
  import opened PhpStrings
  import opened Assoc
  import opened Headers
  import opened Query
  import opened Retry

  /** The methods perform accepts. */
  datatype Verb = GET | POST | PUT | DELETE

  function Name(v: Verb): string {
    match v
    case GET => "GET"
    case POST => "POST"
    case PUT => "PUT"
    case DELETE => "DELETE"
  }

  /** strtoupper and the in_array test: the verb an upper-cased method name spells, if any. */
  function VerbOf(name: string): (r: Option<Verb>)
    ensures r.Some? ==> Name(r.value) == Upper(name)
    ensures r.None? <==> Upper(name) !in {"GET", "POST", "PUT", "DELETE"}
  {
    var m := Upper(name);
    if m == "GET" then Some(GET)
    else if m == "POST" then Some(POST)
    else if m == "PUT" then Some(PUT)
    else if m == "DELETE" then Some(DELETE)
    else None
  }

  /**
   * What json_decode($result, true) can give, floats aside: objects decode
   * to ordered arrays of fields.
   */
  datatype Json =
    | JNull
    | JBool(b: bool)
    | JInt(i: int)
    | JString(s: string)
    | JList(items: seq<Json>)
    | JObject(fields: seq<(string, Json)>)

  /** `!$parsedPayload`: PHP's falsy values among decoded JSON. */
  predicate Falsy(j: Json) {
    match j
    case JNull => true
    case JBool(b) => !b
    case JInt(i) => i == 0
    case JString(s) => s == "" || s == "0"
    case JList(items) => items == []
    case JObject(fields) => fields == []
  }

  /** The 'http' options of the stream context: the method, and content and header when set. */
  datatype Context = Context(methodName: string, content: Option<string>, header: Option<string>)

  /** What every attempt of one call sends: the context and the URL with the query merged in. */
  datatype Request = Request(context: Context, url: string)

  /** perform's return value: the decoded payload and the parsed response headers. */
  datatype Response = Response(data: Json, headers: HeaderArray)

  /**
   * What perform throws: the HttpException codes, with the headers the
   * failures carry, and the TypeError or ValueError of a sleep() that
   * rejects its Retry-After value, which perform does not catch.
   */
  datatype HttpError =
    | MethodNotSupported
    | RequestFailed(headers: HeaderArray)
    | QuotaExceeded(headers: HeaderArray)
    | MalformedResult
    | SleepError(wait: string)

  /**
   * One call of perform: its result, the request it sent (none when the
   * method is refused), the waits it slept and the attempts it made.
   */
  datatype Call = Call(result: Result<Response, HttpError>, sent: Option<Request>, waits: seq<string>, attempts: nat)

  /** For the request sent, what attempt number j yields. */
  type Transport = Request -> nat -> Attempt

  /** json_decode($result, true), with JNull for undecodable text. */
  type Decoder = string -> Json

  /** The stream-context options for a supported verb. */
  function ContextFor(verb: Verb, body: Params, headers: seq<(string, string)>): Context {
    Context(
      Name(verb),
      if verb == POST || verb == PUT then Some(BuildQuery(body)) else None,
      if headers == [] then None else Some(HeaderString(headers)))
  }

  /** The request perform sends, or None when the method is refused before any I/O. */
  function Sent(name: string, url: string, body: Params, query: Params, headers: seq<(string, string)>): Option<Request>
  {
    match VerbOf(name)
    case None => None
    case Some(verb) => Some(Request(ContextFor(verb, body, headers), MergeQuery(url, query)))
  }

  /** The payload check: what perform returns or throws once the loop has ended. */
  function Finish(o: Outcome, decode: Decoder): Result<Response, HttpError> {
    match o
    case Failed(h) => Failure(RequestFailed(h))
    case OverQuota(h) => Failure(QuotaExceeded(h))
    case SleepRejected(w) => Failure(SleepError(w))
    case Received(b, lines) =>
      var payload := decode(b);
      if Falsy(payload) then Failure(MalformedResult) else Success(Response(payload, HeadersOf(lines)))
  }

  /** Http::perform as a function of its arguments, the retry limit, the transport and the decoder. */
  function Execute(name: string, url: string, body: Params, query: Params, headers: seq<(string, string)>,
                   retryLimit: int, t: Transport, decode: Decoder): Call
  {
    match Sent(name, url, body, query, headers)
    case None => Call(Failure(MethodNotSupported), None, [], 0)
    case Some(req) =>
      var run := RunFrom(Verdicts(t(req)), 0, retryLimit);
      Call(Finish(run.outcome, decode), Some(req), run.waits, run.attempts)
  }

  /**
   * The "prepare request headers and fields" part of Http::perform for an
   * accepted method name: content for POST and PUT, the header string when
   * there are headers.
   */
  method ContextParams(methodName: string, body: Params, headers: seq<(string, string)>) returns (contextParams: Context)
    requires methodName in {"GET", "POST", "PUT", "DELETE"}
    ensures contextParams.methodName == methodName
    ensures contextParams.content.Some? <==> methodName == "POST" || methodName == "PUT"
    ensures contextParams.content.Some? ==> contextParams.content.value == BuildQuery(body)
    ensures contextParams.header.None? <==> headers == []
    ensures contextParams.header.Some? ==> contextParams.header.value == HeaderString(headers)
  {
    contextParams := Context(methodName, None, None);
    if methodName == "POST" || methodName == "PUT" {
      contextParams := contextParams.(content := Some(BuildQuery(body)));
    }
    var headersString := StringifyHeaders(headers);
    if headersString.Some? {
      contextParams := contextParams.(header := headersString);
    }
  }

  /** The "query string processing" part of Http::perform. */
  method ProcessUrl(url: string, query: Params) returns (processedUrl: string)
    ensures processedUrl == MergeQuery(url, query)
  {
    processedUrl := url;
    if query != [] {
      if '?' in url {
        var components := ParseUrl(url);
        var params := Union(ParseStr(components.query), query);
        processedUrl := BuildUrl(components.(query := BuildQuery(params)));
      } else {
        processedUrl := processedUrl + "?" + BuildQuery(query);
      }
    }
  }

  /** The end of Http::perform: the exception the loop ended in, or the payload check. */
  method CheckPayload(outcome: Outcome, decode: Decoder) returns (result: Result<Response, HttpError>)
    ensures result == Finish(outcome, decode)
  {
    match outcome {
      case Failed(h) =>
        result := Failure(RequestFailed(h));
      case OverQuota(h) =>
        result := Failure(QuotaExceeded(h));
      case SleepRejected(w) =>
        result := Failure(SleepError(w));
      case Received(b, lines) =>
        var parsedPayload := decode(b);
        if Falsy(parsedPayload) {
          result := Failure(MalformedResult);
        } else {
          var responseHeaders := ParseHeaders(lines);
          result := Success(Response(parsedPayload, responseHeaders));
        }
    }
  }

  /** Http::perform. */
  method Perform(name: string, url: string, body: Params, query: Params, headers: seq<(string, string)>,
                 retryLimit: int, t: Transport, decode: Decoder) returns (call: Call)
    ensures call == Execute(name, url, body, query, headers, retryLimit, t, decode)
  {
    var methodName := Upper(name);
    if methodName !in {"GET", "POST", "PUT", "DELETE"} {
      return Call(Failure(MethodNotSupported), None, [], 0);
    }
    var contextParams := ContextParams(methodName, body, headers);
    var processedUrl := ProcessUrl(url, query);
    var req := Request(contextParams, processedUrl);
    assert Sent(name, url, body, query, headers) == Some(req);
    var outcome, waits, attempts := RetryLoop(t(req), retryLimit);
    var result := CheckPayload(outcome, decode);
    call := Call(result, Some(req), waits, attempts);
  }

  /** The lower-case names the delegations pass name their verbs. */
  lemma LowerCaseNames()
    ensures VerbOf("get") == Some(GET) && VerbOf("post") == Some(POST)
    ensures VerbOf("put") == Some(PUT) && VerbOf("delete") == Some(DELETE)
  {
    UpperGet();
    UpperPost();
    UpperPut();
    UpperDelete();
  }

  lemma UpperGet() ensures Upper("get") == "GET" {
    assert Upper("get") == [UpperChar('g'), UpperChar('e'), UpperChar('t')];
  }

  lemma UpperPost() ensures Upper("post") == "POST" {
    assert Upper("post") == [UpperChar('p'), UpperChar('o'), UpperChar('s'), UpperChar('t')];
  }

  lemma UpperPut() ensures Upper("put") == "PUT" {
    assert Upper("put") == [UpperChar('p'), UpperChar('u'), UpperChar('t')];
  }

  lemma UpperDelete() ensures Upper("delete") == "DELETE" {
    assert Upper("delete") == [UpperChar('d'), UpperChar('e'), UpperChar('l'), UpperChar('e'), UpperChar('t'), UpperChar('e')];
  }

  /** Http::get: perform('get', $url, array(), $query, $headers); never a body. */
  method Get(url: string, query: Params, headers: seq<(string, string)>, retryLimit: int, t: Transport, decode: Decoder)
    returns (call: Call)
    ensures call == Execute("get", url, [], query, headers, retryLimit, t, decode)
    ensures call.sent.Some? && call.sent.value.context.methodName == "GET" && call.sent.value.context.content.None?
  {
    LowerCaseNames();
    call := Perform("get", url, [], query, headers, retryLimit, t, decode);
  }

  /** Http::post: perform('post', $url, $body, $query, $headers); the form-encoded body is sent. */
  method Post(url: string, body: Params, query: Params, headers: seq<(string, string)>, retryLimit: int, t: Transport, decode: Decoder)
    returns (call: Call)
    ensures call == Execute("post", url, body, query, headers, retryLimit, t, decode)
    ensures call.sent.Some? && call.sent.value.context.methodName == "POST" && call.sent.value.context.content == Some(BuildQuery(body))
  {
    LowerCaseNames();
    call := Perform("post", url, body, query, headers, retryLimit, t, decode);
  }

  /** Http::put: perform('put', $url, $body, $query, $headers); the form-encoded body is sent. */
  method Put(url: string, body: Params, query: Params, headers: seq<(string, string)>, retryLimit: int, t: Transport, decode: Decoder)
    returns (call: Call)
    ensures call == Execute("put", url, body, query, headers, retryLimit, t, decode)
    ensures call.sent.Some? && call.sent.value.context.methodName == "PUT" && call.sent.value.context.content == Some(BuildQuery(body))
  {
    LowerCaseNames();
    call := Perform("put", url, body, query, headers, retryLimit, t, decode);
  }

  /** Http::delete: perform('delete', $url, array(), $query, $headers); never a body. */
  method Delete(url: string, query: Params, headers: seq<(string, string)>, retryLimit: int, t: Transport, decode: Decoder)
    returns (call: Call)
    ensures call == Execute("delete", url, [], query, headers, retryLimit, t, decode)
    ensures call.sent.Some? && call.sent.value.context.methodName == "DELETE" && call.sent.value.context.content.None?
  {
    LowerCaseNames();
    call := Perform("delete", url, [], query, headers, retryLimit, t, decode);
  }

  // ---- what perform promises ----

  /**
   * A method name is refused with METHOD_NOT_SUPPORTED exactly when its
   * upper-cased form is none of GET, POST, PUT and DELETE; then nothing is
   * sent, no attempt is made and no wait slept. Otherwise the request is
   * sent at least once.
   */
  lemma RefusedIff(name: string, url: string, body: Params, query: Params, headers: seq<(string, string)>,
                   retryLimit: int, t: Transport, decode: Decoder)
    ensures var c := Execute(name, url, body, query, headers, retryLimit, t, decode);
      && (c.result == Failure(MethodNotSupported) <==> Upper(name) !in {"GET", "POST", "PUT", "DELETE"})
      && (c.result == Failure(MethodNotSupported) ==> c.sent.None? && c.waits == [] && c.attempts == 0)
      && (c.result != Failure(MethodNotSupported) ==> c.sent == Sent(name, url, body, query, headers) && c.sent.Some? && c.attempts >= 1)
  {
    var c := Execute(name, url, body, query, headers, retryLimit, t, decode);
    if VerbOf(name).Some? {
      var r := RunFrom(Verdicts(t(Sent(name, url, body, query, headers).value)), 0, retryLimit);
      assert c.result == Finish(r.outcome, decode);
    }
  }

  /** The name is upper-cased first, so its case does not matter. */
  lemma MethodCaseInsensitive(name: string, url: string, body: Params, query: Params, headers: seq<(string, string)>,
                              retryLimit: int, t: Transport, decode: Decoder)
    ensures Execute(Upper(name), url, body, query, headers, retryLimit, t, decode)
         == Execute(name, url, body, query, headers, retryLimit, t, decode)
  {
    UpperIdempotent(name);
  }

  /**
   * The stream context of an accepted request: the upper-cased method;
   * content exactly for POST and PUT, the form-encoded body, which
   * parse_str reads back; a header option exactly when there are headers,
   * which explode("\n") reads back as one CRLF-terminated line per header.
   */
  lemma SentContext(name: string, url: string, body: Params, query: Params, headers: seq<(string, string)>)
    requires Sent(name, url, body, query, headers).Some?
    ensures var ctx := Sent(name, url, body, query, headers).value.context;
      && ctx.methodName == Upper(name)
      && (ctx.content.Some? <==> Upper(name) == "POST" || Upper(name) == "PUT")
      && (ctx.content.Some? ==> ctx.content.value == BuildQuery(body))
      && (ctx.content.Some? && Encodable(body) ==> ParseStr(ctx.content.value) == body)
      && (ctx.header.None? <==> headers == [])
      && (ctx.header.Some? && (forall i :: 0 <= i < |headers| ==> '\n' !in HeaderLine(headers[i]))
          ==> Explode(ctx.header.value, '\n') == WithCr(Lines(headers)) + [""])
  {
    if Encodable(body) {
      ParseBuild(body);
    }
    if forall i :: 0 <= i < |headers| ==> '\n' !in HeaderLine(headers[i]) {
      HeaderStringIsLines(headers);
    }
  }

  /** Without query parameters the URL is sent as given. */
  lemma SentUrlUnchanged(name: string, url: string, body: Params, headers: seq<(string, string)>)
    requires Sent(name, url, body, [], headers).Some?
    ensures Sent(name, url, body, [], headers).value.url == url
  {
    EmptyQueryKeepsUrl(url);
  }

  /**
   * With query parameters, the URL sent keeps everything before its query
   * and carries `$params + $query`: on a shared key the URL's own value stays.
   */
  lemma SentUrlMerged(name: string, url: string, body: Params, query: Params, headers: seq<(string, string)>)
    requires Sent(name, url, body, query, headers).Some?
    requires query != [] && Encodable(query) && NoHash(query)
    requires '#' !in Base(url)
    ensures var u := Sent(name, url, body, query, headers).value.url;
      && '?' in u
      && ParseUrl(u).base == Base(url)
      && ParseStr(ParseUrl(u).query) == Union(Existing(url), query)
  {
    MergeKeepsUrlValues(url, query);
  }

  /**
   * Every wait perform sleeps is the Retry-After value of a throttled
   * attempt, in order; there are at most N of them for retry limit N, and
   * one attempt more than waits.
   */
  lemma WaitsAreRetryAfters(name: string, url: string, body: Params, query: Params, headers: seq<(string, string)>,
                            retryLimit: int, t: Transport, decode: Decoder)
    requires Sent(name, url, body, query, headers).Some?
    ensures var att := t(Sent(name, url, body, query, headers).value);
      var c := Execute(name, url, body, query, headers, retryLimit, t, decode);
      && |c.waits| <= (if retryLimit > 0 then retryLimit else 0)
      && c.attempts == |c.waits| + 1
      && forall n :: 0 <= n < |c.waits| ==>
           Throttled(att(n)) && c.waits[n] == RetryAfter(HeadersOf(att(n).responseLines)).value
  {
    var att := t(Sent(name, url, body, query, headers).value);
    var r := RunFrom(Verdicts(att), 0, retryLimit);
    assert Execute(name, url, body, query, headers, retryLimit, t, decode).waits == r.waits;
    WaitsOfAttempts(att, retryLimit);
  }

  /**
   * A delivered last attempt decides between the payload and
   * MALFORMED_RESULT: its body is decoded, and a falsy decoding is refused;
   * otherwise perform returns the decoding and that attempt's parsed headers.
   */
  lemma DeliveredResult(name: string, url: string, body: Params, query: Params, headers: seq<(string, string)>,
                        retryLimit: int, t: Transport, decode: Decoder)
    requires Sent(name, url, body, query, headers).Some?
    ensures var c := Execute(name, url, body, query, headers, retryLimit, t, decode);
      var last := t(Sent(name, url, body, query, headers).value)(c.attempts - 1);
      && (c.result.Success? <==> Delivered(last) && !Falsy(decode(last.body.value)))
      && (c.result.Success? ==> c.result.value == Response(decode(last.body.value), HeadersOf(last.responseLines)))
      && (c.result == Failure(MalformedResult) <==> Delivered(last) && Falsy(decode(last.body.value)))
  {
    var att := t(Sent(name, url, body, query, headers).value);
    var v := Verdicts(att);
    var r := RunFrom(v, 0, retryLimit);
    RunEnd(v, 0, retryLimit);
    assert v(|r.waits|) == Classify(att(|r.waits|));
  }

  /**
   * An undelivered last attempt decides between the failures: without a
   * usable Retry-After it is REQUEST_FAILED; with one, QUOTA_EXCEEDED once
   * the budget of N waits is spent and sleep's error for that value before;
   * the two HttpExceptions carry that attempt's parsed headers.
   */
  lemma RefusedResult(name: string, url: string, body: Params, query: Params, headers: seq<(string, string)>,
                      retryLimit: int, t: Transport, decode: Decoder)
    requires Sent(name, url, body, query, headers).Some?
    ensures var c := Execute(name, url, body, query, headers, retryLimit, t, decode);
      var last := t(Sent(name, url, body, query, headers).value)(c.attempts - 1);
      var n: nat := if retryLimit > 0 then retryLimit else 0;
      && (c.result.Failure? && c.result.error.RequestFailed? <==> !Delivered(last) && !AsksForWait(last))
      && (c.result.Failure? && c.result.error.QuotaExceeded? <==> AsksForWait(last) && |c.waits| == n)
      && (c.result.Failure? && c.result.error.SleepError? <==> AsksForWait(last) && |c.waits| < n)
      && (c.result.Failure? && c.result.error.SleepError? ==>
            RetryAfter(HeadersOf(last.responseLines)) == Some(c.result.error.wait) && !SleepAccepts(c.result.error.wait))
      && (c.result.Failure? && (c.result.error.RequestFailed? || c.result.error.QuotaExceeded?) ==>
            c.result.error.headers == HeadersOf(last.responseLines))
  {
    var att := t(Sent(name, url, body, query, headers).value);
    var r := RunFrom(Verdicts(att), 0, retryLimit);
    assert Execute(name, url, body, query, headers, retryLimit, t, decode)
        == Call(Finish(r.outcome, decode), Sent(name, url, body, query, headers), r.waits, r.attempts);
    LastAttemptDecides(att, retryLimit);
  }

  /**
   * QUOTA_EXCEEDED is thrown exactly when the first N attempts are
   * throttled and attempt N + 1 asks for a wait as well (for N <= 0: when
   * the first attempt asks for one), and then after exactly N waits, with
   * the headers of attempt N + 1.
   */
  lemma QuotaExceededIff(name: string, url: string, body: Params, query: Params, headers: seq<(string, string)>,
                         retryLimit: int, t: Transport, decode: Decoder)
    requires Sent(name, url, body, query, headers).Some?
    ensures var att := t(Sent(name, url, body, query, headers).value);
      var c := Execute(name, url, body, query, headers, retryLimit, t, decode);
      var n: nat := if retryLimit > 0 then retryLimit else 0;
      && (c.result.Failure? && c.result.error.QuotaExceeded? <==>
            (forall j :: 0 <= j < n ==> Throttled(att(j))) && AsksForWait(att(n)))
      && (c.result.Failure? && c.result.error.QuotaExceeded? ==>
            c.result.error.headers == HeadersOf(att(n).responseLines) && |c.waits| == n && c.attempts == n + 1)
  {
    var att := t(Sent(name, url, body, query, headers).value);
    var r := RunFrom(Verdicts(att), 0, retryLimit);
    assert Execute(name, url, body, query, headers, retryLimit, t, decode)
        == Call(Finish(r.outcome, decode), Sent(name, url, body, query, headers), r.waits, r.attempts);
    QuotaOfAttempts(att, retryLimit);
  }

  /**
   * A failure without a usable Retry-After after k throttled attempts, k
   * within the limit, is rethrown as REQUEST_FAILED at once: k waits,
   * k + 1 attempts.
   */
  lemma FailureRethrown(name: string, url: string, body: Params, query: Params, headers: seq<(string, string)>,
                        retryLimit: int, t: Transport, decode: Decoder, k: nat)
    requires Sent(name, url, body, query, headers).Some?
    requires k <= (if retryLimit > 0 then retryLimit else 0)
    requires var att := t(Sent(name, url, body, query, headers).value);
      (forall j :: 0 <= j < k ==> Throttled(att(j))) && !Delivered(att(k)) && !AsksForWait(att(k))
    ensures var att := t(Sent(name, url, body, query, headers).value);
      var c := Execute(name, url, body, query, headers, retryLimit, t, decode);
      c.result == Failure(RequestFailed(HeadersOf(att(k).responseLines))) && |c.waits| == k && c.attempts == k + 1
  {
    var att := t(Sent(name, url, body, query, headers).value);
    var v := Verdicts(att);
    ThrottledVerdicts(att);
    FailureWithoutRetryAfter(v, retryLimit, k);
  }

  /**
   * A Retry-After value sleep() rejects, on attempt k + 1 after k throttled
   * ones with budget left, ends perform with sleep's error for that value:
   * k waits, k + 1 attempts.
   */
  lemma SleepErrorRaised(name: string, url: string, body: Params, query: Params, headers: seq<(string, string)>,
                         retryLimit: int, t: Transport, decode: Decoder, k: nat)
    requires Sent(name, url, body, query, headers).Some?
    requires k < (if retryLimit > 0 then retryLimit else 0)
    requires var att := t(Sent(name, url, body, query, headers).value);
      && (forall j :: 0 <= j < k ==> Throttled(att(j)))
      && AsksForWait(att(k)) && !SleepAccepts(RetryAfter(HeadersOf(att(k).responseLines)).value)
    ensures var att := t(Sent(name, url, body, query, headers).value);
      var c := Execute(name, url, body, query, headers, retryLimit, t, decode);
      c.result == Failure(SleepError(RetryAfter(HeadersOf(att(k).responseLines)).value))
      && |c.waits| == k && c.attempts == k + 1
  {
    var att := t(Sent(name, url, body, query, headers).value);
    SleepRejectedOfAttempts(att, retryLimit, k);
  }

  /**
   * A delivered attempt after k throttled ones, k within the limit, is what
   * perform decodes, after k waits that are those attempts' Retry-After values.
   */
  lemma DeliveredAfterRetries(name: string, url: string, body: Params, query: Params, headers: seq<(string, string)>,
                              retryLimit: int, t: Transport, decode: Decoder, k: nat)
    requires Sent(name, url, body, query, headers).Some?
    requires k <= (if retryLimit > 0 then retryLimit else 0)
    requires var att := t(Sent(name, url, body, query, headers).value);
      (forall j :: 0 <= j < k ==> Throttled(att(j))) && Delivered(att(k))
    ensures var att := t(Sent(name, url, body, query, headers).value);
      var c := Execute(name, url, body, query, headers, retryLimit, t, decode);
      && c.result == Finish(Received(att(k).body.value, att(k).responseLines), decode)
      && |c.waits| == k && c.attempts == k + 1
      && forall n :: 0 <= n < k ==> c.waits[n] == RetryAfter(HeadersOf(att(n).responseLines)).value
  {
    var att := t(Sent(name, url, body, query, headers).value);
    DeliveredAfterThrottledAttempts(att, retryLimit, k);
  }

  // ---- examples ----

  /**
   * Three failed responses asking for a one-second wait (a 429 status line,
   * say), then a success: with retry limit 3 or more, get returns the fourth
   * response's payload after waits of 1, 1 and 1 seconds.
   */
  lemma ThreeThrottlesThenSuccess(url: string, retryLimit: int, t: Transport, decode: Decoder,
                                  status: string, b: string, lines: seq<string>)
    requires retryLimit >= 3 && ':' !in status
    requires forall r: Request, j: nat :: j < 3 ==>
      t(r)(j) == Attempt(None, [status, HeaderLine(("Retry-After", "1"))])
    requires forall r: Request :: t(r)(3) == Attempt(Some(b), lines)
    requires b != "" && b != "0" && !Falsy(decode(b))
    ensures var c := Execute("get", url, [], [], [], retryLimit, t, decode);
      c.result == Success(Response(decode(b), HeadersOf(lines))) && c.waits == ["1", "1", "1"] && c.attempts == 4
  {
    LowerCaseNames();
    var att := t(Sent("get", url, [], [], []).value);
    ThreeWaitsThenDeliver(att, retryLimit, status, b, lines);
  }

  /** A JSON object in a 200 response comes back decoded, with the status line at index 0. */
  lemma JsonObjectReturned(url: string, retryLimit: int, t: Transport, decode: Decoder)
    requires forall r: Request :: t(r)(0) == Attempt(Some("{\"id\": 7}"), ["HTTP/1.1 200 OK", "Content-Type: application/json"])
    requires decode("{\"id\": 7}") == JObject([("id", JInt(7))])
    ensures Execute("get", url, [], [], [], retryLimit, t, decode).result
         == Success(Response(JObject([("id", JInt(7))]), [(Idx(0), "HTTP/1.1 200 OK"), (Str("Content-Type"), "application/json")]))
  {
    var b, lines := "{\"id\": 7}", ["HTTP/1.1 200 OK", "Content-Type: application/json"];
    assert b != "" && b != "0";
    FirstAttemptDelivered(url, retryLimit, t, decode, b, lines);
    StatusLineAndContentType();
  }

  /** A body delivered on the first attempt of a get is what perform decodes. */
  lemma FirstAttemptDelivered(url: string, retryLimit: int, t: Transport, decode: Decoder, b: string, lines: seq<string>)
    requires forall r: Request :: t(r)(0) == Attempt(Some(b), lines)
    requires b != "" && b != "0"
    ensures Execute("get", url, [], [], [], retryLimit, t, decode).result == Finish(Received(b, lines), decode)
  {
    LowerCaseNames();
    DeliveredAfterRetries("get", url, [], [], [], retryLimit, t, decode, 0);
  }

  /**
   * A Retry-After in the HTTP-date form, which starts with a letter as in
   * "Wed, 21 Oct 2015 07:28:00 GMT", is not a number of seconds sleep()
   * takes: with budget left, the first such response ends get with sleep's
   * error, before any wait.
   */
  lemma DateRetryAfterThrows(url: string, retryLimit: int, t: Transport, decode: Decoder, status: string, date: string)
    requires retryLimit >= 1 && ':' !in status
    requires Trim(date) == date && date != [] && ('A' <= date[0] <= 'Z' || 'a' <= date[0] <= 'z')
    requires forall r: Request :: t(r)(0) == Attempt(None, [status, HeaderLine(("Retry-After", date))])
    ensures var c := Execute("get", url, [], [], [], retryLimit, t, decode);
      c.result == Failure(SleepError(date)) && c.waits == [] && c.attempts == 1
  {
    LowerCaseNames();
    assert date != "" && date != "0" by {
      assert date[0] != '0';
    }
    StatusAndRetryAfter(status, date);
    assert !SleepAccepts(date);
    SleepErrorRaised("get", url, [], [], [], retryLimit, t, decode, 0);
  }

  /** A decoded payload that PHP finds falsy, such as `[]` or `0`, is MALFORMED_RESULT. */
  lemma FalsyPayloadRefused(url: string, retryLimit: int, t: Transport, decode: Decoder, lines: seq<string>)
    requires forall r: Request :: t(r)(0) == Attempt(Some("[]"), lines)
    requires decode("[]") == JList([])
    ensures Execute("get", url, [], [], [], retryLimit, t, decode).result == Failure(MalformedResult)
  {
    FirstAttemptDelivered(url, retryLimit, t, decode, "[]", lines);
  }

  // ---- the response headers as written ----

  /**
   * The payload check as the code is written: `$http_response_header` on the
   * last lines of perform is read in perform's own scope, but PHP set it in
   * the closure's scope, where file_get_contents ran. perform's variable is
   * undefined, parseHeaders(null) loops over nothing, and the headers
   * returned are always empty. Everything else is as in Finish.
   */
  function FinishAsWritten(o: Outcome, decode: Decoder): (r: Result<Response, HttpError>)
    ensures r.Success? <==> Finish(o, decode).Success?
    ensures r.Success? ==> r.value == Finish(o, decode).value.(headers := [])
    ensures r.Failure? ==> r == Finish(o, decode)
  {
    match o
    case Failed(h) => Failure(RequestFailed(h))
    case OverQuota(h) => Failure(QuotaExceeded(h))
    case SleepRejected(w) => Failure(SleepError(w))
    case Received(b, lines) =>
      var payload := decode(b);
      if Falsy(payload) then Failure(MalformedResult) else Success(Response(payload, HeadersOf([])))
  }

  /**
   * A successful response with a status line: as written the caller gets no
   * headers at all, where the intended result carries the status line at
   * index 0.
   */
  lemma HeadersLostAsWritten(b: string, status: string, decode: Decoder)
    requires ':' !in status && !Falsy(decode(b))
    ensures FinishAsWritten(Received(b, [status]), decode) == Success(Response(decode(b), []))
    ensures Finish(Received(b, [status]), decode) == Success(Response(decode(b), [(Idx(0), status)]))
  {
    assert [status][..0] == [];
    StepFirstBare(status);
  }
}
