# DreamCommerce `Http` — a verified model

This project models the HTTP layer of the DreamCommerce PHP client, the class
`Http` in `src/DreamCommerce/Http.php`. It covers:

- **`perform`.** The method name is upper-cased and checked against GET, POST,
  PUT and DELETE. The stream context is built: the form-encoded body for POST
  and PUT, and the serialised request headers. The caller's query parameters
  are merged into the URL. The request then goes through the retry loop, which
  obeys `Retry-After` and gives up after the retry limit. Finally the JSON
  payload is checked.
- **`parseHeaders`.** This turns the raw response header lines into a PHP
  array.
- **`get`, `post`, `put` and `delete`.** These only delegate to `perform`.

The model follows PHP 8.2. Three places depend on the version:
- `strtoupper` is ASCII-only.
- `$a[]` after only negative integer keys continues at 0, as before PHP 8.3.
- `sleep` coerces its argument under PHP 8's rules.

## Modules

- **`Wrappers`**: the `Option` and `Result` types.
- **`PhpStrings`**: the PHP string built-ins the class relies on. These are
  `strtoupper`, `trim` with its default character list, `strpos` for a single
  character, `explode` (with and without a limit of 2), `implode`, and PHP's
  rule for which array keys become integers.
- **`Assoc`**: PHP ordered arrays as sequences of key/value entries.
  - `$a[$k] = $v` keeps an existing key in place and appends a new one.
  - `$a + $b` keeps the left operand's value on a shared key.
- **`Headers`**: `parseHeaders`, with `$a[]` picking the next integer index,
  and the loop that builds the request header string.
  - Each is a method with a loop, proved against a specification function.
  - Lemmas connect each function to an independent description: the last value
    for a name, the bare lines kept in order, the parse of the serialised
    headers, and `explode("\n")` of the header string.
- **`Query`**: `http_build_query`, `parse_str`, `parse_url` and
  `http_build_url` on URLs containing a `?`, and the merge itself.
  - Parsing gives back the encoding of distinct, plain-named parameters. The
    converse does not hold: `parse_str("a")` gives a => "", which encodes as
    "a=", and `parse_str` also drops empty pieces and renames "a.b" to "a_b".
  - Splitting a URL into parts and rebuilding it are proved to be inverses.
- **`Retry`**: the `while(true)` loop around the `$doRequest` closure.
  - Every attempt is judged. The run is a function `RunFrom` of those
    judgements.
  - `RetryLoop` is the imperative loop, proved equal to `RunFrom`.
  - Lemmas give the number of waits, the number of attempts, and the attempt
    that decides the outcome.
- **`Http`**: the remaining steps of `perform`, and the four delegations.
  - `Perform` is proved equal to the function `Execute`.
  - The end-to-end properties are lemmas about `Execute`.

## How I/O is modelled

- **Transport.** `file_get_contents` and `$http_response_header` become a
  `Transport`. For the request sent, it gives each attempt's body (`None` for
  `false`) and its response header lines.
- **Sleep.** `sleep` becomes the list of waits a call records, in order.
- **JSON.** `json_decode` is a `Decoder` parameter. `JNull` stands for text
  that cannot be decoded.
- **Retry limit.** The static `$retryLimit` is a parameter of every operation.

## Behaviour worth noting

- **Query parameter collisions.** On a key that is both in the URL and in
  `$query`, the URL's value wins. The merge is `$params + $query` at
  `src/DreamCommerce/Http.php:144`, and PHP's array union keeps the left
  operand's value.
  - `Query.MergeKeepsUrlValues`, `Query.UrlValueWins` and
    `Query.UrlValueWinsExample` state this.
- **Renamed names escape the merge.** `parse_str` at line 143 turns '.' and
  ' ' in the URL's names into '_', while `$query` keeps its names as given.
  "h?a.b=1" merged with a.b=2 therefore sends "h?a_b=1&a.b=2": both values
  go out, and the URL's does not win (`Query.RenamedNameKept`).
- **Empty bodies.** `!$result` at line 157 treats `false`, `""` and `"0"`
  alike, so an empty successful body is a failed attempt.
  - Such an attempt is retried when it carries a usable `Retry-After`.
    Otherwise it is rethrown as `REQUEST_FAILED`.
  - It never reaches the JSON check.
- **Three throttles, then success.** Three `Retry-After` waits followed by a
  success need a retry limit of only 3 (`Http.ThreeThrottlesThenSuccess`).
- **Counting attempts at the limit.** With retry limit N the loop waits N
  times and makes N + 1 attempts before `QUOTA_EXCEEDED`, because the counter
  is checked before each wait, not before each attempt.
  - `Retry.QuotaAfterExactlyLimit` and `Http.QuotaExceededIff` state this.
- **A `Retry-After` that `sleep` refuses.** `sleep` at line 182 takes an
  integer. Under PHP 8 a value such as an HTTP date is a `TypeError`, and a
  negative one a `ValueError`. Either escapes the loop, uncaught by its
  `catch (HttpException)`. The model ends the call with `SleepError` carrying
  the value, after the waits made so far (`Http.SleepErrorRaised`,
  `Http.DateRetryAfterThrows`).

## Model

| member | source | states |
|---|---|---|
| PhpStrings.Upper | src/DreamCommerce/Http.php:103 | strtoupper keeps the length and maps each character by itself: ASCII a-z to A-Z, everything else unchanged |
| PhpStrings.UpperIdempotent | src/DreamCommerce/Http.php:103 | upper-casing an upper-cased name changes nothing |
| PhpStrings.TrimIsInfix | src/DreamCommerce/Http.php:224-225 | trim gives a contiguous part of its input; only trimmable characters are removed before and after it, and it neither starts nor ends with one |
| PhpStrings.TrimIdempotent | src/DreamCommerce/Http.php:224-225 | trimming a trimmed key or value changes nothing |
| PhpStrings.Trim | src/DreamCommerce/Http.php:224-225 | definition of `trim` with its default character list; its properties are stated by TrimIsInfix and TrimIdempotent |
| PhpStrings.SplitFirst | src/DreamCommerce/Http.php:218-219 | explode(':', $i, 2) has a second element exactly when the line holds a colon; the first part holds no colon, and the parts rejoined with a colon give the line back |
| PhpStrings.ExplodeImplode | src/DreamCommerce/Http.php:143-145 | cutting joined pieces at the separator gives the pieces back when none of them holds it |
| PhpStrings.IntegerKey | src/DreamCommerce/Http.php:226 | a key string PHP turns into an integer is non-empty, has no leading zero, and lies within the 64-bit integer range |
| PhpStrings.IntegerKeyIff | src/DreamCommerce/Http.php:226 | a string becomes the integer key n exactly when n lies in the 64-bit range and the string is n's canonical decimal form (`DecimalOf`): no leading zero, a "-" only before a nonzero number |
| Assoc.Set | src/DreamCommerce/Http.php:226 | after `$a[$k] = $v`, k holds v and every other key holds what it held before |
| Assoc.SetNew | src/DreamCommerce/Http.php:226 | writing to a key the array lacks appends the entry at the end |
| Assoc.SetExisting | src/DreamCommerce/Http.php:226 | writing to a key the array has keeps every key in its position |
| Assoc.SetDistinct | src/DreamCommerce/Http.php:226 | a write keeps the keys distinct |
| Assoc.Union | src/DreamCommerce/Http.php:144 | `$params + $query`: a key of the left operand keeps its value, other keys come from the right; the left operand is a prefix of the result |
| Assoc.Missing | src/DreamCommerce/Http.php:144 | definition of the entries `$a + $b` appends: those of `$b` whose keys `$a` lacks; its lookups are in its contract, and MissingIsSubsequence states their order |
| Assoc.MissingIsSubsequence | src/DreamCommerce/Http.php:144-145 | the entries a union appends are `$b`'s at increasing positions, and those positions are exactly the ones whose key `$a` lacks, so http_build_query writes the added caller keys in `$query`'s order |
| Assoc.UnionDistinct | src/DreamCommerce/Http.php:144 | the union of arrays with distinct keys has distinct keys |
| Assoc.UnionEntries | src/DreamCommerce/Http.php:144 | every entry of a union is an entry of one of its operands |
| Headers.KeyOf | src/DreamCommerce/Http.php:226 | a header name is stored under a string key exactly when it is not integer-like, and then under the name itself |
| Headers.NextIndex | src/DreamCommerce/Http.php:220 | the index `$headers[]` uses is larger than every integer key already present, and is either 0 or one more than a key present, so it is the smallest such index that is not negative |
| Headers.PushDistinct | src/DreamCommerce/Http.php:220 | that index is a key the array lacks, so appending a bare line keeps keys distinct |
| Headers.Push | src/DreamCommerce/Http.php:220 | definition of `$headers[] = $row[0]`; its properties are stated by PushDistinct and BareLinesKept |
| Headers.Step | src/DreamCommerce/Http.php:217-227 | definition of one pass of the foreach: a line without a colon is pushed, otherwise the trimmed name is set to the trimmed value; its properties are stated by LookupIsLastValue, BareLinesKept and FirstColonSplits |
| Headers.HeadersOf | src/DreamCommerce/Http.php:214-229 | definition of parseHeaders' result; ParseHeaders is proved equal to it, and its properties are stated by HeadersDistinct, LookupIsLastValue and BareLinesKept |
| Headers.HeadersDistinct | src/DreamCommerce/Http.php:214-229 | every key of the parsed array occurs once |
| Headers.ParseHeaders | src/DreamCommerce/Http.php:214-229 | the foreach loop builds exactly HeadersOf(src), the array of all the lines applied in order |
| Headers.LookupIsLastValue | src/DreamCommerce/Http.php:218-226 | a named header's value is the trimmed text after the first colon of the last line whose trimmed name matches; a later duplicate overwrites an earlier one |
| Headers.BareLinesKept | src/DreamCommerce/Http.php:219-222 | when no named line has an integer-like name (a line "0: x" would overwrite index 0), the lines without a colon are kept untrimmed and in order under integer keys |
| Headers.FirstColonSplits | src/DreamCommerce/Http.php:218 | the line "a:b:c" gives header a with value "b:c" |
| Headers.StatusThenNamed | src/DreamCommerce/Http.php:214-229 | a status line and one named header give the status line at index 0 and the header under its name |
| Headers.StatusLineAndContentType | src/DreamCommerce/Http.php:214-229 | "HTTP/1.1 200 OK" and "Content-Type: application/json" parse to index 0 and a Content-Type entry |
| Headers.StringifyHeaders | src/DreamCommerce/Http.php:124-130 | no header string for an empty map; otherwise the string is the `k: v` lines, each followed by CRLF, in order |
| Headers.HeaderString | src/DreamCommerce/Http.php:124-130 | definition of the header string; StringifyHeaders is proved to build it, and its properties are stated by HeaderStringIsLines and ParseSerialised |
| Headers.HeaderStringIsLines | src/DreamCommerce/Http.php:127 | explode("\n") of the header string gives each `k: v` line with its "\r", in order, and an empty remainder |
| Headers.ParseSerialised | src/DreamCommerce/Http.php:127 | parseHeaders reads the `k: v` lines the serialisation writes (before their CRLF is added) back as the same names and values, in order, when the names are distinct, trimmed, colon-free and not integer-like |
| Query.PieceOf | src/DreamCommerce/Http.php:143 | a query piece splits at its first '=', and a piece without '=' has an empty value |
| Query.BuildQuery | src/DreamCommerce/Http.php:145 | definition of http_build_query, used at lines 120, 145 and 148; its properties are stated by ParseBuild and ParseStrEncodable |
| Query.VarName | src/DreamCommerce/Http.php:143 | definition of the name parse_str registers; its properties are stated by VarNameFixed, DotRenamed and RenamedNameKept |
| Query.AddPiece | src/DreamCommerce/Http.php:143 | definition of how parse_str stores one piece: under its renamed name, dropped when that name is empty; its properties are stated by ParsePiecesNames and ParseBuild |
| Query.ParseStr | src/DreamCommerce/Http.php:143 | definition of parse_str; its properties are stated by ParsePiecesNames, ParseStrEncodable and ParseBuild |
| Query.ParsePiecesNames | src/DreamCommerce/Http.php:143 | parse_str gives distinct, non-empty names without '=' |
| Query.ParseStrEncodable | src/DreamCommerce/Http.php:143 | whatever parse_str returns can be encoded again |
| Query.VarNameFixed | src/DreamCommerce/Http.php:143 | parse_str keeps a name unchanged exactly when it holds no '.' and no ' ' (it drops leading spaces and turns '.' and ' ' into '_') |
| Query.DotRenamed | src/DreamCommerce/Http.php:143 | parse_str reads the name "a.b" as "a_b" |
| Query.ParseBuild | src/DreamCommerce/Http.php:143-145 | parse_str reads back exactly what http_build_query writes, when the names are distinct, non-empty, free of '=' and '&', and plain (no '.' or ' ', which parse_str would rename) |
| Query.ParseUrl | src/DreamCommerce/Http.php:141 | the part before the query holds no '?', and the query holds no '#' |
| Query.BuildParseUrl | src/DreamCommerce/Http.php:141-146 | rebuilding a decomposed URL gives the URL back |
| Query.ParseBuildUrl | src/DreamCommerce/Http.php:141-146 | decomposing a rebuilt URL gives the components back |
| Query.BuildUrl | src/DreamCommerce/Http.php:146 | definition of http_build_url for a base, a query and an optional fragment; its properties are stated by BuildParseUrl and ParseBuildUrl |
| Query.Existing | src/DreamCommerce/Http.php:141-143 | definition of `$params`, the URL's parameters as parse_str reads them; used by MergedQueryWritten and MergeKeepsUrlValues |
| Query.MergeQuery | src/DreamCommerce/Http.php:136-149 | definition of `$processedUrl`; its properties are stated by EmptyQueryKeepsUrl, PlainUrlGetsQuery, MergedQueryWritten, MergeKeepsUrlValues, UrlValueWins and RenamedNameKept |
| Query.EmptyQueryKeepsUrl | src/DreamCommerce/Http.php:136-138 | an empty query leaves the URL as it is |
| Query.PlainUrlGetsQuery | src/DreamCommerce/Http.php:147-149 | a URL without '?' gets "?" and the encoded query appended |
| Query.MergedQueryWritten | src/DreamCommerce/Http.php:140-146 | for any caller names, merging into a URL with a '?' keeps the part before the query and the fragment, and writes as its query http_build_query of `$params + $query`, where `$params` holds the URL's names as parse_str renames them |
| Query.RenamedNameKept | src/DreamCommerce/Http.php:142-146 | a URL "base?k=v" merged with the caller's k=w, where k contains '.' or ' ', sends "base?k'=v&k=w" with k' the renamed name: the URL's value does not override the caller's, and both are sent |
| Query.MergeKeepsUrlValues | src/DreamCommerce/Http.php:138-149 | when the caller's names are plain (no '.' or ' '), the merged URL holds a '?' and keeps the part before the query and any fragment; its query reads back as `$params + $query`, with the URL's names as parse_str renames them, so a key already in the URL keeps the URL's value and the missing caller keys are added |
| Query.UrlValueWins | src/DreamCommerce/Http.php:138-146 | "base?k=v" merged with k=w and k2=w2, k plain, is requested as "base?k=v&k2=w2": the URL's value of k stays and k2 is added |
| Query.UrlValueWinsExample | src/DreamCommerce/Http.php:144-145 | `$params + $query` with a=1 from the URL and a=2, b=3 from the caller is a=1, b=3, which http_build_query writes "a=1&b=3"; the union and the encoding alone, the whole merge being UrlValueWins |
| Retry.Classify | src/DreamCommerce/Http.php:155-166 | an attempt is delivered exactly when file_get_contents returned a string other than "" and "0" |
| Retry.Delivered | src/DreamCommerce/Http.php:157 | definition of a truthy `$result`: a string other than "" and "0"; its properties are stated by Classify and LastAttemptDecides |
| Retry.RetryAfter | src/DreamCommerce/Http.php:178 | definition of the `!empty($lastRequestHeaders['Retry-After'])` test and the value sleep is given; its properties are stated by ThrottledVerdict, RetryAfterLine, ZeroRetryAfterIgnored and LowerCaseRetryAfterIgnored |
| Retry.SleepAccepts | src/DreamCommerce/Http.php:182 | definition of the values `sleep` takes: decimal digit strings up to PHP_INT_MAX (see the Retry.SleepAccepts line under Left out); its properties are stated by ThrottledVerdict, SleepRejectedAfterThrottles and Http.DateRetryAfterThrows |
| Retry.ThrottledVerdict | src/DreamCommerce/Http.php:178 | a failed attempt asks for a wait exactly when the parsed headers hold Retry-After, neither "" nor "0", and that value is the wait; it is retried exactly when sleep also accepts that value |
| Retry.Judge | src/DreamCommerce/Http.php:155-178 | one closure call and the catch block's test, computed as Classify |
| Retry.RunFrom | src/DreamCommerce/Http.php:168-190 | a run makes one attempt more than it waits, and waits at most max(0, limit) times |
| Retry.RunWaits | src/DreamCommerce/Http.php:172-190 | every attempt before the last was throttled, and the waits are their Retry-After values in order |
| Retry.RunEnd | src/DreamCommerce/Http.php:172-190 | the attempt after the waits decides the outcome; a Retry-After it asks for ends the loop with QUOTA_EXCEEDED once the counter is used up, and with sleep's error while it is not |
| Retry.ThrottledPrefix | src/DreamCommerce/Http.php:172-190 | k throttled attempts within the budget are k waits, after which the loop goes on with the counter k lower |
| Retry.WaitsAt | src/DreamCommerce/Http.php:182 | wait n is attempt n's Retry-After value |
| Retry.WaitsOfAttempts | src/DreamCommerce/Http.php:178-182 | every wait is a throttled attempt's Retry-After value, read from the attempt itself |
| Retry.QuotaAfterExactlyLimit | src/DreamCommerce/Http.php:169-190 | with retry limit N, N attempts throttled with waits sleep accepts and attempt N+1 asking for a wait, the loop throws QUOTA_EXCEEDED with attempt N+1's headers after exactly N waits (none when N <= 0) |
| Retry.QuotaIff | src/DreamCommerce/Http.php:178-181 | QUOTA_EXCEEDED exactly when the first max(0, N) attempts are throttled with waits sleep accepts and the next one asks for a wait |
| Retry.QuotaOfAttempts | src/DreamCommerce/Http.php:178-181 | the same, stated about the attempts, with the headers QUOTA_EXCEEDED carries |
| Retry.DeliveredAfterThrottles | src/DreamCommerce/Http.php:172-190 | a body delivered after k throttled attempts, k within the limit, is returned after those k waits, in k + 1 attempts |
| Retry.SleepRejectedAfterThrottles | src/DreamCommerce/Http.php:178-182 | a Retry-After sleep refuses, on attempt k + 1 after k throttled attempts with budget left, ends the loop with sleep's error for that value, after those k waits and in k + 1 attempts |
| Retry.SleepRejectedOfAttempts | src/DreamCommerce/Http.php:178-182 | the same, stated about the attempts |
| Retry.LastAttemptDecides | src/DreamCommerce/Http.php:157-186 | the attempt after the waits decides the outcome, each outcome exactly: its body when it delivers; REQUEST_FAILED when it asks for no wait; QUOTA_EXCEEDED when it asks for one with the budget spent; sleep's error, for its Retry-After value, when budget is left; the exceptions carry its headers |
| Retry.FailureWithoutRetryAfter | src/DreamCommerce/Http.php:183-186 | a failure without a usable Retry-After after k throttled attempts is rethrown at once, with no wait for it and no further attempt |
| Retry.RetryLoop | src/DreamCommerce/Http.php:168-190 | the while loop computes RunFrom on the attempts' verdicts, stopping with sleep's error on a wait sleep refuses, and never waits more than the retry limit |
| Retry.RetryLoopOn | src/DreamCommerce/Http.php:168-190 | the `while` loop itself, over the verdicts of the attempts: its outcome, waits and attempts are RunFrom's, and it waits at most the retry limit |
| Retry.RetryAfterLine | src/DreamCommerce/Http.php:178 | a single `Retry-After: v` line asks for a wait of v unless v is "" or "0" |
| Retry.StatusAndRetryAfter | src/DreamCommerce/Http.php:178 | the same after a status line |
| Retry.ZeroRetryAfterIgnored | src/DreamCommerce/Http.php:178 | `Retry-After: 0` asks for no wait, because empty() treats "0" as empty |
| Retry.LowerCaseRetryAfterIgnored | src/DreamCommerce/Http.php:178 | the key is matched with its exact case: a `retry-after` header asks for no wait |
| Retry.VarExport | src/DreamCommerce/Http.php:161 | definition of `var_export($h, $return)`: the message it makes and what it prints; its properties are stated by MessageLostAsWritten and MessageExported |
| Retry.ThrownAsWritten | src/DreamCommerce/Http.php:161 | definition of the REQUEST_FAILED message as written, without `true`; its properties are stated by MessageLostAsWritten |
| Retry.Thrown | src/DreamCommerce/Http.php:161 | definition of the REQUEST_FAILED message as intended, with `true` as at line 180; its properties are stated by MessageExported |
| Retry.MessageLostAsWritten | src/DreamCommerce/Http.php:160-163 | as written, a failed attempt's REQUEST_FAILED has no message and its parsed headers are printed instead |
| Retry.MessageExported | src/DreamCommerce/Http.php:160-163 | exported with `true`, as at line 180, the message holds the parsed headers the loop judges by and nothing is printed |
| Retry.EchoedAsWritten | src/DreamCommerce/Http.php:161 | definition of what a run prints as written; its properties are stated by EchoesEveryFailure |
| Retry.EchoesEveryFailure | src/DreamCommerce/Http.php:155-190 | as written, a run prints one export per attempt that did not deliver, in order, each the headers of its own attempt, the retried attempts included |
| Retry.ThreeWaitsThenDeliver | src/DreamCommerce/Http.php:172-190 | three one-second throttles, then a body: waits "1", "1", "1", four attempts, that body |
| Http.VerbOf | src/DreamCommerce/Http.php:103-110 | a name is accepted exactly when its upper-cased form is GET, POST, PUT or DELETE, and the verb spells that form |
| Http.ContextFor | src/DreamCommerce/Http.php:112-130 | definition of the stream-context options; ContextParams is proved to build them, and their properties are stated by SentContext |
| Http.Sent | src/DreamCommerce/Http.php:99-149 | definition of the request perform sends, or none for a refused method; its properties are stated by RefusedIff, SentContext, SentUrlUnchanged and SentUrlMerged |
| Http.Falsy | src/DreamCommerce/Http.php:194 | definition of `!$parsedPayload` on decoded JSON; its properties are stated by DeliveredResult and FalsyPayloadRefused |
| Http.Finish | src/DreamCommerce/Http.php:192-204 | definition of the payload check with the corrected headers; CheckPayload is proved equal to it, and its properties are stated by DeliveredResult, RefusedResult and FalsyPayloadRefused |
| Http.Execute | src/DreamCommerce/Http.php:99-205 | definition of perform's result, request, waits and attempts; Perform is proved equal to it, and the end-to-end lemmas below state its properties |
| Http.ContextParams | src/DreamCommerce/Http.php:112-130 | the context carries the method; content exactly for POST and PUT, equal to the encoded body; a header string exactly when there are headers |
| Http.ProcessUrl | src/DreamCommerce/Http.php:135-150 | the URL requested is MergeQuery(url, query) |
| Http.CheckPayload | src/DreamCommerce/Http.php:192-204 | the loop's exception, MALFORMED_RESULT for a falsy decoding, or the decoding with the parsed headers |
| Http.Perform | src/DreamCommerce/Http.php:99-205 | perform computes Execute of its arguments, the transport and the decoder |
| Http.RefusedIff | src/DreamCommerce/Http.php:103-110 | METHOD_NOT_SUPPORTED exactly for names whose upper-cased form is not one of the four; then nothing is sent, nothing waited, no attempt made; otherwise the request is sent at least once |
| Http.MethodCaseInsensitive | src/DreamCommerce/Http.php:103 | the case of the method name does not change the call |
| Http.SentContext | src/DreamCommerce/Http.php:112-130 | the request carries the upper-cased method; content exactly for POST and PUT, which parse_str reads back as the body; a header option exactly for non-empty headers, which splits into one CRLF line per header |
| Http.SentUrlUnchanged | src/DreamCommerce/Http.php:136-138 | without query parameters the URL is sent as given |
| Http.SentUrlMerged | src/DreamCommerce/Http.php:138-149 | with query parameters whose names are plain (no '.' or ' '), the URL sent keeps its base and reads back its query as `$params + $query`, with the URL's names as parse_str renames them |
| Http.WaitsAreRetryAfters | src/DreamCommerce/Http.php:168-190 | at most max(0, N) waits, one attempt more than waits, and each wait is a throttled attempt's Retry-After value, in order |
| Http.DeliveredResult | src/DreamCommerce/Http.php:192-204 | success exactly when the last attempt delivered a body with a truthy decoding, returned with that attempt's parsed headers; MALFORMED_RESULT exactly when the decoding is falsy |
| Http.RefusedResult | src/DreamCommerce/Http.php:157-186 | REQUEST_FAILED exactly when the last attempt failed without asking for a wait; QUOTA_EXCEEDED exactly when it asked for one after max(0, N) waits; sleep's error exactly when it asked for one with fewer waits, for a value sleep refuses; the exceptions carry its parsed headers |
| Http.QuotaExceededIff | src/DreamCommerce/Http.php:169-190 | QUOTA_EXCEEDED exactly when the first max(0, N) attempts are throttled with waits sleep accepts and the next asks for a wait, and then after exactly max(0, N) waits and max(0, N) + 1 attempts, with the last attempt's headers |
| Http.FailureRethrown | src/DreamCommerce/Http.php:183-186 | a failure asking for no wait after k throttles is REQUEST_FAILED with its headers, after k waits and k + 1 attempts |
| Http.SleepErrorRaised | src/DreamCommerce/Http.php:178-182 | a Retry-After sleep refuses, after k throttles with budget left, ends perform with sleep's error for that value, after k waits and in k + 1 attempts |
| Http.DeliveredAfterRetries | src/DreamCommerce/Http.php:172-204 | a body delivered after k throttles within the limit is what gets decoded, after k waits equal to those attempts' Retry-After values |
| Http.ThreeThrottlesThenSuccess | src/DreamCommerce/Http.php:172-204 | three `Retry-After: 1` failures, then a success, with limit >= 3: the fourth payload is returned after waits 1, 1, 1 |
| Http.JsonObjectReturned | src/DreamCommerce/Http.php:192-204 | a JSON object in a 200 response is returned decoded, with the status line at index 0 and Content-Type by name |
| Http.DateRetryAfterThrows | src/DreamCommerce/Http.php:178-182 | a first response whose Retry-After is an HTTP date (it starts with a letter) ends get with sleep's error for it, before any wait |
| Http.FalsyPayloadRefused | src/DreamCommerce/Http.php:193-196 | a body decoding to an empty array is MALFORMED_RESULT |
| Http.LowerCaseNames | src/DreamCommerce/Http.php:48-86 | the lower-case names the delegations pass are accepted as their verbs |
| Http.Get | src/DreamCommerce/Http.php:46-49 | get is perform('get') with no body: method GET, no content |
| Http.Post | src/DreamCommerce/Http.php:59-62 | post is perform('post'): method POST, content the encoded body |
| Http.Put | src/DreamCommerce/Http.php:72-75 | put is perform('put'): method PUT, content the encoded body |
| Http.Delete | src/DreamCommerce/Http.php:84-87 | delete is perform('delete') with no body: method DELETE, no content |
| Http.FinishAsWritten | src/DreamCommerce/Http.php:192-204 | the payload check as written: as Finish, except that a success always carries empty headers |
| Http.HeadersLostAsWritten | src/DreamCommerce/Http.php:199 | for a success with a status line, the code as written returns no headers, while the intended result has the status line at index 0 |

## Findings

| source | as written | input that shows it | evidently intended | confidence | as-written member | corrected member |
|---|---|---|---|---|---|---|
| src/DreamCommerce/Http.php:199 | `parseHeaders($http_response_header)` reads the variable in `perform`'s own scope. PHP sets it only in the scope of the closure that called `file_get_contents`, so the returned headers are always an empty array | any successful response, e.g. lines ["HTTP/1.1 200 OK"] with a truthy JSON body | the headers of the response that delivered the body | high, by PHP's scoping rules; not executed | Http.FinishAsWritten, Http.HeadersLostAsWritten | Http.Finish, Http.DeliveredResult |
| src/DreamCommerce/Http.php:161 | `var_export($lastRequestHeaders)` without its second argument prints the parsed headers and returns null, so every `REQUEST_FAILED` has an empty message and every failed attempt, retried ones included, writes its headers to the output | any failed attempt, e.g. body `false` with lines ["HTTP/1.1 500 Internal Server Error"] | `var_export($lastRequestHeaders, true)`, as for `QUOTA_EXCEEDED` at line 180: the message holds the export and nothing is printed | high, by the documented behaviour of var_export; not executed | Retry.ThrownAsWritten, Retry.MessageLostAsWritten, Retry.EchoedAsWritten, Retry.EchoesEveryFailure | Retry.Thrown, Retry.MessageExported, Http.RefusedResult |

The rest of the model uses the corrected behaviour. `Finish` returns the
headers of the attempt that delivered the body, and `REQUEST_FAILED` carries
the failed attempt's parsed headers in place of an export.

## Left out

- **Real I/O.** `file_get_contents`, `stream_context_create` and `sleep` are
  modelled by the `Transport` parameter and the recorded waits. Timing is not
  modelled. A wait is recorded as the raw header value, not as the integer
  `sleep` coerces it to.
- Retry.SleepAccepts: counts only digit strings up to `PHP_INT_MAX` as values
  `sleep` takes. PHP 8 also takes "+2" and "-0", "1.5" with a deprecation
  notice, and the leading-numeric "3s" with a warning; the model treats those
  as refused and ends with `SleepError`.
- **`json_decode`.** It is the `Decoder` parameter. Floats are not modelled.
- **URL and query encoding.**
  - `http_build_query`, `parse_str`, `parse_url` and `http_build_url` are
    library code not shown here. `http_build_url` is not part of core PHP: it
    comes from the pecl_http extension or a userland polyfill, so the PHP 8.2
    statement above does not cover it; the model assumes it joins the parts
    as they were split. They are modelled as `k=v` pairs joined by
    `&`, without percent-encoding and without PHP's bracket syntax for nested
    arrays.
  - `parse_str`'s renaming of names is modelled: leading spaces are dropped,
    and '.' and ' ' become '_'. Its treatment of '[' in a name is not: a name
    such as "a[b" or "a[]" is read as the plain name it is written as.
  - `ParseBuild`, `MergeKeepsUrlValues` and `SentUrlMerged` read back only
    caller names without '.' or ' '. For other names `MergedQueryWritten`
    states what is sent, and `RenamedNameKept` shows that a renamed URL
    name and the caller's name are both sent.
  - A URL is split at its first `?` and then at the first `#`. Scheme, host
    and port are kept as one opaque prefix.
  - A URL whose `#` comes before its first `?` is split differently by PHP's
    `parse_url`: "h#f?a=1" has the fragment "f?a=1" and no query. `MergeQuery`
    and `Execute` still split such a URL at its first `?`. The lemmas
    `MergeKeepsUrlValues` and `SentUrlMerged` require that the part before the
    query holds no `#`, which excludes these URLs and URLs with a fragment but
    no `?`.
- **Caller arrays.** `$body`, `$query` and `$headers` have string keys and
  string values. Integer keys and nested values in them are not modelled.
- **The singleton and the static `$retryLimit`.** `instance()` is not
  modelled, and the limit is a parameter.
- **Exception messages.** The `var_export` text of the exceptions is not
  modelled. Only the error codes and the parsed headers are kept; the headers
  of `REQUEST_FAILED` and `QUOTA_EXCEEDED` stand for `var_export($h, true)`.
  What the failed attempts print, as written, is modelled only by
  `Retry.EchoedAsWritten`. The exception class and message of `sleep`'s
  `TypeError` and `ValueError` are not modelled; `SleepError` keeps the value.
- **Response-header scoping.** The `$http_response_header` problem described
  under Findings is modelled only by `FinishAsWritten`. `Execute` returns the
  delivering attempt's headers.
- **`strtoupper` before PHP 8.2.** It depended on the locale. The model uses
  the ASCII-only behaviour of PHP 8.2 and later.
- **Array keys at the limit.** Appending with `$a[]` after a key equal to
  `PHP_INT_MAX` fails in PHP. The model keeps counting up.
- Headers.NextIndex: follows PHP before 8.3 when every integer key is
  negative, starting at 0. PHP 8.3 continues from one more than the largest
  negative key.
- **`examples/RestPut.php`.** It is an example script that only calls classes
  outside this file. `Client` and the resource classes are not part of this
  model.
