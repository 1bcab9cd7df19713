# embedding-search core, modelled in Dafny

This project models the request-handling core of the embedding-search
service and proves properties about it. The service is an HTTP API that
turns text into embedding vectors through an AI provider. It stores them in
a vector datastore and answers similarity searches. The model covers:

- `SecurityMiddleware.checkRateLimit`, a fixed-window, per-client rate
  limiter over an in-memory map: 100 requests per 15 minutes, with an
  opportunistic sweep of expired entries (`rate_limiter.dfy`, module
  `RateLimit`). The function `Check` specifies one call. The class
  `RateLimiter` holds the map as a field, and its `CheckRateLimit` method
  (with the sweep loop `Sweep`) is proved against `Check`.
- `SecurityMiddleware.sanitizeText`: the script-block regular expression,
  the tag regular expression, `trim()`, and the 10,000-unit length check
  (`sanitizer.dfy`, module `Sanitizer`). Both global replaces are modelled
  exactly as left-to-right scans. The case-insensitive `<script\b … </script>`
  match and the `<[^>]*>` match are written out as functions. JavaScript's
  `length` counts UTF-16 code units.
- `EmbeddingService`: `createEmbedding`, `getEmbedding`, `searchSimilar`
  (`embedding_service.dfy`). The AI client and the datastore client are
  ports, held as function-valued fields of `Ports`. Every operation returns
  its result together with the sequence of port calls it made. This lets the
  datastore's log of saved pairs and the order of the calls be stated.
- `SearchController.handle` and `EmbeddingController.handle`
  (`search_controller.dfy`, `embedding_controller.dfy`, on the JSON body and
  response types of `http.dfy`). The parsed request body goes in; the
  status, the JSON payload and the port calls come out. A thrown
  exception becomes a 500 carrying the `Error`'s message, or the handler's
  fallback text when the thrown value is not an `Error`.
- `validateEnvironment` (`environment.dfy`): the loop that collects the
  missing required variables, the error message, and the defaults.
  `process.env` is a parameter of type `map<string, string>`.

`common.dfy` holds `Option`, `Result`, the exception type and the
subsequence relation used to say "only deletes characters".

Points where the behaviour is easy to get wrong:

- A created record's vector may be empty. The `!embedding` test lets an
  empty array through, because `[]` is truthy. `CreateEmbedding` therefore
  fails only on an absent (`undefined` or `null`) vector.
- Sanitised text can still contain `<` and `>`. The tag expression only
  removes a `<` that has a `>` somewhere after it, so lone brackets survive
  (`LoneAngleBracketKept`), even in text that held markup
  (`BracketAfterTagKept`). What does hold is that no `<` is followed,
  anywhere later, by a `>` (`NoTagPair`).
- The window and the threshold are fixed in the code at 15 minutes and 100
  requests, and so they are in the model.
- A text that is too long after sanitising is not a 400 validation error.
  `sanitizeText` throws an `Error`, which both handlers turn into a 500
  with the length message.
- `searchSimilar` does not check the AI port's reply. An absent query
  vector is handed to the datastore's search as it is.
- The search handler destructures the body without `?.`. A JSON `null`
  body therefore throws a `TypeError`, giving a 500, before any
  validation. The embedding handler reads `body?.text` and answers 400 for
  the same body. The `TypeError`'s text depends on the JavaScript engine and
  is a parameter (`nullBodyMessage`).

## Model

| member | source | states |
|---|---|---|
| RateLimit.CeilSeconds | src/middleware/security.middleware.ts:32 | `Math.ceil(ms / 1000)` for whole milliseconds: the least `r` with `ms <= 1000 * r` |
| RateLimit.Swept | src/middleware/security.middleware.ts:11-15 | the sweep keeps exactly the entries whose window has not ended (`now <= resetTime`), with their values unchanged |
| RateLimit.CheckOutcome | src/middleware/security.middleware.ts:6-38 | a call is refused exactly when the client's live entry has reached 100, and only a refusal carries `retryAfter`; afterwards the map holds the swept entries plus the caller, no other client's entry changes, a refusal changes nothing beyond the sweep, and an allowed call sets the caller's count to one more than before, or to 1 in a new window |
| RateLimit.RateLimiter.constructor | src/middleware/security.middleware.ts:4 | the limiter starts with an empty map |
| RateLimit.RateLimiter.Sweep | src/middleware/security.middleware.ts:11-15 | the deletion loop leaves the map equal to `Swept` of the old map, so no expired entry remains, and keeps the limiter's invariant |
| RateLimit.RateLimiter.CheckRateLimit | src/middleware/security.middleware.ts:6-38 | the verdict and the new map are those of `Check`; stored counts stay within [1, 100]; with a clock that does not go backwards, a refusal carries a `retryAfter` between 0 and 900 seconds |
| RateLimit.NewWindow | src/middleware/security.middleware.ts:17-27 | a client with no entry, or with an expired one, is allowed and gets a fresh window with count 1 ending 15 minutes later |
| RateLimit.ExpiredBranchUnreachable | src/middleware/security.middleware.ts:11-27 | after the sweep, the "window expired" branch can never be taken |
| RateLimit.CheckKeepsCountsBounded | src/middleware/security.middleware.ts:6-38 | every call keeps every stored count between 1 and the threshold |
| RateLimit.AllowedIncrements | src/middleware/security.middleware.ts:29-37 | within a live window and below the threshold the call is allowed; that client's count rises by exactly one and every other entry is what the sweep left |
| RateLimit.RefusalAtThreshold | src/middleware/security.middleware.ts:29-34 | at the threshold the call is refused, nothing but the sweep changes, and `retryAfter` is the remaining window rounded up to seconds, within [0, 900] |
| RateLimit.BurstEntry | src/middleware/security.middleware.ts:17-37 | with a fixed clock and no live entry to start with, n calls leave the client's entry counting min(n, 100) in a window ending 15 minutes after the first |
| RateLimit.BurstStep | src/middleware/security.middleware.ts:17-37 | in such a burst the n-th call is allowed when n <= 100 and refused with a 900-second retry otherwise |
| RateLimit.BurstThreshold | src/middleware/security.middleware.ts:8-37 | with a fixed clock, calls 1 to 100 of a fresh window are allowed and every later one is refused with a 900-second retry |
| RateLimit.HundredthAllowedHundredFirstRefused | src/middleware/security.middleware.ts:29-37 | the 100th call in one window is allowed and the 101st is refused |
| Sanitizer.Utf16Length | src/middleware/security.middleware.ts:50 | `length` in UTF-16 code units: between the number of characters and twice that |
| Sanitizer.FindScriptClose | src/middleware/security.middleware.ts:46 | a position it returns starts a case-insensitive `</script>` inside the text |
| Sanitizer.FindScriptCloseIsFirst | src/middleware/security.middleware.ts:46 | the position found is the first case-insensitive `</script>` from the start position on, and none is found only when there is none |
| Sanitizer.FindChar | src/middleware/security.middleware.ts:47 | the first occurrence of the character at or after a position, or none at all from there on |
| Sanitizer.MatchAt | src/middleware/security.middleware.ts:46-47 | a match of either expression is non-empty, begins with `<` and ends with `>` |
| Sanitizer.ScriptMatchIsFirstClose | src/middleware/security.middleware.ts:46 | the script expression matches exactly when the text opens with `<script\b` and a `</script>` follows, and the match ends with the first such `</script>` |
| Sanitizer.TagMatchIsFirstClose | src/middleware/security.middleware.ts:47 | the tag expression matches exactly when the text opens with `<` and a `>` follows, and the match ends at the first `>` |
| Sanitizer.DeleteMatches | src/middleware/security.middleware.ts:45-47 | a global replace with "" never makes the text longer |
| Sanitizer.DeleteMatchesDeletes | src/middleware/security.middleware.ts:45-47 | a global replace with "" only deletes characters: its output is a subsequence of its input |
| Sanitizer.TagPassRemovesMarkup | src/middleware/security.middleware.ts:47 | after the tag pass, no `<` is followed anywhere later by a `>` |
| Sanitizer.DeleteMatchesKeepsTagFree | src/middleware/security.middleware.ts:46-47 | text with no `<`…`>` pair is left unchanged by either pass |
| Sanitizer.FirstCharKept | src/middleware/security.middleware.ts:45-47 | a character other than `<` starts no match, so it is kept and the scan goes on from the next character |
| Sanitizer.PlainTextKept | src/middleware/security.middleware.ts:47 | text without `<` passes the tag pass unchanged, and the scan carries on right after it |
| Sanitizer.TagDeletedThroughFirstClose | src/middleware/security.middleware.ts:47 | `<`, then text without `>`, then `>` is deleted as one tag, and the scan resumes right after that `>` |
| Sanitizer.TextBetweenTagsKept | src/middleware/security.middleware.ts:47 | in `<t1>x<t2>rest`, with no `>` inside the tags and no `<` in `x`, the tags are deleted and `x` is kept |
| Sanitizer.TrimStart | src/middleware/security.middleware.ts:48 | removes exactly the longest prefix of JavaScript whitespace and line terminators |
| Sanitizer.TrimEnd | src/middleware/security.middleware.ts:48 | removes exactly the longest suffix of JavaScript whitespace and line terminators |
| Sanitizer.Trim | src/middleware/security.middleware.ts:48 | `trim()` returns a slice of its input with no whitespace at either end, and what it cuts off before and after that slice is all whitespace |
| Sanitizer.TrimKeepsTrimmed | src/middleware/security.middleware.ts:48 | `trim()` leaves already-trimmed text unchanged |
| Sanitizer.TrimOnlyDeletes | src/middleware/security.middleware.ts:48 | `trim()` only deletes characters |
| Sanitizer.Stripped | src/middleware/security.middleware.ts:45-48 | the text after the two replaces and `trim()` has no whitespace at either end and no `<` followed later by `>` |
| Sanitizer.Sanitize | src/middleware/security.middleware.ts:40-55 | fails exactly when the stripped text is longer than 10,000 UTF-16 units, with the length message; otherwise returns the stripped text, which is trimmed, has no tag pair and is within the bound |
| Sanitizer.StrippedOnlyDeletes | src/middleware/security.middleware.ts:45-48 | the two replaces and the trim together only delete characters |
| Sanitizer.SanitizeOnlyDeletes | src/middleware/security.middleware.ts:45-54 | sanitised text is a subsequence of the input |
| Sanitizer.ShortInputAccepted | src/middleware/security.middleware.ts:45-52 | input within 10,000 UTF-16 units is never rejected as too long |
| Sanitizer.SanitizedIsFixedPoint | src/middleware/security.middleware.ts:45-54 | text that is already sanitised comes back unchanged |
| Sanitizer.SanitizeIdempotent | src/middleware/security.middleware.ts:45-54 | sanitising a sanitised result gives the same result |
| Sanitizer.LoneAngleBracketKept | src/middleware/security.middleware.ts:47-48 | `"a > b"` is returned unchanged: a bracket without a partner survives |
| Sanitizer.BracketExampleHasNoScript | src/middleware/security.middleware.ts:46 | the script pass leaves `"<b>>"` unchanged |
| Sanitizer.BracketExampleTagPass | src/middleware/security.middleware.ts:47 | the tag pass turns `"<b>>"` into `">"` |
| Sanitizer.BracketExampleStripped | src/middleware/security.middleware.ts:45-48 | the three passes turn `"<b>>"` into `">"` |
| Sanitizer.BracketAfterTagKept | src/middleware/security.middleware.ts:45-54 | `"<b>>"` sanitises to `">"`: a bracket can survive in text that held markup |
| Sanitizer.ScriptExampleOpens | src/middleware/security.middleware.ts:46 | `<script>` satisfies `<script\b` |
| Sanitizer.ScriptExampleCloses | src/middleware/security.middleware.ts:46 | the first `</script>` after `<script>` in the example is found at its true position |
| Sanitizer.ScriptExampleMatch | src/middleware/security.middleware.ts:46 | the script expression matches `<script>x</script>` in full, contents included |
| Sanitizer.ScriptBlockRemoved | src/middleware/security.middleware.ts:45-54 | `"<script>x</script>hi"` sanitises to `"hi"` |
| EmbeddingService.CreateEmbedding | src/core/services/embedding.service.ts:10-18 | makes exactly the calls `[embed(text)]`, followed by one save of (text, the AI's vector) only when a vector came back, so an AI failure or a missing vector reaches no datastore call; asks the AI port first with the text unchanged; saves exactly one pair (the text and the AI's vector) when a vector came back and none otherwise; succeeds exactly when the vector is present and the save succeeded, returning the saved pair; propagates the AI port's and the datastore's errors unchanged and fails with "Failed to create embedding" on an absent vector |
| EmbeddingService.GetEmbedding | src/core/services/embedding.service.ts:20-23 | returns the datastore's answer for the id unchanged, with one fetch and no other call |
| EmbeddingService.SearchSimilar | src/core/services/embedding.service.ts:25-28 | asks the AI port first and saves nothing; an AI failure stops before the datastore; otherwise the AI reply and the limit go to the datastore's search unchanged and its answer, in its order, is the result |
| SearchController.HandleSearch | src/api/controllers/search.controller.ts:14-41 | status is 200, 400 or 500; a 400 reaches no port; nothing is saved; at most one AI request, and only with sanitised text; a 200 carries exactly the results the datastore's search returned |
| SearchController.SearchText | src/api/controllers/search.controller.ts:30-39 | after validation: 200 or 500, at most one AI request with sanitised text, no save, and a 200 carries the search's results |
| SearchController.SearchSanitized | src/api/controllers/search.controller.ts:32-39 | one `searchSimilar` on the sanitised text; a 200 is the datastore's answer to the AI reply and the limit |
| SearchController.LimitArgument | src/api/controllers/search.controller.ts:24-32 | an accepted `limit` is passed on unchanged: an absent one stays absent, a number stays the same number, within [1, 100] |
| SearchController.GuardEdges | src/api/controllers/search.controller.ts:19-28 | `limit` 1, 100, 2.5 and an absent `limit` pass; 0.5, 100.5, `null` and `"5"` are refused; `text` must be a non-empty string |
| Http.Property | src/api/controllers/search.controller.ts:16-17 | a property read gives the field's value exactly when the body is an object with that key, and `undefined` otherwise |
| Http.MessageOf | src/api/controllers/search.controller.ts:35-39 | a thrown `Error` gives its own message, any other thrown value the handler's fallback text |
| SearchController.TextCheckedFirst | src/api/controllers/search.controller.ts:19-21 | an absent, empty or non-string `text` gives 400 "Missing or invalid text" and no call, whatever `limit` is |
| SearchController.LimitChecked | src/api/controllers/search.controller.ts:23-28 | with a usable `text`, a present `limit` that is not a number in [1, 100] (including `null`) gives 400 with the limit message and no call |
| SearchController.ValidRequestSearchesSanitisedText | src/api/controllers/search.controller.ts:24-39 | a valid request searches for the sanitised text with the limit unchanged (absent when omitted); the response is 200 with the results, or 500 with the error's message or the fallback; an over-long text is a 500 |
| SearchController.UnusableBodyFails | src/api/controllers/search.controller.ts:14-39 | a body that is not JSON, or is JSON `null`, gives a 500 and no call |
| SearchController.CheckedRequestSearches | src/api/controllers/search.controller.ts:17-30 | a body whose `text` is a non-empty string and whose `limit` is absent or a number in [1, 100] is handed on to sanitising and search, with the limit as given (absent when omitted) |
| SearchController.CleanTextSearches | src/api/controllers/search.controller.ts:30-32 | already-clean text is searched for as it is |
| SearchController.CleanRequestReturnsResults | src/api/controllers/search.controller.ts:17-34 | a request with clean `text` and a `limit` that is absent or in [1, 100] returns 200 with the datastore's results in its order, after exactly the calls embed, then search with the AI's vector and that limit (absent when omitted) |
| SearchController.SearchRequestReturnsResults | src/api/controllers/search.controller.ts:16-34 | `{"text": t, "limit": 2}` with clean `t` returns 200 with the datastore's results in its order, after calls embed(t) then search(vector, 2) |
| EmbeddingController.HandleEmbed | src/api/controllers/embedding.controller.ts:10-31 | status is 200, 400 or 500; an unparsable body is 500 with the parse error's message (or "Failed to process embedding") and no call; a 400 is exactly "Missing or invalid text" with no call; at most one AI request and one save, only with sanitised text; 200 means `{success: true}` and a save that succeeded |
| EmbeddingController.EmbedText | src/api/controllers/embedding.controller.ts:20-29 | after the text check: 200 or 500, at most one AI request and one save, with sanitised text only; 200 means the save succeeded |
| EmbeddingController.EmbedSanitized | src/api/controllers/embedding.controller.ts:22-29 | one `createEmbedding` on the sanitised text; a save, if any, carries that text; 200 means `{success: true}` after a successful save |
| EmbeddingController.UnreadableBodyFails | src/api/controllers/embedding.controller.ts:12-29 | a body `c.req.json()` cannot parse gives 500 with the error's message, or "Failed to process embedding" for a non-Error throw, and no call |
| EmbeddingController.MissingTextRejected | src/api/controllers/embedding.controller.ts:13-17 | an absent, empty or non-string `text`, also in a `null` body, gives 400 and no call |
| EmbeddingController.UsableTextCreatesOnce | src/api/controllers/embedding.controller.ts:19-29 | a usable `text` makes exactly the calls of one `createEmbedding` on the sanitised text; 200 on its success, otherwise 500 with its error's message or the fallback; an over-long text is a 500 |
| EmbeddingController.EmbedRequestSaves | src/api/controllers/embedding.controller.ts:12-24 | `{"text": t}` with clean `t` returns 200 and the datastore received exactly the pair (t, the AI's vector) |
| EmbeddingController.EmbedRequestSaveFails | src/api/controllers/embedding.controller.ts:22-29 | when the datastore throws an `Error`, the response is 500 with that error's message |
| Environment.MissingAmongExactly | src/config/environment.config.ts:11-18 | the missing list holds exactly the unset or empty names, in the order of the required list |
| Environment.MissingAmong | src/config/environment.config.ts:11-18 | the missing list is no longer than the required list and holds only required names that are unset or empty |
| Environment.ValidateEnvironment | src/config/environment.config.ts:10-32 | fails exactly when a required variable is unset or empty, with "Missing required environment variables: " and the missing names joined by ", "; otherwise copies the three credentials, defaults `NODE_ENV` to "development" and `PORT` to "3000", and passes `ALLOWED_ORIGINS` through |
| Environment.NothingSetReportsAll | src/config/environment.config.ts:11-18 | with nothing set, all three names are reported, in order |
| Environment.NothingSetMessage | src/config/environment.config.ts:20-22 | with nothing set, the message lists OPENAI_API_KEY, SUPABASE_URL and SUPABASE_KEY separated by ", " |
| Environment.JoinEnds | src/config/environment.config.ts:21 | `join(", ")` of no names is ""; otherwise it begins with the first name, followed by ", " when more follow, and ends with the last name |
| Environment.RequiredVarsJoined | src/config/environment.config.ts:11-21 | the three required names joined are "OPENAI_API_KEY, SUPABASE_URL, SUPABASE_KEY" |

## Left out

- The four Hono middleware factories of `SecurityMiddleware` are not modelled; they are framework glue around the modelled checks:
  - `createRateLimitMiddleware` reads the client identifier from the `x-forwarded-for` or `x-real-ip` header (or "unknown") and turns a refusal of `checkRateLimit` into a 429.
  - `createSecurityHeadersMiddleware` copies the constant table of `getSecurityHeaders` into the response headers.
  - `createTextSanitizerMiddleware` runs `sanitizeText` on every string field of a JSON body. `app.ts` never installs it, so requests reach the handlers unsanitised and the handlers sanitise `text` themselves.
  - `createJsonContentTypeMiddleware`, installed in `app.ts` as `validateJsonContent` on `/embed` and `/search`, refuses a POST without a JSON content type with a 400.
- Hono's own `logger` and `cors` middleware are not part of this model.
- The application assembly, the dependency container, the OpenAI and Supabase clients, the CLI, the console colour helpers and `createResponse` are not part of this model. The clients are the ports of `Ports`; a response is a `(status, payload)` pair.
- `Date.now()`, `process.env` and the request body are parameters. Asynchrony is left out: each awaited call is a plain call on a port, in program order.
- Logging through `console.error` in both handlers is left out.
- Concurrency is left out: the limiter's map is read and written within one synchronous call.
- Vectors and similarity scores are opaque `real` sequences and values. Nothing is claimed about their floating-point arithmetic.
- Timestamps are unbounded integers. JavaScript numbers are exact only up to 2^53, which timestamps do not reach.
- Sanitizer.Sanitize: the "Input must be a string" guard of `sanitizeText` is not modelled, because the argument is a string by type and both handlers only pass strings.
- Sanitizer.Utf16Length: strings are sequences of Unicode scalar values, so lone surrogates cannot be represented.
- RateLimit.RateLimiter.CheckRateLimit: the retry bound of [0, 900] seconds is stated only for a clock that does not go backwards. The ghost field `clock`, the latest time seen, starts at 0, so the bound is for times from 0 on. With an earlier `now`, `retryAfter` can exceed 900, exactly as in the source.
- RateLimit.RateLimiter.CheckRateLimit: the "no entry" and "expired entry" branches are merged, because both write a fresh window. After the sweep the expired branch cannot be reached (`ExpiredBranchUnreachable`), and `Check` keeps the two branches separate as in the source.
- SearchController.HandleSearch: the `TypeError` message for a JSON `null` body depends on the JavaScript engine and is a parameter.
- Http.Property: a JSON object is a map, so duplicate keys (the last one wins in `JSON.parse`) and properties inherited from the prototype are not modelled.
- Http.Json: a JSON number is a `real`. `JSON.parse` turns a literal too large for a double, such as `1e400`, into `Infinity`; the model keeps it as a large real. Either way such a `limit` is above 100 and refused, so no outcome changes. Rounding of other literals to doubles is not modelled.
