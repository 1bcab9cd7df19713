/** `SearchController.handle`: read the body, check `text`, check `limit`,
    sanitise, search, and map every caught exception to a 500. */
module SearchController {
  import opened Common
  import opened Sanitizer
  import opened EmbeddingService
  import opened Http

  const InvalidLimitMessage := "Invalid limit. Must be a number between 1 and 100"
  const SearchFailedMessage := "Failed to search embeddings"

  /** The `limit` guard, negated: absent, or a number from 1 to 100 (not
      necessarily whole). */
  predicate IsAcceptableLimit(limit: Option<Json>) {
    limit.None? || (limit.value.JNumber? && !(limit.value.n < 1.0 || limit.value.n > 100.0))
  }

  /** The `limit` handed to the service: absent stays absent, a number is passed as it is. */
  function LimitArgument(limit: Option<Json>): (r: Option<real>)
    requires IsAcceptableLimit(limit)
    ensures r.None? <==> limit.None?
    ensures r.Some? ==> 1.0 <= r.value <= 100.0 && limit.value == JNumber(r.value)
  {
    if limit.None? then None else Some(limit.value.n)
  }

  /** The guards at their edges: both bounds of `limit` are accepted, so is a
      fraction, and so is an absent `limit`; just outside the bounds, `null`
      and a numeric string are refused. `text` must be a string that is not
      empty. */
  lemma GuardEdges()
    ensures IsAcceptableLimit(None)
    ensures IsAcceptableLimit(Some(JNumber(1.0))) && IsAcceptableLimit(Some(JNumber(100.0)))
    ensures IsAcceptableLimit(Some(JNumber(2.5)))
    ensures !IsAcceptableLimit(Some(JNumber(0.5))) && !IsAcceptableLimit(Some(JNumber(100.5)))
    ensures !IsAcceptableLimit(Some(JNull)) && !IsAcceptableLimit(Some(JString("5")))
    ensures IsUsableText(Some(JString("a")))
    ensures !IsUsableText(None) && !IsUsableText(Some(JString(""))) && !IsUsableText(Some(JNumber(1.0)))
  {
  }

  /** `handle(c)` on a request whose body is `body`. Destructuring a JSON
      `null` body throws a TypeError; its message, which depends on the
      JavaScript engine, is `nullBodyMessage`. */
  function HandleSearch(p: Ports, body: Body, nullBodyMessage: string): (h: Handled)
    ensures h.response.status in {200, 400, 500}
    // A rejected request reaches no port.
    ensures h.response.status == 400 ==> h.calls == []
    // The search never writes to the datastore.
    ensures Saves(h.calls) == []
    // Only sanitised text reaches the AI port, and at most once.
    ensures |AiRequests(h.calls)| <= 1
    ensures forall t :: t in AiRequests(h.calls) ==> IsSanitized(t)
    // A success carries the datastore's results exactly as it returned them.
    ensures h.response.status == 200 <==> h.response.payload.ResultsPayload?
    ensures h.response.status == 200 ==>
              |h.calls| == 2 && h.calls[1].Search?
              && p.search(h.calls[1].query, h.calls[1].limit) == Success(h.response.payload.results)
  {
    match body
    case Unreadable(e) => Handled(Response(500, ErrorPayload(MessageOf(e, SearchFailedMessage))), [])
    case Parsed(JNull) => Handled(Response(500, ErrorPayload(nullBodyMessage)), [])
    case Parsed(value) =>
      var text := Property(value, "text");
      var limit := Property(value, "limit");
      if !IsUsableText(text) then
        Handled(Response(400, ErrorPayload(MissingTextMessage)), [])
      else if !IsAcceptableLimit(limit) then
        Handled(Response(400, ErrorPayload(InvalidLimitMessage)), [])
      else SearchText(p, text.value.s, LimitArgument(limit))
  }

  /** The part of `handle(c)` after the `text` and `limit` checks: sanitise,
      then search. */
  function SearchText(p: Ports, raw: string, limit: Option<real>): (h: Handled)
    ensures h.response.status in {200, 500}
    ensures Saves(h.calls) == [] && |AiRequests(h.calls)| <= 1
    ensures forall t :: t in AiRequests(h.calls) ==> IsSanitized(t)
    ensures h.response.status == 200 <==> h.response.payload.ResultsPayload?
    ensures h.response.status == 200 ==>
              |h.calls| == 2 && h.calls[1].Search?
              && p.search(h.calls[1].query, h.calls[1].limit) == Success(h.response.payload.results)
  {
    match Sanitize(raw)
    case Failure(e) => Handled(Response(500, ErrorPayload(MessageOf(e, SearchFailedMessage))), [])
    case Success(sanitized) => SearchSanitized(p, sanitized, limit)
  }

  /** The part of `handle(c)` after sanitising: one `searchSimilar`, its
      outcome as 200 with the results or a 500. */
  function SearchSanitized(p: Ports, sanitized: string, limit: Option<real>): (h: Handled)
    requires IsSanitized(sanitized)
    ensures h.response.status in {200, 500}
    ensures AiRequests(h.calls) == [sanitized] && Saves(h.calls) == []
    ensures forall t :: t in AiRequests(h.calls) ==> IsSanitized(t)
    ensures h.response.status == 200 <==> h.response.payload.ResultsPayload?
    ensures h.response.status == 200 ==>
              p.embed(sanitized).Success?
              && h.calls == [Embed(sanitized), Search(p.embed(sanitized).value, limit)]
              && p.search(p.embed(sanitized).value, limit) == Success(h.response.payload.results)
  {
    var run := SearchSimilar(p, sanitized, limit);
    match run.result
    case Success(results) => Handled(Response(200, ResultsPayload(results)), run.calls)
    case Failure(e) => Handled(Response(500, ErrorPayload(MessageOf(e, SearchFailedMessage))), run.calls)
  }

  /** An absent, empty or non-string `text` gets a 400 and reaches no port,
      whatever `limit` is: the text check comes first. */
  lemma TextCheckedFirst(p: Ports, value: Json, nullBodyMessage: string)
    requires value != JNull && !IsUsableText(Property(value, "text"))
    ensures HandleSearch(p, Parsed(value), nullBodyMessage)
            == Handled(Response(400, ErrorPayload(MissingTextMessage)), [])
  {
  }

  /** With a usable `text`, a `limit` that is present but not a number from 1
      to 100 (including `null`) gets a 400 and reaches no port. */
  lemma LimitChecked(p: Ports, value: Json, nullBodyMessage: string)
    requires value != JNull && IsUsableText(Property(value, "text"))
    requires !IsAcceptableLimit(Property(value, "limit"))
    ensures HandleSearch(p, Parsed(value), nullBodyMessage)
            == Handled(Response(400, ErrorPayload(InvalidLimitMessage)), [])
  {
  }

  /** A valid request makes exactly the calls of one `searchSimilar` on the
      sanitised text, never the raw one, with the limit unchanged (absent when
      omitted); the response is 200 with the results as returned, or 500 with
      the error's message. The sanitiser's too-long error is a 500, not a 400. */
  lemma ValidRequestSearchesSanitisedText(p: Ports, value: Json, nullBodyMessage: string)
    requires value != JNull
    requires IsUsableText(Property(value, "text")) && IsAcceptableLimit(Property(value, "limit"))
    ensures var raw := Property(value, "text").value.s;
            var limit := Property(value, "limit");
            var h := HandleSearch(p, Parsed(value), nullBodyMessage);
            && (limit.None? ==> LimitArgument(limit) == None)
            && (limit.Some? ==> LimitArgument(limit) == Some(limit.value.n))
            && (Sanitize(raw).Failure? ==>
                  h == Handled(Response(500, ErrorPayload(TooLongMessage)), []))
            && (Sanitize(raw).Success? ==>
                  var run := SearchSimilar(p, Sanitize(raw).value, LimitArgument(limit));
                  && h.calls == run.calls
                  && h.response == (match run.result
                                    case Success(results) => Response(200, ResultsPayload(results))
                                    case Failure(e) => Response(500, ErrorPayload(MessageOf(e, SearchFailedMessage)))))
  {
  }

  /** A body that is not JSON, or is JSON `null`, gets a 500 before any check. */
  lemma UnusableBodyFails(p: Ports, e: Exception, nullBodyMessage: string)
    ensures HandleSearch(p, Unreadable(e), nullBodyMessage)
            == Handled(Response(500, ErrorPayload(MessageOf(e, SearchFailedMessage))), [])
    ensures HandleSearch(p, Parsed(JNull), nullBodyMessage)
            == Handled(Response(500, ErrorPayload(nullBodyMessage)), [])
  {
  }

  /** A request whose `text` is already-clean text and whose `limit` is
      absent or an acceptable number: the AI port's vector and the limit go
      to the datastore's search, and its results come back in its order. */
  lemma CleanRequestReturnsResults(p: Ports, value: Json, t: string, v: Vector,
                                   results: seq<SearchResult>, m: string)
    requires Property(value, "text") == Some(JString(t)) && t != "" && IsSanitized(t)
    requires IsAcceptableLimit(Property(value, "limit"))
    requires p.embed(t) == Success(Some(v))
    requires p.search(Some(v), LimitArgument(Property(value, "limit"))) == Success(results)
    ensures var h := HandleSearch(p, Parsed(value), m);
            h.response == Response(200, ResultsPayload(results))
            && h.calls == [Embed(t), Search(Some(v), LimitArgument(Property(value, "limit")))]
  {
    var limit := LimitArgument(Property(value, "limit"));
    CheckedRequestSearches(p, value, t, m);
    CleanTextSearches(p, t, limit);
    assert SearchSimilar(p, t, limit) == Run(Success(results), [Embed(t), Search(Some(v), limit)]);
  }

  /** A body whose `text` is usable and whose `limit` is absent or acceptable
      goes on to sanitise and search, with the limit as it was given. */
  lemma CheckedRequestSearches(p: Ports, value: Json, t: string, m: string)
    requires Property(value, "text") == Some(JString(t)) && t != ""
    requires IsAcceptableLimit(Property(value, "limit"))
    ensures HandleSearch(p, Parsed(value), m) == SearchText(p, t, LimitArgument(Property(value, "limit")))
  {
    assert value.JObject? && IsUsableText(Property(value, "text"));
  }

  /** Already-clean text is searched for as it is. */
  lemma CleanTextSearches(p: Ports, t: string, limit: Option<real>)
    requires IsSanitized(t)
    ensures SearchText(p, t, limit) == SearchSanitized(p, t, limit)
  {
    SanitizedIsFixedPoint(t);
  }

  /** The request `{"text": t, "limit": 2}`. */
  lemma SearchRequestReturnsResults(p: Ports, t: string, v: Vector, results: seq<SearchResult>, m: string)
    requires t != "" && IsSanitized(t)
    requires p.embed(t) == Success(Some(v)) && p.search(Some(v), Some(2.0)) == Success(results)
    ensures var h := HandleSearch(p, Parsed(JObject(map["text" := JString(t), "limit" := JNumber(2.0)])), m);
            h.response == Response(200, ResultsPayload(results))
            && h.calls == [Embed(t), Search(Some(v), Some(2.0))]
  {
    var value := JObject(map["text" := JString(t), "limit" := JNumber(2.0)]);
    assert Property(value, "text") == Some(JString(t));
    assert Property(value, "limit") == Some(JNumber(2.0));
    assert LimitArgument(Property(value, "limit")) == Some(2.0);
    CleanRequestReturnsResults(p, value, t, v, results, m);
  }
}
