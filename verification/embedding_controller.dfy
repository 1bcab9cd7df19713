/** `EmbeddingController.handle`: read the body, check `text`, sanitise,
    create and save the embedding, and map every caught exception to a 500. */
module EmbeddingController {
  import opened Common
  import opened Sanitizer
  import opened EmbeddingService
  import opened Http

  const EmbedFailedMessage := "Failed to process embedding"

  /** `handle(c)` on a request whose body is `body`. `body?.text` reads
      `undefined` from a JSON `null` body, so that case is a 400. */
  function HandleEmbed(p: Ports, body: Body): (h: Handled)
    ensures h.response.status in {200, 400, 500}
    // A body that cannot be parsed is a 500 carrying the parse error, with no call.
    ensures body.Unreadable? ==>
              h == Handled(Response(500, ErrorPayload(MessageOf(body.error, EmbedFailedMessage))), [])
    // A rejected request reaches no port.
    ensures h.response.status == 400 ==>
              h == Handled(Response(400, ErrorPayload(MissingTextMessage)), [])
    // Only sanitised text reaches the AI port and the datastore, at most once each.
    ensures |AiRequests(h.calls)| <= 1 && |Saves(h.calls)| <= 1
    ensures forall t :: t in AiRequests(h.calls) ==> IsSanitized(t)
    ensures forall r :: r in Saves(h.calls) ==> IsSanitized(r.text)
    // Success is `{success: true}`, the vector is not echoed, and it means
    // the record was saved.
    ensures h.response.status == 200 <==> h.response.payload == SuccessPayload(true)
    ensures h.response.status == 200 ==>
              |Saves(h.calls)| == 1 && p.save(Saves(h.calls)[0]).Success?
  {
    match body
    case Unreadable(e) => Handled(Response(500, ErrorPayload(MessageOf(e, EmbedFailedMessage))), [])
    case Parsed(value) =>
      var text := Property(value, "text");
      if !IsUsableText(text) then
        Handled(Response(400, ErrorPayload(MissingTextMessage)), [])
      else EmbedText(p, text.value.s)
  }

  /** The part of `handle(c)` after the `text` check: sanitise, then embed. */
  function EmbedText(p: Ports, raw: string): (h: Handled)
    ensures h.response.status in {200, 500}
    ensures |AiRequests(h.calls)| <= 1 && |Saves(h.calls)| <= 1
    ensures forall t :: t in AiRequests(h.calls) ==> IsSanitized(t)
    ensures forall r :: r in Saves(h.calls) ==> IsSanitized(r.text)
    ensures h.response.status == 200 <==> h.response.payload == SuccessPayload(true)
    ensures h.response.status == 200 ==>
              |Saves(h.calls)| == 1 && p.save(Saves(h.calls)[0]).Success?
  {
    match Sanitize(raw)
    case Failure(e) => Handled(Response(500, ErrorPayload(MessageOf(e, EmbedFailedMessage))), [])
    case Success(sanitized) => EmbedSanitized(p, sanitized)
  }

  /** The part of `handle(c)` after sanitising: one `createEmbedding`, its
      outcome as 200 `{success: true}` or a 500. */
  function EmbedSanitized(p: Ports, sanitized: string): (h: Handled)
    requires IsSanitized(sanitized)
    ensures h.response.status in {200, 500}
    ensures AiRequests(h.calls) == [sanitized] && |Saves(h.calls)| <= 1
    ensures forall r :: r in Saves(h.calls) ==> r.text == sanitized
    ensures forall t :: t in AiRequests(h.calls) ==> IsSanitized(t)
    ensures forall r :: r in Saves(h.calls) ==> IsSanitized(r.text)
    ensures h.response.status == 200 <==> h.response.payload == SuccessPayload(true)
    ensures h.response.status == 200 ==>
              |Saves(h.calls)| == 1 && p.save(Saves(h.calls)[0]).Success?
  {
    var run := CreateEmbedding(p, sanitized);
    match run.result
    case Success(_) => Handled(Response(200, SuccessPayload(true)), run.calls)
    case Failure(e) => Handled(Response(500, ErrorPayload(MessageOf(e, EmbedFailedMessage))), run.calls)
  }

  /** A body that `c.req.json()` cannot parse is caught like any other
      exception: 500 with the error's message (or the fallback for a
      non-Error throw), and no port is reached. */
  lemma UnreadableBodyFails(p: Ports, e: Exception)
    ensures HandleEmbed(p, Unreadable(e))
            == Handled(Response(500, ErrorPayload(MessageOf(e, EmbedFailedMessage))), [])
  {
  }

  /** An absent, empty or non-string `text` (also in a `null` body) gets a 400
      and reaches no port. */
  lemma MissingTextRejected(p: Ports, value: Json)
    requires !IsUsableText(Property(value, "text"))
    ensures HandleEmbed(p, Parsed(value)) == Handled(Response(400, ErrorPayload(MissingTextMessage)), [])
  {
  }

  /** A usable `text` makes exactly the calls of one `createEmbedding` on the
      sanitised text; the response is 200 `{success: true}` when it succeeds
      and otherwise 500 with its error's message (or the fallback for a
      non-Error throw). The sanitiser's too-long error is a 500 too. */
  lemma UsableTextCreatesOnce(p: Ports, value: Json)
    requires IsUsableText(Property(value, "text"))
    ensures var raw := Property(value, "text").value.s;
            var h := HandleEmbed(p, Parsed(value));
            && (Sanitize(raw).Failure? ==>
                  h == Handled(Response(500, ErrorPayload(TooLongMessage)), []))
            && (Sanitize(raw).Success? ==>
                  var run := CreateEmbedding(p, Sanitize(raw).value);
                  && h.calls == run.calls
                  && h.response == (match run.result
                                    case Success(_) => Response(200, SuccessPayload(true))
                                    case Failure(e) => Response(500, ErrorPayload(MessageOf(e, EmbedFailedMessage)))))
  {
  }

  /** A request `{"text": t}` with already-clean text, an AI port that returns
      a vector and a datastore that accepts it: 200 `{success: true}`, and
      the datastore received exactly that text and vector. */
  lemma EmbedRequestSaves(p: Ports, t: string, v: Vector)
    requires t != "" && IsSanitized(t)
    requires p.embed(t) == Success(Some(v)) && p.save(Record(t, v)).Success?
    ensures var h := HandleEmbed(p, Parsed(JObject(map["text" := JString(t)])));
            h.response == Response(200, SuccessPayload(true)) && Saves(h.calls) == [Record(t, v)]
  {
    SanitizedIsFixedPoint(t);
    var value := JObject(map["text" := JString(t)]);
    assert Property(value, "text") == Some(JString(t));
    assert CreateEmbedding(p, t).result == Success(Record(t, v));
    UsableTextCreatesOnce(p, value);
  }

  /** The same request when the datastore throws an `Error`: 500 with its message. */
  lemma EmbedRequestSaveFails(p: Ports, t: string, v: Vector, message: string)
    requires t != "" && IsSanitized(t)
    requires p.embed(t) == Success(Some(v)) && p.save(Record(t, v)) == Failure(Error(message))
    ensures HandleEmbed(p, Parsed(JObject(map["text" := JString(t)]))).response
            == Response(500, ErrorPayload(message))
  {
    SanitizedIsFixedPoint(t);
    var value := JObject(map["text" := JString(t)]);
    assert Property(value, "text") == Some(JString(t));
    assert CreateEmbedding(p, t).result == Failure(Error(message));
    UsableTextCreatesOnce(p, value);
  }
}
