/** What the two request handlers read and produce: the JSON request body,
    the `(status, payload)` response, and the rule both use to turn a caught
    exception into a message. */
module Http {
  import opened Common
  import opened EmbeddingService

  /** A parsed JSON value. A number is a real; a literal too large for a
      double, which `JSON.parse` turns into `Infinity`, is a large real here. */
  datatype Json =
    | JNull
    | JBool(b: bool)
    | JNumber(n: real)
    | JString(s: string)
    | JArray(items: seq<Json>)
    | JObject(fields: map<string, Json>)

  /** What `c.req.json()` produced: a parsed value, or the exception it threw
      on a body that is not JSON. */
  datatype Body = Unreadable(error: Exception) | Parsed(value: Json)

  /** The property access `value.name` on a parsed body (`None` is `undefined`).
      Only objects have the properties the handlers read. */
  function Property(value: Json, name: string): (r: Option<Json>)
    ensures r.Some? <==> value.JObject? && name in value.fields
    ensures r.Some? ==> r.value == value.fields[name]
  {
    match value
    case JObject(fields) => if name in fields then Some(fields[name]) else None
    case _ => None
  }

  /** The `text` guard of both handlers, `!text || typeof text !== "string"`,
      negated: a string that is not empty. */
  predicate IsUsableText(text: Option<Json>) {
    text.Some? && text.value.JString? && text.value.s != ""
  }

  /** The JSON payload of a response. */
  datatype Payload =
    | ErrorPayload(error: string)
    | ResultsPayload(results: seq<SearchResult>)
    | SuccessPayload(success: bool)

  datatype Response = Response(status: int, payload: Payload)

  /** A handler's response and the port calls made while producing it. */
  datatype Handled = Handled(response: Response, calls: seq<Call>)

  const MissingTextMessage := "Missing or invalid text"

  /** `err instanceof Error ? err.message : fallback`. */
  function MessageOf(e: Exception, fallback: string): (r: string)
    ensures e.Error? ==> r == e.message
    ensures e.NonError? ==> r == fallback
  {
    match e
    case Error(message) => message
    case NonError => fallback
  }
}
