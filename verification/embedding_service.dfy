/** `EmbeddingService`: straight-line sequences of calls on two injected ports,
    the AI client and the datastore client. The ports are opaque functions;
    every operation returns its result together with the calls it made, in
    order, so that the datastore's log of saved pairs and the order of the
    calls can be stated. Vectors and similarity scores are opaque numbers. */
module EmbeddingService {
  import opened Common

  /** An embedding vector. No property of its numbers is used. */
  type Vector = seq<real>

  /** One similarity-search hit; `id` is present when the datastore supplies it. */
  datatype SearchResult = SearchResult(id: Option<string>, text: string, similarity: real)

  /** What `createEmbedding` returns, and what the datastore saves. */
  datatype Record = Record(text: string, embedding: Vector)

  /** The collaborators, as pure functions of their arguments.
      - `embed`: `AIClientInterface.getEmbedding`; `Success(None)` is a reply
        that is `undefined` or `null`.
      - `save`, `fetch`, `search`: `DatabaseClientInterface`; `search` takes
        the query vector exactly as the AI port gave it, which may be absent. */
  datatype Ports = Ports(
    embed: string -> Result<Option<Vector>>,
    save: Record -> Result<()>,
    fetch: string -> Result<Vector>,
    search: (Option<Vector>, Option<real>) -> Result<seq<SearchResult>>)

  /** A call made on a port. */
  datatype Call =
    | Embed(text: string)
    | Save(record: Record)
    | Fetch(id: string)
    | Search(query: Option<Vector>, limit: Option<real>)

  /** An operation's outcome and the port calls it made, in order. */
  datatype Run<T> = Run(result: Result<T>, calls: seq<Call>)

  const EmbeddingFailedMessage := "Failed to create embedding"

  /** The datastore's log: the records passed to `save`, in order. */
  function Saves(calls: seq<Call>): (log: seq<Record>)
    ensures |log| <= |calls|
  {
    if calls == [] then []
    else (if calls[0].Save? then [calls[0].record] else []) + Saves(calls[1..])
  }

  /** The texts sent to the AI port, in order. */
  function AiRequests(calls: seq<Call>): (texts: seq<string>)
    ensures |texts| <= |calls|
  {
    if calls == [] then []
    else (if calls[0].Embed? then [calls[0].text] else []) + AiRequests(calls[1..])
  }

  /** `createEmbedding(text)`: ask the AI port, fail if it gave no vector,
      save the pair, and return it. */
  function CreateEmbedding(p: Ports, text: string): (r: Run<Record>)
    // The AI port is asked first, once, with the text unchanged.
    ensures |r.calls| >= 1 && r.calls[0] == Embed(text) && AiRequests(r.calls) == [text]
    // The whole trace: the AI request, then a save only when a vector came
    // back. An AI failure or a missing vector stops every later call.
    ensures r.calls == [Embed(text)] + (match p.embed(text)
                                        case Success(Some(v)) => [Save(Record(text, v))]
                                        case _ => [])
    // The datastore is written at most once, and only with the vector the AI port gave for this text.
    ensures Saves(r.calls) == (match p.embed(text)
                                case Success(Some(v)) => [Record(text, v)]
                                case _ => [])
    // On success, the returned pair is the saved one: the text unchanged and the AI port's vector.
    ensures r.result.Success? <==>
              p.embed(text).Success? && p.embed(text).value.Some?
              && p.save(Record(text, p.embed(text).value.value)).Success?
    ensures r.result.Success? ==>
              Saves(r.calls) == [r.result.value] && r.result.value == Record(text, p.embed(text).value.value)
              && p.save(r.result.value).Success?
    ensures forall saved :: saved in Saves(r.calls) ==> saved.text == text
    // Failures: the AI port's error unchanged; a missing vector; the datastore's error unchanged.
    ensures p.embed(text).Failure? ==> r.result == Failure(p.embed(text).error)
    ensures p.embed(text) == Success(None) ==> r.result == Failure(Error(EmbeddingFailedMessage))
    ensures p.embed(text).Success? && p.embed(text).value.Some?
            && p.save(Record(text, p.embed(text).value.value)).Failure? ==>
              r.result == Failure(p.save(Record(text, p.embed(text).value.value)).error)
  {
    match p.embed(text)
    case Failure(e) => Run(Failure(e), [Embed(text)])
    case Success(None) => Run(Failure(Error(EmbeddingFailedMessage)), [Embed(text)])
    case Success(Some(embedding)) =>
      var record := Record(text, embedding);
      var calls := [Embed(text), Save(record)];
      assert calls[1..] == [Save(record)];
      match p.save(record)
      case Failure(e) => Run(Failure(e), calls)
      case Success(_) => Run(Success(record), calls)
  }

  /** `getEmbedding(id)`: the datastore's answer for `id`, unchanged. */
  function GetEmbedding(p: Ports, id: string): (r: Run<Vector>)
    ensures r.result == p.fetch(id)
    ensures r.calls == [Fetch(id)] && AiRequests(r.calls) == [] && Saves(r.calls) == []
  {
    Run(p.fetch(id), [Fetch(id)])
  }

  /** `searchSimilar(text, limit)`: ask the AI port for the query vector, then
      hand it and the limit to the datastore's search. */
  function SearchSimilar(p: Ports, text: string, limit: Option<real>): (r: Run<seq<SearchResult>>)
    // The AI port is asked first, once, with the text unchanged; nothing is saved.
    ensures |r.calls| >= 1 && r.calls[0] == Embed(text) && AiRequests(r.calls) == [text]
    ensures Saves(r.calls) == []
    // An AI failure stops the operation before the datastore is asked.
    ensures p.embed(text).Failure? ==> r == Run(Failure(p.embed(text).error), [Embed(text)])
    // Otherwise the datastore gets the AI port's reply and the limit unchanged,
    // and its answer is the result, in its order.
    ensures p.embed(text).Success? ==>
              r.calls == [Embed(text), Search(p.embed(text).value, limit)]
              && r.result == p.search(p.embed(text).value, limit)
  {
    match p.embed(text)
    case Failure(e) => Run(Failure(e), [Embed(text)])
    case Success(embedding) =>
      var calls := [Embed(text), Search(embedding, limit)];
      assert calls[1..] == [Search(embedding, limit)];
      Run(p.search(embedding, limit), calls)
  }
}
