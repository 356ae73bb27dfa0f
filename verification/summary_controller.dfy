/** The request handlers: create from a URL (fetch, extract, summarise, save), list,
    update the summary text, and delete. Network calls enter as abstract outcomes;
    the calls the create handler makes are returned as a trace. */
module SummaryController {
  import opened Outcomes
  import opened Extraction
  import opened Completion
  import opened SummaryStore

  const MissingFields := "URL and summary name are required"
  const ServerError := "Server Error"
  const NotFound := "Summary not found"
  const CreatedMessage := "Summary created successfully"
  const ListedMessage := "Summaries fetched successfully"
  const UpdatedMessage := "Summary updated successfully"
  const DeletedMessage := "Summary deleted successfully"
  /** The validation error raised when saving a document whose summary is empty or missing. */
  const SummaryRequired := "Summary validation failed: summary: Path `summary` is required."

  /** JSON response bodies (`record` and `records` are both the `data` field). */
  datatype Body =
    | Message(message: string)
    | Failure(message: string, error: string)
    | One(message: string, record: Record)
    | Many(message: string, records: seq<Record>)

  datatype Response = Response(status: nat, body: Body)

  /** An outbound call of the create handler: the GET of the page, then the POST of the
      completion request. */
  datatype Call = Fetch(url: string) | Complete(payload: Payload)

  /** The create request's body; a field may be missing. */
  datatype CreateRequest = CreateRequest(url: Option<string>, summaryName: Option<string>)

  /** The `:id` path parameter: either a valid id or text that is not one. */
  datatype IdParam = ValidId(id: Id) | MalformedId(raw: string)

  /** A handler's response and the store it leaves behind. */
  datatype Handled = Handled(response: Response, store: Store)

  /** The create handler's response, store and outbound calls. */
  datatype Creation = Creation(response: Response, store: Store, calls: seq<Call>)

  /** The error raised when the `:id` parameter cannot be read as an id. */
  function CastError(raw: string): string {
    "Cast to ObjectId failed for value \"" + raw + "\" (type string) at path \"_id\" for model \"Summary\""
  }

  /** `summarizeFromURL`. `fetched` is what the GET of the URL yields, `reply` what the
      completion POST yields, `newId` the id the database assigns and `now` the clock. */
  function SummarizeFromUrl(s: Store, req: CreateRequest, fetched: FetchOutcome,
                            reply: PostOutcome, newId: Id, now: Time): (c: Creation)
    requires newId !in s
    ensures c.response.status in {200, 400, 500}
    // Validation comes first and stops everything.
    ensures c.response.status == 400 <==> !Truthy(req.url) || !Truthy(req.summaryName)
    ensures c.response.status == 400 ==>
              c.calls == [] && c.store == s && c.response.body == Message(MissingFields)
    // All or nothing.
    ensures c.response.status != 200 ==> c.store == s
    ensures c.response.status == 500 ==>
              c.response.body.Failure? && c.response.body.message == ServerError
  {
    if !Truthy(req.url) || !Truthy(req.summaryName) then
      Creation(Response(400, Message(MissingFields)), s, [])
    else
      RunStages(s, req.url.value, req.summaryName.value, FetchAndParseUrl(fetched),
                SummarizeContent(reply), newId, now)
  }

  /** The stages after validation, given what extraction and summarisation return:
      the first failing stage ends the request with a server error and leaves the
      store as it was; the completion request is only made for extracted text. */
  function RunStages(s: Store, url: string, name: string, extracted: Result<string>,
                     summarized: Result<Option<string>>, newId: Id, now: Time): (c: Creation)
    requires newId !in s
    ensures c.response.status in {200, 500}
    ensures c.response.status == 500 ==>
              c.store == s && c.response.body.Failure? && c.response.body.message == ServerError
    ensures |c.calls| >= 1 && c.calls[0] == Fetch(url)
  {
    match extracted
    case Err(m) => Creation(Response(500, Failure(ServerError, m)), s, [Fetch(url)])
    case Ok(content) =>
      var calls := [Fetch(url), Complete(BuildPayload(content))];
      match summarized
      case Err(m) => Creation(Response(500, Failure(ServerError, m)), s, calls)
      case Ok(summary) => Save(s, url, name, content, summary, newId, now, calls)
  }

  /** A create succeeds exactly when validation and every stage succeed, and then
      stores exactly one new record, built from the cleaned text and the completion
      text, after exactly one fetch of the URL and one completion request for that text. */
  lemma CreateSuccess(s: Store, req: CreateRequest, fetched: FetchOutcome,
                      reply: PostOutcome, newId: Id, now: Time)
    requires newId !in s
    ensures var c := SummarizeFromUrl(s, req, fetched, reply, newId, now);
      c.response.status == 200 <==>
        && Truthy(req.url) && Truthy(req.summaryName)
        && FetchAndParseUrl(fetched).Ok?
        && SummarizeContent(reply).Ok? && Truthy(SummarizeContent(reply).value)
    ensures var c := SummarizeFromUrl(s, req, fetched, reply, newId, now);
      c.response.status == 200 ==>
        && c.response.body.One? && c.response.body.message == CreatedMessage
        && var r := c.response.body.record;
        && r.id == newId
        && c.store.Keys == s.Keys + {newId} && c.store[newId] == r.doc
        && (forall k :: k in s ==> c.store[k] == s[k])
        && r.doc.url == req.url.value && r.doc.summaryName == req.summaryName.value
        && FetchAndParseUrl(fetched) == Ok(r.doc.websiteContent)
        && SummarizeContent(reply) == Ok(Some(r.doc.summary))
        && r.doc.createdAt == now && r.doc.updatedAt == now
        && c.calls == [Fetch(req.url.value), Complete(BuildPayload(r.doc.websiteContent))]
  {
  }

  /** A failed create reports the message of the first stage that failed, and makes
      no call after that stage. */
  lemma CreateFailure(s: Store, req: CreateRequest, fetched: FetchOutcome,
                      reply: PostOutcome, newId: Id, now: Time)
    requires newId !in s
    requires Truthy(req.url) && Truthy(req.summaryName)
    ensures var c := SummarizeFromUrl(s, req, fetched, reply, newId, now);
      FetchAndParseUrl(fetched).Err? ==>
        c == Creation(Response(500, Failure(ServerError, FetchAndParseUrl(fetched).message)), s,
                      [Fetch(req.url.value)])
    ensures var c := SummarizeFromUrl(s, req, fetched, reply, newId, now);
      FetchAndParseUrl(fetched).Ok? && SummarizeContent(reply).Err? ==>
        c == Creation(Response(500, Failure(ServerError, SummarizeContent(reply).message)), s,
                      [Fetch(req.url.value), Complete(BuildPayload(FetchAndParseUrl(fetched).value))])
    ensures var c := SummarizeFromUrl(s, req, fetched, reply, newId, now);
      FetchAndParseUrl(fetched).Ok? && SummarizeContent(reply).Ok? && !Truthy(SummarizeContent(reply).value) ==>
        c == Creation(Response(500, Failure(ServerError, SummaryRequired)), s,
                      [Fetch(req.url.value), Complete(BuildPayload(FetchAndParseUrl(fetched).value))])
  {
  }

  /** The save stage: a document whose summary is missing or empty fails the schema's
      required-field validation and nothing is stored; otherwise the document is
      stored under `newId` with both timestamps set to `now`. */
  function Save(s: Store, url: string, name: string, content: string, summary: Option<string>,
                newId: Id, now: Time, calls: seq<Call>): (c: Creation)
    requires newId !in s
    ensures c.calls == calls
    ensures !Truthy(summary) ==> c == Creation(Response(500, Failure(ServerError, SummaryRequired)), s, calls)
    ensures Truthy(summary) ==>
              var doc := Doc(url, name, content, summary.value, now, now);
              && c.response == Response(200, One(CreatedMessage, Record(newId, doc)))
              && c.store == s[newId := doc] && c.store.Keys == s.Keys + {newId}
  {
    if !Truthy(summary) then Creation(Response(500, Failure(ServerError, SummaryRequired)), s, calls)
    else
      var doc := Doc(url, name, content, summary.value, now, now);
      assert (s[newId := doc]).Keys == s.Keys + {newId};
      Creation(Response(200, One(CreatedMessage, Record(newId, doc))), s[newId := doc], calls)
  }

  /** `getAllSummaries`: every stored record exactly once, newest first. */
  function GetAllSummaries(s: Store): (r: Response)
    ensures r.status == 200 && r.body.Many? && r.body.message == ListedMessage
    ensures NewestFirst(r.body.records)
    ensures forall x :: x in r.body.records <==> Holds(s, x)
    ensures |r.body.records| == |s|
  {
    Response(200, Many(ListedMessage, ListNewestFirst(s)))
  }

  /** `updateSummary`: overwrite one record's summary text. */
  function UpdateSummary(s: Store, p: IdParam, text: string, now: Time): (h: Handled)
    ensures h.response.status in {200, 404, 500}
    ensures h.response.status == 500 <==> p.MalformedId?
    ensures h.response.status == 500 ==> h.response.body == Failure(ServerError, CastError(p.raw))
    ensures h.response.status == 404 <==> p.ValidId? && p.id !in s
    ensures h.response.status == 404 ==> h.response.body == Message(NotFound)
    ensures h.response.status != 200 ==> h.store == s
    ensures h.response.status == 200 ==>
              && p.ValidId? && p.id in s && h.store.Keys == s.Keys
              && (forall k :: k in s && k != p.id ==> h.store[k] == s[k])
              && var before, after := s[p.id], h.store[p.id];
              && after.url == before.url && after.summaryName == before.summaryName
              && after.websiteContent == before.websiteContent && after.createdAt == before.createdAt
              && after.summary == text && after.updatedAt == now
              && h.response.body == One(UpdatedMessage, Record(p.id, after))
  {
    match p
    case MalformedId(raw) => Handled(Response(500, Failure(ServerError, CastError(raw))), s)
    case ValidId(id) =>
      if id !in s then Handled(Response(404, Message(NotFound)), s)
      else
        var doc := s[id].(summary := text, updatedAt := now);
        Handled(Response(200, One(UpdatedMessage, Record(id, doc))), s[id := doc])
  }

  /** `deleteSummary`: remove one record. */
  function DeleteSummary(s: Store, p: IdParam): (h: Handled)
    ensures h.response.status in {200, 404, 500}
    ensures h.response.status == 500 <==> p.MalformedId?
    ensures h.response.status == 500 ==> h.response.body == Failure(ServerError, CastError(p.raw))
    ensures h.response.status == 404 <==> p.ValidId? && p.id !in s
    ensures h.response.status == 404 ==> h.response.body == Message(NotFound)
    ensures h.response.status != 200 ==> h.store == s
    ensures h.response.status == 200 ==>
              && p.ValidId? && h.response.body == Message(DeletedMessage)
              && h.store.Keys == s.Keys - {p.id} && |h.store| == |s| - 1
              && (forall k :: k in h.store ==> h.store[k] == s[k])
  {
    match p
    case MalformedId(raw) => Handled(Response(500, Failure(ServerError, CastError(raw))), s)
    case ValidId(id) =>
      if id !in s then Handled(Response(404, Message(NotFound)), s)
      else
        var rest := s - {id};
        assert rest.Keys == s.Keys - {id};
        Handled(Response(200, Message(DeletedMessage)), rest)
  }
}
