/** `fetchAndParseURL`: from a fetched, parsed page to its cleaned body text, with
    the fetch itself and HTML parsing replaced by an abstract outcome. */
module Extraction {
  import opened Outcomes
  import opened JsString
  import opened Whitespace
  import opened Dom

  /** Prefix of every error leaving the extraction stage. */
  const FetchParsePrefix := "Error fetching or parsing URL: "
  /** Message of the error thrown for too little text. */
  const InsufficientContent := "Insufficient content to summarize."
  /** Message of the TypeError raised by reading `textContent` of a `null` body. */
  const NullBodyMessage := "Cannot read properties of null (reading 'textContent')"
  /** Fewest UTF-16 code units of cleaned text accepted for summarisation. */
  const MinContentLength := 100

  /** What the GET request and HTML parsing produced: a parsed document, or the
      message of the error the HTTP client threw (timeout, DNS, non-2xx status, ...). */
  datatype FetchOutcome = Fetched(document: Document) | FetchFailed(message: string)

  /** `document.body.textContent` after the excluded elements are removed, or the
      message of the error thrown when there is no body. For a document with at most
      one root element this is the body's text nodes, in document order, that have no
      excluded ancestor. */
  function BodyText(d: Document): (r: Result<string>)
    ensures Body(StripDocument(d)).None? <==> r == Err(NullBodyMessage)
    ensures WellFormed(d) ==>
              r == if Body(d).None? then Err(NullBodyMessage)
                   else Ok(VisibleText(Leaves(Body(d).value)))
  {
    var stripped := Body(StripDocument(d));
    assert WellFormed(d) && Body(d).Some? ==>
             stripped == Some(Strip(Body(d).value))
             && TextContent(Strip(Body(d).value)) == VisibleText(Leaves(Body(d).value)) by {
      if WellFormed(d) && Body(d).Some? {
        BodyOfStripped(d);
        StripText(Body(d).value);
      }
    }
    assert WellFormed(d) && Body(d).None? ==> stripped.None? by {
      if WellFormed(d) {
        BodyOfStripped(d);
      }
    }
    match stripped
    case Some(b) => Ok(TextContent(b))
    case None => Err(NullBodyMessage)
  }

  /** The whole extraction stage, errors included. */
  function FetchAndParseUrl(f: FetchOutcome): (r: Result<string>)
    ensures r.Ok? ==> Cleaned(r.value) && JsLength(r.value) >= MinContentLength
    ensures r.Err? ==> FetchParsePrefix <= r.message
    ensures f.FetchFailed? ==> r == Err(FetchParsePrefix + f.message)
    ensures f.Fetched? && Body(StripDocument(f.document)).None? ==> r == Err(FetchParsePrefix + NullBodyMessage)
  {
    match f
    case FetchFailed(m) => Err(FetchParsePrefix + m)
    case Fetched(d) =>
      match BodyText(d)
      case Err(m) => Err(FetchParsePrefix + m)
      case Ok(raw) =>
        var text := Clean(raw);
        if JsLength(text) < MinContentLength then Err(FetchParsePrefix + InsufficientContent)
        else Ok(text)
  }

  /** The extracted text, described from the original tree: the cleaned concatenation
      of the body's text nodes that have no excluded ancestor. Text outside the body
      never contributes, and the stage succeeds exactly when a body exists and that
      cleaned text reaches the minimum length. */
  lemma ExtractedIsVisibleBodyText(d: Document)
    requires WellFormed(d)
    ensures var r := FetchAndParseUrl(Fetched(d));
      && (Body(d).None? ==> r == Err(FetchParsePrefix + NullBodyMessage))
      && (Body(d).Some? ==>
            var text := Clean(VisibleText(Leaves(Body(d).value)));
            r == if JsLength(text) < MinContentLength
                 then Err(FetchParsePrefix + InsufficientContent) else Ok(text))
  {
    assert BodyText(d).Ok? ==> BodyText(d).value == VisibleText(Leaves(Body(d).value));
  }

  /** The HTML parser always gives the document an `html` root with a `body` or
      `frameset` child, inserting them when the markup omits them. On such a page the
      body is present and its text is read, so the null-body failure never occurs. */
  lemma ParsedPageHasBody(d: Document)
    requires WellFormed(d) && HasBodyChild(d)
    ensures Body(d).Some?
    ensures BodyText(d) == Ok(VisibleText(Leaves(Body(d).value)))
  {
  }
}
