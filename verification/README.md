# Website content summarizer — a Dafny model of its core

The application takes a web page URL and a name. The backend fetches the page and
keeps the visible text of its body: scripts, styles, headers, footers, navigation
and asides are dropped. It collapses whitespace, rejects pages with under 100
characters of text, and asks a chat-completion API for a summary. It then stores a
record holding the URL, the name, the cleaned page text and the summary. Records
can be listed newest first, have their summary text edited, and be deleted.

The frontend dashboard keeps a client-side copy of the list and a selected record,
updated after each create, delete and update. The detail view truncates long texts
to 50 words behind a "Read More" toggle, and builds the share and PDF texts with
fallbacks for missing fields.

The model is purely functional:

- The network, the completion API, the database's id generator and the clock enter
  as parameters: a `FetchOutcome`, a `PostOutcome`, a fresh `newId` and a `now`.
- The create handler returns the calls it would make as a trace.
- The store is a `map<Id, Doc>`.

Modules, in dependency order:

| module | file | contents |
|---|---|---|
| `Outcomes` | outcomes.dfy | `Option`, `Result`, JavaScript truthiness and `a \|\| b` on strings |
| `JsString` | js_string.dfy | ECMAScript whitespace, UTF-16 length, `split`/`join` on one character |
| `Whitespace` | whitespace.dfy | `replace(/\s+/g, ' ')`, `trim()` and their properties |
| `Dom` | dom.dfy | a parsed document tree, removal of excluded elements, `textContent`, `document.body` |
| `Extraction` | extraction.dfy | `fetchAndParseURL` |
| `Completion` | completion.dfy | the completion request payload and `summarizeContent` |
| `SummaryStore` | summary_store.dfy | stored records and the newest-first listing |
| `SummaryController` | summary_controller.dfy | the four HTTP handlers |
| `SummaryDisplay` | summary_display.dfy | `truncateText`, the Read-More predicate, share and PDF texts |
| `Dashboard` | dashboard.dfy | the list and selection updates, and their agreement with the server |

Two behaviours of the handlers worth noting:

- The page text is `document.body.textContent`. The HTML parser always builds an
  `html` root with a `body` (or `frameset`) child, inserting them when the markup
  leaves them out, so a page without a `<body>` tag still yields the text of the
  implied body. An empty page then fails with "Insufficient content to summarize."
  (`Extraction.ParsedPageHasBody`). The model starts from an arbitrary tree, and on
  a tree without a body it gives the error that reading `textContent` of `null`
  would raise.
- A successful create answers with status 200.

## Model

| member | source | states |
|---|---|---|
| Outcomes.OrElse | frontend/src/components/SummaryDisplay.js:62 | `s \|\| fallback` is the string when it is present and non-empty, else the fallback; it is never empty when the fallback is not |
| JsString.JsLength | backend/controllers/summaryController.js:29 | `.length` counts UTF-16 code units: between one and two per character, and exactly one per character when every character lies in the Basic Multilingual Plane |
| JsString.IsWs | backend/controllers/summaryController.js:27 | every character that `\s` and `trim()` treat as whitespace, the ECMAScript WhiteSpace and LineTerminator characters, is a single UTF-16 code unit |
| JsString.Split | frontend/src/components/SummaryDisplay.js:20 | `split(' ')` yields one more piece than there are separators, and no piece contains the separator |
| JsString.JoinSplit | frontend/src/components/SummaryDisplay.js:20-21 | joining the pieces of a split with the separator gives back the original string |
| JsString.SplitJoin | frontend/src/components/SummaryDisplay.js:20-21 | splitting a join of separator-free pieces gives back exactly those pieces |
| JsString.Join | frontend/src/components/SummaryDisplay.js:21 | `join` of a non-empty list starts with its first piece; with JoinSplit and SplitJoin it is the inverse of `split` |
| JsString.JoinAppend | frontend/src/components/SummaryDisplay.js:21 | joining a concatenation of two non-empty piece lists is the two joins with one separator between them |
| Whitespace.Collapse | backend/controllers/summaryController.js:27 | after `replace(/\s+/g, ' ')` every whitespace character is a plain space and none is next to another; the text is empty exactly when the input is; the result is never longer |
| Whitespace.Trim | backend/controllers/summaryController.js:27 | `trim()` leaves text that neither starts nor ends with whitespace, and removes only whitespace from the two ends |
| Whitespace.Clean | backend/controllers/summaryController.js:27 | the cleaned text is single-spaced and trimmed, never longer than the input, and text already in that shape is returned unchanged |
| Whitespace.CleanKeepsNonWs | backend/controllers/summaryController.js:27 | cleaning keeps every non-whitespace character, in order, and adds none |
| Whitespace.CleanIdempotent | backend/controllers/summaryController.js:27 | text that is already clean is returned unchanged, so cleaning twice equals cleaning once |
| Whitespace.CollapseJoinsWords | backend/controllers/summaryController.js:27 | `replace(/\s+/g, ' ')` gives the maximal non-whitespace runs of the text joined by single spaces, plus one space for a whitespace run at the start and one for a run at the end; text of whitespace only becomes one space |
| Whitespace.CleanJoinsWords | backend/controllers/summaryController.js:27 | the cleaned text is exactly the maximal non-whitespace runs of the input joined by single spaces: each whitespace run between two words becomes one space, and runs at either end disappear |
| Dom.Strip | backend/controllers/summaryController.js:22-23 | removing the excluded elements leaves no `script`, `style`, `header`, `footer`, `nav` or `aside` element anywhere, and keeps the root's kind and tag |
| Dom.TextContent | backend/controllers/summaryController.js:26 | `textContent` is the data of every text node in the subtree, concatenated in tree order |
| Dom.FirstWithTag | backend/controllers/summaryController.js:26 | the result is absent exactly when no node carries one of the tags; otherwise it is the node at the first position that does |
| Dom.Body | backend/controllers/summaryController.js:26 | `document.body` is present exactly when the document element is an `html` element with a `body` or `frameset` child, and then it is the first such child |
| Dom.StripText | backend/controllers/summaryController.js:22-26 | the `textContent` of the stripped tree is exactly the text nodes, in document order, that have no excluded element above them |
| Dom.BodyOfStripped | backend/controllers/summaryController.js:22-26 | removing the excluded elements does not change which element is the body; the body of the stripped page is the stripped body |
| Extraction.BodyText | backend/controllers/summaryController.js:22-26 | reading the body's `textContent` fails with the null-dereference message exactly when the stripped page has no body; for a page with at most one root element the text is the body's text nodes, in document order, that have no excluded element above them |
| Extraction.FetchAndParseUrl | backend/controllers/summaryController.js:15-37 | returned text is clean and at least 100 UTF-16 units long; every failure message starts with "Error fetching or parsing URL: "; a failed fetch passes its message on, and a missing body gives the null-dereference message |
| Extraction.ExtractedIsVisibleBodyText | backend/controllers/summaryController.js:22-33 | for a page with at most one root element, the result is the cleaned visible text of the body, rejected with "Insufficient content to summarize." when shorter than 100 units and returned unchanged otherwise |
| Extraction.ParsedPageHasBody | backend/controllers/summaryController.js:18-26 | on a page with an `html` root that has a `body` or `frameset` child, as the HTML parser always builds, the body is present and its visible text is read |
| Completion.BuildPayload | backend/controllers/summaryController.js:47-63 | the request asks model `llama3-8b-8192` for at most 1024 tokens without streaming, with the fixed system message first and a user message second |
| Completion.PromptCarriesWholeContent | backend/controllers/summaryController.js:56 | the whole content can be read back from the user message after the fixed instruction, so different contents give different requests |
| Completion.SummarizeContent | backend/controllers/summaryController.js:78-89 | a reply is accepted exactly when its status is 200, `choices` is present and its first element has a message, and then the summary is that message's content; every failure starts with "Error summarizing content: "; a rejected request reports the API's own message when it is non-empty and otherwise the local one |
| SummaryStore.ListNewestFirst | backend/controllers/summaryController.js:144 | the listing holds every stored record exactly once and nothing else, sorted by creation time, newest first |
| SummaryStore.NewestFirstUnique | backend/controllers/summaryController.js:144 | two newest-first lists with the same records are equal, so the sort has a single answer |
| SummaryStore.IsListing | backend/controllers/summaryController.js:144 | any newest-first list of exactly the store's records is the listing |
| SummaryController.SummarizeFromUrl | backend/controllers/summaryController.js:97-134 | status is 200, 400 or 500; 400 exactly when `url` or `summaryName` is missing or empty, with no call made and the store untouched; any other failure is a 500 "Server Error" and leaves the store unchanged |
| SummaryController.RunStages | backend/controllers/summaryController.js:104-133 | once the fields are present the page is always fetched first; a failing stage answers 500 and leaves the store unchanged |
| SummaryController.Save | backend/controllers/summaryController.js:109-116 | a document with a missing or empty summary fails the required-field validation and nothing is stored; otherwise exactly the new record is added |
| SummaryController.CreateSuccess | backend/controllers/summaryController.js:104-129 | create succeeds exactly when the fields are present, extraction and summarisation succeed and the summary is non-empty; then one record is added under the new id, holding the cleaned text and the completion's text; all other records are unchanged, and the calls were the fetch and then the completion request |
| SummaryController.CreateFailure | backend/controllers/summaryController.js:104-133 | a failed create reports the message of the first failing stage, makes no call after it, and leaves the store unchanged |
| SummaryController.GetAllSummaries | backend/controllers/summaryController.js:142-150 | listing answers 200 with every stored record once, newest first |
| SummaryController.UpdateSummary | backend/controllers/summaryController.js:156-172 | a malformed id answers 500 with the cast error; an unknown id answers 404; both leave the store unchanged; otherwise only that record's summary and update time change |
| SummaryController.DeleteSummary | backend/controllers/summaryController.js:178-195 | a malformed id answers 500 and an unknown id answers 404, both leaving the store unchanged; otherwise exactly that id is removed and every other record is unchanged |
| SummaryDisplay.TruncateText | frontend/src/components/SummaryDisplay.js:19-22 | text with at most `limit` space-separated pieces is returned unchanged; longer text ends in "..."; with a positive limit the text comes back unchanged exactly when it has at most `limit` pieces |
| SummaryDisplay.TruncatedIsPrefix | frontend/src/components/SummaryDisplay.js:20-21 | what precedes the "..." is a proper prefix of the text that stops just before a space, and splits into exactly the first `limit` pieces |
| SummaryDisplay.TruncatesExactlyOnSpaces | frontend/src/components/SummaryDisplay.js:20 | text is cut exactly when it holds at least `limit` space characters: every space counts, even in a run, and newlines and tabs never do |
| SummaryDisplay.ShowReadMore | frontend/src/components/SummaryDisplay.js:118 | the toggle under a text is shown exactly when the text holds at least 50 space characters |
| SummaryDisplay.ReadMoreExactlyWhenTruncated | frontend/src/components/SummaryDisplay.js:116-118 | the Read-More button is shown exactly when truncation at 50 words would change the text |
| SummaryDisplay.ShareText | frontend/src/components/SummaryDisplay.js:62 | the share text is the fixed introduction, the URL or "No URL", the summary label, and the summary or "No summary available." |
| SummaryDisplay.ShareTextReadsBack | frontend/src/components/SummaryDisplay.js:62 | when the filled-in URLs hold no line break, equal share texts come from equal URL and summary strings after the `\|\|` fallbacks |
| SummaryDisplay.ShareFallbacksAmbiguous | frontend/src/components/SummaryDisplay.js:62 | a missing or empty URL gives the same share text as the literal URL "No URL", and a missing or empty summary the same as the literal "No summary available." |
| SummaryDisplay.PdfTexts | frontend/src/components/SummaryDisplay.js:52-56 | each of the three report texts is its label followed by the field, or by the field's placeholder when the field is missing or empty, so no text is a bare label |
| Dashboard.WithoutId | frontend/src/components/Dashboard.js:36 | filtering keeps exactly the entries with a different id, and never lengthens the list |
| Dashboard.WithoutIdKeepsOrder | frontend/src/components/Dashboard.js:36 | filtering keeps a newest-first list newest first |
| Dashboard.WithoutIdAppend | frontend/src/components/Dashboard.js:36 | filtering distributes over concatenation, so the remaining entries keep their relative order |
| Dashboard.ReplaceById | frontend/src/components/Dashboard.js:47-51 | the list keeps its length; each entry with the updated id is replaced by the updated record and every other entry stays in place |
| Dashboard.OnSummaryCreated | frontend/src/components/Dashboard.js:27-30 | the new record comes first, followed by the old list unchanged, and becomes the selection |
| Dashboard.OnSummaryDeleted | frontend/src/components/Dashboard.js:33-43 | a failed request changes nothing; after a successful one exactly the entries with another id remain, and the selection is cleared exactly when it had the deleted id |
| Dashboard.OnSummaryUpdated | frontend/src/components/Dashboard.js:46-56 | entries with the updated id are replaced in place and the others are unchanged; the selection is replaced only when its id matches |
| Dashboard.PrependMatchesInsert | frontend/src/components/Dashboard.js:28 | putting a record newer than every stored one in front of the listing gives the listing of the store with that record added |
| Dashboard.FilterTracksStore | frontend/src/components/Dashboard.js:36 | filtering an id out of a newest-first list of exactly a store's records gives a newest-first list of exactly the records left once that id is deleted |
| Dashboard.FilterMatchesRemove | frontend/src/components/Dashboard.js:36 | filtering an id out of the listing gives the listing of the store with that id deleted |
| Dashboard.ReplaceTracksStore | frontend/src/components/Dashboard.js:47-51 | replacing a record by id in a list of exactly a store's records gives a list of exactly the records of the store with that entry overwritten |
| Dashboard.ReplaceMatchesOverwrite | frontend/src/components/Dashboard.js:47-51 | replacing a record in the listing by one with the same id and creation time gives the listing of the store with that entry overwritten |
| Dashboard.CreateKeepsListInSync | frontend/src/components/Dashboard.js:27-30 | if the client list equals the server's listing and the clock has passed every stored record, then after a successful create, prepending the returned record gives the server's new listing |
| Dashboard.DeleteKeepsListInSync | frontend/src/components/Dashboard.js:33-43 | if the client list equals the server's listing, then after a delete request, whether it succeeds or fails, the client list still equals the server's listing |
| Dashboard.UpdateKeepsListInSync | frontend/src/components/Dashboard.js:46-56 | if the client list equals the server's listing, then after a successful update, replacing the returned record gives the server's new listing |

## Left out

- The network is not modelled. The page GET and its 10-second timeout are a `FetchOutcome`. The completion POST is a `PostOutcome`, and an axios rejection (a non-2xx status or a transport error) is `Rejected` with its message and the API's optional `message`.
- HTML parsing is not modelled. The model starts from an already parsed `Document` tree. Comments, doctypes and processing instructions are a single `Other` node kind that carries no text.
- The generation parameters `temperature: 0.7` and `top_p: 1` are not modelled. They are floating-point constants passed through unchanged. The API URL and key come from the environment and are not modelled either.
- Database internals are not modelled: ObjectId generation, automatic timestamps and connection handling. Ids are naturals, and the new id is a parameter that must not already be in the store. Timestamps are a `now` parameter.
- A database failure of `find`, `save`, `findByIdAndUpdate` or `findByIdAndDelete` is not modelled. Only the 500 of a malformed id is.
- The `__v` version field is not part of a record.
- Records created at the same instant are ordered by the larger id first. The database's order for equal `createdAt` is unspecified, so this tie-break is a modelling choice.
- `SummaryController.UpdateSummary` takes the new summary text as a string. A request without a `summary` field is not modelled. The handler runs no validators there, so an empty summary is stored as given.
- `null` and `undefined` are not distinguished: both are `None`.
- Logging is not modelled.
- React rendering, state hooks, toasts, the share modal, `window.open` and `encodeURIComponent` are not modelled.
- The edit form's `updateSummary` request is represented only by the update handler and `Dashboard.OnSummaryUpdated`.
- jsPDF layout and pagination depend on the library's page metrics. Only the three texts handed to it are modelled.
- The summary list, landing page, app routing, URL form, Express server and routes are not modelled. They are rendering and wiring only. The URL form's empty-field guard repeats the handler's 400 check.
- The stale-closure race in `handleDeleteSummary` only matters under interleaved asynchronous updates. It reads `summaries` rather than using a functional update.
- Strings are sequences of Unicode scalar values, so a lone UTF-16 surrogate cannot be written.
- The error message for a missing body and the cast error message use the wording of Node's V8 engine and of Mongoose.
- SummaryDisplay.TruncateText: states that the text comes back unchanged exactly when nothing is cut only for `limit >= 1`. With a limit of 0 the source returns a bare "...", which equals the input when that input is "...". The only limit the source uses is 50.
- SummaryDisplay.TruncatedIsPrefix: requires `limit >= 1`. With a limit of 0 nothing precedes the "...", so the character after the kept text is the text's first character, which need not be a space, and the kept text splits into `[""]` rather than into no pieces. The only limit the source uses is 50.
- SummaryDisplay.TruncatesExactlyOnSpaces: requires `limit >= 1`. With a limit of 0 the text "..." comes back unchanged, although it holds no space.
- Dashboard.CreateKeepsListInSync: requires the clock to be later than every stored creation time, because otherwise the new record would not sort first on the server either. It states agreement only after a successful create. A failed create touches neither the client list nor the store.
- Dashboard.UpdateKeepsListInSync: states agreement only after a successful update. A failed update touches neither the client list nor the store.
- Extraction.BodyText: gives the visible-text description only for documents with at most one element child. The HTML parser always produces such documents.
- Extraction.FetchAndParseUrl: the null-body failure covers trees without a body, which the HTML parser never produces. For the parser's output the body is always present (`Extraction.ParsedPageHasBody`), so this branch does not model a path the running program takes.
- SummaryDisplay.ShowReadMore: models the condition on the website-content toggle (SummaryDisplay.js:118). The summary's toggle (SummaryDisplay.js:143) is also hidden while the summary is being edited (`!isEditing`). The editing state is not modelled.
- Extraction.ExtractedIsVisibleBodyText: requires the document to have at most one element child. The HTML parser always produces such a document, so this requirement excludes no page the parser can produce.
