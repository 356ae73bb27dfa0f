/** `summarizeContent`: the chat-completion request built from cleaned text and the
    checks applied to the reply. The POST itself is replaced by an abstract outcome. */
module Completion {
  import opened Outcomes

  const ModelName := "llama3-8b-8192"
  const SystemInstruction := "You are a summarization assistant."
  const UserInstruction := "Please summarize the following content: "
  const MaxTokens := 1024

  /** Prefix of every error leaving the summarisation stage. */
  const SummarizePrefix := "Error summarizing content: "
  /** Message thrown when a resolved reply has the wrong status or no `choices`. */
  const IncompleteReply := "Summarization failed or incomplete response."
  /** TypeErrors raised while reading `choices[0].message.content`. */
  const NoFirstChoice := "Cannot read properties of undefined (reading 'message')"
  const NoChoiceMessage := "Cannot read properties of undefined (reading 'content')"

  datatype ChatMessage = ChatMessage(role: string, content: string)

  /** The request body (the floating-point sampling settings are not modelled). */
  datatype Payload = Payload(model: string, messages: seq<ChatMessage>, maxTokens: nat, stream: bool)

  /** The request sent for `content`. */
  function BuildPayload(content: string): (p: Payload)
    ensures p.model == ModelName && p.maxTokens == MaxTokens && !p.stream
    ensures |p.messages| == 2
    ensures p.messages[0] == ChatMessage("system", SystemInstruction)
    ensures p.messages[1].role == "user"
  {
    Payload(ModelName,
            [ChatMessage("system", SystemInstruction),
             ChatMessage("user", UserInstruction + content)],
            MaxTokens, false)
  }

  /** The content a request asks to summarise: the user message after the fixed
      instruction, if it is shaped that way. */
  function PromptedContent(p: Payload): Option<string> {
    if |p.messages| == 2 && |UserInstruction| <= |p.messages[1].content|
       && p.messages[1].content[..|UserInstruction|] == UserInstruction
    then Some(p.messages[1].content[|UserInstruction|..])
    else None
  }

  /** The whole content reaches the request, with nothing cut off or added: it can be
      read back from the payload, so distinct contents give distinct requests. */
  lemma PromptCarriesWholeContent(content: string)
    ensures PromptedContent(BuildPayload(content)) == Some(content)
    ensures forall other :: BuildPayload(other) == BuildPayload(content) ==> other == content
  {
    var u := UserInstruction + content;
    assert u[..|UserInstruction|] == UserInstruction;
    assert u[|UserInstruction|..] == content;
    forall other | BuildPayload(other) == BuildPayload(content)
      ensures other == content
    {
      var v := UserInstruction + other;
      assert v[|UserInstruction|..] == other;
    }
  }

  /** `choices[i].message` of the reply; `None` when the field is absent. */
  datatype Choice = Choice(message: Option<ReplyMessage>)
  /** `choices[i].message.content`; `None` when absent or null. */
  datatype ReplyMessage = ReplyMessage(content: Option<string>)

  /** What the POST produced. `Resolved` is a reply the HTTP client accepted (2xx),
      with `choices` absent or falsy as `None`. `Rejected` is an error the client threw,
      with its message and, when the server answered, the `message` field of the
      server's error body. */
  datatype PostOutcome =
    | Resolved(status: int, choices: Option<seq<Choice>>)
    | Rejected(message: string, apiMessage: Option<string>)

  /** A reply of the expected shape: status 200, `choices` present and non-empty,
      and a first choice carrying a message. */
  predicate WellShaped(o: PostOutcome) {
    && o.Resolved? && o.status == 200 && o.choices.Some?
    && |o.choices.value| > 0 && o.choices.value[0].message.Some?
  }

  /** The summarisation stage. Its value is `choices[0].message.content`, which may
      itself be absent. */
  function SummarizeContent(o: PostOutcome): (r: Result<Option<string>>)
    ensures r.Ok? <==> WellShaped(o)
    ensures r.Ok? ==> r.value == o.choices.value[0].message.value.content
    ensures r.Err? ==> SummarizePrefix <= r.message
    ensures o.Resolved? && (o.status != 200 || o.choices.None?) ==>
              r == Err(SummarizePrefix + IncompleteReply)
    ensures o.Rejected? ==>
              r == Err(SummarizePrefix + OrElse(o.apiMessage, o.message))
  {
    match o
    case Rejected(m, api) => Err(SummarizePrefix + OrElse(api, m))
    case Resolved(status, choices) =>
      if status != 200 || choices.None? then Err(SummarizePrefix + IncompleteReply)
      else if |choices.value| == 0 then Err(SummarizePrefix + NoFirstChoice)
      else match choices.value[0].message
        case None => Err(SummarizePrefix + NoChoiceMessage)
        case Some(msg) => Ok(msg.content)
  }
}
