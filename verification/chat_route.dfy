/** The chat endpoint (`POST /api/chat`): it validates the posted messages,
  checks that an agent is configured, forwards only the newest user message
  to that agent, and maps failures to plain-text responses. */
module ChatRoute {
  import opened Strings
  import opened Chat

  /** One element of the posted `messages` array: a falsy value, or an
    object with a role and a content. */
  datatype Entry = Absent | Sent(role: string, content: string)

  /** The value found under `messages` in the parsed body. */
  datatype MessagesField =
    | Falsy                      // absent, null, false, 0 or the empty string
    | NotAList                   // a truthy value that is not an array
    | List(entries: seq<Entry>)

  /** Reading the request body either fails with a thrown value or yields
    the `messages` field. */
  datatype Body = Unreadable(error: Thrown) | Parsed(messages: MessagesField)

  /** What asking the agent for a streamed reply does: it starts a stream
    or throws. */
  datatype Remote = Streams | Throws(error: Thrown)

  /** A streamed reply of the agent to one prompt, or a plain-text response. */
  datatype Response = Stream(agentId: string, prompt: string) | Plain(status: int, text: string)

  const MESSAGES_REQUIRED: string := "Messages are required"
  const LAST_NOT_FROM_USER: string := "Last message must be from user"
  const NOT_CONFIGURED: string := "Agent not configured. Please run: npm run setup-agent"
  const INVALID_KEY: string := "Invalid API key. Please check your LETTA_API_KEY"
  const AGENT_NOT_FOUND: string := "Agent not found. Please run: npm run setup-agent"
  const INTERNAL_ERROR: string := "Internal server error"

  /** A request is valid when it carries a non-empty array whose last
    element is a message from the user. */
  predicate ValidRequest(field: MessagesField) {
    field.List? && |field.entries| > 0
    && field.entries[|field.entries| - 1].Sent?
    && field.entries[|field.entries| - 1].role == "user"
  }

  /** An agent is configured when its id is set and not empty. */
  predicate Configured(agentId: Option<string>) {
    agentId.Some? && agentId.value != ""
  }

  /** The prompt forwarded for a valid request: the last message's content. */
  function LastContent(field: MessagesField): string
    requires ValidRequest(field)
  {
    field.entries[|field.entries| - 1].content
  }

  /** The authorisation test on a thrown error's message (case-sensitive). */
  predicate MentionsUnauthorized(m: string) {
    Contains(m, "401") || Contains(m, "unauthorized")
  }

  /** The missing-agent test on a thrown error's message (case-sensitive). */
  predicate MentionsNotFound(m: string) {
    Contains(m, "404") || Contains(m, "not found")
  }

  /** The response for anything thrown inside the handler. */
  function ErrorResponse(t: Thrown): (r: Response)
    ensures r.Plain?
    ensures r.status == 401 <==> t.ErrorWithMessage? && MentionsUnauthorized(t.message)
    ensures r.status == 404 <==>
      t.ErrorWithMessage? && !MentionsUnauthorized(t.message) && MentionsNotFound(t.message)
    ensures r.status == 500 <==>
      t.NonError? || (!MentionsUnauthorized(t.message) && !MentionsNotFound(t.message))
    ensures r.text == (if r.status == 401 then INVALID_KEY
                       else if r.status == 404 then AGENT_NOT_FOUND
                       else INTERNAL_ERROR)
  {
    match t
    case ErrorWithMessage(m) =>
      if MentionsUnauthorized(m) then Plain(401, INVALID_KEY)
      else if MentionsNotFound(m) then Plain(404, AGENT_NOT_FOUND)
      else Plain(500, INTERNAL_ERROR)
    case NonError => Plain(500, INTERNAL_ERROR)
  }

  /** The handler. `agentId` is the `LETTA_AGENT_ID` setting; `remote` is
    what starting the agent's stream does. */
  function Post(body: Body, agentId: Option<string>, remote: Remote): (r: Response)
    ensures r.Stream? <==>
      body.Parsed? && ValidRequest(body.messages) && Configured(agentId) && remote.Streams?
    ensures r.Stream? ==> r.agentId == agentId.value && r.prompt == LastContent(body.messages)
    ensures r.Plain? ==> r.status in {400, 401, 404, 500}
    ensures body.Unreadable? ==> r == ErrorResponse(body.error)
  {
    match body
    case Unreadable(e) => ErrorResponse(e)
    case Parsed(field) =>
      if !field.List? || |field.entries| == 0 then Plain(400, MESSAGES_REQUIRED)
      else
        var last := field.entries[|field.entries| - 1];
        if !last.Sent? || last.role != "user" then Plain(400, LAST_NOT_FROM_USER)
        else if !Configured(agentId) then Plain(500, NOT_CONFIGURED)
        else
          match remote
          case Streams => Stream(agentId.value, last.content)
          case Throws(e) => ErrorResponse(e)
  }

  /** An invalid request is refused with 400 before the configuration or
    the agent is looked at. */
  lemma InvalidRequestRefusedFirst(field: MessagesField, agentId: Option<string>, remote: Remote)
    requires !ValidRequest(field)
    ensures var r := Post(Parsed(field), agentId, remote);
      r.Plain? && r.status == 400
      && r.text == (if field.List? && |field.entries| > 0 then LAST_NOT_FROM_USER else MESSAGES_REQUIRED)
  {
  }

  /** A valid request without a configured agent gets 500 and never reaches the agent. */
  lemma UnconfiguredAgentRefused(field: MessagesField, agentId: Option<string>, remote: Remote)
    requires ValidRequest(field) && !Configured(agentId)
    ensures Post(Parsed(field), agentId, remote) == Plain(500, NOT_CONFIGURED)
  {
  }

  /** The agent keeps its own history: what came before the last message
    has no effect on the response. */
  lemma OnlyLastMessageForwarded(earlier: seq<Entry>, other: seq<Entry>, last: Entry,
                                 agentId: Option<string>, remote: Remote)
    ensures Post(Parsed(List(earlier + [last])), agentId, remote)
         == Post(Parsed(List(other + [last])), agentId, remote)
  {
    assert (earlier + [last])[|earlier + [last]| - 1] == last;
    assert (other + [last])[|other + [last]| - 1] == last;
  }

  /** A request that got past the checks is answered from the agent's outcome alone. */
  lemma FailureAfterChecksIsMapped(field: MessagesField, agentId: Option<string>, e: Thrown)
    requires ValidRequest(field) && Configured(agentId)
    ensures Post(Parsed(field), agentId, Throws(e)) == ErrorResponse(e)
  {
  }

  /** The authorisation test comes first: a message naming both codes gives 401. */
  lemma UnauthorizedBeatsNotFound(m: string)
    requires Contains(m, "401") && Contains(m, "404")
    ensures ErrorResponse(ErrorWithMessage(m)) == Plain(401, INVALID_KEY)
  {
  }

  /** The tests are case-sensitive: a capitalised `Unauthorized` alone is an
    internal error. */
  lemma CapitalisedUnauthorizedIsInternal()
    ensures ErrorResponse(ErrorWithMessage("Unauthorized")) == Plain(500, INTERNAL_ERROR)
  {
    var m := "Unauthorized";
    assert '4' !in m;
    assert !Contains(m, "401") by { ContainsChars(m, "401"); assert '4' in "401"; }
    assert !Contains(m, "404") by { ContainsChars(m, "404"); assert '4' in "404"; }
    assert !OccursAt(m, "unauthorized", 0) by { assert m[0] != 'u'; }
    assert !Contains(m, "not found") by {
      ContainsChars(m, "not found");
      assert ' ' in "not found" && ' ' !in m;
    }
  }
}
