/** The chat page's controller: the conversation state held by the chat
  hook and the page (messages, input, error, loading flag), the actions
  that change it (new chat, submit, Enter key, send button, suggestion),
  and the guards that decide what the page shows. */
module MainChat {
  import opened Strings
  import opened Chat

  /** What one `handleSubmit` of the chat hook did: the messages and the
    loading flag afterwards, the value it set the input to (none when it
    left the input alone) and, when it rejected, the value it threw. The
    request and the streaming behind it are not modelled: the hook is a
    parameter of the submitting actions, a function from the input it
    sees to this outcome. */
  datatype SubmitOutcome = SubmitOutcome(
    messages: seq<ChatMessage>, inputSet: Option<string>, isLoading: bool, thrown: Option<Thrown>)

  /** What the input area offers: a stop control while a reply is
    streaming, otherwise a send button that may be disabled. */
  datatype InputControl = Stop | Send(enabled: bool)

  const GENERIC_ERROR: string := "An error occurred"

  /** The error text shown for a rejected submit: an `Error`'s own message,
    else a generic text. */
  function ErrorText(t: Thrown): (text: string)
    ensures t.ErrorWithMessage? ==> text == t.message
    ensures t.NonError? ==> text == GENERIC_ERROR
  {
    match t
    case ErrorWithMessage(m) => m
    case NonError => GENERIC_ERROR
  }

  /** Only user and assistant messages reach the message list. */
  predicate Displayable(m: ChatMessage) {
    m.role == User || m.role == Assistant
  }

  /** The messages handed to the message list, in their original order. */
  function DisplayedMessages(ms: seq<ChatMessage>): (shown: seq<ChatMessage>)
    ensures |shown| <= |ms|
    ensures forall k :: 0 <= k < |shown| ==> Displayable(shown[k])
  {
    if ms == [] then []
    else if Displayable(ms[0]) then [ms[0]] + DisplayedMessages(ms[1..])
    else DisplayedMessages(ms[1..])
  }

  /** The filter works message by message: filtering a concatenation is
    concatenating the filtered parts, so the original order is kept. */
  lemma {:induction false} DisplayedMessagesAppend(a: seq<ChatMessage>, b: seq<ChatMessage>)
    ensures DisplayedMessages(a + b) == DisplayedMessages(a) + DisplayedMessages(b)
  {
    if a == [] {
      assert a + b == b;
    } else {
      assert (a + b)[0] == a[0];
      assert (a + b)[1..] == a[1..] + b;
      DisplayedMessagesAppend(a[1..], b);
    }
  }

  /** A conversation of user and assistant messages is shown whole. */
  lemma {:induction false} DisplayedMessagesKeepsConversation(ms: seq<ChatMessage>)
    requires forall k :: 0 <= k < |ms| ==> Displayable(ms[k])
    ensures DisplayedMessages(ms) == ms
  {
    if ms != [] {
      DisplayedMessagesKeepsConversation(ms[1..]);
    }
  }

  /** A message is shown exactly when it is in the conversation and is a
    user or assistant message. */
  lemma {:induction false} DisplayedMessagesMembers(ms: seq<ChatMessage>, m: ChatMessage)
    ensures m in DisplayedMessages(ms) <==> m in ms && Displayable(m)
  {
    if ms != [] {
      DisplayedMessagesMembers(ms[1..], m);
      assert ms == [ms[0]] + ms[1..];
    }
  }

  /** Filtering twice is filtering once. */
  lemma DisplayedMessagesIdempotent(ms: seq<ChatMessage>)
    ensures DisplayedMessages(DisplayedMessages(ms)) == DisplayedMessages(ms)
  {
    DisplayedMessagesKeepsConversation(DisplayedMessages(ms));
  }

  /** Enter without Shift submits when no reply is streaming and the input
    holds more than whitespace. */
  predicate EnterSubmits(key: string, shift: bool, isLoading: bool, input: string) {
    key == "Enter" && !shift && !isLoading && Trim(input) != []
  }

  /** The control next to the input. */
  function Control(isLoading: bool, input: string): (c: InputControl)
    ensures c == Stop <==> isLoading
    ensures c.Send? ==> (c.enabled <==> Trim(input) != [])
  {
    if isLoading then Stop else Send(Trim(input) != [])
  }

  /** The New Chat button is in the header once there is a conversation. */
  predicate NewChatShown(messages: seq<ChatMessage>) {
    |messages| > 0
  }

  /** The welcome screen with the suggestions replaces an empty conversation. */
  predicate WelcomeShown(messages: seq<ChatMessage>) {
    |messages| == 0
  }

  /** The error banner appears for a set, non-empty error text. */
  predicate ErrorShown(error: Option<string>) {
    error.Some? && error.value != ""
  }

  /** Shift+Enter never submits, whatever the state. */
  lemma ShiftEnterNeverSubmits(key: string, isLoading: bool, input: string)
    ensures !EnterSubmits(key, true, isLoading, input)
  {
  }

  /** The Enter key submits exactly when the send button is offered and enabled. */
  lemma EnterMatchesSendButton(isLoading: bool, input: string)
    ensures EnterSubmits("Enter", false, isLoading, input) <==> Control(isLoading, input) == Send(true)
  {
  }

  /** Input made only of whitespace never submits. */
  lemma BlankInputNeverSubmits(key: string, shift: bool, isLoading: bool, input: string)
    requires forall k :: 0 <= k < |input| ==> IsWhitespace(input[k])
    ensures !EnterSubmits(key, shift, isLoading, input)
    ensures Control(isLoading, input) != Send(true)
  {
  }

  /** The header button and the welcome screen never appear together, and
    one of them always does. */
  lemma NewChatOrWelcome(messages: seq<ChatMessage>)
    ensures NewChatShown(messages) <==> !WelcomeShown(messages)
  {
  }

  /** A rejected submit always leaves an error set; a thrown `Error` with
    an empty message leaves it set but not shown. */
  lemma RejectedSubmitError(t: Thrown)
    ensures ErrorShown(Some(ErrorText(t))) <==> !(t.ErrorWithMessage? && t.message == "")
  {
  }

  class ChatSession {
    var messages: seq<ChatMessage>
    var input: string
    var error: Option<string>
    var isLoading: bool
    /** Whether the page was given an `onNewChat` callback. */
    const hasNewChatHandler: bool
    /** How many times that callback has been invoked. */
    var newChatNotices: nat
    /** The inputs the hook's `handleSubmit` has seen, one per call, in order. */
    var sent: seq<string>

    constructor(hasNewChatHandler: bool)
      ensures this.hasNewChatHandler == hasNewChatHandler
      ensures messages == [] && input == "" && error == None && !isLoading
      ensures newChatNotices == 0 && sent == []
    {
      this.hasNewChatHandler := hasNewChatHandler;
      messages := [];
      input := "";
      error := None;
      isLoading := false;
      newChatNotices := 0;
      sent := [];
    }

    /** Start over: empty conversation, empty input, no error; the parent
      is told when it asked to be. */
    method ResetChat()
      modifies this
      ensures messages == [] && input == "" && error == None
      ensures isLoading == old(isLoading) && sent == old(sent)
      ensures newChatNotices == old(newChatNotices) + (if hasNewChatHandler then 1 else 0)
      ensures WelcomeShown(messages) && !NewChatShown(messages) && !ErrorShown(error)
    {
      messages := [];
      input := "";
      error := None;
      if hasNewChatHandler {
        newChatNotices := newChatNotices + 1;
      }
    }

    /** Submit the form: clear the error, let the hook submit the current
      input, and record the error text if it rejects. */
    method OnSubmit(hook: string -> SubmitOutcome)
      modifies this
      ensures sent == old(sent) + [old(input)]
      ensures var outcome := hook(old(input));
        messages == outcome.messages && input == outcome.inputSet.GetOr(old(input))
        && isLoading == outcome.isLoading
        && (outcome.thrown.None? ==> error == None)
        && (outcome.thrown.Some? ==> error == Some(ErrorText(outcome.thrown.value)))
      ensures newChatNotices == old(newChatNotices)
    {
      error := None;
      var outcome := hook(input);
      sent := sent + [input];
      messages, input, isLoading := outcome.messages, outcome.inputSet.GetOr(input), outcome.isLoading;
      if outcome.thrown.Some? {
        error := Some(ErrorText(outcome.thrown.value));
      }
    }

    /** A key press in the input: Enter without Shift submits when allowed;
      anything else leaves the state alone. */
    method OnKeyDown(key: string, shift: bool, hook: string -> SubmitOutcome) returns (submitted: bool)
      modifies this
      ensures submitted == EnterSubmits(key, shift, old(isLoading), old(input))
      ensures submitted ==> var outcome := hook(old(input));
        sent == old(sent) + [old(input)]
        && messages == outcome.messages && input == outcome.inputSet.GetOr(old(input))
        && isLoading == outcome.isLoading
        && error == if outcome.thrown.Some? then Some(ErrorText(outcome.thrown.value)) else None
      ensures !submitted ==> (messages == old(messages) && input == old(input) && sent == old(sent)
                              && isLoading == old(isLoading) && error == old(error))
      ensures newChatNotices == old(newChatNotices)
    {
      submitted := EnterSubmits(key, shift, isLoading, input);
      if submitted {
        OnSubmit(hook);
      }
    }

    /** A click on the send button: it submits only when it is shown and enabled. */
    method ClickSend(hook: string -> SubmitOutcome) returns (submitted: bool)
      modifies this
      ensures submitted == (Control(old(isLoading), old(input)) == Send(true))
      ensures submitted ==> var outcome := hook(old(input));
        sent == old(sent) + [old(input)]
        && messages == outcome.messages && input == outcome.inputSet.GetOr(old(input))
        && isLoading == outcome.isLoading
        && error == if outcome.thrown.Some? then Some(ErrorText(outcome.thrown.value)) else None
      ensures !submitted ==> (messages == old(messages) && input == old(input) && sent == old(sent)
                              && isLoading == old(isLoading) && error == old(error))
      ensures newChatNotices == old(newChatNotices)
    {
      submitted := Control(isLoading, input) == Send(true);
      if submitted {
        OnSubmit(hook);
      }
    }

    /** A click on the New Chat button, which exists only once there is a conversation. */
    method ClickNewChat() returns (reset: bool)
      modifies this
      ensures reset == NewChatShown(old(messages))
      ensures reset ==> (messages == [] && input == "" && error == None
                         && newChatNotices == old(newChatNotices) + (if hasNewChatHandler then 1 else 0))
      ensures !reset ==> input == old(input) && error == old(error) && newChatNotices == old(newChatNotices)
      ensures messages == [] && isLoading == old(isLoading) && sent == old(sent)
    {
      reset := NewChatShown(messages);
      if reset {
        ResetChat();
      }
    }

    /** A click on a suggestion on the welcome screen (its buttons are
      disabled while loading), as written: `setInput(suggestion)` only
      schedules the new input, and the `handleSubmit` of the same render
      still sees the input from before the click. The suggestion stays in
      the box unless the hook sets the input itself. A rejection is not
      captured, so the error is left as it was. */
    method ClickSuggestion(suggestion: string, hook: string -> SubmitOutcome) returns (submitted: bool)
      modifies this
      ensures submitted == (WelcomeShown(old(messages)) && !old(isLoading))
      ensures submitted ==> var outcome := hook(old(input));
        sent == old(sent) + [old(input)]
        && messages == outcome.messages && input == outcome.inputSet.GetOr(suggestion)
        && isLoading == outcome.isLoading
      ensures error == old(error) && newChatNotices == old(newChatNotices)
      ensures !submitted ==> messages == old(messages) && input == old(input)
                             && isLoading == old(isLoading) && sent == old(sent)
    {
      submitted := WelcomeShown(messages) && !isLoading;
      if submitted {
        var seen := input;
        input := suggestion;
        var outcome := hook(seen);
        sent := sent + [seen];
        messages, input, isLoading := outcome.messages, outcome.inputSet.GetOr(input), outcome.isLoading;
      }
    }

    /** A click on a suggestion as evidently intended: the suggestion itself
      is what the hook submits. */
    method ClickSuggestionSubmitting(suggestion: string, hook: string -> SubmitOutcome) returns (submitted: bool)
      modifies this
      ensures submitted == (WelcomeShown(old(messages)) && !old(isLoading))
      ensures submitted ==> var outcome := hook(suggestion);
        sent == old(sent) + [suggestion]
        && messages == outcome.messages && input == outcome.inputSet.GetOr(suggestion)
        && isLoading == outcome.isLoading
      ensures error == old(error) && newChatNotices == old(newChatNotices)
      ensures !submitted ==> messages == old(messages) && input == old(input)
                             && isLoading == old(isLoading) && sent == old(sent)
    {
      submitted := WelcomeShown(messages) && !isLoading;
      if submitted {
        input := suggestion;
        var outcome := hook(input);
        sent := sent + [input];
        messages, input, isLoading := outcome.messages, outcome.inputSet.GetOr(input), outcome.isLoading;
      }
    }
  }

  /** A sample hook: it ignores an empty input, and otherwise sends the
    input as a user message and clears the box. */
  function SkipsEmptyInput(text: string): SubmitOutcome {
    if text == "" then SubmitOutcome([], None, false, None)
    else SubmitOutcome([ChatMessage("1", User, text)], Some(""), true, None)
  }

  /** On a fresh page, clicking the suggestion `hi` as written hands the
    hook the empty input: nothing is sent and `hi` is left in the box. */
  method SuggestionClickAsWritten() returns (page: ChatSession)
    ensures page.sent == [""] && page.messages == [] && page.input == "hi"
  {
    page := new ChatSession(false);
    var submitted := page.ClickSuggestion("hi", SkipsEmptyInput);
  }

  /** The same click with the suggestion submitted sends `hi` as a user
    message and clears the box. */
  method SuggestionClickSubmitting() returns (page: ChatSession)
    ensures page.sent == ["hi"] && page.messages == [ChatMessage("1", User, "hi")] && page.input == ""
  {
    page := new ChatSession(false);
    var submitted := page.ClickSuggestionSubmitting("hi", SkipsEmptyInput);
  }
}
