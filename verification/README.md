# Letta chat client: verified model of its decision and string logic

This project is a Dafny model of the logic in a small Next.js chat client for a Letta agent. It covers four pieces.

- **The assistant-text normaliser** (`convertToMarkdown`). It turns escaped line breaks into real ones and splits the text into paragraphs at blank lines. Each paragraph is trimmed and passed through when it is a list. Otherwise it is fenced as code, with a guessed language tag, when it matches one of five line-anchored patterns and spans more than two lines. The paragraphs are then rejoined. The same file holds the role-based choice of normalised or raw content and two helpers of the code-block renderer: reading the `language-xxx` class and stripping one trailing line feed. (module `Message`, file `message.dfy`)
- **The chat endpoint** (`POST /api/chat`). It validates the posted messages and checks that an agent is configured. It then forwards only the last message to the agent and maps failures to plain-text responses with status 400, 401, 404 or 500. (module `ChatRoute`, file `chat_route.dfy`)
- **The `.env.local` update of the agent-setup script.** It rewrites every `LETTA_AGENT_ID=` line tail with the new id, or appends a new assignment. It then appends `LETTA_API_KEY=` when the file lacks one. (module `SetupAgent`, file `setup_agent.dfy`)
- **The chat page controller.** The class `ChatSession` holds the page's conversation state: messages, input, error and loading flag. Its methods are the actions that change that state: new chat, form submit, the Enter key, the send button and a suggestion click. Pure functions and lemmas cover the guards that decide what the page shows and the role filter on the displayed messages. (module `MainChat`, file `main_chat.dfy`)

Two supporting modules are shared:
- `Strings` (`strings.dfy`) states the JavaScript string operations used above over `seq<char>`: `startsWith`, `includes`, a global replace, `split`, `join` and `trim`. `trim` and `\s` use the full ECMAScript WhiteSpace and LineTerminator sets.
- `Chat` (`chat.dfy`) defines the message, role and thrown-value types.

Regular expressions are written as explicit scans. The `m` flag makes `^` match at the start of the text and after any line terminator. `.` stops at a line terminator. Four of the five code patterns never need backtracking, so each of them is a greedy scan. The fifth, `/;\s*$/m`, does need it, because `\s` also matches line terminators. The model states it in its backtracking-free form: after the semicolon comes whitespace that contains no line terminator, then a line terminator or the end. `Message.BlankToLineEndIsRegex` proves that this agrees with the regular-expression reading.

## Model

| member | source | states |
|---|---|---|
| Strings.ReplaceAll | components/ui/message.tsx:23-26 | a global replace of a fixed pattern leaves text without an occurrence unchanged |
| Strings.ReplaceAllIsSplitJoin | components/ui/message.tsx:23-26 | a global replace is splitting the text at the pattern and joining the pieces with the replacement: each occurrence, found left to right without overlap, becomes the replacement and the text between occurrences is kept |
| Strings.Split | components/ui/message.tsx:29 | `split` yields at least one piece; the first piece is a prefix of the text; no piece contains the separator |
| Strings.JoinSplit | components/ui/message.tsx:29 | joining the pieces of a split with the same separator gives back the text |
| Strings.SplitJoin | components/ui/message.tsx:72 | splitting a join gives back the pieces when no piece contains the separator or runs into the one after it |
| Strings.SplitCharCount | components/ui/message.tsx:51 | splitting on one character gives one more piece than there are copies of it |
| Strings.Trim | components/ui/message.tsx:33 | `trim` keeps the slice between the leading and trailing whitespace; the result neither starts nor ends with whitespace; it is empty exactly when the text is all whitespace |
| Message.UnescapeParagraphBreaks | components/ui/message.tsx:23 | defines the first step: every escaped blank line `\n\n` (backslash, `n`, twice) becomes two line feeds |
| Message.UnescapeNewlines | components/ui/message.tsx:26 | defines the second step: every escaped line break becomes a line feed |
| Message.Unescape | components/ui/message.tsx:23-26 | defines the two steps in order |
| Message.ParagraphStepSubsumed | components/ui/message.tsx:23-26 | replacing escaped blank lines and then escaped line breaks equals replacing escaped line breaks alone |
| Message.NoEscapedNewlineLeft | components/ui/message.tsx:26 | no backslash-`n` pair survives the line-break step, including one formed next to a replaced pair |
| Message.UnescapeLeavesNoEscapes | components/ui/message.tsx:23-26 | after both un-escape steps no backslash-`n` pair remains |
| Message.IsListBlock | components/ui/message.tsx:36 | defines the four-way list test: `\n- ` or `\n* ` occurs, or the paragraph starts with `- ` or `* ` |
| Message.ListBlockIsBulletLine | components/ui/message.tsx:36 | the four-way list test holds exactly when some line of the paragraph starts with `- ` or `* ` |
| Message.ListParagraphKept | components/ui/message.tsx:33-38 | a paragraph with a bullet line comes back exactly as trimmed, even when it also looks like code |
| Message.KeywordLed | components/ui/message.tsx:42 | defines pattern 1: at a line start, one of the eleven keywords begins, with no word boundary after it |
| Message.AssignmentLed | components/ui/message.tsx:43 | defines pattern 2: at a line start, spaces, an identifier, whitespace, then `=` or `:` |
| Message.BracketLed | components/ui/message.tsx:44 | defines pattern 3: at a line start, spaces, then one of `{}[]()` |
| Message.CommentLed | components/ui/message.tsx:45 | defines pattern 4: at a line start, whitespace, then `//`, `#` or `/*` |
| Message.SemicolonEnded | components/ui/message.tsx:46 | defines pattern 5: a semicolon followed by whitespace up to a line end |
| Message.BlankToLineEndIsRegex | components/ui/message.tsx:46 | the backtracking-free reading of `\s*$` (whitespace without a line terminator, then a line end) holds exactly when some whitespace run, line terminators included, is followed by a line end |
| Message.HasCode | components/ui/message.tsx:41-49 | defines `hasCode`: one of the five patterns matches |
| Message.LooksLikeCode | components/ui/message.tsx:50-51 | defines `looksLikeCode`: a pattern matches, a line feed occurs and the paragraph splits into more than two lines |
| Message.KeywordIsBarePrefix | components/ui/message.tsx:42 | the keyword pattern has no word boundary, so a paragraph any of whose lines starts with `format` matches a code pattern |
| Message.Language | components/ui/message.tsx:56-65 | the language tag is one of python, javascript, c, java or text |
| Message.LanguageFollowsTable | components/ui/message.tsx:56-65 | the tag is the first group, in priority order, any of whose markers occurs in the paragraph, else `text` |
| Message.Fence | components/ui/message.tsx:67 | defines the fence: three backticks, the tag, a line feed, the paragraph, a line feed, three backticks |
| Message.ConvertParagraph | components/ui/message.tsx:31-71 | defines one paragraph's conversion: trim; a list block as it is; fenced when it looks like code; else as trimmed (its meaning is stated by `ParagraphFencedExactly`) |
| Message.ConvertToMarkdown | components/ui/message.tsx:21-73 | defines the normaliser: un-escape, split at blank lines, convert each paragraph, join with blank lines (its meaning is stated by `OutputSplitsIntoConvertedParagraphs`) |
| Message.ConvertAll | components/ui/message.tsx:31-72 | every paragraph is converted on its own, one result per paragraph, in order |
| Message.ParagraphFencedExactly | components/ui/message.tsx:31-71 | a trimmed paragraph is fenced as `"```" + lang + "\n" + p + "\n```"` exactly when it has no bullet line, a code pattern matches and it holds at least two line feeds; otherwise it comes back trimmed |
| Message.ShortParagraphNotFenced | components/ui/message.tsx:50-51 | a paragraph with fewer than three lines is never fenced |
| Message.FenceIsolated | components/ui/message.tsx:67 | a fenced paragraph followed by a line feed holds no blank line |
| Message.ConvertedParagraphIsolated | components/ui/message.tsx:31-72 | a converted paragraph followed by a line feed holds no blank line, so it cannot run into the separator after it |
| Message.OutputSplitsIntoConvertedParagraphs | components/ui/message.tsx:29-72 | the output splits at blank lines into exactly the converted paragraphs, one per paragraph of the un-escaped text, in order |
| Message.SingleLineComesBackTrimmed | components/ui/message.tsx:21-73 | a one-line text with no escaped line break comes back trimmed and unfenced |
| Message.EmptyStaysEmpty | components/ui/message.tsx:21-73 | empty input gives empty output |
| Message.DisplayedContent | components/ui/message.tsx:85 | only assistant content is normalised; content of any other role is shown unchanged |
| Message.FindLanguageClass | components/ui/message.tsx:121 | the search finds the leftmost `language-` followed by a word character, and reports none when there is no such place |
| Message.CodeBlockLanguage | components/ui/message.tsx:121-122 | when the class name holds `language-` followed by a word character, the language is the longest run of word characters right after the leftmost such `language-`; otherwise it is `text` |
| Message.CodeBlockLanguageOfClass | components/ui/message.tsx:121-122 | for the class `language-` + `w`, with `w` a run of word characters, the language is `w` |
| Message.FenceTagReadBack | components/ui/message.tsx:121-122 | the tag the normaliser writes on a fence is the language the renderer reads back |
| Message.StripTrailingNewline | components/ui/message.tsx:140 | the result is a prefix of the code, at most one character shorter; it is shorter exactly when the code ends with a line feed |
| Message.FencedCodeRecovered | components/ui/message.tsx:140 | the code text of a fenced paragraph, paragraph plus line feed, strips back to the paragraph |
| ChatRoute.ErrorResponse | app/api/chat/route.ts:37-55 | a thrown `Error` whose message contains `401` or `unauthorized` gives 401; otherwise one containing `404` or `not found` gives 404; anything else gives 500; each status has its text |
| ChatRoute.Post | app/api/chat/route.ts:4-57 | the agent is asked exactly when the body parses, the request is valid, an agent is configured and the call starts; it gets the configured id and the last message's content; every other outcome is a plain response with status 400, 401, 404 or 500; a body that cannot be read is answered by the error mapping of what was thrown |
| ChatRoute.ValidRequest | app/api/chat/route.ts:9-17 | defines a valid request: a non-empty array whose last element is an object with role `user` |
| ChatRoute.Configured | app/api/chat/route.ts:20-21 | defines a configured agent: the id is set and not empty |
| ChatRoute.InvalidRequestRefusedFirst | app/api/chat/route.ts:9-17 | an invalid request gets 400 whatever the configuration and the agent do: `Messages are required` for a missing, non-array or empty list, otherwise `Last message must be from user` |
| ChatRoute.UnconfiguredAgentRefused | app/api/chat/route.ts:19-25 | a valid request without an agent id gets 500 `Agent not configured…` and never reaches the agent |
| ChatRoute.OnlyLastMessageForwarded | app/api/chat/route.ts:13-33 | the messages before the last have no effect on the response |
| ChatRoute.FailureAfterChecksIsMapped | app/api/chat/route.ts:30-55 | when the call fails after all checks pass, the response is the error mapping of what was thrown |
| ChatRoute.UnauthorizedBeatsNotFound | app/api/chat/route.ts:42-52 | a message naming both `401` and `404` gives 401 |
| ChatRoute.CapitalisedUnauthorizedIsInternal | app/api/chat/route.ts:42-55 | the tests are case-sensitive: `Unauthorized` alone gives 500 |
| SetupAgent.RestOfLine | scripts/setup-agent.ts:60 | `.*` reaches up to the first line terminator or the end |
| SetupAgent.ReplaceLineTails | scripts/setup-agent.ts:60 | defines `replace(/LETTA_AGENT_ID=.*/g, …)` as a scan: at each occurrence of the pattern the rest of its line is replaced (its meaning is stated by `LineReplaced` and `SplitAtLineBoundary`) |
| SetupAgent.NoMatchUnchanged | scripts/setup-agent.ts:60 | the rewrite leaves text without the pattern unchanged |
| SetupAgent.ReplaceFirstTail | scripts/setup-agent.ts:60 | the one-line reference rewrite keeps a line a single line and leaves a line without the pattern unchanged |
| SetupAgent.LineReplaced | scripts/setup-agent.ts:60 | matches never cross a line terminator: on each line the rewrite cuts at the first occurrence and puts the new assignment there |
| SetupAgent.SplitAtLineBoundary | scripts/setup-agent.ts:60 | the rewrite of a text split at a line boundary is the concatenation of the rewrites of the two parts |
| SetupAgent.ReplaceLineTailsIdempotent | scripts/setup-agent.ts:60 | rewriting twice equals rewriting once for a one-line replacement that starts with the pattern |
| SetupAgent.ReplacementPresent | scripts/setup-agent.ts:59-60 | when the pattern occurs, the replacement occurs in the result |
| SetupAgent.LineEndKept | scripts/setup-agent.ts:60 | text that ends a line still ends one after the rewrite |
| SetupAgent.SetAgentId | scripts/setup-agent.ts:58-63 | the result contains `LETTA_AGENT_ID=<id>`; with an existing assignment it is the rewrite; without one it is the old content, then a line feed, the assignment and a line feed |
| SetupAgent.EnsureApiKey | scripts/setup-agent.ts:65-68 | the content is a prefix of the result, and the result contains `LETTA_API_KEY=`; an existing key leaves the content unchanged; a missing key gets `LETTA_API_KEY=<key>` and a line feed appended right after the content |
| SetupAgent.UpdateEnvContent | scripts/setup-agent.ts:58-68 | the updated file contains `LETTA_AGENT_ID=<id>` and `LETTA_API_KEY=`; without an old assignment it starts with the old content and the new assignment line |
| SetupAgent.EnsureApiKeyOnOwnLine | scripts/setup-agent.ts:65-68 | corrected key step: as above, but an appended key line starts a line of its own |
| SetupAgent.UpdateEnvContentOnOwnLine | scripts/setup-agent.ts:58-68 | corrected update: contains `LETTA_AGENT_ID=<id>` and `LETTA_API_KEY=`, and keeps the old content as a prefix when no assignment was there |
| SetupAgent.SetAgentIdStable | scripts/setup-agent.ts:58-63 | the id step's result is unchanged by a second rewrite with the same id, when the id is a single line |
| SetupAgent.KeyLineStable | scripts/setup-agent.ts:65-68 | the corrected key step keeps a rewrite-stable text stable, when the key holds no `LETTA_AGENT_ID=` |
| SetupAgent.UpdateOnOwnLineIdempotent | scripts/setup-agent.ts:58-68 | the corrected update run twice with the same id and key changes nothing the second time, when the id is one line and the key holds no `LETTA_AGENT_ID=` |
| SetupAgent.KeyStepsAgree | scripts/setup-agent.ts:65-68 | on content that is empty or ends a line, the key step as written equals the corrected one |
| SetupAgent.AsWrittenAgreesWhenLineEnded | scripts/setup-agent.ts:58-68 | the update as written equals the corrected one when the old content is empty, ends a line, or has no assignment |
| SetupAgent.AsWrittenIdempotentWhenLineEnded | scripts/setup-agent.ts:58-68 | on such content the update as written is idempotent |
| SetupAgent.GlueFirstRun | scripts/setup-agent.ts:58-68 | as written, content `LETTA_AGENT_ID=` with no line end becomes `LETTA_AGENT_ID=aLETTA_API_KEY=k` plus a line feed: the key is glued onto the agent line |
| SetupAgent.AsWrittenNotIdempotent | scripts/setup-agent.ts:58-68 | as written, a second run on that result changes it |
| MainChat.ErrorText | components/ui/main-chat.tsx:44 | a thrown `Error` gives its own message; any other thrown value gives `An error occurred` |
| MainChat.DisplayedMessages | components/ui/main-chat.tsx:59-60 | the list shown is never longer than the conversation and holds only user and assistant messages |
| MainChat.DisplayedMessagesMembers | components/ui/main-chat.tsx:59-60 | a message is shown exactly when it is in the conversation and has role user or assistant |
| MainChat.DisplayedMessagesAppend | components/ui/main-chat.tsx:59-60 | the filter works message by message, so filtering a concatenation concatenates the filtered parts and keeps the order |
| MainChat.DisplayedMessagesKeepsConversation | components/ui/main-chat.tsx:59-60 | a conversation of user and assistant messages is shown whole and unchanged |
| MainChat.DisplayedMessagesIdempotent | components/ui/main-chat.tsx:59-60 | filtering twice is filtering once |
| MainChat.Control | components/ui/main-chat.tsx:148-167 | a stop control is offered exactly while loading; otherwise the send button is enabled exactly when the trimmed input is non-empty |
| MainChat.EnterSubmits | components/ui/main-chat.tsx:130-136 | defines the Enter guard: key `Enter`, no Shift, not loading, input not blank after trimming |
| MainChat.NewChatShown | components/ui/main-chat.tsx:77 | defines when the New Chat button is shown: the conversation is not empty |
| MainChat.WelcomeShown | components/ui/main-chat.tsx:93 | defines when the welcome screen is shown: the conversation is empty |
| MainChat.ErrorShown | components/ui/main-chat.tsx:175 | defines when the error banner is shown: an error is set and not the empty string |
| MainChat.ShiftEnterNeverSubmits | components/ui/main-chat.tsx:130-136 | Shift+Enter never submits |
| MainChat.EnterMatchesSendButton | components/ui/main-chat.tsx:130-167 | Enter submits exactly when the send button is offered and enabled |
| MainChat.BlankInputNeverSubmits | components/ui/main-chat.tsx:130-167 | whitespace-only input neither submits on Enter nor enables the send button |
| MainChat.NewChatOrWelcome | components/ui/main-chat.tsx:77-93 | exactly one of the New Chat button and the welcome screen is shown |
| MainChat.RejectedSubmitError | components/ui/main-chat.tsx:175 | after a rejected submit the error banner shows unless the thrown `Error` had an empty message |
| MainChat.ChatSession.constructor | components/ui/main-chat.tsx:25-29 | a new page starts with no messages, empty input, no error and not loading |
| MainChat.ChatSession.ResetChat | components/ui/main-chat.tsx:32-37 | messages, input and error are cleared; the `onNewChat` callback is counted once exactly when the page has one; the welcome screen shows and the error banner does not |
| MainChat.ChatSession.OnSubmit | components/ui/main-chat.tsx:39-46 | the error is cleared and the hook is handed the current input, which is recorded as sent; the page takes the hook's messages and loading flag, keeps the input unless the hook set it, and a rejection sets the error to `ErrorText` of the thrown value |
| MainChat.ChatSession.OnKeyDown | components/ui/main-chat.tsx:130-136 | submits the current input exactly when Enter without Shift is pressed while not loading with non-blank input; otherwise nothing changes |
| MainChat.ChatSession.ClickSend | components/ui/main-chat.tsx:159-166 | submits the current input exactly when the send button is offered and enabled; otherwise nothing changes |
| MainChat.ChatSession.ClickNewChat | components/ui/main-chat.tsx:77-79 | resets exactly when the button is shown (a conversation exists); the messages are empty afterwards either way |
| MainChat.ChatSession.ClickSuggestion | components/ui/main-chat.tsx:48-56 | as written: on the welcome screen and not loading, the hook is handed the input from before the click, not the suggestion; the new state is the hook's outcome for that input, with the suggestion left in the box unless the hook sets the input; a rejection is not captured, so the error is never changed |
| MainChat.ChatSession.ClickSuggestionSubmitting | components/ui/main-chat.tsx:48-56 | as evidently intended: the same guard, but the hook is handed the suggestion itself, and the new state is the hook's outcome for the suggestion |
| MainChat.SuggestionClickAsWritten | components/ui/main-chat.tsx:48-56 | on a fresh page, with a hook that ignores an empty input, clicking `hi` as written sends the empty input, adds no message and leaves `hi` in the box |
| MainChat.SuggestionClickSubmitting | components/ui/main-chat.tsx:48-56 | the same click with the corrected handler sends `hi`, which becomes the one user message, and the box is cleared |

## Left out

- The streaming itself is not modelled: `streamText`, `lettaCloud` and `toDataStreamResponse` in the endpoint, and `useChat`'s request, `stop` and input handling in the page. What starting the stream does is an input of `ChatRoute.Post`. What the hook's `handleSubmit` leaves behind (messages, input, loading flag, a thrown value) is given to the submitting `ChatSession` methods as a function of the input submitted.
- Reading the request body is an input of the model (a thrown value or the `messages` field), and so is the `LETTA_AGENT_ID` setting. Console logging is left out.
- Markdown rendering (ReactMarkdown, remark-gfm, the syntax highlighter) and all styling are left out. Only the two string helpers of the code renderer are modelled.
- Clipboard copy, timers, `toLocaleTimeString` and the `createdAt: new Date()` stamp on displayed messages are left out. `MainChat.DisplayedMessages` models the role filter only.
- The agent-setup script's client calls, file reads and writes, `process.exit` and the smoke test are left out. The file content is an input of the update.
- The view-only components (enhanced chat list, sidebar, suggestion buttons, page and layout) are not part of this model. From the suggestion buttons, only their being disabled while loading appears, as a guard of `ClickSuggestion`.
- `convertToMarkdown` is not idempotent: a fenced paragraph still spans more than two lines and matches a code pattern, so a second pass fences it again. No idempotence is claimed.
- React state updates are modelled as they are seen by the handlers of one render: a handler's `setInput` is visible to later renders only, so `handleSubmit` sees the input from before the click. What the hook does with an empty input is not visible in this code; it is up to the hook parameter.
- Text is a sequence of Unicode scalar values. JavaScript strings are sequences of UTF-16 code units, so lone surrogates cannot be represented, and a character outside the Basic Multilingual Plane counts as one character here where JavaScript counts two code units.
- Posted entries are modelled as either falsy or a role and content string. Entries with non-string roles or contents are not modelled.
- SetupAgent.SetAgentId: does not model the `$` substitution patterns (`$&`, `$1` and others) that `String.prototype.replace` expands in the replacement text. An agent id containing `$` is therefore outside the model, and the idempotence lemmas further require a one-line id.
- SetupAgent.UpdateOnOwnLineIdempotent: requires that the key holds no `LETTA_AGENT_ID=`, because such a key line would itself be rewritten by the next run.

## Findings

| source | as written | input that shows it | evidently intended | confidence | as-written member | corrected member |
|---|---|---|---|---|---|---|
| scripts/setup-agent.ts:58-68 | the API key line is appended directly after the content left by the id step, so when that content does not end in a line feed, the key is glued onto the last line | a `.env.local` holding `LETTA_AGENT_ID=` with no final line feed, with id `a` and key `k`: the first run writes `LETTA_AGENT_ID=aLETTA_API_KEY=k` plus a line feed (the agent id now reads `aLETTA_API_KEY=k`); a second run writes `LETTA_AGENT_ID=a`, line feed, `LETTA_API_KEY=k`, line feed, so the update is not idempotent | the key line starts on a line of its own (a line feed is added first when the content does not end a line), and running the update twice changes nothing | high (not executed) | SetupAgent.AsWrittenNotIdempotent | SetupAgent.UpdateOnOwnLineIdempotent |
| components/ui/main-chat.tsx:48-56 | a suggestion click calls `setInput(suggestion)` and then the `handleSubmit` of the same render, which still sees the input from before the click; the synthetic event's `target.elements.message.value` is not where the hook reads the input (the textarea at lines 125-138 has no `name`, and ordinary submits work) | on the welcome screen with an empty input box, click a suggestion: the hook is handed the empty input, so the suggestion is not sent and stays in the box; with text already typed, that text is sent instead | the suggestion itself is submitted | plausible (not executed; the hook's own handling of an empty input is outside this code) | MainChat.SuggestionClickAsWritten | MainChat.ChatSession.ClickSuggestionSubmitting |
